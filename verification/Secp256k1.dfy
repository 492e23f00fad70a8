/** The relay's own short-Weierstrass curve y^2 = x^3 + b over F_p, a = 0. */
module Secp256k1 {
  import opened Bytes
  import opened NumberTheory

  /** Affine coordinates; (0, 0) stands for the point at infinity. */
  datatype Point = Point(x: nat, y: nat)

  const INFINITY := Point(0, 0)

  datatype Curve = Curve(p: nat, n: nat, b: nat, g: Point)

  const SECP256K1 := Curve(
    0xFFFFFFFF_FFFFFFFF_FFFFFFFF_FFFFFFFF_FFFFFFFF_FFFFFFFF_FFFFFFFE_FFFFFC2F,
    0xFFFFFFFF_FFFFFFFF_FFFFFFFF_FFFFFFFE_BAAEDCE6_AF48A03B_BFD25E8C_D0364141,
    7,
    Point(0x79BE667E_F9DCBBAC_55A06295_CE870B07_029BFCDB_2DCE28D9_59F2815B_16F81798,
          0x483ADA77_26A3C465_5DA4FBFC_0E1108A8_FD17B448_A6855419_9C47D08F_FB10D4B8))

  function Rhs(c: Curve, x: int): int { x * x * x + c.b }

  predicate OnCurve(c: Curve, q: Point)
    requires c.p > 0
  {
    q.x < c.p && q.y < c.p && Cong(q.y * q.y, Rhs(c, q.x), c.p)
  }

  /** A reduced point of the group: on the curve, or infinity. */
  predicate IsPoint(c: Curve, q: Point)
    requires c.p > 0
  {
    q == INFINITY || OnCurve(c, q)
  }

  /** What is assumed of the field and the equation: p is prime and 3 mod 4, (0, 0) is not on the
      curve, and no point has y = 0 (the group order is odd). */
  ghost predicate ValidCurve(c: Curve) {
    && IsPrime(c.p) && c.p % 4 == 3
    && !Divides(c.p, c.b)
    && forall x: nat | x < c.p :: !Divides(c.p, Rhs(c, x))
  }

  /** The published constants: p is 3 mod 4, the generator is on the curve with an even y and x < n,
      and n < p < 2^256 < 2n. */
  lemma Secp256k1Constants()
    ensures SECP256K1.p % 4 == 3 && OnCurve(SECP256K1, SECP256K1.g)
    ensures SECP256K1.g.x < SECP256K1.n && SECP256K1.g.y % 2 == 0
    ensures SECP256K1.n % 2 == 1 && SECP256K1.n < SECP256K1.p < WORD < 2 * SECP256K1.n
  {
    var g, p := SECP256K1.g, SECP256K1.p;
    WordBaseValue();
    assert g.y * g.y - Rhs(SECP256K1, g.x) == ((g.y * g.y - Rhs(SECP256K1, g.x)) / p) * p;
    DividesWitness(p, g.y * g.y - Rhs(SECP256K1, g.x), (g.y * g.y - Rhs(SECP256K1, g.x)) / p);
  }

  // --- The chord and tangent formulas ------------------------------------------

  /** Third intersection of the line of slope s through (x1, y1), reflected. */
  function Reflect(p: nat, s: int, x1: int, x2: int, y1: int): Point
    requires p > 0
  {
    var x3 := (s * s - x1 - x2) % p;
    Point(x3, (s * (x1 - x3) - y1) % p)
  }

  predicate SumDefined(c: Curve, a: Point, b: Point)
    requires c.p > 1
  {
    a == INFINITY || b == INFINITY ||
    if a.x != b.x then ModInverse((b.x - a.x) % c.p, c.p).Some?
    else a.y == b.y ==> ModInverse((2 * a.y) % c.p, c.p).Some?
  }

  function TwiceSlope(c: Curve, a: Point): int
    requires c.p > 1 && ModInverse((2 * a.y) % c.p, c.p).Some?
  {
    (3 * (a.x * a.x)) * ModInverse((2 * a.y) % c.p, c.p).value
  }

  function ChordSlope(c: Curve, a: Point, b: Point): int
    requires c.p > 1 && ModInverse((b.x - a.x) % c.p, c.p).Some?
  {
    (b.y - a.y) * ModInverse((b.x - a.x) % c.p, c.p).value
  }

  function Twice(c: Curve, a: Point): Point
    requires c.p > 1 && ModInverse((2 * a.y) % c.p, c.p).Some?
  {
    Reflect(c.p, TwiceSlope(c, a) % c.p, a.x, a.x, a.y)
  }

  function Sum(c: Curve, a: Point, b: Point): Point
    requires c.p > 1 && SumDefined(c, a, b)
  {
    if a == INFINITY then b
    else if b == INFINITY then a
    else if a.x != b.x then Reflect(c.p, ChordSlope(c, a, b) % c.p, a.x, b.x, a.y)
    else if a.y == b.y then Twice(c, a)
    else INFINITY
  }

  /** None where `ModInverse` finds no inverse, at which the program stops on the nil result. */
  function TryTwice(c: Curve, a: Point): Option<Point>
    requires c.p > 1
  {
    if ModInverse((2 * a.y) % c.p, c.p).Some? then Some(Twice(c, a)) else None
  }

  function TrySum(c: Curve, a: Point, b: Point): Option<Point>
    requires c.p > 1
  {
    if SumDefined(c, a, b) then Some(Sum(c, a, b)) else None
  }

  lemma ModMul(a: int, b: int, p: nat)
    requires p > 0
    ensures ((a % p) * b) % p == (a * b) % p
  {
    ModCong(a, p);
    assert Cong(b, b, p);
    CongProduct(a % p, a, b, b, p);
    CongIffSameMod((a % p) * b, a * b, p);
  }

  /** 3*x^2 / (2*y) mod p. */
  method TangentSlopeAt(c: Curve, a: Point) returns (s: int)
    requires c.p > 1 && ModInverse((2 * a.y) % c.p, c.p).Some?
    ensures s == TwiceSlope(c, a) % c.p
  {
    hide ModInverse;
    var num := a.x * a.x;
    num := num % c.p;
    num := 3 * num;
    num := num % c.p;
    var den := (2 * a.y) % c.p;
    var denInv := ModInverse(den, c.p).value;
    s := num * denInv;
    s := s % c.p;
    ModMul(a.x * a.x, 3, c.p);
    ModMul(3 * (a.x * a.x), denInv, c.p);
  }

  /** (y2 - y1) / (x2 - x1) mod p. */
  method ChordSlopeAt(c: Curve, a: Point, b: Point) returns (s: int)
    requires c.p > 1 && ModInverse((b.x - a.x) % c.p, c.p).Some?
    ensures s == ChordSlope(c, a, b) % c.p
  {
    hide ModInverse;
    var dy := b.y - a.y;
    dy := dy % c.p;
    var dx := b.x - a.x;
    dx := dx % c.p;
    var dxInv := ModInverse(dx, c.p).value;
    s := dy * dxInv;
    s := s % c.p;
    ModMul(b.y - a.y, dxInv, c.p);
  }

  /** x3 = s^2 - x1 - x2 and y3 = s*(x1 - x3) - y1, both mod p. */
  method ThirdPoint(p: nat, s: int, x1: int, x2: int, y1: int) returns (r: Point)
    requires p > 0
    ensures r == Reflect(p, s, x1, x2, y1)
  {
    var x3 := s * s;
    x3 := x3 - x1;
    x3 := x3 - x2;
    x3 := x3 % p;
    var y3 := x1 - x3;
    y3 := y3 * s;
    y3 := y3 - y1;
    y3 := y3 % p;
    r := Point(x3, y3);
  }

  method Double(c: Curve, a: Point) returns (r: Option<Point>)
    requires c.p > 1
    ensures r == TryTwice(c, a)
  {
    hide ModInverse;
    if ModInverse((2 * a.y) % c.p, c.p).None? { return None; }
    var s := TangentSlopeAt(c, a);
    var third := ThirdPoint(c.p, s, a.x, a.x, a.y);
    return Some(third);
  }

  method Add(c: Curve, a: Point, b: Point) returns (r: Option<Point>)
    requires c.p > 1
    ensures r == TrySum(c, a, b)
  {
    hide ModInverse;
    if a.x == 0 && a.y == 0 { return Some(b); }
    if b.x == 0 && b.y == 0 { return Some(a); }
    if a.x == b.x {
      if a.y == b.y {
        r := Double(c, a);
        return;
      }
      return Some(Point(0, 0));
    }
    if ModInverse((b.x - a.x) % c.p, c.p).None? { return None; }
    var s := ChordSlopeAt(c, a, b);
    var third := ThirdPoint(c.p, s, a.x, b.x, a.y);
    return Some(third);
  }

  // --- Closure -------------------------------------------------------------------

  /** The cubic minus the squared line of slope s through (x1, y1), at t. */
  function Gap(b: int, s: int, x1: int, y1: int, t: int): int {
    t * t * t + b - (s * (t - x1) + y1) * (s * (t - x1) + y1)
  }

  /** The slope of what is left of Gap when the three roots are taken out. */
  function Residue(s: int, x1: int, y1: int, x2: int): int {
    x1 * x1 + x1 * x2 + x2 * x2 - s * (s * (x2 - x1) + 2 * y1)
  }

  /** The polynomial identity behind both formulas. */
  lemma GapIdentity(b: int, s: int, x1: int, y1: int, x2: int, t: int)
    ensures Gap(b, s, x1, y1, t) - Gap(b, s, x1, y1, x1)
         == (t - x1) * ((t - x2) * (t - (s * s - x1 - x2)) + Residue(s, x1, y1, x2))
  {
    hide Residue;
    var u, q := t - x1, t * t + t * x1 + x1 * x1;
    var m := s * u + 2 * y1;
    CubeDifference(t, x1);
    SquareGrowth(s * u, y1);
    QuotientIdentity(s, x1, y1, x2, t);
    assert s * (x1 - x1) + y1 == y1;
    FactorOut(t * t * t - x1 * x1 * x1, (s * u + y1) * (s * u + y1) - y1 * y1, u, q, s, m,
              (t - x2) * (t - (s * s - x1 - x2)) + Residue(s, x1, y1, x2));
  }

  lemma FactorOut(cubes: int, squares: int, u: int, q: int, s: int, m: int, r: int)
    requires cubes == u * q && squares == (s * u) * m && q - s * m == r
    ensures cubes - squares == u * r
  {
    assert (s * u) * m == u * (s * m);
  }

  lemma CubeDifference(t: int, x: int)
    ensures t * t * t - x * x * x == (t - x) * (t * t + t * x + x * x)
  {}

  lemma SquareGrowth(a: int, y: int)
    ensures (a + y) * (a + y) - y * y == a * (a + 2 * y)
  {}

  lemma QuotientIdentity(s: int, x1: int, y1: int, x2: int, t: int)
    ensures t * t + t * x1 + x1 * x1 - s * (s * (t - x1) + 2 * y1)
         == (t - x2) * (t - (s * s - x1 - x2)) + Residue(s, x1, y1, x2)
  {}

  /** A line meeting the curve at x1 (and with a zero residue) meets it again where Reflect says;
      the reflected point is on the curve, and reflecting it back lands on the line. */
  lemma ReflectOnCurve(p: nat, b: int, s: int, x1: int, y1: int, x2: int)
    requires p > 0 && Cong(y1 * y1, x1 * x1 * x1 + b, p) && Divides(p, Residue(s, x1, y1, x2))
    ensures var r := Reflect(p, s, x1, x2, y1);
      && r.x < p && r.y < p
      && Cong(r.y * r.y, r.x * r.x * r.x + b, p)
      && Cong(0 - r.y, s * (r.x - x1) + y1, p)
      && Cong(r.x, s * s - x1 - x2, p)
  {
    var r := Reflect(p, s, x1, x2, y1);
    var line := s * (r.x - x1) + y1;
    ModCong(s * s - x1 - x2, p);
    ModCong(s * (x1 - r.x) - y1, p);
    assert s * (x1 - r.x) - y1 == 0 - line by { assert s * (x1 - r.x) == -(s * (r.x - x1)); }
    NegCong(r.y, line, p);
    ReflectGap(p, b, s, x1, y1, x2, r.x);
    LineSquared(p, b, line, r.x, r.y);
  }

  lemma LineSquared(p: nat, b: int, line: int, x: int, y: int)
    requires p > 0 && Cong(0 - y, line, p) && Divides(p, x * x * x + b - line * line)
    ensures Cong(y * y, x * x * x + b, p)
  {
    CongProduct(0 - y, line, 0 - y, line, p);
    assert (0 - y) * (0 - y) == y * y;
    DividesSum(p, y * y - line * line, x * x * x + b - line * line);
  }

  lemma NegCong(a: int, b: int, p: nat)
    requires p > 0 && Cong(a, 0 - b, p)
    ensures Cong(0 - a, b, p)
  {
    DividesProduct(p, a - (0 - b), -1);
    assert (a - (0 - b)) * -1 == 0 - a - b;
  }

  lemma ReflectGap(p: nat, b: int, s: int, x1: int, y1: int, x2: int, x3: int)
    requires p > 0 && Cong(y1 * y1, x1 * x1 * x1 + b, p) && Divides(p, Residue(s, x1, y1, x2))
    requires Cong(x3, s * s - x1 - x2, p)
    ensures Divides(p, Gap(b, s, x1, y1, x3))
  {
    var d := x3 - (s * s - x1 - x2);
    var e := Residue(s, x1, y1, x2);
    DividesProduct(p, d, x3 - x2);
    DividesSum(p, (x3 - x2) * d, e);
    DividesProduct(p, (x3 - x2) * d + e, x3 - x1);
    GapIdentity(b, s, x1, y1, x2, x3);
    assert Gap(b, s, x1, y1, x1) == x1 * x1 * x1 + b - y1 * y1;
    CongSymmetric(y1 * y1, x1 * x1 * x1 + b, p);
    DividesSum(p, Gap(b, s, x1, y1, x1), (x3 - x1) * ((x3 - x2) * d + e));
  }

  /** Slope of the tangent: 2*y*s = 3*x^2. */
  lemma TwiceSlopeEquation(c: Curve, a: Point)
    requires c.p > 1 && ModInverse((2 * a.y) % c.p, c.p).Some?
    ensures Cong((TwiceSlope(c, a) % c.p) * (2 * a.y), 3 * (a.x * a.x), c.p)
  {
    SlopeEquation(3 * (a.x * a.x), 2 * a.y, c.p);
  }

  /** Slope of the chord: s*(x2 - x1) = y2 - y1. */
  lemma ChordSlopeEquation(c: Curve, a: Point, b: Point)
    requires c.p > 1 && ModInverse((b.x - a.x) % c.p, c.p).Some?
    ensures Cong((ChordSlope(c, a, b) % c.p) * (b.x - a.x), b.y - a.y, c.p)
  {
    SlopeEquation(b.y - a.y, b.x - a.x, c.p);
  }

  lemma SlopeEquation(num: int, den: int, p: nat)
    requires p > 1 && ModInverse(den % p, p).Some?
    ensures Cong(((num * ModInverse(den % p, p).value) % p) * den, num, p)
  {
    var i := ModInverse(den % p, p).value;
    ModInverseCorrect(den % p, p);
    ModCong(den, p);
    ModCong(num * i, p);
    CongSelf(i, p);
    CongSelf(den, p);
    CongSelf(num, p);
    SlopeSteps(num, den, den % p, i, (num * i) % p, p);
  }

  lemma SlopeSteps(num: int, den: int, d: int, i: int, s: int, p: nat)
    requires p > 1 && Cong(den, d, p) && Cong(d * i, 1, p) && Cong(s, num * i, p)
    requires Cong(i, i, p) && Cong(den, den, p) && Cong(num, num, p)
    ensures Cong(s * den, num, p)
  {
    hide Cong;
    CongProduct(den, d, i, i, p);
    CongTransitive(den * i, d * i, 1, p);
    CongProduct(s, num * i, den, den, p);
    CongProduct(num, num, den * i, 1, p);
    assert (num * i) * den == num * (den * i);
    CongTransitive(s * den, num * (den * i), num, p);
  }

  lemma TangentResidue(p: nat, s: int, x: int, y: int)
    requires p > 0 && Cong(s * (2 * y), 3 * (x * x), p)
    ensures Divides(p, Residue(s, x, y, x))
  {
    CongSymmetric(s * (2 * y), 3 * (x * x), p);
    assert Residue(s, x, y, x) == 3 * (x * x) - s * (2 * y);
  }

  lemma ChordResidue(p: nat, b: int, s: int, x1: int, y1: int, x2: int, y2: int, i: int)
    requires p > 0 && Cong(s * (x2 - x1), y2 - y1, p) && Cong((x2 - x1) * i, 1, p)
    requires Cong(y1 * y1, x1 * x1 * x1 + b, p) && Cong(y2 * y2, x2 * x2 * x2 + b, p)
    ensures Divides(p, Residue(s, x1, y1, x2))
  {
    var h := s * (x2 - x1) - (y2 - y1);
    // the line passes through (x2, y2) up to h, so Gap vanishes at x2
    var line := s * (x2 - x1) + y1;
    assert line == y2 + h;
    DividesProduct(p, h, 2 * y2 + h);
    assert line * line - y2 * y2 == h * (2 * y2 + h);
    var e1, e2 := y1 * y1 - (x1 * x1 * x1 + b), y2 * y2 - (x2 * x2 * x2 + b);
    DividesSum(p, e1, e2);
    DividesSum(p, e1 - e2, line * line - y2 * y2);
    ResidueIdentity(b, s, x1, y1, x2);
    assert Residue(s, x1, y1, x2) * (x2 - x1) == (e1 - e2) - (line * line - y2 * y2);
    CancelInverse(p, Residue(s, x1, y1, x2), x2 - x1, i);
  }

  lemma ResidueIdentity(b: int, s: int, x1: int, y1: int, x2: int)
    ensures Residue(s, x1, y1, x2) * (x2 - x1)
         == Gap(b, s, x1, y1, x2) - (x1 * x1 * x1 + b - y1 * y1)
  {
    GapIdentity(b, s, x1, y1, x2, x2);
    assert s * (x1 - x1) + y1 == y1;
    hide Residue;
  }

  /** A line of slope s through a, meeting the reflection of r, when a and b are its other
      two intersections with the curve. */
  ghost predicate LineThrough(c: Curve, s: int, a: Point, b: Point, r: Point)
    requires c.p > 0
  {
    && Cong(r.x, s * s - a.x - b.x, c.p)
    && Cong(0 - r.y, s * (r.x - a.x) + a.y, c.p)
  }

  ghost predicate TangentSlope(c: Curve, s: int, a: Point)
    requires c.p > 0
  {
    Cong(s * (2 * a.y), 3 * (a.x * a.x), c.p)
  }

  ghost predicate SecantSlope(c: Curve, s: int, a: Point, b: Point)
    requires c.p > 0
  {
    Cong(s * (b.x - a.x), b.y - a.y, c.p)
  }

  /** Doubling stays on the curve and is the tangent construction. */
  lemma TwiceOnCurve(c: Curve, a: Point)
    requires c.p > 1 && OnCurve(c, a) && ModInverse((2 * a.y) % c.p, c.p).Some?
    ensures OnCurve(c, Twice(c, a))
    ensures exists s: int :: TangentSlope(c, s, a) && LineThrough(c, s, a, a, Twice(c, a))
  {
    var s := TwiceSlope(c, a) % c.p;
    TwiceSlopeEquation(c, a);
    TangentResidue(c.p, s, a.x, a.y);
    ReflectOnCurve(c.p, c.b, s, a.x, a.y, a.x);
    assert TangentSlope(c, s, a);
    assert LineThrough(c, s, a, a, Reflect(c.p, s, a.x, a.x, a.y));
  }

  lemma SecantInverse(a: int, p: nat)
    requires p > 1 && ModInverse(a % p, p).Some?
    ensures Cong(a * ModInverse(a % p, p).value, 1, p)
  {
    var i := ModInverse(a % p, p).value;
    ModInverseCorrect(a % p, p);
    ModCong(a, p);
    assert Cong(i, i, p);
    CongProduct(a, a % p, i, i, p);
    CongTransitive(a * i, (a % p) * i, 1, p);
  }

  /** Adding points with different x stays on the curve and is the chord construction. */
  lemma ChordOnCurve(c: Curve, a: Point, b: Point)
    requires c.p > 1 && OnCurve(c, a) && OnCurve(c, b) && a.x != b.x && SumDefined(c, a, b)
    requires a != INFINITY && b != INFINITY
    ensures OnCurve(c, Sum(c, a, b))
    ensures exists s: int :: SecantSlope(c, s, a, b) && LineThrough(c, s, a, b, Sum(c, a, b))
  {
    var s := ChordSlope(c, a, b) % c.p;
    ChordSlopeEquation(c, a, b);
    SecantInverse(b.x - a.x, c.p);
    ChordResidue(c.p, c.b, s, a.x, a.y, b.x, b.y, ModInverse((b.x - a.x) % c.p, c.p).value);
    ReflectOnCurve(c.p, c.b, s, a.x, a.y, b.x);
    assert SecantSlope(c, s, a, b);
    assert LineThrough(c, s, a, b, Reflect(c.p, s, a.x, b.x, a.y));
  }
}
