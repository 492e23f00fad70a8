/** Scalar multiplication and point decompression on the relay's curve, and the group facts
    that signing rests on. */
module CurveGroup {
  import opened Bytes
  import opened NumberTheory
  import opened Secp256k1

  // --- The curve as a closed addition ------------------------------------------

  lemma DistinctInvertible(c: Curve, d: int)
    requires IsPrime(c.p) && d != 0 && d < c.p && 0 - d < c.p
    ensures ModInverse(d % c.p, c.p).Some?
  {
    if d % c.p == 0 { SmallMultipleIsZero(d / c.p, c.p, d); }
    assert (d % c.p) % c.p == d % c.p;
    PrimeInverse(d % c.p, c.p);
  }

  lemma TangentInvertible(c: Curve, a: Point)
    requires ValidCurve(c) && OnCurve(c, a)
    ensures ModInverse((2 * a.y) % c.p, c.p).Some?
  {
    NonzeroY(c, a);
    TwiceNonzero(c.p, a.y);
    hide ModInverse, Rhs, IsPrime;
    PrimeInverse((2 * a.y) % c.p, c.p);
  }

  /** On a valid curve `add` never needs an inverse that does not exist. */
  lemma SumIsDefined(c: Curve, a: Point, b: Point)
    requires ValidCurve(c) && IsPoint(c, a) && IsPoint(c, b)
    ensures SumDefined(c, a, b)
  {
    if a != INFINITY && b != INFINITY {
      if a.x != b.x {
        DistinctInvertible(c, b.x - a.x);
      } else if a.y == b.y {
        TangentInvertible(c, a);
      }
    }
  }

  lemma TwiceNonzero(p: nat, y: nat)
    requires p % 2 == 1 && 0 < y < p
    ensures !Divides(p, (2 * y) % p)
  {
    WrapOnce(2 * y, p);
    SmallRemainder((2 * y) % p, p);
  }

  lemma NonzeroY(c: Curve, a: Point)
    requires ValidCurve(c) && OnCurve(c, a)
    ensures 0 < a.y
  {
    if a.y == 0 {
      assert !Divides(c.p, Rhs(c, a.x));
      CongSymmetric(0, Rhs(c, a.x), c.p);
    }
  }

  lemma InfinityOffCurve(c: Curve)
    requires ValidCurve(c)
    ensures !OnCurve(c, INFINITY)
  {
    if OnCurve(c, INFINITY) { NonzeroY(c, INFINITY); }
  }

  /** `add` maps points to points. */
  lemma SumIsPoint(c: Curve, a: Point, b: Point)
    requires ValidCurve(c) && IsPoint(c, a) && IsPoint(c, b)
    ensures SumDefined(c, a, b) && IsPoint(c, Sum(c, a, b))
  {
    SumIsDefined(c, a, b);
    if a != INFINITY && b != INFINITY {
      if a.x != b.x {
        ChordOnCurve(c, a, b);
      } else if a.y == b.y {
        TwiceOnCurve(c, a);
      }
    }
  }


  /** The reflection of a point, as recovery computes it. */
  function Negate(c: Curve, a: Point): Point
    requires a.y <= c.p
  {
    Point(a.x, c.p - a.y)
  }

  /** A reflected point is on the curve and cancels the original. */
  lemma NegateCancels(c: Curve, a: Point)
    requires ValidCurve(c) && OnCurve(c, a)
    ensures OnCurve(c, Negate(c, a)) && a != INFINITY && Negate(c, a) != INFINITY
    ensures SumDefined(c, a, Negate(c, a)) && Sum(c, a, Negate(c, a)) == INFINITY
  {
    NonzeroY(c, a);
    NegatedRoot(c.p, a.y, Rhs(c, a.x));
    assert c.p % 2 == 1;
    hide ModInverse, Rhs, IsPrime, TwiceSlope, ChordSlope;
  }

  lemma NegatedRoot(p: nat, y: int, v: int)
    requires p > 0 && Cong(y * y, v, p)
    ensures Cong((p - y) * (p - y), v, p)
  {
    assert (p - y) * (p - y) - y * y == (p - 2 * y) * p;
    DividesWitness(p, (p - y) * (p - y) - y * y, p - 2 * y);
    CongTransitive((p - y) * (p - y), y * y, v, p);
  }

  // --- Repeated addition ---------------------------------------------------------

  /** k-fold sum of a. */
  ghost function Mul(c: Curve, k: nat, a: Point): (r: Point)
    requires ValidCurve(c) && IsPoint(c, a)
    ensures IsPoint(c, r)
  {
    if k == 0 then INFINITY
    else
      var q := Mul(c, k - 1, a);
      SumIsPoint(c, q, a);
      Sum(c, q, a)
  }

  ghost predicate AssociativeAt(c: Curve, x: Point, y: Point, z: Point)
    requires ValidCurve(c)
  {
    IsPoint(c, x) && IsPoint(c, y) && IsPoint(c, z) ==>
      (SumIsPoint(c, x, y); SumIsPoint(c, y, z);
       SumIsPoint(c, Sum(c, x, y), z); SumIsPoint(c, x, Sum(c, y, z));
       Sum(c, Sum(c, x, y), z) == Sum(c, x, Sum(c, y, z)))
  }

  /** The group laws that are assumed: `add` is associative, and n, a prime, kills every point. */
  ghost predicate Associative(c: Curve)
    requires ValidCurve(c)
  {
    forall x, y, z :: AssociativeAt(c, x, y, z)
  }

  ghost predicate OrderKills(c: Curve, a: Point)
    requires ValidCurve(c)
  {
    IsPoint(c, a) ==> Mul(c, c.n, a) == INFINITY
  }

  ghost predicate PrimeOrderGroup(c: Curve) {
    && ValidCurve(c) && Associative(c)
    && IsPrime(c.n)
    && OnCurve(c, c.g)
    && forall a :: OrderKills(c, a)
  }

  lemma {:induction false} MulAdd(c: Curve, i: nat, j: nat, a: Point)
    requires ValidCurve(c) && Associative(c) && IsPoint(c, a)
    ensures SumDefined(c, Mul(c, i, a), Mul(c, j, a))
    ensures Mul(c, i + j, a) == Sum(c, Mul(c, i, a), Mul(c, j, a))
  {
    SumIsPoint(c, Mul(c, i, a), Mul(c, j, a));
    if j == 0 {
      assert Mul(c, 0, a) == INFINITY;
    } else {
      hide Sum, SumDefined, OnCurve, IsPoint, ValidCurve, Associative;
      MulAdd(c, i, j - 1, a);
      SumIsPoint(c, Mul(c, i + j - 1, a), a);
      assert AssociativeAt(c, Mul(c, i, a), Mul(c, j - 1, a), a);
      assert Mul(c, i + j, a) == Sum(c, Mul(c, i + j - 1, a), a);
    }
  }

  lemma {:induction false} MulInfinity(c: Curve, k: nat)
    requires ValidCurve(c)
    ensures Mul(c, k, INFINITY) == INFINITY
  {
    if k > 0 { MulInfinity(c, k - 1); }
  }

  lemma {:induction false} MulMul(c: Curve, i: nat, j: nat, a: Point)
    requires ValidCurve(c) && Associative(c) && IsPoint(c, a)
    ensures Mul(c, i, Mul(c, j, a)) == Mul(c, i * j, a)
  {
    if i > 0 {
      MulMul(c, i - 1, j, a);
      MulAdd(c, (i - 1) * j, j, a);
      assert (i - 1) * j + j == i * j;
    }
  }

  lemma SumInfinity(c: Curve, a: Point)
    requires c.p > 1
    ensures SumDefined(c, INFINITY, a) && Sum(c, INFINITY, a) == a
  {}

  /** Scalars count modulo n. */
  lemma MulMod(c: Curve, k: nat, a: Point)
    requires PrimeOrderGroup(c) && IsPoint(c, a)
    ensures Mul(c, k, a) == Mul(c, k % c.n, a)
  {
    hide Sum, SumDefined, Associative;
    var q := k / c.n;
    assert k == q * c.n + k % c.n;
    assert OrderKills(c, a);
    hide IsPrime, Mul, OnCurve;
    MulAdd(c, q * c.n, k % c.n, a);
    MulMul(c, q, c.n, a);
    MulInfinity(c, q);
    SumInfinity(c, Mul(c, k % c.n, a));
  }

  lemma MulOne(c: Curve, a: Point)
    requires ValidCurve(c) && IsPoint(c, a)
    ensures Mul(c, 1, a) == a
  {
    assert Mul(c, 0, a) == INFINITY;
  }

  lemma InverseScalar(k: nat, n: nat) returns (i: nat)
    requires IsPrime(n) && k % n != 0
    ensures (i * k) % n == 1
  {
    hide ModInverse;
    PrimeInverse(k, n);
    i := ModInverse(k, n).value;
    UnitRemainder(n, i * k);
  }

  lemma UnitRemainder(n: nat, a: int)
    requires n > 1 && Cong(a, 1, n)
    ensures a % n == 1
  {
    CongIffSameMod(a, 1, n);
  }

  lemma MulCancels(c: Curve, k: nat, a: Point)
    requires PrimeOrderGroup(c) && OnCurve(c, a) && k % c.n != 0
    ensures Mul(c, k, a) != INFINITY
  {
    hide Sum, SumDefined, Mul;
    var i := InverseScalar(k, c.n);
    MulMul(c, i, k, a);
    MulInfinity(c, i);
    MulMod(c, i * k, a);
    MulOne(c, a);
    InfinityOffCurve(c);
  }

  /** A multiple of a curve point is infinity exactly when n divides the scalar. */
  lemma MulZeroIff(c: Curve, k: nat, a: Point)
    requires PrimeOrderGroup(c) && OnCurve(c, a)
    ensures Mul(c, k, a) == INFINITY <==> k % c.n == 0
  {
    hide Sum, SumDefined;
    if k % c.n != 0 {
      MulCancels(c, k, a);
    } else {
      MulMod(c, k, a);
      assert Mul(c, 0, a) == INFINITY;
    }
  }

  lemma ComplementDivides(j: nat, n: nat)
    requires n > 0
    ensures (j + (n - j % n)) % n == 0
  {
    assert j + (n - j % n) == (j / n + 1) * n;
    ModOfMultiple(j / n + 1, n);
  }

  /** Multiples of a curve point agree exactly when the scalars agree modulo n. */
  lemma MulInjective(c: Curve, i: nat, j: nat, a: Point)
    requires PrimeOrderGroup(c) && OnCurve(c, a)
    ensures Mul(c, i, a) == Mul(c, j, a) <==> i % c.n == j % c.n
  {
    hide Sum, SumDefined, Mul;
    MulMod(c, i, a);
    MulMod(c, j, a);
    if Mul(c, i, a) == Mul(c, j, a) {
      var back := c.n - j % c.n;
      MulAdd(c, i, back, a);
      MulAdd(c, j, back, a);
      MulZeroIff(c, j + back, a);
      MulZeroIff(c, i + back, a);
      ComplementDivides(j, c.n);
      DividesSum(c.n, i + back, j + back);
      CongIffSameMod(i, j, c.n);
    }
  }

  /** The reflection of j*a is (n - j mod n)*a. */
  lemma NegateIsComplement(c: Curve, j: nat, a: Point)
    requires PrimeOrderGroup(c) && OnCurve(c, a) && j % c.n != 0
    ensures OnCurve(c, Mul(c, j, a))
    ensures Negate(c, Mul(c, j, a)) == Mul(c, c.n - j % c.n, a)
  {
    var m := Mul(c, j, a);
    MulZeroIff(c, j, a);
    NegateCancels(c, m);
    var neg, back := Negate(c, m), c.n - j % c.n;
    MulMod(c, j, a);
    MulAdd(c, back, j % c.n, a);
    assert OrderKills(c, a);
    assert Sum(c, Mul(c, back, a), m) == INFINITY;
    SumIsPoint(c, Mul(c, back, a), m);
    SumIsPoint(c, m, neg);
    assert AssociativeAt(c, Mul(c, back, a), m, neg);
  }

  // --- Double-and-add --------------------------------------------------------------

  function BitLen(k: nat): nat {
    if k == 0 then 0 else 1 + BitLen(k / 2)
  }

  /** The scalar without its i lowest bits. */
  function Prefix(k: nat, i: nat): nat {
    if i == 0 then k else Prefix(k, i - 1) / 2
  }

  function Bit(k: nat, i: nat): nat { Prefix(k, i) % 2 }

  lemma {:induction false} PrefixOfHalf(k: nat, i: nat)
    ensures Prefix(k / 2, i) == Prefix(k, i + 1)
  {
    if i > 0 { PrefixOfHalf(k, i - 1); }
  }

  lemma {:induction false} PrefixAtTop(k: nat)
    ensures Prefix(k, BitLen(k)) == 0
  {
    if k > 0 {
      PrefixAtTop(k / 2);
      PrefixOfHalf(k, BitLen(k / 2));
    }
  }

  lemma {:induction false} PrefixHalves(k: nat, i: nat)
    requires i >= 1
    ensures 2 * Prefix(k, i) <= k
  {
    if i > 1 { PrefixHalves(k, i - 1); }
  }

  /** `double` has no case for infinity: no proper bit-prefix of the scalar may reach it. */
  ghost predicate NoEarlyInfinity(c: Curve, k: nat, a: Point)
    requires ValidCurve(c) && IsPoint(c, a)
  {
    forall i: nat :: 1 <= i ==> FiniteAt(c, Prefix(k, i), a)
  }

  ghost predicate FiniteAt(c: Curve, m: nat, a: Point)
    requires ValidCurve(c) && IsPoint(c, a)
  {
    m > 0 ==> Mul(c, m, a) != INFINITY
  }

  /** Doubling a finite multiple doubles the scalar. */
  lemma MulDouble(c: Curve, m: nat, a: Point)
    requires ValidCurve(c) && Associative(c) && IsPoint(c, a) && Mul(c, m, a) != INFINITY
    ensures ModInverse((2 * Mul(c, m, a).y) % c.p, c.p).Some?
    ensures Twice(c, Mul(c, m, a)) == Mul(c, 2 * m, a)
  {
    MulAdd(c, m, m, a);
    SumIsDefined(c, Mul(c, m, a), Mul(c, m, a));
  }

  /** The double-and-add recurrence on any pair of coordinates; None where it stops. */
  function DoubleAndAdd(c: Curve, a: Point, k: nat): Option<Point>
    requires c.p > 1
  {
    if k == 0 then Some(INFINITY)
    else if k == 1 then Some(a)
    else AppendBit(c, DoubleAndAdd(c, a, k / 2), a, k % 2 == 1)
  }

  /** One round: double, and add a for a one bit. */
  function AppendBit(c: Curve, half: Option<Point>, a: Point, one: bool): Option<Point>
    requires c.p > 1
  {
    var twice := if half.None? then None else TryTwice(c, half.value);
    if twice.None? || !one then twice else TrySum(c, twice.value, a)
  }

  method ScalarMult(c: Curve, a: Point, k: seq<byte>) returns (r: Option<Point>)
    requires c.p > 1
    ensures r == DoubleAndAdd(c, a, FromBytes(k))
  {
    hide TryTwice, TrySum;
    var scalar := FromBytes(k);
    var q := INFINITY;
    var isInf := true;
    var i := BitLen(scalar) - 1;
    PrefixAtTop(scalar);
    while i >= 0
      invariant -1 <= i < BitLen(scalar)
      invariant isInf <==> Prefix(scalar, i + 1) == 0
      invariant DoubleAndAdd(c, a, Prefix(scalar, i + 1)) == Some(q)
    {
      assert Prefix(scalar, i + 1) == Prefix(scalar, i) / 2;
      ghost var m := Prefix(scalar, i);
      var stepped: Option<Point> := Some(q);
      if !isInf {
        stepped := Double(c, q);
        if stepped.None? {
          StopsFrom(c, a, scalar, i);
          return None;
        }
        q := stepped.value;
      }
      if Bit(scalar, i) == 1 {
        if isInf {
          q := a;
          isInf := false;
        } else {
          stepped := Add(c, q, a);
          if stepped.None? {
            StopsFrom(c, a, scalar, i);
            return None;
          }
          q := stepped.value;
        }
      }
      i := i - 1;
    }
    if isInf { return Some(Point(0, 0)); }
    return Some(q);
  }

  /** Once stopped, stopped. */
  lemma {:induction false} StopsFrom(c: Curve, a: Point, k: nat, i: nat)
    requires c.p > 1 && DoubleAndAdd(c, a, Prefix(k, i)).None?
    ensures DoubleAndAdd(c, a, k).None?
  {
    if i > 0 {
      assert Prefix(k, i) == Prefix(k, i - 1) / 2;
      StopsFrom(c, a, k, i - 1);
    }
  }

  lemma NoEarlyInfinityStep(c: Curve, k: nat, a: Point)
    requires ValidCurve(c) && IsPoint(c, a) && k > 1
    ensures NoEarlyInfinity(c, k, a) <==> NoEarlyInfinity(c, k / 2, a) && FiniteAt(c, k / 2, a)
  {
    hide FiniteAt, ValidCurve, IsPoint;
    if NoEarlyInfinity(c, k, a) { FiniteHalves(c, k, a); }
    if NoEarlyInfinity(c, k / 2, a) && FiniteAt(c, k / 2, a) { FiniteDoubles(c, k, a); }
    hide NoEarlyInfinity;
  }

  lemma FiniteHalves(c: Curve, k: nat, a: Point)
    requires ValidCurve(c) && IsPoint(c, a) && NoEarlyInfinity(c, k, a)
    ensures NoEarlyInfinity(c, k / 2, a) && FiniteAt(c, k / 2, a)
  {
    assert Prefix(k, 0) == k && Prefix(k, 1) == k / 2;
    hide FiniteAt, ValidCurve, IsPoint, Prefix;
    assert FiniteAt(c, Prefix(k, 1), a);
    forall i: nat | 1 <= i ensures FiniteAt(c, Prefix(k / 2, i), a) {
      PrefixOfHalf(k, i);
      assert FiniteAt(c, Prefix(k, i + 1), a);
    }
  }

  lemma FiniteDoubles(c: Curve, k: nat, a: Point)
    requires ValidCurve(c) && IsPoint(c, a) && NoEarlyInfinity(c, k / 2, a) && FiniteAt(c, k / 2, a)
    ensures NoEarlyInfinity(c, k, a)
  {
    assert Prefix(k / 2, 0) == k / 2;
    hide FiniteAt, ValidCurve, IsPoint, Prefix;
    forall i: nat | 1 <= i ensures FiniteAt(c, Prefix(k, i), a) {
      PrefixOfHalf(k, i - 1);
      if i > 1 { assert FiniteAt(c, Prefix(k / 2, i - 1), a); }
    }
  }

  /** Double-and-add stops exactly when a proper bit-prefix of the scalar reaches infinity, and
      otherwise returns the k-fold sum: for every point and every scalar of any length. */
  lemma {:induction false} DoubleAndAddExact(c: Curve, a: Point, k: nat)
    requires ValidCurve(c) && Associative(c) && IsPoint(c, a)
    ensures DoubleAndAdd(c, a, k) == if NoEarlyInfinity(c, k, a) then Some(Mul(c, k, a)) else None
  {
    if k <= 1 {
      SmallScalars(c, a, k);
    } else {
      DoubleAndAddExact(c, a, k / 2);
      NoEarlyInfinityStep(c, k, a);
      LastBit(c, a, k);
      hide NoEarlyInfinity, FiniteAt, Mul, TryTwice, TrySum, Associative, ValidCurve, IsPoint;
    }
  }

  lemma SmallScalars(c: Curve, a: Point, k: nat)
    requires ValidCurve(c) && IsPoint(c, a) && k <= 1
    ensures NoEarlyInfinity(c, k, a) && DoubleAndAdd(c, a, k) == Some(Mul(c, k, a))
  {
    MulOne(c, a);
    assert Mul(c, 0, a) == INFINITY;
    forall i: nat | 1 <= i ensures Prefix(k, i) == 0 { PrefixHalves(k, i); }
  }

  /** One round: doubling stops at infinity; otherwise the round appends the low bit. */
  lemma LastBit(c: Curve, a: Point, k: nat)
    requires ValidCurve(c) && Associative(c) && IsPoint(c, a) && k > 1
    ensures AppendBit(c, Some(Mul(c, k / 2, a)), a, k % 2 == 1)
         == if FiniteAt(c, k / 2, a) then Some(Mul(c, k, a)) else None
  {
    assert c.p > 1;
    hide ModInverse, Sum, SumDefined, Twice, OnCurve, Mul, IsPoint, ValidCurve, Associative;
    var half := Mul(c, k / 2, a);
    if half == INFINITY {
      ZeroHasNoInverse(c.p);
    } else {
      MulDouble(c, k / 2, a);
      if k % 2 == 1 { MulNext(c, k, a); }
    }
  }

  lemma MulNext(c: Curve, k: nat, a: Point)
    requires ValidCurve(c) && IsPoint(c, a) && k > 0
    ensures SumDefined(c, Mul(c, k - 1, a), a) && Mul(c, k, a) == Sum(c, Mul(c, k - 1, a), a)
  {
    SumIsDefined(c, Mul(c, k - 1, a), a);
    hide Sum, SumDefined;
  }

  lemma ZeroHasNoInverse(p: nat)
    requires p > 1
    ensures ModInverse(0, p).None?
  {
    assert 0 % p == 0;
    assert ExtendedGcd(p, 0) == (p, 1, 0);
  }

  // --- Decompression -----------------------------------------------------------------

  /** y from x: the square root of x^3 + b by the exponent (p+1)/4, or None. */
  method DecompressPoint(c: Curve, x: nat, even: bool) returns (r: Option<nat>)
    requires c.p > 1
    ensures r == Decompressed(c, x, even)
  {
    var x3 := x * x;
    x3 := x3 * x;
    x3 := x3 + c.b;
    x3 := x3 % c.p;
    var exp := (c.p + 1) / 4;
    var y := Pow(x3, exp) % c.p;
    var yy := y * y;
    yy := yy % c.p;
    if yy != x3 { return None; }
    if even && y % 2 != 0 {
      y := c.p - y;
    } else if !even && y % 2 == 0 {
      y := c.p - y;
    }
    return Some(y);
  }

  function CandidateRoot(c: Curve, x: nat): nat
    requires c.p > 1
  {
    Pow(Rhs(c, x) % c.p, (c.p + 1) / 4) % c.p
  }

  function Decompressed(c: Curve, x: nat, even: bool): Option<nat>
    requires c.p > 1
  {
    var y := CandidateRoot(c, x);
    if (y * y) % c.p != Rhs(c, x) % c.p then None
    else Some(WithParity(c.p, y, even))
  }

  /** The root of the requested parity. */
  function WithParity(p: nat, y: nat, even: bool): nat
    requires y <= p
  {
    if even == (y % 2 == 0) then y else p - y
  }

  lemma WithParitySound(p: nat, y: nat, even: bool, v: int)
    requires p % 2 == 1 && y < p && Cong(y * y, v, p)
    ensures var r := WithParity(p, y, even);
      && r <= p && (r == p ==> !even && Divides(p, v))
      && Cong(r * r, v, p) && (r % 2 == 0) == even
  {
    NegatedRoot(p, y, v);
    if y == 0 { CongSymmetric(0, v, p); }
    hide Divides;
  }

  /** The exponent (p+1)/4 squares back to any square. */
  lemma RootOfSquare(c: Curve, x: nat, y: nat)
    requires ValidCurve(c) && Cong(y * y, Rhs(c, x), c.p)
    ensures var r := CandidateRoot(c, x); Cong(r * r, y * y, c.p)
  {
    var p, e := c.p, (c.p + 1) / 4;
    var v, r := Rhs(c, x) % p, CandidateRoot(c, x);
    var w := Pow(v, e);
    ModCong(Rhs(c, x), p);
    CongTransitive(y * y, Rhs(c, x), v, p);
    CongSymmetric(y * y, v, p);
    PowCong(v, y * y, e, p);
    PowSquare(y, e);
    ModCong(w, p);
    CongTransitive(r, w, Pow(y, 2 * e), p);
    CongProduct(r, Pow(y, 2 * e), r, Pow(y, 2 * e), p);
    PowAdd(y, 2 * e, 2 * e);
    assert 4 * e == p + 1;
    assert Pow(y, p + 1) == y * Pow(y, p);
    Fermat(y, p);
    assert Cong(y, y, p);
    CongProduct(y, y, Pow(y, p), y, p);
    CongTransitive(r * r, y * Pow(y, p), y * y, p);
  }

  /** Square roots are unique up to sign. */
  lemma RootsUpToSign(p: nat, r: nat, y: nat)
    requires IsPrime(p) && r < p && 0 < y < p && Cong(r * r, y * y, p)
    ensures r == y || r == p - y
  {
    assert (r - y) * (r + y) == r * r - y * y;
    EuclidLemma(p, r - y, r + y);
    if Divides(p, r - y) {
      SmallMultipleIsZero((r - y) / p, p, r - y);
    } else {
      assert r + y - p == ((r + y) / p - 1) * p;
      SmallMultipleIsZero((r + y) / p - 1, p, r + y - p);
    }
  }

  /** Sound: a returned root has the requested parity and squares to x^3 + b; it is reduced,
      except that an odd zero is returned as p. */
  lemma DecompressSound(c: Curve, x: nat, even: bool)
    requires c.p > 1 && c.p % 2 == 1
    ensures var r := Decompressed(c, x, even);
      r.Some? ==> && 0 <= r.value <= c.p
                  && (r.value == c.p ==> !even && Divides(c.p, Rhs(c, x)))
                  && Cong(r.value * r.value, Rhs(c, x), c.p)
                  && (r.value % 2 == 0) == even
  {
    var p, y, v := c.p, CandidateRoot(c, x), Rhs(c, x);
    hide CandidateRoot, Rhs, WithParity;
    if (y * y) % p == v % p {
      CongIffSameMod(y * y, v, p);
      WithParitySound(p, y, even, v);
    }
  }

  /** Complete: for every curve point, asking for the parity of its y gives back exactly y. */
  lemma DecompressComplete(c: Curve, a: Point)
    requires ValidCurve(c) && OnCurve(c, a)
    ensures Decompressed(c, a.x, a.y % 2 == 0) == Some(a.y)
  {
    CandidateIsRoot(c, a);
    NonzeroY(c, a);
    var r := CandidateRoot(c, a.x);
    hide CandidateRoot, Rhs, WithParity;
    ParityPicks(c.p, r, a.y);
  }

  lemma CandidateIsRoot(c: Curve, a: Point)
    requires ValidCurve(c) && OnCurve(c, a)
    ensures var r := CandidateRoot(c, a.x);
      && r < c.p && (r == a.y || r == c.p - a.y)
      && (r * r) % c.p == Rhs(c, a.x) % c.p
  {
    NonzeroY(c, a);
    RootOfSquare(c, a.x, a.y);
    var r := CandidateRoot(c, a.x);
    assert r < c.p;
    hide CandidateRoot, Rhs;
    SquareOfRoot(c.p, r, a.y, Rhs(c, a.x));
    RootsUpToSign(c.p, r, a.y);
  }

  lemma ParityPicks(p: nat, r: nat, y: nat)
    requires p % 2 == 1 && 0 < y < p && (r == y || r == p - y)
    ensures WithParity(p, r, y % 2 == 0) == y
  {}

  lemma SquareOfRoot(p: nat, r: int, y: int, v: int)
    requires p > 0 && Cong(r * r, y * y, p) && Cong(y * y, v, p)
    ensures (r * r) % p == v % p
  {
    CongTransitive(r * r, y * y, v, p);
    CongIffSameMod(r * r, v, p);
  }

  /** Decompression fails exactly on those x that are not the abscissa of a curve point. */
  lemma DecompressFailsIff(c: Curve, x: nat, even: bool)
    requires ValidCurve(c) && x < c.p
    ensures Decompressed(c, x, even).None? <==> !exists y: nat :: OnCurve(c, Point(x, y))
  {
    DecompressSound(c, x, even);
    var r := Decompressed(c, x, even);
    if r.Some? {
      assert !Divides(c.p, Rhs(c, x));
      assert OnCurve(c, Point(x, r.value));
    } else if y: nat :| OnCurve(c, Point(x, y)) {
      RootOfSquare(c, x, y);
      SquareOfRoot(c.p, CandidateRoot(c, x), y, Rhs(c, x));
    }
  }
}
