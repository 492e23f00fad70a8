/** Modular arithmetic: inverses by the extended Euclidean algorithm, Euclid's lemma and
    Fermat's little theorem, for the field the curve lives in. */
module NumberTheory {

  datatype Option<+T> = None | Some(value: T) {
    function GetOr(default: T): T { if Some? then value else default }
  }

  /** p divides a. */
  predicate Divides(p: nat, a: int)
    requires p > 0
  {
    a % p == 0
  }

  predicate Cong(a: int, b: int, p: nat)
    requires p > 0
  {
    Divides(p, a - b)
  }

  ghost predicate IsPrime(p: nat) {
    p > 1 && forall d: nat | 1 < d < p :: !Divides(d, p)
  }

  lemma DividesWitness(p: nat, a: int, k: int)
    requires p > 0 && a == k * p
    ensures Divides(p, a)
  {
    ModOfMultiple(k, p);
  }

  lemma MultipleBounds(k: int, p: int)
    requires p > 0
    ensures k >= 1 ==> k * p >= p
    ensures k <= -1 ==> k * p <= -p
  {}

  lemma ModOfMultiple(k: int, p: nat)
    requires p > 0
    ensures (k * p) % p == 0
  {
    var r, q := (k * p) % p, (k * p) / p;
    assert r == (k - q) * p by { assert k * p == q * p + r; }
    MultipleBounds(k - q, p);
  }

  lemma DividesSum(p: nat, a: int, b: int)
    requires p > 0 && Divides(p, a) && Divides(p, b)
    ensures Divides(p, a + b) && Divides(p, a - b)
  {
    var i, j := a / p, b / p;
    assert a == i * p && b == j * p;
    assert (i + j) * p == a + b && (i - j) * p == a - b;
    DividesWitness(p, a + b, i + j);
    DividesWitness(p, a - b, i - j);
  }

  lemma DividesProduct(p: nat, a: int, b: int)
    requires p > 0 && Divides(p, a)
    ensures Divides(p, a * b) && Divides(p, b * a)
  {
    var i := a / p;
    assert a == i * p;
    assert a * b == (i * b) * p;
    DividesWitness(p, a * b, i * b);
  }

  /** Reduction does not change the residue class. */
  lemma ModCong(a: int, p: nat)
    requires p > 0
    ensures 0 <= a % p < p && Cong(a, a % p, p) && Cong(a % p, a, p)
  {
    assert a - a % p == (a / p) * p;
    assert a % p - a == (-(a / p)) * p;
    DividesWitness(p, a - a % p, a / p);
    DividesWitness(p, a % p - a, -(a / p));
  }

  lemma CongSum(a: int, b: int, c: int, d: int, p: nat)
    requires p > 0 && Cong(a, b, p) && Cong(c, d, p)
    ensures Cong(a + c, b + d, p) && Cong(a - c, b - d, p)
  {
    DividesSum(p, a - b, c - d);
    assert (a - b) + (c - d) == (a + c) - (b + d);
    assert (a - b) - (c - d) == (a - c) - (b - d);
  }

  lemma CongProduct(a: int, b: int, c: int, d: int, p: nat)
    requires p > 0 && Cong(a, b, p) && Cong(c, d, p)
    ensures Cong(a * c, b * d, p)
  {
    DividesProduct(p, a - b, c);
    DividesProduct(p, c - d, b);
    DividesSum(p, (a - b) * c, b * (c - d));
    assert (a - b) * c + b * (c - d) == a * c - b * d;
  }

  lemma CongTransitive(a: int, b: int, c: int, p: nat)
    requires p > 0 && Cong(a, b, p) && Cong(b, c, p)
    ensures Cong(a, c, p)
  {
    DividesSum(p, a - b, b - c);
    assert (a - b) + (b - c) == a - c;
  }

  lemma CongSelf(a: int, p: nat)
    requires p > 0
    ensures Cong(a, a, p)
  {}

  lemma CongSymmetric(a: int, b: int, p: nat)
    requires p > 0 && Cong(a, b, p)
    ensures Cong(b, a, p)
  {
    DividesProduct(p, a - b, -1);
    assert (a - b) * -1 == b - a;
  }

  /** Congruent numbers have the same remainder, and only they do. */
  lemma CongIffSameMod(a: int, b: int, p: nat)
    requires p > 0
    ensures Cong(a, b, p) <==> a % p == b % p
  {
    var i, j := a / p, b / p;
    assert a == i * p + a % p && b == j * p + b % p;
    if a % p == b % p {
      assert a - b == (i - j) * p;
      DividesWitness(p, a - b, i - j);
    } else if Cong(a, b, p) {
      var k := (a - b) / p;
      assert a - b == k * p;
      assert a % p - b % p == (k - i + j) * p;
      SmallMultipleIsZero(k - i + j, p, a % p - b % p);
    }
  }

  lemma SmallMultipleIsZero(k: int, p: int, a: int)
    requires p > 0 && a == k * p && -p < a < p
    ensures a == 0
  {
    MultipleBounds(k, p);
  }

  lemma SmallRemainder(m: nat, n: nat)
    requires m < n
    ensures m % n == m
  {}

  lemma WrapOnce(x: nat, n: nat)
    requires x < 2 * n
    ensures x % n == if x < n then x else x - n
  {
    if x >= n {
      SmallRemainder(x - n, n);
      assert x - (x - n) == 1 * n;
      DividesWitness(n, x - (x - n), 1);
      CongIffSameMod(x, x - n, n);
    }
  }

  // --- Inverses -------------------------------------------------------------

  /** Extended Euclid: (g, u, v) with g = u*a + v*b dividing both. */
  function ExtendedGcd(a: nat, b: nat): (r: (nat, int, int))
    requires a > 0 || b > 0
    decreases b
  {
    if b == 0 then (a, 1, 0)
    else
      var (g, u, v) := ExtendedGcd(b, a % b);
      (g, v, u - (a / b) * v)
  }

  lemma {:induction false} ExtendedGcdCorrect(a: nat, b: nat)
    requires a > 0 || b > 0
    ensures var (g, u, v) := ExtendedGcd(a, b);
      g > 0 && Divides(g, a) && Divides(g, b) && g == u * a + v * b
    decreases b
  {
    if b == 0 {
      DividesWitness(a, a, 1);
    } else {
      ExtendedGcdCorrect(b, a % b);
      var (g, u, v) := ExtendedGcd(b, a % b);
      assert a == b * (a / b) + a % b;
      DividesProduct(g, b, a / b);
      DividesSum(g, b * (a / b), a % b);
      BezoutStep(a, b, a / b, a % b, g, u, v);
    }
  }

  lemma BezoutStep(a: int, b: int, q: int, r: int, g: int, u: int, v: int)
    requires a == b * q + r && g == u * b + v * r
    ensures g == v * a + (u - q * v) * b
  {
    assert r == a - b * q;
    assert v * r == v * a - v * (b * q);
    assert (u - q * v) * b == u * b - v * (b * q);
  }

  /** `new(big.Int).ModInverse(a, m)`: None when a and m share a factor. */
  function ModInverse(a: int, m: nat): (r: Option<nat>)
    requires m > 1
  {
    var (g, u, v) := ExtendedGcd(a % m, m);
    if g == 1 then Some(u % m) else None
  }

  /** What ModInverse returns is the inverse, and a failure means a shared factor. */
  lemma ModInverseCorrect(a: int, m: nat)
    requires m > 1
    ensures match ModInverse(a, m)
            case Some(i) => i < m && Cong(a * i, 1, m)
            case None => exists g: nat :: 1 < g <= m && Divides(g, m) && Divides(g, a)
  {
    ExtendedGcdCorrect(a % m, m);
    var (g, u, v) := ExtendedGcd(a % m, m);
    assert Divides(g, m) && Divides(g, a % m) && g == u * (a % m) + v * m;
    if g == 1 {
      assert u * (a % m) - 1 == (-v) * m;
      DividesWitness(m, u * (a % m) - 1, -v);
      ModCong(a, m);
      ModCong(u, m);
      CongProduct(a, a % m, u % m, u, m);
      assert (a % m) * u == u * (a % m);
      CongTransitive(a * (u % m), (a % m) * u, 1, m);
    } else {
      DividesProduct(g, m, a / m);
      DividesSum(g, m * (a / m), a % m);
      assert a == m * (a / m) + a % m;
      DivisorBound(g, m);
    }
  }

  lemma DivisorBound(g: nat, m: nat)
    requires g > 0 && m > 0 && Divides(g, m)
    ensures g <= m
  {
    MultipleBounds(m / g, g);
    assert m == (m / g) * g;
  }

  /** Modulo a prime every nonzero residue has an inverse. */
  lemma PrimeInverse(a: int, p: nat)
    requires IsPrime(p) && !Divides(p, a)
    ensures ModInverse(a, p).Some?
    ensures var i := ModInverse(a, p).value; i < p && Cong(a * i, 1, p)
  {
    ModInverseCorrect(a, p);
    assert forall g: nat | 1 < g <= p && Divides(g, p) :: g == p;
  }

  /** An inverse cancels: p | a*b and b invertible give p | a. */
  lemma CancelInverse(p: nat, a: int, b: int, i: int)
    requires p > 0 && Divides(p, a * b) && Cong(b * i, 1, p)
    ensures Divides(p, a)
  {
    DividesProduct(p, a * b, i);
    DividesProduct(p, b * i - 1, a);
    assert (a * b) * i - (b * i - 1) * a == a by {
      assert (a * b) * i == (b * i) * a;
    }
    DividesSum(p, (a * b) * i, (b * i - 1) * a);
  }

  /** Euclid's lemma. */
  lemma EuclidLemma(p: nat, a: int, b: int)
    requires IsPrime(p) && Divides(p, a * b)
    ensures Divides(p, a) || Divides(p, b)
  {
    if !Divides(p, b) {
      PrimeInverse(b, p);
      CancelInverse(p, a, b, ModInverse(b, p).value);
    }
  }

  // --- Powers and Fermat ------------------------------------------------------

  function Pow(a: int, n: nat): int {
    if n == 0 then 1 else a * Pow(a, n - 1)
  }

  lemma {:induction false} PowAdd(a: int, m: nat, n: nat)
    ensures Pow(a, m + n) == Pow(a, m) * Pow(a, n)
  {
    if m > 0 {
      PowAdd(a, m - 1, n);
      assert a * (Pow(a, m - 1) * Pow(a, n)) == (a * Pow(a, m - 1)) * Pow(a, n);
    }
  }

  lemma {:induction false} PowSquare(a: int, n: nat)
    ensures Pow(a * a, n) == Pow(a, 2 * n)
  {
    if n > 0 {
      PowSquare(a, n - 1);
      assert Pow(a, 2 * n) == a * (a * Pow(a, 2 * n - 2));
      assert (a * a) * Pow(a, 2 * n - 2) == a * (a * Pow(a, 2 * n - 2));
    }
  }

  lemma {:induction false} PowCong(a: int, b: int, n: nat, p: nat)
    requires p > 0 && Cong(a, b, p)
    ensures Cong(Pow(a, n), Pow(b, n), p)
  {
    if n == 0 {
      assert Pow(a, 0) == Pow(b, 0);
    } else {
      PowCong(a, b, n - 1, p);
      CongProduct(a, b, Pow(a, n - 1), Pow(b, n - 1), p);
    }
  }

  /** Binomial coefficients by Pascal's rule. */
  function Choose(n: nat, k: nat): (c: nat) {
    if k == 0 then 1
    else if n == 0 then 0
    else Choose(n - 1, k - 1) + Choose(n - 1, k)
  }

  lemma {:induction false} ChooseAbove(n: nat, k: nat)
    requires k > n
    ensures Choose(n, k) == 0
  {
    if n > 0 {
      ChooseAbove(n - 1, k - 1);
      ChooseAbove(n - 1, k);
    }
  }

  lemma {:induction false} ChooseSelf(n: nat)
    ensures Choose(n, n) == 1
  {
    if n > 0 {
      ChooseSelf(n - 1);
      ChooseAbove(n - 1, n);
    }
  }

  /** Absorption: k * C(n, k) = n * C(n-1, k-1). */
  lemma {:induction false} ChooseAbsorb(n: nat, k: nat)
    requires n > 0 && k > 0
    ensures k * Choose(n, k) == n * Choose(n - 1, k - 1)
  {
    if n == 1 {
      if k > 1 { ChooseAbove(1, k); ChooseAbove(0, k - 1); }
    } else if k == 1 {
      ChooseAbsorb(n - 1, 1);
    } else {
      ChooseAbsorb(n - 1, k - 1);
      ChooseAbsorb(n - 1, k);
      AbsorbStep(n, k, Choose(n - 1, k - 1), Choose(n - 1, k), Choose(n - 2, k - 2), Choose(n - 2, k - 1));
    }
  }

  lemma AbsorbStep(n: int, k: int, x: int, y: int, u: int, v: int)
    requires (k - 1) * x == (n - 1) * u && k * y == (n - 1) * v && x == u + v
    ensures k * (x + y) == n * x
  {
    assert k * (x + y) == (k - 1) * x + x + k * y;
    assert (n - 1) * u + (n - 1) * v == (n - 1) * (u + v);
  }

  lemma PrimeSplits(p: nat, k: nat, c: int, q: int)
    requires IsPrime(p) && 0 < k < p && k * c == q * p
    ensures Divides(p, c)
  {
    DividesWitness(p, k * c, q);
    EuclidLemma(p, k, c);
    assert k % p == k;
  }

  /** A prime divides the inner entries of its row. */
  lemma PrimeDividesChoose(p: nat, k: nat)
    requires IsPrime(p) && 0 < k < p
    ensures Divides(p, Choose(p, k))
  {
    var c := Choose(p, k);
    assert k * c == Choose(p - 1, k - 1) * p by { ChooseAbsorb(p, k); }
    PrimeSplits(p, k, c, Choose(p - 1, k - 1));
  }

  /** The first m terms of the binomial expansion of (a + 1)^n. */
  function BinomialSum(a: int, n: nat, m: nat): int {
    if m == 0 then 0 else BinomialSum(a, n, m - 1) + Choose(n, m - 1) * Pow(a, m - 1)
  }

  lemma BinomialAlgebra(a: int, c: int, d: int, q: int, s: int, t: int, u: int)
    requires s == t + a * u
    ensures s + (c + d) * (a * q) == (t + d * (a * q)) + a * (u + c * q)
  {
    assert (c + d) * (a * q) == d * (a * q) + a * (c * q);
    assert a * (u + c * q) == a * u + a * (c * q);
  }

  lemma {:induction false} BinomialStep(a: int, n: nat, m: nat)
    requires n > 0
    ensures BinomialSum(a, n, m + 1) == BinomialSum(a, n - 1, m + 1) + a * BinomialSum(a, n - 1, m)
  {
    if m > 0 {
      BinomialStep(a, n, m - 1);
      BinomialAlgebra(a, Choose(n - 1, m - 1), Choose(n - 1, m), Pow(a, m - 1),
                      BinomialSum(a, n, m), BinomialSum(a, n - 1, m), BinomialSum(a, n - 1, m - 1));
    }
  }

  lemma {:induction false} BinomialTheorem(a: int, n: nat)
    ensures BinomialSum(a, n, n + 1) == Pow(a + 1, n)
  {
    if n == 0 {
      assert BinomialSum(a, 0, 1) == BinomialSum(a, 0, 0) + Choose(0, 0) * Pow(a, 0);
    } else {
      BinomialTheorem(a, n - 1);
      BinomialStep(a, n, n);
      ChooseAbove(n - 1, n);
      var b := BinomialSum(a, n - 1, n);
      assert BinomialSum(a, n - 1, n + 1) == b;
      assert b + a * b == (a + 1) * b;
    }
  }

  /** Modulo a prime, everything but the constant vanishes from the inner terms. */
  lemma {:induction false} InnerTermsVanish(a: int, p: nat, m: nat)
    requires IsPrime(p) && 0 < m <= p
    ensures Cong(BinomialSum(a, p, m), 1, p)
  {
    if m == 1 {
      assert BinomialSum(a, p, 1) == BinomialSum(a, p, 0) + Choose(p, 0) * Pow(a, 0);
    } else {
      InnerTermsVanish(a, p, m - 1);
      PrimeDividesChoose(p, m - 1);
      var t := Choose(p, m - 1) * Pow(a, m - 1);
      DividesProduct(p, Choose(p, m - 1), Pow(a, m - 1));
      DividesSum(p, BinomialSum(a, p, m - 1) - 1, t);
      assert BinomialSum(a, p, m - 1) - 1 + t == BinomialSum(a, p, m) - 1;
    }
  }

  /** (a + 1)^p = a^p + 1 modulo p. */
  lemma Freshman(a: int, p: nat)
    requires IsPrime(p)
    ensures Cong(Pow(a + 1, p), Pow(a, p) + 1, p)
  {
    BinomialTheorem(a, p);
    InnerTermsVanish(a, p, p);
    ChooseSelf(p);
    var s := BinomialSum(a, p, p);
    assert Pow(a + 1, p) == s + Pow(a, p);
    assert Pow(a + 1, p) - (Pow(a, p) + 1) == s - 1;
  }

  /** Fermat's little theorem. */
  lemma {:induction false} Fermat(a: nat, p: nat)
    requires IsPrime(p)
    ensures Cong(Pow(a, p), a, p)
  {
    if a == 0 {
      assert Pow(0, p) == 0 * Pow(0, p - 1);
    } else {
      Fermat(a - 1, p);
      Freshman(a - 1, p);
      CongSum(Pow(a - 1, p), a - 1, 1, 1, p);
      CongTransitive(Pow(a, p), Pow(a - 1, p) + 1, a, p);
    }
  }
}
