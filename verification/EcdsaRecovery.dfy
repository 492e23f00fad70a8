/** What recovering from a fresh signature gives, on every branch. */
module EcdsaRecovery {
  import opened Bytes
  import opened NumberTheory
  import opened Secp256k1
  import opened CurveGroup
  import opened Ecdsa

  lemma UnitScalar(c: Curve, u: nat, a: Point)
    requires PrimeOrderGroup(c) && IsPoint(c, a) && Cong(u, 1, c.n)
    ensures Mul(c, u, a) == a
  {
    hide Mul, Sum, SumDefined, OnCurve;
    MulMod(c, u, a);
    UnitRemainder(c.n, u);
    MulOne(c, a);
  }

  /** s*a - e*G as a multiple of G, when s*a is one. */
  lemma DifferenceOfMultiples(c: Curve, m: nat, e: nat)
    requires SigningCurve(c) && e % c.n != 0
    ensures OnCurve(c, Mul(c, e, c.g))
    ensures SumDefined(c, Mul(c, m + e, c.g), Negate(c, Mul(c, e, c.g)))
    ensures Sum(c, Mul(c, m + e, c.g), Negate(c, Mul(c, e, c.g))) == Mul(c, m, c.g)
  {
    hide Mul, Sum, SumDefined, Negate, OnCurve, IsPrime, ValidCurve;
    var back := c.n - e % c.n;
    NegateIsComplement(c, e, c.g);
    MulAdd(c, m + e, back, c.g);
    ComplementDivides(e, c.n);
    ShiftRemainder(m, e + back, c.n);
    MulInjective(c, m + e + back, m, c.g);
  }

  lemma ShiftRemainder(m: nat, z: nat, n: nat)
    requires n > 0 && z % n == 0
    ensures (m + z) % n == m % n
  {
    CongIffSameMod(m + z, m, n);
  }

  /** Recovery gives d*G exactly when s*a equals (r*d + e)*G. */
  lemma RecoveredIff(c: Curve, a: Point, s: nat, e: nat, r: nat, rInv: nat, d: nat)
    requires SigningCurve(c) && OnCurve(c, a) && e % c.n != 0 && Cong(r * rInv, 1, c.n)
    ensures Recovered(c, a, s, e, rInv) == Mul(c, d, c.g) <==> Mul(c, s, a) == Mul(c, Blend(r, d, e), c.g)
  {
    if Recovered(c, a, s, e, rInv) == Mul(c, d, c.g) {
      RecoveredForward(c, a, s, e, r, rInv, d);
    }
    if Mul(c, s, a) == Mul(c, Blend(r, d, e), c.g) {
      RecoveredBackward(c, a, s, e, r, rInv, d);
    }
  }

  lemma RecoveredForward(c: Curve, a: Point, s: nat, e: nat, r: nat, rInv: nat, d: nat)
    requires SigningCurve(c) && OnCurve(c, a) && e % c.n != 0 && Cong(r * rInv, 1, c.n)
    requires Recovered(c, a, s, e, rInv) == Mul(c, d, c.g)
    ensures Mul(c, s, a) == Mul(c, Blend(r, d, e), c.g)
  {
    hide Mul, SumDefined, Negate, Rhs, ValidCurve, Sum;
    DifferenceCancels(c, Mul(c, s, a), e);
    var diff := Sum(c, Mul(c, s, a), Negate(c, Mul(c, e, c.g)));
    MulMul(c, r, rInv, diff);
    UnitScalar(c, r * rInv, diff);
    MulMul(c, r, d, c.g);
    MulAdd(c, r * d, e, c.g);
  }

  lemma RecoveredBackward(c: Curve, a: Point, s: nat, e: nat, r: nat, rInv: nat, d: nat)
    requires SigningCurve(c) && OnCurve(c, a) && e % c.n != 0 && Cong(r * rInv, 1, c.n)
    requires Mul(c, s, a) == Mul(c, Blend(r, d, e), c.g)
    ensures Recovered(c, a, s, e, rInv) == Mul(c, d, c.g)
  {
    hide Mul, SumDefined, Negate, OnCurve, ValidCurve, Sum;
    DifferenceOfMultiples(c, r * d, e);
    MulMul(c, rInv, r * d, c.g);
    MulMul(c, r * rInv, d, c.g);
    UnitScalar(c, r * rInv, Mul(c, d, c.g));
    assert rInv * (r * d) == (r * rInv) * d;
  }

  /** The signing equation: s*k = e + r*d modulo n, before the low-S step. */
  lemma SigningEquation(c: Curve, d: nat, e: nat, k: nat)
    requires SigningCurve(c) && k % c.n != 0
    ensures Mul(c, RawS(c, d, e, k), NoncePoint(c, k)) == Mul(c, Blend(SigR(c, k), d, e), c.g)
  {
    InvertibleScalar(c, k);
    var t, i, s := Blend(SigR(c, k), d, e), ModInverse(k, c.n).value, RawS(c, d, e, k);
    assert s == (t * i) % c.n;
    hide Mul, ModInverse, RawS, SigR, OnCurve, ValidCurve;
    NonceCancels(t, i, k, c.n);
    MulMul(c, s, k, c.g);
    MulInjective(c, s * k, t, c.g);
  }

  lemma NonceCancels(t: int, i: int, k: int, n: nat)
    requires n > 0 && Cong(k * i, 1, n)
    ensures (((t * i) % n) * k) % n == t % n
  {
    ModMul(t * i, k, n);
    assert (t * i) * k == t * (k * i);
    assert Cong(t, t, n);
    CongProduct(t, t, k * i, 1, n);
    CongIffSameMod(t * (k * i), t, n);
  }

  lemma UndoScalar(c: Curve, i: nat, s0: nat, a: Point)
    requires SigningCurve(c) && OnCurve(c, a) && (i * s0) % c.n == 1
    ensures Mul(c, i, Mul(c, s0, a)) == a
  {
    hide Mul, OnCurve, ValidCurve;
    MulMul(c, i, s0, a);
    UnitScalarMod(c, i * s0, a);
  }

  lemma UndoFlippedScalar(c: Curve, i: nat, s0: nat, a: Point)
    requires SigningCurve(c) && OnCurve(c, a) && s0 < c.n && (i * s0) % c.n == 1
    ensures a.y <= c.p && Mul(c, i, Mul(c, c.n - s0, a)) == Negate(c, a)
  {
    hide Mul, OnCurve, ValidCurve;
    MulMul(c, i, c.n - s0, a);
    assert i * (c.n - s0) == i * c.n - i * s0;
    MinusOne(i * (c.n - s0), i * s0, i, c.n);
    NegatedScalar(c, i * (c.n - s0), a);
  }

  /** If low(s0)*a equals s0*b then a and b share their abscissa. */
  lemma LowSAbscissa(c: Curve, a: Point, b: Point, s0: nat)
    requires SigningCurve(c) && OnCurve(c, a) && OnCurve(c, b) && 0 < s0 < c.n
    requires Mul(c, LowS(c.n, s0), a) == Mul(c, s0, b)
    ensures a.x == b.x
  {
    SmallRemainder(s0, c.n);
    var i := InverseScalar(s0, c.n);
    hide Mul, OnCurve, PrimeOrderGroup;
    UndoScalar(c, i, s0, b);
    if s0 <= c.n / 2 {
      UndoScalar(c, i, s0, a);
    } else {
      UndoFlippedScalar(c, i, s0, a);
    }
  }

  lemma UnitScalarMod(c: Curve, u: nat, a: Point)
    requires PrimeOrderGroup(c) && IsPoint(c, a) && u % c.n == 1
    ensures Mul(c, u, a) == a
  {
    hide Mul, OnCurve, ValidCurve;
    MulMod(c, u, a);
    MulOne(c, a);
  }

  lemma MinusOne(u: int, v: int, q: int, n: nat)
    requires n > 1 && u == q * n - v && v % n == 1
    ensures u % n == n - 1
  {
    assert v == (v / n) * n + 1;
    assert u - (n - 1) == (q - v / n - 1) * n;
    DividesWitness(n, u - (n - 1), q - v / n - 1);
    CongIffSameMod(u, n - 1, n);
    SmallRemainder(n - 1, n);
  }

  lemma NegatedScalar(c: Curve, u: nat, a: Point)
    requires SigningCurve(c) && OnCurve(c, a) && u % c.n == c.n - 1
    ensures a.y <= c.p && Mul(c, u, a) == Negate(c, a)
  {
    MulOne(c, a);
    SmallRemainder(1, c.n);
    NegateIsComplement(c, 1, a);
    hide Mul, ValidCurve;
    MulMod(c, u, a);
  }

  /** On the same point, the low form of s acts as s exactly when nothing was flipped. */
  lemma LowSSamePoint(c: Curve, a: Point, s0: nat)
    requires SigningCurve(c) && OnCurve(c, a) && s0 < c.n
    ensures Mul(c, LowS(c.n, s0), a) == Mul(c, s0, a) <==> s0 <= c.n / 2
  {
    hide Mul, OnCurve, PrimeOrderGroup;
    MulInjective(c, LowS(c.n, s0), s0, a);
    SmallRemainder(s0, c.n);
    SmallRemainder(LowS(c.n, s0), c.n);
  }

  lemma NonceOnCurve(c: Curve, k: nat)
    requires SigningCurve(c) && k % c.n != 0
    ensures OnCurve(c, NoncePoint(c, k))
  {
    MulZeroIff(c, k, c.g);
  }

  /** x is recovered exactly on two of the four branches of (R.x < n, R.y even). */
  lemma AbscissaRecovered(c: Curve, d: nat, e: nat, k: nat)
    requires SigningCurve(c) && k % c.n != 0
    ensures var nonce, sig := NoncePoint(c, k), Signature(c, d, e, k);
      && (RecoveryX(c, sig) == nonce.x <==> (nonce.x < c.n <==> nonce.y % 2 == 0))
      && (RecoveryX(c, sig) == nonce.x ==> RecoveryY(c, sig) == Some(nonce.y))
  {
    NonceOnCurve(c, k);
    SignatureFields(c, d, e, k);
    var nonce := NoncePoint(c, k);
    DecompressComplete(c, nonce);
    hide Decompressed, Signature, NoncePoint, RawS, Rhs;
    WrapOnce(nonce.x, c.n);
  }

  lemma SignatureFacts(c: Curve, d: nat, e: nat, k: nat)
    requires SigningCurve(c) && k % c.n != 0
    ensures var sig, s0, nonce := Signature(c, d, e, k), RawS(c, d, e, k), NoncePoint(c, k);
      && OnCurve(c, nonce)
      && (RecoveryX(c, sig) == nonce.x <==> (nonce.x < c.n <==> nonce.y % 2 == 0))
      && (RecoveryX(c, sig) == nonce.x ==> RecoveryY(c, sig) == Some(nonce.y))
      && FromBytes(sig[32..64]) == LowS(c.n, s0)
      && Mul(c, Blend(FromBytes(sig[..32]), d, e), c.g) == Mul(c, s0, nonce)
  {
    NonceOnCurve(c, k);
    AbscissaRecovered(c, d, e, k);
    SignatureFields(c, d, e, k);
    SigningEquation(c, d, e, k);
  }

  /** low(s0)*a equals s0*b exactly when nothing was flipped and a is b, or s0 is zero. */
  lemma LowSAgrees(c: Curve, a: Point, b: Point, s0: nat)
    requires SigningCurve(c) && OnCurve(c, a) && OnCurve(c, b) && s0 < c.n
    requires a.x == b.x ==> a == b
    ensures Mul(c, LowS(c.n, s0), a) == Mul(c, s0, b) <==> s0 == 0 || (s0 <= c.n / 2 && a.x == b.x)
  {
    MulZeroAny(c, a, b);
    hide OnCurve, Mul, PrimeOrderGroup;
    if s0 == 0 {
    } else if a.x == b.x {
      LowSSamePoint(c, a, s0);
    } else if Mul(c, LowS(c.n, s0), a) == Mul(c, s0, b) {
      LowSAbscissa(c, a, b, s0);
    }
  }

  lemma MulZeroAny(c: Curve, a: Point, b: Point)
    requires ValidCurve(c) && IsPoint(c, a) && IsPoint(c, b)
    ensures Mul(c, 0, a) == Mul(c, 0, b)
  {}

  lemma DistinctFromHash(c: Curve, r: nat, d: nat, e: nat)
    requires SigningCurve(c) && r % c.n != 0 && d % c.n != 0
    ensures Mul(c, Blend(r, d, e), c.g) != Mul(c, e, c.g)
  {
    ProductShifts(c.n, r, d, e);
    hide Mul, OnCurve, IsPrime, ValidCurve;
    MulInjective(c, r * d + e, e, c.g);
  }

  lemma ProductShifts(n: nat, r: nat, d: nat, e: nat)
    requires IsPrime(n) && r % n != 0 && d % n != 0
    ensures (r * d + e) % n != e % n
  {
    if Divides(n, r * d) { EuclidLemma(n, r, d); }
    CongIffSameMod(r * d + e, e, n);
  }

  // --- Coordinates that are not reduced ---------------------------------------------------

  /** The curve point that coordinates stand for. */
  function Reduced(c: Curve, a: Point): Point
    requires c.p > 0
  {
    Point(a.x % c.p, a.y)
  }

  lemma ShiftedDifference(a: int, b: int, p: nat)
    requires p > 0
    ensures (a - b % p) % p == (a - b) % p && (b % p - a) % p == (b - a) % p
  {
    ModCong(b, p);
    assert Cong(a, a, p);
    CongSum(a, a, b % p, b, p);
    CongSum(b % p, b, a, a, p);
    CongIffSameMod(a - b % p, a - b, p);
    CongIffSameMod(b % p - a, b - a, p);
  }

  /** Doubling does not notice an unreduced x. */
  lemma TwiceReduced(c: Curve, a: Point)
    requires c.p > 1
    ensures TryTwice(c, a) == TryTwice(c, Reduced(c, a))
  {
    if ModInverse((2 * a.y) % c.p, c.p).Some? {
      TwiceSlopeReduced(c.p, a.x, ModInverse((2 * a.y) % c.p, c.p).value);
      hide ModInverse;
      ReflectReduced(c.p, TwiceSlope(c, a) % c.p, a.x, a.x, a.y);
    }
  }

  lemma TwiceSlopeReduced(p: nat, x: int, i: int)
    requires p > 0
    ensures ((3 * (x * x)) * i) % p == ((3 * ((x % p) * (x % p))) * i) % p
  {
    ModCong(x, p);
    assert Cong(i, i, p) && Cong(3, 3, p);
    CongProduct(x, x % p, x, x % p, p);
    CongProduct(3, 3, x * x, (x % p) * (x % p), p);
    CongProduct(3 * (x * x), 3 * ((x % p) * (x % p)), i, i, p);
    CongIffSameMod((3 * (x * x)) * i, (3 * ((x % p) * (x % p))) * i, p);
  }

  lemma ReflectReduced(p: nat, s: int, x1: int, x2: int, y1: int)
    requires p > 0
    ensures Reflect(p, s, x1, x2, y1) == Reflect(p, s, x1 % p, x2 % p, y1)
    ensures Reflect(p, s, x1, x2, y1) == Reflect(p, s, x1, x2 % p, y1)
    ensures Reflect(p, s, x1, x2, y1) == Reflect(p, s, x1 % p, x2, y1)
  {
    var x3 := (s * s - x1 - x2) % p;
    ShiftedDifference(s * s - x1, x2, p);
    ShiftedDifference(s * s - x2, x1, p);
    ShiftedDifference(s * s - x2 % p, x1, p);
    ShiftedLine(p, s, x1, x3, y1);
  }

  lemma ShiftedLine(p: nat, s: int, x1: int, x3: int, y1: int)
    requires p > 0
    ensures (s * (x1 - x3) - y1) % p == (s * (x1 % p - x3) - y1) % p
  {
    ModCong(x1, p);
    assert Cong(x3, x3, p) && Cong(s, s, p) && Cong(y1, y1, p);
    CongSum(x1, x1 % p, x3, x3, p);
    CongProduct(s, s, x1 - x3, x1 % p - x3, p);
    CongSum(s * (x1 - x3), s * (x1 % p - x3), y1, y1, p);
    CongIffSameMod(s * (x1 - x3) - y1, s * (x1 % p - x3) - y1, p);
  }

  /** Addition with one unreduced x either stops or gives what the reduced point gives. */
  lemma SumReduced(c: Curve, q: Point, a: Point)
    requires c.p > 1 && q.x < c.p && a.x >= c.p && q != INFINITY && Reduced(c, a) != INFINITY
    ensures TrySum(c, q, a).None? || TrySum(c, q, a) == TrySum(c, q, Reduced(c, a))
    ensures TrySum(c, a, q).None? || TrySum(c, a, q) == TrySum(c, Reduced(c, a), q)
  {
    ShiftedDifference(q.x, a.x, c.p);
    SmallRemainder(q.x, c.p);
    DistinctResidues(c, q.x, a.x);
    ChordReduced(c, q, a);
    hide ModInverse, Reflect, ChordSlope;
  }

  lemma ChordReduced(c: Curve, q: Point, a: Point)
    requires c.p > 1
    ensures ModInverse((a.x - q.x) % c.p, c.p).Some? ==> (ShiftedDifference(q.x, a.x, c.p);
      Reflect(c.p, ChordSlope(c, q, a) % c.p, q.x, a.x, q.y)
      == Reflect(c.p, ChordSlope(c, q, Reduced(c, a)) % c.p, q.x, a.x % c.p, q.y))
    ensures ModInverse((q.x - a.x) % c.p, c.p).Some? ==> (ShiftedDifference(q.x, a.x, c.p);
      Reflect(c.p, ChordSlope(c, a, q) % c.p, a.x, q.x, a.y)
      == Reflect(c.p, ChordSlope(c, Reduced(c, a), q) % c.p, a.x % c.p, q.x, a.y))
  {
    ShiftedDifference(q.x, a.x, c.p);
    hide ModInverse, Reflect;
    if ModInverse((a.x - q.x) % c.p, c.p).Some? {
      ReflectReduced(c.p, ChordSlope(c, q, a) % c.p, q.x, a.x, q.y);
    }
    if ModInverse((q.x - a.x) % c.p, c.p).Some? {
      ReflectReduced(c.p, ChordSlope(c, a, q) % c.p, a.x, q.x, a.y);
    }
  }

  /** Equal residues have no difference to invert. */
  lemma DistinctResidues(c: Curve, x: int, y: int)
    requires c.p > 1 && x % c.p == x
    ensures ModInverse((y - x) % c.p, c.p).Some? ==> x != y % c.p
    ensures ModInverse((x - y) % c.p, c.p).Some? ==> x != y % c.p
  {
    ZeroHasNoInverse(c.p);
    CongIffSameMod(x, y, c.p);
    CongIffSameMod(y, x, c.p);
    hide ModInverse;
  }

  /** A scalar multiple of unreduced coordinates: a stop, or the multiple of the point they stand
      for. (A scalar of 1 returns the coordinates themselves.) */
  lemma {:induction false} MultipleOfUnreduced(c: Curve, a: Point, k: nat)
    requires SigningCurve(c) && a.x >= c.p && OnCurve(c, Reduced(c, a)) && k != 1 && k < WORD
    ensures DoubleAndAdd(c, a, k).None? || DoubleAndAdd(c, a, k) == DoubleAndAdd(c, Reduced(c, a), k)
  {
    if k >= 2 {
      if k >= 4 { MultipleOfUnreduced(c, a, k / 2); }
      TwiceReduced(c, a);
      RoundOfUnreduced(c, a, k);
      hide TryTwice, TrySum, Reduced, OnCurve, PrimeOrderGroup;
    }
  }

  lemma RoundOfUnreduced(c: Curve, a: Point, k: nat)
    requires SigningCurve(c) && a.x >= c.p && OnCurve(c, Reduced(c, a)) && 2 <= k < WORD
    ensures var b := Reduced(c, a);
      var half := DoubleAndAdd(c, b, k / 2);
      AppendBit(c, half, a, k % 2 == 1).None? || AppendBit(c, half, a, k % 2 == 1) == AppendBit(c, half, b, k % 2 == 1)
  {
    var half := DoubleAndAdd(c, Reduced(c, a), k / 2);
    DoubledFinite(c, Reduced(c, a), k);
    InfinityOffCurve(c);
    hide PrimeOrderGroup, TryTwice, DoubleAndAdd;
    if half.Some? && TryTwice(c, half.value).Some? {
      SumReduced(c, TryTwice(c, half.value).value, a);
    }
    hide TrySum;
  }

  /** Doubling inside a scalar of at most 256 bits gives a finite, reduced point. */
  lemma DoubledFinite(c: Curve, b: Point, k: nat)
    requires SigningCurve(c) && OnCurve(c, b) && 2 <= k < WORD
    ensures var half := DoubleAndAdd(c, b, k / 2);
      half.Some? && TryTwice(c, half.value).Some? ==>
        TryTwice(c, half.value).value != INFINITY && TryTwice(c, half.value).value.x < c.p
  {
    assert c.p > 1;
    hide DoubleAndAdd, NoEarlyInfinity, ModInverse, Mul, Twice, Associative, IsPrime;
    DoubleAndAddExact(c, b, k / 2);
    if Mul(c, k / 2, b) == INFINITY {
      ZeroHasNoInverse(c.p);
    } else {
      MulDouble(c, k / 2, b);
      EvenMultipleFinite(c, 2 * (k / 2), b);
    }
  }

  lemma EvenMultipleFinite(c: Curve, m: nat, a: Point)
    requires SigningCurve(c) && OnCurve(c, a) && 0 < m < WORD && m % 2 == 0
    ensures Mul(c, m, a) != INFINITY
  {
    hide Mul, OnCurve, PrimeOrderGroup;
    MulZeroIff(c, m, a);
    WrapOnce(m, c.n);
  }

  lemma StepsOfUnreduced(c: Curve, a: Point, s: nat, e: nat, r: nat)
    requires SigningCurve(c) && a.x >= c.p && OnCurve(c, Reduced(c, a)) && s < WORD && e < WORD && e % c.n != 0
    ensures var steps, reduced := RecoverySteps(c, a, s, e, r), RecoverySteps(c, Reduced(c, a), s, e, r);
      (steps.None? || steps == reduced) && (s == 0 ==> steps == reduced)
  {
    InfinityOffCurve(c);
    ShortScalarMultiple(c, e, c.g);
    ComplementCancels(c, e);
    hide Mul, PrimeOrderGroup, ModInverse, Sum, SumDefined;
    if s == 1 {
      SumReduced(c, Negate(c, Mul(c, e, c.g)), a);
      hide OnCurve, TrySum;
    } else {
      hide OnCurve, TrySum;
      MultipleOfUnreduced(c, a, s);
    }
  }

  // --- The exact condition ----------------------------------------------------------------

  /** On a curve point the steps of recovery give d*G exactly when s*a equals (r*d + e)*G. */
  lemma StepsIff(c: Curve, a: Point, s: nat, e: nat, r: nat, d: nat)
    requires SigningCurve(c) && OnCurve(c, a) && s < WORD && e < WORD
    requires r % c.n != 0 && e % c.n != 0 && d % c.n != 0
    ensures RecoverySteps(c, a, s, e, r) == Some(Mul(c, d, c.g)) <==> Mul(c, s, a) == Mul(c, Blend(r, d, e), c.g)
  {
    InvertibleScalar(c, r);
    var rInv := ModInverse(r, c.n).value;
    if Mul(c, s, a) != Mul(c, e, c.g) {
      DefinedSteps(c, a, s, e, r);
      hide RecoverySteps, Mul, OnCurve, PrimeOrderGroup, ModInverse;
      RecoveredIff(c, a, s, e, r, rInv, d);
    } else {
      DistinctFromHash(c, r, d, e);
      CancelledSteps(c, a, s, e, r);
      hide RecoverySteps, Mul, OnCurve, PrimeOrderGroup, ModInverse;
      MulZeroIff(c, d, c.g);
    }
  }

  /** When s*a equals e*G recovery stops or ends at infinity. */
  lemma CancelledSteps(c: Curve, a: Point, s: nat, e: nat, r: nat)
    requires SigningCurve(c) && OnCurve(c, a) && s < WORD && e < WORD && e % c.n != 0
    requires Mul(c, s, a) == Mul(c, e, c.g)
    ensures RecoverySteps(c, a, s, e, r).None? || RecoverySteps(c, a, s, e, r) == Some(INFINITY)
  {
    ShortScalarMultiple(c, s, a);
    var m := Mul(c, e, c.g);
    ComplementCancels(c, e);
    NegateCancels(c, m);
    hide Mul, OnCurve, ModInverse, Sum, SumDefined, PrimeOrderGroup, DoubleAndAdd;
    if ModInverse(r, c.n).Some? {
      var rInv := ModInverse(r, c.n).value;
      DoubleAndAddExact(c, INFINITY, rInv);
      MulInfinity(c, rInv);
    }
  }

  lemma RecoveredKeyIff(c: Curve, hash: seq<byte>, sig: seq<byte>, d: nat)
    requires SigningCurve(c) && |sig| == 65 && |hash| == 32 && RecoveryY(c, sig).Some?
    ensures FromBytes(hash) < WORD
    ensures RecoveredKey(c, hash, sig) == Key(PublicKey(c, d))
       <==> RecoverySteps(c, RecoveryPoint(c, sig), FromBytes(sig[32..64]), FromBytes(hash), FromBytes(sig[..32]))
            == Some(Mul(c, d, c.g))
  {
    WordBound(hash);
    hide RecoveryX, RecoveryY, OnCurve, ModInverse, ToBytes, FromBytes, PrimeOrderGroup, Mul;
    var q := RecoverySteps(c, RecoveryPoint(c, sig), FromBytes(sig[32..64]), FromBytes(hash), FromBytes(sig[..32]));
    hide RecoverySteps;
    if q.Some? { KeyBytesInjective(q.value, Mul(c, d, c.g)); }
    hide KeyBytes;
  }

  lemma NoKeyWithoutPoint(c: Curve, hash: seq<byte>, sig: seq<byte>)
    requires SigningCurve(c) && |sig| == 65 && |hash| == 32 && RecoveryY(c, sig).None?
    ensures RecoveredKey(c, hash, sig) == Failed
  {}

  lemma DecompressedOfReduced(c: Curve, x: nat, even: bool)
    requires ValidCurve(c)
    ensures Decompressed(c, x, even) == Decompressed(c, x % c.p, even)
  {
    RhsReduced(c, x);
    hide Rhs, Pow, IsPrime;
    CongIffSameMod(Rhs(c, x), Rhs(c, x % c.p), c.p);
  }

  /** Recovery returns an error exactly on a wrong length, or when the abscissa that the signature
      names, reduced modulo p, belongs to no curve point. */
  lemma RecoveryFailsIff(c: Curve, hash: seq<byte>, sig: seq<byte>)
    requires SigningCurve(c)
    ensures RecoveredKey(c, hash, sig) == Failed <==>
      || |sig| != 65 || |hash| != 32
      || !exists y: nat :: OnCurve(c, Point(RecoveryX(c, sig) % c.p, y))
  {
    assert c.p > 0;
    hide RecoveryX, RecoverySteps, Decompressed, OnCurve, PrimeOrderGroup;
    if |sig| == 65 && |hash| == 32 {
      var even := RecoveryId(sig[64]) % 2 == 0;
      DecompressedOfReduced(c, RecoveryX(c, sig), even);
      DecompressFailsIff(c, RecoveryX(c, sig) % c.p, even);
      if RecoveryY(c, sig).None? { NoKeyWithoutPoint(c, hash, sig); }
    }
  }

  /** The decision for a decoded point, reduced or not. */
  lemma RecoveryDecided(c: Curve, a: Point, s: nat, e: nat, r: nat, nonce: Point, s0: nat, d: nat)
    requires SigningCurve(c) && OnCurve(c, Reduced(c, a)) && OnCurve(c, nonce)
    requires s < WORD && e < WORD && e % c.n != 0 && d % c.n != 0
    requires s0 < c.n && s == LowS(c.n, s0) && r < c.n
    requires Reduced(c, a).x == nonce.x ==> a == nonce
    requires Mul(c, Blend(r, d, e), c.g) == Mul(c, s0, nonce)
    ensures RecoverySteps(c, a, s, e, r) == Some(Mul(c, d, c.g))
       <==> r != 0 && (s0 == 0 || (s0 <= c.n / 2 && a.x == nonce.x))
  {
    var b := Reduced(c, a);
    SmallRemainder(r, c.n);
    if r == 0 {
      ZeroHasNoInverse(c.n);
      hide Mul, OnCurve, PrimeOrderGroup, ModInverse, DoubleAndAdd, TrySum;
    } else {
      StepsIff(c, b, s, e, r, d);
      LowSAgrees(c, b, nonce, s0);
      hide Mul, PrimeOrderGroup, RecoverySteps;
      if a.x >= c.p {
        StepsOfUnreduced(c, a, s, e, r);
      } else {
        SmallRemainder(a.x, c.p);
        assert a == b;
      }
    }
  }

  /** What decompression returns stands for a curve point, whatever x was asked for. */
  lemma DecompressedOnCurve(c: Curve, x: nat, even: bool)
    requires ValidCurve(c) && Decompressed(c, x, even).Some?
    ensures OnCurve(c, Reduced(c, Point(x, Decompressed(c, x, even).value)))
  {
    hide Decompressed, IsPrime;
    DecompressSound(c, x, even);
    var y := Decompressed(c, x, even).value;
    RhsReduced(c, x);
    assert !Divides(c.p, Rhs(c, x % c.p));
    hide Rhs;
    CongIffSameMod(Rhs(c, x), Rhs(c, x % c.p), c.p);
    CongTransitive(y * y, Rhs(c, x), Rhs(c, x % c.p), c.p);
  }

  /** The decoded point of a fresh signature shares its abscissa with the nonce point only when it
      is that point. */
  lemma DecodedPoint(c: Curve, d: nat, e: nat, k: nat)
    requires SigningCurve(c) && k % c.n != 0 && RecoveryY(c, Signature(c, d, e, k)).Some?
    ensures var a, nonce := RecoveryPoint(c, Signature(c, d, e, k)), NoncePoint(c, k);
      OnCurve(c, Reduced(c, a)) && (Reduced(c, a).x == nonce.x ==> a == nonce)
  {
    var sig, nonce := Signature(c, d, e, k), NoncePoint(c, k);
    SignatureFacts(c, d, e, k);
    SignatureFields(c, d, e, k);
    DecompressedOnCurve(c, RecoveryX(c, sig), RecoveryId(sig[64]) % 2 == 0);
    assert RecoveryX(c, sig) == nonce.x % c.n || RecoveryX(c, sig) == nonce.x % c.n + c.n;
    hide Signature, NoncePoint, RawS, RecoveryX, Decompressed, PrimeOrderGroup, Rhs;
    WrapOnce(nonce.x, c.n);
    WrapOnce(RecoveryX(c, sig), c.p);
  }

  lemma RhsReduced(c: Curve, x: nat)
    requires c.p > 0
    ensures Cong(Rhs(c, x), Rhs(c, x % c.p), c.p)
  {
    var m := x % c.p;
    ModCong(x, c.p);
    assert Cong(c.b, c.b, c.p);
    CongProduct(x, m, x, m, c.p);
    CongProduct(x * x, m * m, x, m, c.p);
    CongSum(x * x * x, m * m * m, c.b, c.b, c.p);
  }

  /** Recovering from a signature gives the signer's key if and only if r is not zero, s was not
      flipped by the low-S step and the recovery id names the right abscissa: R.y is even when
      R.x < n and odd otherwise. (When s is zero any decodable abscissa will do.) For every valid
      key, every nonce and every hash that is not a multiple of n. */
  lemma RecoveryExact(c: Curve, d: nat, hash: seq<byte>, k: nat)
    requires SigningCurve(c) && k % c.n != 0 && d % c.n != 0 && |hash| == 32 && FromBytes(hash) % c.n != 0
    ensures RecoveredKey(c, hash, Signature(c, d, FromBytes(hash), k)) == Key(PublicKey(c, d))
       <==> SigR(c, k) != 0
            && if RawS(c, d, FromBytes(hash), k) == 0
               then RecoveryY(c, Signature(c, d, FromBytes(hash), k)).Some?
               else && RawS(c, d, FromBytes(hash), k) <= c.n / 2
                    && (NoncePoint(c, k).x < c.n <==> NoncePoint(c, k).y % 2 == 0)
  {
    var e := FromBytes(hash);
    var sig, s0, nonce := Signature(c, d, e, k), RawS(c, d, e, k), NoncePoint(c, k);
    SignatureFacts(c, d, e, k);
    SignatureFields(c, d, e, k);
    if RecoveryY(c, sig).Some? { DecodedPoint(c, d, e, k); }
    hide Signature, RawS, NoncePoint, SigR, RecoveryX, RecoveryY, ModInverse, PrimeOrderGroup, RecoveredKey, PublicKey;
    hide Mul, OnCurve, Reduced, RecoverySteps, FromBytes;
    WordBound(sig[32..64]);
    WordBound(hash);
    if RecoveryY(c, sig).Some? {
      RecoveredKeyIff(c, hash, sig, d);
      RecoveryDecided(c, RecoveryPoint(c, sig), FromBytes(sig[32..64]), e, FromBytes(sig[..32]), nonce, s0, d);
    } else {
      NoKeyWithoutPoint(c, hash, sig);
    }
  }

  /** The round trip: for a key and a hash that are not multiples of n, an even R.y and 0 < R.x < n,
      recovery returns the signer's key whenever the low-S step did nothing. */
  lemma RecoveryInvertsSigning(c: Curve, d: nat, hash: seq<byte>, k: nat)
    requires SigningCurve(c) && k % c.n != 0 && |hash| == 32
    requires d % c.n != 0 && FromBytes(hash) % c.n != 0
    requires NoncePoint(c, k).y % 2 == 0 && 0 < NoncePoint(c, k).x < c.n
    requires RawS(c, d, FromBytes(hash), k) <= c.n / 2
    ensures RecoveredKey(c, hash, Signature(c, d, FromBytes(hash), k)) == Key(PublicKey(c, d))
  {
    SignatureFacts(c, d, FromBytes(hash), k);
    SmallRemainder(NoncePoint(c, k).x, c.n);
    RecoveryExact(c, d, hash, k);
  }

  /** A failing family: with the nonce n - 1, on a generator like secp256k1's, R is the reflected
      generator and R.y is odd, so recovery misses every key whose s is not zero. */
  lemma LastNonceMissesKey(c: Curve, d: nat, hash: seq<byte>)
    requires SigningCurve(c) && c.g.x < c.n && c.g.y % 2 == 0
    requires d % c.n != 0 && |hash| == 32 && FromBytes(hash) % c.n != 0
    ensures (c.n - 1) % c.n != 0
    ensures RawS(c, d, FromBytes(hash), c.n - 1) != 0 ==>
      RecoveredKey(c, hash, Signature(c, d, FromBytes(hash), c.n - 1)) != Key(PublicKey(c, d))
  {
    LastNoncePoint(c);
    hide NoncePoint, RawS, Signature, RecoveredKey, PublicKey, SigR, RecoveryY, Mul, OnCurve, PrimeOrderGroup;
    RecoveryExact(c, d, hash, c.n - 1);
  }

  lemma LastNoncePoint(c: Curve)
    requires SigningCurve(c)
    ensures (c.n - 1) % c.n != 0
    ensures NoncePoint(c, c.n - 1) == Negate(c, c.g)
    ensures c.g.y % 2 == 0 ==> NoncePoint(c, c.n - 1).y % 2 == 1
  {
    hide Mul, OnCurve, Rhs, Associative;
    LastMultiple(c);
    assert c.p % 4 == 3 && c.n > 1;
    hide *;
    OddReflection(c.p, c.g.y);
    SmallRemainder(c.n - 1, c.n);
    LastIsNonce(c);
  }

  lemma LastIsNonce(c: Curve)
    requires SigningCurve(c) && c.n > 0
    ensures NoncePoint(c, c.n - 1) == Mul(c, c.n - 1, c.g) && Negate(c, c.g) == Point(c.g.x, c.p - c.g.y)
  {
    hide Mul;
  }

  lemma OddReflection(p: nat, y: nat)
    requires p % 4 == 3
    ensures y % 2 == 0 ==> (p - y) % 2 == 1
  {
    var q, h := p / 4, y / 2;
    assert p == 4 * q + 3;
    if y % 2 == 0 { assert p - y == 2 * (2 * q + 1 - h) + 1; }
  }

  lemma LastMultiple(c: Curve)
    requires SigningCurve(c)
    ensures c.n > 0 && Mul(c, c.n - 1, c.g) == Negate(c, c.g)
  {
    assert c.n > 1;
    hide Mul, Sum, SumDefined, Associative, IsPrime, Rhs;
    SmallRemainder(1, c.n);
    MulOne(c, c.g);
    NegateIsComplement(c, 1, c.g);
    hide PrimeOrderGroup, OnCurve, Negate;
  }
}
