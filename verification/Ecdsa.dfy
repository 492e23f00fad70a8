/** ECDSA signing and public-key recovery as the relay computes them (section 4.1 of SEC 1),
    through the 65-byte encoding R || S || V. */
module Ecdsa {
  import opened Bytes
  import opened NumberTheory
  import opened Secp256k1
  import opened CurveGroup

  /** A prime-order curve whose field and scalars fill 32 bytes, as secp256k1's do. */
  ghost predicate SigningCurve(c: Curve) {
    && PrimeOrderGroup(c)
    && c.n % 2 == 1 && c.n < c.p < WORD < 2 * c.n
  }

  // --- Signing ------------------------------------------------------------------

  function LowS(n: nat, s: nat): (r: nat)
    requires s < n
    ensures r <= n / 2 && (r == s || r == n - s)
  {
    if s > n / 2 then n - s else s
  }

  ghost function NoncePoint(c: Curve, k: nat): (r: Point)
    requires ValidCurve(c) && IsPoint(c, c.g)
    ensures IsPoint(c, r)
  {
    Mul(c, k, c.g)
  }

  ghost function SigR(c: Curve, k: nat): (r: nat)
    requires SigningCurve(c)
    ensures r < c.n
  {
    NoncePoint(c, k).x % c.n
  }

  /** r*d + e, the scalar that k*s has to match. */
  function Blend(r: nat, d: nat, e: nat): nat { r * d + e }

  /** s before the low-S step. */
  ghost function RawS(c: Curve, d: nat, e: nat, k: nat): (s: nat)
    requires SigningCurve(c) && k % c.n != 0
    ensures s < c.n
  {
    InvertibleScalar(c, k);
    (Blend(SigR(c, k), d, e) * ModInverse(k, c.n).value) % c.n
  }

  function Encoding(r: nat, s: nat, odd: bool): (sig: seq<byte>)
    requires |ToBytes(r)| <= 32 && |ToBytes(s)| <= 32
    ensures |sig| == 65
  {
    Padded(r, 32) + Padded(s, 32) + [if odd then 28 else 27]
  }

  ghost function Signature(c: Curve, d: nat, e: nat, k: nat): (sig: seq<byte>)
    requires SigningCurve(c) && k % c.n != 0
    ensures |sig| == 65
  {
    var r, s := SigR(c, k), LowS(c.n, RawS(c, d, e, k));
    WordFits(r);
    WordFits(s);
    Encoding(r, s, NoncePoint(c, k).y % 2 != 0)
  }

  /** A scalar of at most 256 bits never meets infinity before its last bit. */
  lemma ShortScalarSafe(c: Curve, k: nat, a: Point)
    requires SigningCurve(c) && OnCurve(c, a) && k < WORD
    ensures NoEarlyInfinity(c, k, a)
  {
    hide Prefix, Mul, OnCurve;
    forall i: nat | 1 <= i ensures FiniteAt(c, Prefix(k, i), a) {
      PrefixHalves(k, i);
      if Prefix(k, i) > 0 { SmallMultipleFinite(c, Prefix(k, i), a); }
    }
  }

  lemma SmallMultipleFinite(c: Curve, m: nat, a: Point)
    requires SigningCurve(c) && OnCurve(c, a) && 0 < m < c.n
    ensures Mul(c, m, a) != INFINITY
  {
    hide Mul, OnCurve, PrimeOrderGroup;
    MulZeroIff(c, m, a);
    SmallRemainder(m, c.n);
  }

  lemma ShortScalarMultiple(c: Curve, k: nat, a: Point)
    requires SigningCurve(c) && OnCurve(c, a) && k < WORD
    ensures DoubleAndAdd(c, a, k) == Some(Mul(c, k, a))
  {
    ShortScalarSafe(c, k, a);
    DoubleAndAddExact(c, a, k);
  }

  /** `ScalarMult` for a scalar of at most 32 bytes. */
  method ShortScalarMult(c: Curve, a: Point, k: seq<byte>) returns (r: Point)
    requires SigningCurve(c) && OnCurve(c, a) && FromBytes(k) < WORD
    ensures r == Mul(c, FromBytes(k), a)
  {
    ShortScalarMultiple(c, FromBytes(k), a);
    var multiple := ScalarMult(c, a, k);
    r := multiple.value;
  }

  method ScalarBaseMult(c: Curve, k: seq<byte>) returns (r: Point)
    requires SigningCurve(c) && FromBytes(k) < WORD
    ensures r == NoncePoint(c, FromBytes(k))
  {
    r := ShortScalarMult(c, c.g, k);
  }

  lemma RawSteps(c: Curve, d: nat, e: nat, k: nat)
    requires SigningCurve(c) && k % c.n != 0
    ensures ModInverse(k, c.n).Some?
    ensures RawS(c, d, e, k) == ((SigR(c, k) * d + e) * ModInverse(k, c.n).value) % c.n < c.n
  {
    InvertibleScalar(c, k);
    hide ModInverse, SigR, PrimeOrderGroup;
  }

  /** (r, s) = (x(k*G) mod n, k^-1 * (e + r*d) mod n), s brought to its low form. */
  method SignScalars(c: Curve, d: nat, e: nat, k: nat) returns (r: nat, s: nat)
    requires SigningCurve(c) && 0 < k < c.n && k % c.n == k
    ensures r == SigR(c, k) && s == LowS(c.n, RawS(c, d, e, k))
  {
    InvertibleScalar(c, k);
    hide ModInverse, Mul, PrimeOrderGroup, ToBytes, FromBytes, RawS;
    FromToBytes(k);
    var nonce := ScalarBaseMult(c, ToBytes(k));
    r := nonce.x % c.n;
    var kInv := ModInverse(k, c.n).value;
    s := r * d;
    s := s + e;
    s := s * kInv;
    s := s % c.n;
    RawSteps(c, d, e, k);
    var halfN := c.n / 2;
    if s > halfN { s := c.n - s; }
  }

  /** The nonce k is any value the deterministic generator may return. */
  method EcdsaSign(c: Curve, d: nat, hash: seq<byte>, k: nat) returns (res: Option<seq<byte>>)
    requires SigningCurve(c) && 0 < k < c.n
    ensures k % c.n != 0
    ensures res == if |hash| != 32 then None else Some(Signature(c, d, FromBytes(hash), k))
  {
    hide Mul, OnCurve, PrimeOrderGroup, ToBytes, FromBytes;
    SmallRemainder(k, c.n);
    if |hash| != 32 { return None; }
    var r, s := SignScalars(c, d, FromBytes(hash), k);
    hide RawS, SigR;
    var v: byte := 27;
    FromToBytes(k);
    var pub := ScalarBaseMult(c, ToBytes(k));
    if pub.y % 2 != 0 { v := 28; }
    WordFits(r);
    WordFits(s);
    var bytes := WriteSignature(r, s, v);
    res := Some(bytes);
  }

  lemma InvertibleScalar(c: Curve, k: nat)
    requires SigningCurve(c) && k % c.n != 0
    ensures ModInverse(k, c.n).Some?
    ensures Cong(k * ModInverse(k, c.n).value, 1, c.n)
  {
    PrimeInverse(k, c.n);
  }

  /** Lays r, s and v out in a fresh 65-byte buffer. */
  method WriteSignature(r: nat, s: nat, v: byte) returns (bytes: seq<byte>)
    requires |ToBytes(r)| <= 32 && |ToBytes(s)| <= 32
    ensures bytes == Padded(r, 32) + Padded(s, 32) + [v]
  {
    var sig := new byte[65](_ => 0);
    var rBytes, sBytes := ToBytes(r), ToBytes(s);
    CopyInto(sig, 32 - |rBytes|, rBytes);
    assert sig[..32] == Padded(r, 32);
    assert sig[32..] == Zeros(33);
    CopyInto(sig, 64 - |sBytes|, sBytes);
    assert sig[..32] == Padded(r, 32);
    assert sig[32..64] == Padded(s, 32);
    sig[64] := v;
    assert sig[..32] == Padded(r, 32);
    assert sig[32..64] == Padded(s, 32);
    assert sig[..] == sig[..32] + sig[32..64] + [sig[64]];
    return sig[..];
  }

  /** The s of a signature is at most n/2 on both branches (the low-S rule of EIP-2). */
  lemma SignatureIsLowS(c: Curve, d: nat, e: nat, k: nat)
    requires SigningCurve(c) && k % c.n != 0
    ensures FromBytes(Signature(c, d, e, k)[32..64]) <= c.n / 2
    ensures FromBytes(Signature(c, d, e, k)[..32]) == SigR(c, k)
  {
    SignatureFields(c, d, e, k);
  }

  lemma SignatureFields(c: Curve, d: nat, e: nat, k: nat)
    requires SigningCurve(c) && k % c.n != 0
    ensures var sig := Signature(c, d, e, k);
      && FromBytes(sig[..32]) == SigR(c, k)
      && FromBytes(sig[32..64]) == LowS(c.n, RawS(c, d, e, k))
      && sig[64] == if NoncePoint(c, k).y % 2 != 0 then 28 else 27
  {
    var r, s := SigR(c, k), LowS(c.n, RawS(c, d, e, k));
    var sig := Signature(c, d, e, k);
    WordFits(r);
    WordFits(s);
    assert sig[..32] == Padded(r, 32);
    assert sig[32..64] == Padded(s, 32);
  }

  // --- Recovery ------------------------------------------------------------------

  function RecoveryId(v: byte): byte { if v >= 27 then v - 27 else v }

  /** x = r, or r + n for a nonzero recovery id. */
  function RecoveryX(c: Curve, sig: seq<byte>): nat
    requires |sig| == 65
  {
    FromBytes(sig[..32]) + if RecoveryId(sig[64]) > 0 then c.n else 0
  }

  function RecoveryY(c: Curve, sig: seq<byte>): Option<nat>
    requires |sig| == 65 && c.p > 1
  {
    Decompressed(c, RecoveryX(c, sig), RecoveryId(sig[64]) % 2 == 0)
  }

  function RecoveryPoint(c: Curve, sig: seq<byte>): Point
    requires |sig| == 65 && c.p > 1 && RecoveryY(c, sig).Some?
  {
    Point(RecoveryX(c, sig), RecoveryY(c, sig).value)
  }

  /** r^-1 * (s*R - e*G). */
  ghost function Recovered(c: Curve, a: Point, s: nat, e: nat, rInv: nat): (q: Point)
    requires SigningCurve(c) && OnCurve(c, a) && e % c.n != 0
    ensures IsPoint(c, q)
  {
    NegateIsComplement(c, e, c.g);
    SumIsPoint(c, Mul(c, s, a), Negate(c, Mul(c, e, c.g)));
    Mul(c, rInv, Sum(c, Mul(c, s, a), Negate(c, Mul(c, e, c.g))))
  }

  /** The 64 bytes whose Keccak hash gives the address. */
  function KeyBytes(q: Point): (s: seq<byte>)
    requires |ToBytes(q.x)| <= 32 && |ToBytes(q.y)| <= 32
    ensures |s| == 64
  {
    Padded(q.x, 32) + Padded(q.y, 32)
  }

  /** The key bytes of d*G. */
  ghost function PublicKey(c: Curve, d: nat): (s: seq<byte>)
    requires SigningCurve(c)
    ensures |s| == 64
  {
    PointFits(c, Mul(c, d, c.g));
    KeyBytes(Mul(c, d, c.g))
  }

  lemma PointFits(c: Curve, q: Point)
    requires SigningCurve(c) && IsPoint(c, q)
    ensures |ToBytes(q.x)| <= 32 && |ToBytes(q.y)| <= 32
  {
    WordFits(q.x);
    WordFits(q.y);
  }

  /** The first half reads as x, the second as y. */
  lemma KeyBytesFields(q: Point)
    requires q.x < WORD && q.y < WORD
    ensures |ToBytes(q.x)| <= 32 && |ToBytes(q.y)| <= 32
    ensures FromBytes(KeyBytes(q)[..32]) == q.x && FromBytes(KeyBytes(q)[32..]) == q.y
  {
    WordFits(q.x);
    WordFits(q.y);
    hide ToBytes, FromBytes;
    assert KeyBytes(q)[..32] == Padded(q.x, 32) && KeyBytes(q)[32..] == Padded(q.y, 32);
  }

  /** The public key is x(d*G), then y(d*G). */
  lemma PublicKeyFields(c: Curve, d: nat)
    requires SigningCurve(c)
    ensures FromBytes(PublicKey(c, d)[..32]) == Mul(c, d, c.g).x && FromBytes(PublicKey(c, d)[32..]) == Mul(c, d, c.g).y
  {
    var q := Mul(c, d, c.g);
    PointFits(c, q);
    hide Mul, FromBytes, ToBytes;
    KeyBytesFields(q);
  }

  lemma KeyBytesInjective(a: Point, b: Point)
    requires a.x < WORD && a.y < WORD && b.x < WORD && b.y < WORD
    ensures |ToBytes(a.x)| <= 32 && |ToBytes(a.y)| <= 32 && |ToBytes(b.x)| <= 32 && |ToBytes(b.y)| <= 32
    ensures KeyBytes(a) == KeyBytes(b) <==> a == b
  {
    WordFits(a.x); WordFits(a.y); WordFits(b.x); WordFits(b.y);
    if KeyBytes(a) == KeyBytes(b) {
      assert Padded(a.x, 32) == KeyBytes(a)[..32] && Padded(b.x, 32) == KeyBytes(b)[..32];
      assert Padded(a.y, 32) == KeyBytes(a)[32..] && Padded(b.y, 32) == KeyBytes(b)[32..];
    }
  }

  /** The arithmetic of recovery on any coordinates: r^-1 * (s*a - e*G). None where it stops, on a
      missing inverse. */
  ghost function RecoverySteps(c: Curve, a: Point, s: nat, e: nat, r: nat): (q: Option<Point>)
    requires SigningCurve(c) && e < WORD
    ensures q.Some? ==> q.value.x < WORD && q.value.y < WORD
  {
    ShortScalarMultiple(c, e, c.g);
    var rInv, sR, eG := ModInverse(r, c.n), DoubleAndAdd(c, a, s), Mul(c, e, c.g);
    if sR.None? then None
    else
      var diff := TrySum(c, sR.value, Point(eG.x, c.p - eG.y));
      if diff.None? || rInv.None? then None
      else (DifferenceReduced(c, sR.value, eG);
            MultipleReduced(c, diff.value, rInv.value);
            DoubleAndAdd(c, diff.value, rInv.value))
  }

  /** No coordinate exceeds p. */
  predicate AtMostP(c: Curve, a: Point) { a.x <= c.p && a.y <= c.p }

  lemma DifferenceReduced(c: Curve, a: Point, m: Point)
    requires c.p > 1 && IsPoint(c, m)
    ensures var diff := TrySum(c, a, Point(m.x, c.p - m.y)); diff.Some? ==> AtMostP(c, diff.value)
  {
    hide ModInverse, TwiceSlope, ChordSlope;
  }

  lemma {:induction false} MultipleReduced(c: Curve, a: Point, k: nat)
    requires c.p > 1 && AtMostP(c, a)
    ensures DoubleAndAdd(c, a, k).Some? ==> AtMostP(c, DoubleAndAdd(c, a, k).value)
  {
    hide ModInverse, TwiceSlope, ChordSlope;
    if k > 1 { MultipleReduced(c, a, k / 2); }
  }

  /** Failed is the error return, Stopped a nil inverse. */
  datatype Recovery = Key(bytes: seq<byte>) | Failed | Stopped

  ghost function RecoveredKey(c: Curve, hash: seq<byte>, sig: seq<byte>): Recovery
    requires SigningCurve(c)
  {
    if |sig| != 65 || |hash| != 32 || RecoveryY(c, sig).None? then Failed
    else
      WordBound(hash);
      var q := RecoverySteps(c, RecoveryPoint(c, sig), FromBytes(sig[32..64]), FromBytes(hash), FromBytes(sig[..32]));
      if q.None? then Stopped
      else (WordFits(q.value.x); WordFits(q.value.y); Key(KeyBytes(q.value)))
  }

  /** Whatever key is returned, its bytes read as the coordinates of r^-1 * (s*R - e*G), for r, s and
      e as the signature and the hash hold them. */
  lemma RecoveredFields(c: Curve, hash: seq<byte>, sig: seq<byte>)
    requires SigningCurve(c) && RecoveredKey(c, hash, sig).Key?
    ensures |sig| == 65 && |hash| == 32 && RecoveryY(c, sig).Some?
    ensures FromBytes(hash) < WORD
    ensures var bytes := RecoveredKey(c, hash, sig).bytes;
      |bytes| == 64 &&
      RecoverySteps(c, RecoveryPoint(c, sig), FromBytes(sig[32..64]), FromBytes(hash), FromBytes(sig[..32]))
      == Some(Point(FromBytes(bytes[..32]), FromBytes(bytes[32..])))
  {
    WordBound(hash);
    hide FromBytes, ToBytes, RecoverySteps;
    var q := RecoverySteps(c, RecoveryPoint(c, sig), FromBytes(sig[32..64]), FromBytes(hash), FromBytes(sig[..32]));
    KeyBytesFields(q.value);
  }

  /** The recovery id: both 0 and 27 ask for x = r and an even y, any other byte for x = r + n, and
      for an odd y when it stands for an odd id. */
  lemma RecoveryPointReads(c: Curve, sig: seq<byte>)
    requires ValidCurve(c) && |sig| == 65 && RecoveryY(c, sig).Some?
    ensures var a, v := RecoveryPoint(c, sig), sig[64];
      && a.x == FromBytes(sig[..32]) + (if v == 0 || v == 27 then 0 else c.n)
      && (a.y % 2 == 1 <==> (v < 27 && v % 2 == 1) || (v > 27 && v % 2 == 0))
  {
    hide FromBytes, Decompressed;
    DecompressSound(c, RecoveryX(c, sig), RecoveryId(sig[64]) % 2 == 0);
  }

  /** The 64 key bytes of the signer, for any hash and signature. */
  method RecoverSigner(c: Curve, hash: seq<byte>, sig: seq<byte>) returns (res: Recovery)
    requires SigningCurve(c)
    ensures res == RecoveredKey(c, hash, sig)
  {
    hide ModInverse, Mul, OnCurve, PrimeOrderGroup, ToBytes, FromBytes, Sum, SumDefined;
    if |sig| != 65 || |hash| != 32 { return Failed; }
    var r := FromBytes(sig[..32]);
    var s := FromBytes(sig[32..64]);
    var v := sig[64];
    if v >= 27 { v := v - 27; }
    var x := r;
    if v > 0 { x := x + c.n; }
    var y := DecompressPoint(c, x, v % 2 == 0);
    if y.None? { return Failed; }
    var e := FromBytes(hash);
    WordBound(hash);
    hide Decompressed;
    var q := RecoverPoint(c, Point(x, y.value), s, e, r);
    if q.None? { return Stopped; }
    WordFits(q.value.x);
    WordFits(q.value.y);
    var bytes := WriteKey(q.value);
    res := Key(bytes);
  }

  /** Three scalar multiplications and one addition. */
  method RecoverPoint(c: Curve, a: Point, s: nat, e: nat, r: nat) returns (q: Option<Point>)
    requires SigningCurve(c) && e < WORD
    ensures q == RecoverySteps(c, a, s, e, r)
  {
    hide Mul, OnCurve, PrimeOrderGroup, ToBytes, FromBytes, TrySum, ModInverse, DoubleAndAdd;
    var rInv := ModInverse(r, c.n);
    FromToBytes(s);
    FromToBytes(e);
    var sR := ScalarMult(c, a, ToBytes(s));
    if sR.None? { return None; }
    var eG := ScalarBaseMult(c, ToBytes(e));
    ReducedPoint(c, e);
    var negEgy := c.p - eG.y;
    var diff := Add(c, sR.value, Point(eG.x, negEgy));
    if diff.None? { return None; }
    if rInv.None? { return None; }
    FromToBytes(rInv.value);
    q := ScalarMult(c, diff.value, ToBytes(rInv.value));
  }

  lemma ReducedPoint(c: Curve, e: nat)
    requires SigningCurve(c)
    ensures NoncePoint(c, e).y <= c.p
  {}

  lemma InverseReduced(a: int, m: nat)
    requires m > 1 && ModInverse(a, m).Some?
    ensures ModInverse(a, m).value < m
  {}

  /** A difference of distinct points is a finite point. */
  lemma DifferenceOnCurve(c: Curve, a: Point, e: nat)
    requires SigningCurve(c) && IsPoint(c, a) && e % c.n != 0 && a != Mul(c, e, c.g)
    ensures OnCurve(c, Mul(c, e, c.g))
    ensures SumDefined(c, a, Negate(c, Mul(c, e, c.g)))
    ensures OnCurve(c, Sum(c, a, Negate(c, Mul(c, e, c.g))))
  {
    DifferenceCancels(c, a, e);
  }

  /** (a - e*G) + e*G = a. */
  lemma DifferenceCancels(c: Curve, a: Point, e: nat)
    requires SigningCurve(c) && IsPoint(c, a) && e % c.n != 0
    ensures OnCurve(c, Mul(c, e, c.g))
    ensures var m := Mul(c, e, c.g);
      && SumDefined(c, a, Negate(c, m)) && IsPoint(c, Sum(c, a, Negate(c, m)))
      && SumDefined(c, Sum(c, a, Negate(c, m)), m) && Sum(c, Sum(c, a, Negate(c, m)), m) == a
  {
    hide Mul, OnCurve, SumDefined, Negate;
    var m := Mul(c, e, c.g);
    ComplementCancels(c, e);
    var neg := Negate(c, m);
    SumIsPoint(c, a, neg);
    SumIsPoint(c, Sum(c, a, neg), m);
    assert AssociativeAt(c, a, neg, m);
  }

  lemma ComplementCancels(c: Curve, e: nat)
    requires SigningCurve(c) && e % c.n != 0
    ensures var m := Mul(c, e, c.g);
      && OnCurve(c, m) && m.y <= c.p && OnCurve(c, Negate(c, m))
      && SumDefined(c, Negate(c, m), m) && Sum(c, Negate(c, m), m) == INFINITY
  {
    hide Mul, Sum, SumDefined, Negate;
    var back := c.n - e % c.n;
    NegateIsComplement(c, e, c.g);
    NegateCancels(c, Mul(c, e, c.g));
    MulAdd(c, back, e, c.g);
    ComplementDivides(e, c.n);
    MulZeroIff(c, back + e, c.g);
  }

  /** On a curve point with s*a different from e*G the steps compute r^-1 * (s*R - e*G). */
  lemma DefinedSteps(c: Curve, a: Point, s: nat, e: nat, r: nat)
    requires SigningCurve(c) && OnCurve(c, a) && s < WORD && e < WORD && r % c.n != 0 && e % c.n != 0
    requires Mul(c, s, a) != Mul(c, e, c.g)
    ensures ModInverse(r, c.n).Some?
    ensures RecoverySteps(c, a, s, e, r) == Some(Recovered(c, a, s, e, ModInverse(r, c.n).value))
  {
    ShortScalarMultiple(c, e, c.g);
    hide Mul, OnCurve, PrimeOrderGroup, ToBytes, FromBytes, Sum, SumDefined, ModInverse, DoubleAndAdd, AtMostP;
    InvertibleScalar(c, r);
    InverseReduced(r, c.n);
    ShortScalarMultiple(c, s, a);
    DifferenceOnCurve(c, Mul(c, s, a), e);
    ShortScalarMultiple(c, ModInverse(r, c.n).value, Sum(c, Mul(c, s, a), Negate(c, Mul(c, e, c.g))));
  }

  method WriteKey(q: Point) returns (bytes: seq<byte>)
    requires |ToBytes(q.x)| <= 32 && |ToBytes(q.y)| <= 32
    ensures bytes == KeyBytes(q)
  {
    var pub := new byte[64](_ => 0);
    var xBytes, yBytes := ToBytes(q.x), ToBytes(q.y);
    CopyInto(pub, 32 - |xBytes|, xBytes);
    assert pub[..32] == Padded(q.x, 32);
    assert pub[32..] == Zeros(32);
    CopyInto(pub, 64 - |yBytes|, yBytes);
    assert pub[..32] == Padded(q.x, 32);
    assert pub[32..] == Padded(q.y, 32);
    assert pub[..] == pub[..32] + pub[32..];
    return pub[..];
  }
}
