/** The bounds of 64-bit and 128-bit integers, and products and floor quotients compared without the
    nonlinear solver. */
module IntegerMath {
  const U64: int := 0x1_0000000000000000
  const U128: int := 0x1_0000000000000000_0000000000000000

  type u128 = n: int | 0 <= n < U128 witness 0

  lemma MulMonotone(a: int, b: int, k: nat)
    ensures a <= b ==> a * k <= b * k
  {}

  lemma MulStrict(a: int, b: int, k: nat)
    ensures a < b ==> a * k + k <= b * k
  {
    if a < b {
      MulMonotone(a + 1, b, k);
      assert (a + 1) * k == a * k + k;
    }
  }

  lemma FloorBounds(n: int, d: nat)
    requires d > 0
    ensures d * (n / d) <= n < d * (n / d) + d
  {}

  /** n / d against a threshold k, without the division. */
  lemma FloorBelow(n: int, d: nat, k: int)
    requires d > 0
    ensures n / d < k <==> n < k * d
  {
    FloorBounds(n, d);
    MulStrict(n / d, k, d);
    MulMonotone(k, n / d, d);
  }

  lemma QuotientMonotone(a: int, b: int, d: nat)
    requires d > 0 && a <= b
    ensures a / d <= b / d
  {
    FloorBelow(b, d, a / d);
    FloorBounds(a, d);
  }
}
