/** The governance model's integer inference: rounded weights, a dot product, and a score by
    division toward zero, against the real-valued model it was exported from. */
module QuantisedModel {
  import opened IntegerMath
  import opened NumberTheory
  import opened RealArith

  const NUM_FEATURES := 11
  const INT32 := 0x8000_0000
  const INT64 := 0x8000_0000_0000_0000

  // --- Inference --------------------------------------------------------------------

  /** Sum of w[i] * x[i] over the first n pairs. */
  function Dot(weights: seq<int>, features: seq<int>, n: nat): int
    requires n <= |weights| && n <= |features|
  {
    if n == 0 then 0 else Dot(weights, features, n - 1) + weights[n - 1] * features[n - 1]
  }

  /** Pairs stop at the shorter list. */
  function Pairs(weights: seq<int>, features: seq<int>): nat {
    if |weights| <= |features| then |weights| else |features|
  }

  function Raw(weights: seq<int>, bias: int, features: seq<int>): int {
    bias + Dot(weights, features, Pairs(weights, features))
  }

  method InferRaw(weights: seq<int>, bias: int, features: seq<int>) returns (raw: int)
    ensures raw == Raw(weights, bias, features)
  {
    raw := bias;
    for i := 0 to Pairs(weights, features)
      invariant raw == bias + Dot(weights, features, i)
    {
      raw := raw + weights[i] * features[i];
    }
  }

  /** Division toward zero, from a floor division. */
  function TruncDiv(raw: int, scale: nat): int
    requires scale > 0
  {
    if raw >= 0 then raw / scale else -((-raw) / scale)
  }

  function Clamp(lo: int, hi: int, v: int): int {
    if v < lo then lo else if v > hi then hi else v
  }

  function Score(raw: int, scale: nat): int
    requires scale > 0
  {
    Clamp(0, 100, TruncDiv(raw, scale) + 50)
  }

  datatype Tier = Low | Med | High | Critical

  function Rank(t: Tier): nat {
    match t case Low => 0 case Med => 1 case High => 2 case Critical => 3
  }

  function ScoreToTier(score: int): Tier {
    if score <= 30 then Low else if score <= 55 then Med else if score <= 80 then High else Critical
  }

  const T1_MED_SCORE := 55
  const T2_HIGH_SCORE := 65
  const T3_CRIT_SCORE := 75

  /** The tier from the three ordinal scores. */
  function DeriveTier(med: int, high: int, crit: int): Tier {
    if crit >= T3_CRIT_SCORE then Critical
    else if high >= T2_HIGH_SCORE then High
    else if med >= T1_MED_SCORE then Med
    else Low
  }

  // --- Monotonicity -------------------------------------------------------------------

  /** TruncDiv is the quotient whose remainder has the sign of raw. */
  lemma TruncBounds(raw: int, scale: nat)
    requires scale > 0
    ensures var q := TruncDiv(raw, scale);
      && (raw >= 0 ==> q >= 0 && scale * q <= raw < scale * q + scale)
      && (raw <= 0 ==> q <= 0 && scale * q - scale < raw <= scale * q)
  {
    FloorBounds(raw, scale);
    FloorBounds(-raw, scale);
    FloorBelow(raw, scale, 0);
    FloorBelow(-raw, scale, 0);
    NegatedProduct(scale, (-raw) / scale);
  }

  lemma NegatedProduct(a: int, b: int)
    ensures a * (-b) == -(a * b)
  {}

  /** Exactly when the score reaches k. Division toward zero makes the steps at and below 50 open. */
  lemma ScoreAtLeastIff(raw: int, scale: nat, k: int)
    requires scale > 0 && 0 < k <= 100
    ensures 0 <= Score(raw, scale) <= 100
    ensures Score(raw, scale) >= k <==> if k > 50 then raw >= (k - 50) * scale else raw > (k - 51) * scale
  {
    var q := TruncDiv(raw, scale);
    TruncBounds(raw, scale);
    hide TruncDiv;
    assert Score(raw, scale) >= k <==> q >= k - 50;
    if k > 50 {
      MulStrict(q, k - 50, scale);
      MulMonotone(k - 50, q, scale);
    } else {
      MulMonotone(q, k - 51, scale);
      MulStrict(k - 51, q, scale);
      assert (k - 51) * scale + scale == (k - 50) * scale;
      MulMonotone(k - 50, q, scale);
    }
  }

  /** The tier of a raw value: its thresholds are -20, 6 and 31 times the scale. */
  lemma TierByRaw(raw: int, scale: nat)
    requires scale > 0
    ensures ScoreToTier(Score(raw, scale)) ==
      if raw <= -20 * scale then Low else if raw < 6 * scale then Med else if raw < 31 * scale then High else Critical
  {
    ScoreAtLeastIff(raw, scale, 31);
    ScoreAtLeastIff(raw, scale, 56);
    ScoreAtLeastIff(raw, scale, 81);
    hide Score;
  }

  /** The tier of three raw values: the highest of the tiers whose model reaches its threshold, at 5, 15
      and 25 times the scale. */
  lemma OrdinalTierByRaw(med: int, high: int, crit: int, scale: nat)
    requires scale > 0
    ensures var tier := DeriveTier(Score(med, scale), Score(high, scale), Score(crit, scale));
      && (tier == Critical <==> crit >= 25 * scale)
      && (tier == High <==> crit < 25 * scale && high >= 15 * scale)
      && (tier == Med <==> crit < 25 * scale && high < 15 * scale && med >= 5 * scale)
      && (tier == Low <==> crit < 25 * scale && high < 15 * scale && med < 5 * scale)
  {
    ScoreAtLeastIff(med, scale, 55);
    ScoreAtLeastIff(high, scale, 65);
    ScoreAtLeastIff(crit, scale, 75);
    hide Score;
  }

  /** A higher raw value never lowers the score or the tier, although division toward zero treats
      the two signs differently. */
  lemma ScoreMonotone(a: int, b: int, scale: nat)
    requires scale > 0 && a <= b
    ensures Score(a, scale) <= Score(b, scale)
    ensures Rank(ScoreToTier(Score(a, scale))) <= Rank(ScoreToTier(Score(b, scale)))
  {
    TruncBounds(a, scale);
    TruncBounds(b, scale);
    if a >= 0 { QuotientMonotone(a, b, scale); }
    if b < 0 { QuotientMonotone(-b, -a, scale); }
    hide TruncDiv;
  }

  /** Raising any one of the three ordinal scores never lowers the tier. */
  lemma DeriveTierMonotone(med: int, high: int, crit: int, med2: int, high2: int, crit2: int)
    requires med <= med2 && high <= high2 && crit <= crit2
    ensures Rank(DeriveTier(med, high, crit)) <= Rank(DeriveTier(med2, high2, crit2))
  {}

  /** Larger weights on non-negative features never lower the sum. */
  lemma {:induction false} DotMonotone(v: seq<int>, w: seq<int>, features: seq<int>, n: nat)
    requires n <= |v| && |v| == |w| && n <= |features|
    requires forall i :: 0 <= i < n ==> v[i] <= w[i] && features[i] >= 0
    ensures Dot(v, features, n) <= Dot(w, features, n)
  {
    if n > 0 {
      DotMonotone(v, w, features, n - 1);
      MulMonotone(v[n - 1], w[n - 1], features[n - 1]);
    }
  }

  datatype Linear = Linear(weights: seq<int>, bias: int)

  ghost predicate Dominates(l: Linear, m: Linear) {
    && |l.weights| == |m.weights| && l.bias <= m.bias
    && forall i :: 0 <= i < |l.weights| ==> l.weights[i] <= m.weights[i]
  }

  function LinearScore(l: Linear, features: seq<int>, scale: nat): int
    requires scale > 0
  {
    Score(Raw(l.weights, l.bias, features), scale)
  }

  /** The whole ordinal pipeline: three models with weights and biases no smaller, on the same
      features, derive a tier no lower. */
  lemma OrdinalTierMonotone(a: seq<Linear>, b: seq<Linear>, features: seq<int>, scale: nat)
    requires |a| == |b| == 3 && scale > 0 && forall i :: 0 <= i < |features| ==> features[i] >= 0
    requires forall i :: 0 <= i < 3 ==> Dominates(a[i], b[i])
    ensures Rank(DeriveTier(LinearScore(a[0], features, scale), LinearScore(a[1], features, scale),
                            LinearScore(a[2], features, scale)))
         <= Rank(DeriveTier(LinearScore(b[0], features, scale), LinearScore(b[1], features, scale),
                            LinearScore(b[2], features, scale)))
  {
    forall i | 0 <= i < 3 ensures LinearScore(a[i], features, scale) <= LinearScore(b[i], features, scale) {
      DotMonotone(a[i].weights, b[i].weights, features, Pairs(a[i].weights, features));
      ScoreMonotone(Raw(a[i].weights, a[i].bias, features), Raw(b[i].weights, b[i].bias, features), scale);
    }
    DeriveTierMonotone(LinearScore(a[0], features, scale), LinearScore(a[1], features, scale),
                       LinearScore(a[2], features, scale), LinearScore(b[0], features, scale),
                       LinearScore(b[1], features, scale), LinearScore(b[2], features, scale));
  }

  /** The documented mapping divides with floor. It gives the same score as the code exactly when
      raw is non-negative, a multiple of the scale, or low enough for both to clamp to 0. */
  lemma DocumentedScoreIff(raw: int, scale: nat)
    requires scale > 0
    ensures Score(raw, scale) == Clamp(0, 100, raw / scale + 50)
      <==> raw >= 0 || raw % scale == 0 || raw <= -50 * scale
  {
    var q, f := TruncDiv(raw, scale), raw / scale;
    TruncBounds(raw, scale);
    FloorBounds(raw, scale);
    if raw < 0 {
      FloorVersusTrunc(raw, scale, f, q);
      assert raw == scale * f + raw % scale;
      MulMonotone(q, -50, scale);
      MulStrict(-50, q, scale);
      hide TruncDiv;
    }
  }

  /** One below zero at the exporter's scale: the code gives 50, the documented formula 49. */
  lemma DocumentedScoreDiffers()
    ensures Score(-1, 10000) == 50 && Clamp(0, 100, -1 / 10000 + 50) == 49
  {}

  lemma FloorVersusTrunc(raw: int, scale: nat, f: int, q: int)
    requires scale > 0 && scale * f <= raw < scale * f + scale && scale * q - scale < raw <= scale * q
    ensures f == if scale * f == raw then q else q - 1
  {
    MulStrict(f, q - 1, scale);
    MulStrict(q - 1, f, scale);
    MulStrict(q, f, scale);
    MulStrict(f, q, scale);
    assert (q - 1) * scale == scale * q - scale;
  }

  // --- Validated features ------------------------------------------------------------------

  function Upper(i: nat): nat { if i == 6 then 10000 else if i == 7 then 50 else 1 }

  predicate InRange(features: seq<int>) {
    |features| == NUM_FEATURES && forall i :: 0 <= i < NUM_FEATURES ==> 0 <= features[i] <= Upper(i)
  }

  /** None stands for the ValueError on a wrong length. Values in range are kept; the others go to
      the nearest end of their range. */
  method ValidateFeatures(features: seq<int>) returns (r: Option<seq<int>>)
    ensures r.None? <==> |features| != NUM_FEATURES
    ensures r.Some? ==> InRange(r.value)
    ensures r.Some? ==> forall i :: 0 <= i < NUM_FEATURES ==>
      && (features[i] < 0 ==> r.value[i] == 0) && (features[i] > Upper(i) ==> r.value[i] == Upper(i))
      && (0 <= features[i] <= Upper(i) ==> r.value[i] == features[i])
  {
    if |features| != NUM_FEATURES { return None; }
    var clamped := [];
    for i := 0 to |features|
      invariant |clamped| == i
      invariant forall j :: 0 <= j < i ==> clamped[j] == Clamp(0, Upper(j), features[j])
    {
      clamped := clamped + [Clamp(0, Upper(i), features[i])];
    }
    return Some(clamped);
  }

  /** The documented ranges: flags, basis points and up to 50 modules. */
  lemma FeatureRanges(i: nat)
    requires i < NUM_FEATURES
    ensures Upper(i) == [1, 1, 1, 1, 1, 1, 10000, 50, 1, 1, 1][i]
  {}

  function Total(features: seq<int>, n: nat): int
    requires n <= |features|
  {
    if n == 0 then 0 else Total(features, n - 1) + features[n - 1]
  }

  function UpperTotal(n: nat): nat { if n == 0 then 0 else UpperTotal(n - 1) + Upper(n - 1) }

  lemma {:induction false} TotalInRange(features: seq<int>, n: nat)
    requires InRange(features) && n <= NUM_FEATURES
    ensures 0 <= Total(features, n) <= UpperTotal(n) <= 10059
  {
    if n > 0 {
      TotalInRange(features, n - 1);
      UpperTotalValues();
    }
  }

  lemma UpperTotalValues()
    ensures forall n :: 0 <= n <= NUM_FEATURES ==> UpperTotal(n) <= 10059
  {
    assert UpperTotal(6) == 6 by { assert UpperTotal(3) == 3; }
    assert UpperTotal(8) == 10056;
    assert UpperTotal(11) == 10059;
    assert UpperTotal(1) <= 2 && UpperTotal(2) <= 2 && UpperTotal(4) <= 4 && UpperTotal(5) <= 5;
    assert UpperTotal(7) <= 10056 && UpperTotal(9) <= 10059 && UpperTotal(10) <= 10059;
  }

  predicate Int32(v: int) { -INT32 <= v < INT32 }

  predicate Int64(v: int) { -INT64 <= v < INT64 }

  /** With 32-bit weights and validated features no product and no partial sum leaves 64 bits. */
  lemma PartialSumsFit(weights: seq<int>, bias: int, features: seq<int>, n: nat)
    requires |weights| == NUM_FEATURES && InRange(features) && n <= NUM_FEATURES
    requires Int32(bias) && forall i :: 0 <= i < NUM_FEATURES ==> Int32(weights[i])
    ensures Int64(bias + Dot(weights, features, n))
    ensures n < NUM_FEATURES ==> Int64(weights[n] * features[n])
  {
    DotBound(weights, features, n);
    TotalInRange(features, n);
    if n < NUM_FEATURES { ProductBound(weights[n], features[n]); }
  }

  lemma {:induction false} DotBound(weights: seq<int>, features: seq<int>, n: nat)
    requires |weights| == NUM_FEATURES && InRange(features) && n <= NUM_FEATURES
    requires forall i :: 0 <= i < NUM_FEATURES ==> Int32(weights[i])
    ensures -INT32 * Total(features, n) <= Dot(weights, features, n) <= INT32 * Total(features, n)
  {
    if n > 0 {
      DotBound(weights, features, n - 1);
      ProductBound(weights[n - 1], features[n - 1]);
    }
  }

  lemma ProductBound(w: int, x: nat)
    requires Int32(w)
    ensures -INT32 * x <= w * x <= INT32 * x
  {
    MulMonotone(w, INT32, x);
    MulMonotone(-INT32, w, x);
  }

  // --- Against the real-valued model ----------------------------------------------------------

  /** Python's `round`: to the nearest integer, halves to the even one. */
  function RoundHalfEven(x: real): int {
    var f := x.Floor;
    var rest := x - f as real;
    if rest < 0.5 then f else if rest > 0.5 then f + 1 else if f % 2 == 0 then f else f + 1
  }

  /** No integer is nearer, and only an odd one is as near. */
  lemma RoundNearest(x: real, k: int)
    ensures var r := RoundHalfEven(x);
      && AbsDiff(x, r as real) <= 0.5 && AbsDiff(x, r as real) <= AbsDiff(x, k as real)
      && (AbsDiff(x, r as real) == AbsDiff(x, k as real) && k != r ==> r % 2 == 0 && k % 2 == 1)
  {
    var f := x.Floor;
    assert k <= f || k >= f + 1;
    if k < f { assert k as real <= (f - 1) as real; }
    if k > f + 1 { assert k as real >= (f + 2) as real; }
  }

  function AbsDiff(a: real, b: real): real { if a <= b then b - a else a - b }

  function QuantizeWeights(weights: seq<real>, scale: nat): (r: seq<int>)
    ensures |r| == |weights|
  {
    seq(|weights|, i requires 0 <= i < |weights| => RoundHalfEven(Product(weights[i], scale as real)))
  }

  function QuantizeBias(bias: real, scale: nat): int { RoundHalfEven(Product(bias, scale as real)) }

  function RealDot(weights: seq<real>, features: seq<int>, n: nat): real
    requires n <= |weights| && n <= |features|
  {
    if n == 0 then 0.0 else RealDot(weights, features, n - 1) + Product(weights[n - 1], features[n - 1] as real)
  }

  /** The trained model's value w.x + b + 50, limited to [0, 100]. */
  function RealScore(weights: seq<real>, bias: real, features: seq<int>): real
    requires |weights| == |features|
  {
    ClampReal(RealDot(weights, features, |features|) + bias + 50.0)
  }

  function ClampReal(v: real): real { if v < 0.0 then 0.0 else if v > 100.0 then 100.0 else v }

  lemma {:induction false} CastProduct(w: int, x: nat)
    ensures (w * x) as real == Product(w as real, x as real)
  {
    if x == 0 {
      ProductUnits(w as real);
    } else {
      CastProduct(w, x - 1);
      assert w * x == w * (x - 1) + w;
      ProductSum(w as real, (x - 1) as real, 1.0);
      ProductUnits(w as real);
    }
  }

  /** One rounded weight contributes an error of at most half its feature. */
  lemma TermError(w: real, x: nat, scale: nat)
    ensures var q := RoundHalfEven(Product(w, scale as real));
      AbsDiff((q * x) as real, Product(scale as real, Product(w, x as real))) <= x as real / 2.0
  {
    var ws, q := Product(w, scale as real), RoundHalfEven(Product(w, scale as real));
    RoundNearest(ws, 0);
    CastProduct(q, x);
    ProductAssociates(scale as real, w, x as real);
    ProductCommutes(scale as real, w);
    ProductMonotone(q as real, ws + 0.5, x as real);
    ProductMonotone(ws - 0.5, q as real, x as real);
    ProductSum(x as real, ws, 0.5);
    ProductDifference(x as real, ws, 0.5);
    assert Product(0.5, x as real) == x as real / 2.0;
    hide Product, RoundHalfEven;
  }

  lemma {:induction false} DotError(weights: seq<real>, scale: nat, features: seq<int>, n: nat)
    requires n <= |weights| && n <= |features|
    requires forall i :: 0 <= i < |features| ==> features[i] >= 0
    ensures AbsDiff(Dot(QuantizeWeights(weights, scale), features, n) as real,
                    Product(scale as real, RealDot(weights, features, n))) <= Total(features, n) as real / 2.0
  {
    hide Product, RoundHalfEven;
    if n == 0 {
      ProductUnits(scale as real);
    } else {
      DotError(weights, scale, features, n - 1);
      TermError(weights[n - 1], features[n - 1], scale);
      ProductSum(scale as real, RealDot(weights, features, n - 1),
                 Product(weights[n - 1], features[n - 1] as real));
    }
  }

  /** The integer score is within 1 + (1 + sum of features) / (2 * scale) of the real-valued one:
      less than one unit from the division, the rest from rounding the weights and the bias. */
  lemma InferenceError(weights: seq<real>, bias: real, features: seq<int>, scale: nat)
    requires scale > 0 && |weights| == |features|
    requires forall i :: 0 <= i < |features| ==> features[i] >= 0
    ensures var raw := Raw(QuantizeWeights(weights, scale), QuantizeBias(bias, scale), features);
      AbsDiff(Score(raw, scale) as real, RealScore(weights, bias, features))
        < 1.0 + (1 + Total(features, |features|)) as real / (2 * scale) as real
  {
    var n, s := |features|, scale as real;
    var raw := Raw(QuantizeWeights(weights, scale), QuantizeBias(bias, scale), features);
    var y, sum := RealDot(weights, features, n) + bias, Total(features, n);
    DotError(weights, scale, features, n);
    RoundNearest(Product(bias, s), 0);
    ProductSum(s, RealDot(weights, features, n), bias);
    ProductCommutes(s, bias);
    assert AbsDiff(raw as real, Product(s, y)) <= (1 + sum) as real / 2.0 by { hide Product, RoundHalfEven, Dot, RealDot; }
    QuotientError(raw, scale, y, (1 + sum) as real / 2.0);
    HalfOverScale((1 + sum) as real, scale);
    ClampError(TruncDiv(raw, scale), y);
    hide Product, TruncDiv, RoundHalfEven, Dot, RealDot;
  }

  lemma HalfOverScale(v: real, scale: nat)
    requires scale > 0
    ensures v / 2.0 / scale as real == v / (2 * scale) as real
  {
    assert (2 * scale) as real == 2.0 * scale as real;
    assert v / 2.0 / scale as real * (2.0 * scale as real) == v;
  }

  lemma ClampError(q: int, y: real)
    ensures AbsDiff(Clamp(0, 100, q + 50) as real, ClampReal(y + 50.0)) <= AbsDiff(q as real, y)
  {}

  lemma QuotientError(raw: int, scale: nat, y: real, e: real)
    requires scale > 0 && AbsDiff(raw as real, Product(scale as real, y)) <= e
    ensures AbsDiff(TruncDiv(raw, scale) as real, y) < 1.0 + e / scale as real
  {
    var q, s, d := TruncDiv(raw, scale), scale as real, Quotient(e, scale as real);
    TruncBounds(raw, scale);
    assert scale * q == q * scale;
    CastProduct(q, scale);
    ProductCommutes(q as real, s);
    QuotientTimes(e, s);
    ProductCommutes(s, d);
    ProductUnits(s);
    ProductSum(s, y, 1.0 + d);
    ProductSum(s, 1.0, d);
    ProductDifference(s, y, 1.0 + d);
    Uncancel(s, q as real, y + (1.0 + d));
    Uncancel(s, y - (1.0 + d), q as real);
    hide Product, TruncDiv;
  }

  lemma Uncancel(s: real, a: real, b: real)
    requires s > 0.0
    ensures Product(s, a) < Product(s, b) ==> a < b
  {
    if b <= a { ProductMonotone(b, a, s); }
  }

  /** For validated features and the exporter's scale of 10000 that is less than 1.503. */
  lemma DefaultScaleError(weights: seq<real>, bias: real, features: seq<int>)
    requires |weights| == NUM_FEATURES && InRange(features)
    ensures var raw := Raw(QuantizeWeights(weights, 10000), QuantizeBias(bias, 10000), features);
      AbsDiff(Score(raw, 10000) as real, RealScore(weights, bias, features)) < 1.503
  {
    InferenceError(weights, bias, features, 10000);
    TotalInRange(features, NUM_FEATURES);
    assert (1 + Total(features, NUM_FEATURES)) as real / 20000.0 <= 10060.0 / 20000.0;
    hide *;
  }
}
