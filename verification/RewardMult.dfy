/** Budget-neutral normalisation of the validators' reward multipliers. */
module RewardMult {
  import opened RealArith
  import opened Inequality

  class ValidatorState {
    const index: nat
    var stake: real
    var multiplier: real
    var multiplierRaw: real
    var multiplierEma: real
    var rewardsEarned: real

    constructor (index: nat, stake: real)
      ensures this.index == index && this.stake == stake
      ensures multiplier == multiplierRaw == multiplierEma == 1.0 && rewardsEarned == 0.0
    {
      this.index := index;
      this.stake := stake;
      multiplier, multiplierRaw, multiplierEma, rewardsEarned := 1.0, 1.0, 1.0, 0.0;
    }
  }

  ghost predicate Distinct(vs: seq<ValidatorState>) {
    forall i, j :: 0 <= i < j < |vs| ==> vs[i] != vs[j]
  }

  function Stakes(vs: seq<ValidatorState>): (r: seq<real>)
    reads vs`stake
    ensures |r| == |vs| && forall i :: 0 <= i < |vs| ==> r[i] == vs[i].stake
  {
    if vs == [] then [] else Stakes(vs[..|vs| - 1]) + [vs[|vs| - 1].stake]
  }

  function Multipliers(vs: seq<ValidatorState>): (r: seq<real>)
    reads vs`multiplier
    ensures |r| == |vs| && forall i :: 0 <= i < |vs| ==> r[i] == vs[i].multiplier
  {
    if vs == [] then [] else Multipliers(vs[..|vs| - 1]) + [vs[|vs| - 1].multiplier]
  }

  /** The point of [lo, hi] that is nearest to v. */
  predicate Nearest(r: real, v: real, lo: real, hi: real) {
    lo <= r <= hi && (lo <= v <= hi ==> r == v) && (v < lo ==> r == lo) && (v > hi ==> r == hi)
  }

  function Clamp(v: real, lo: real, hi: real): (r: real)
    ensures lo <= hi ==> Nearest(r, v, lo, hi)
  {
    var capped := if v < hi then v else hi;
    if capped < lo then lo else capped
  }

  /** Sum of stake * multiplier. */
  function WeightedSum(ss: seq<real>, ms: seq<real>): real
    requires |ss| == |ms|
  {
    if ss == [] then 0.0 else Product(ss[0], ms[0]) + WeightedSum(ss[1..], ms[1..])
  }

  /** Scale every multiplier, then clamp it. */
  function Round(ms: seq<real>, scale: real, lo: real, hi: real): (r: seq<real>)
    ensures |r| == |ms|
    ensures forall i :: 0 <= i < |ms| ==> r[i] == Clamp(Product(ms[i], scale), lo, hi)
  {
    if ms == [] then [] else [Clamp(Product(ms[0], scale), lo, hi)] + Round(ms[1..], scale, lo, hi)
  }

  predicate ClampsNone(ms: seq<real>, scale: real, lo: real, hi: real) {
    forall i :: 0 <= i < |ms| ==> Clamp(Product(ms[i], scale), lo, hi) == Product(ms[i], scale)
  }

  /** At most n rounds, stopping after the first that clamps nothing. */
  function Normalized(ss: seq<real>, ms: seq<real>, target: real, lo: real, hi: real, n: nat): (r: seq<real>)
    requires |ss| == |ms|
    ensures |r| == |ms|
    decreases n
  {
    if n == 0 || WeightedSum(ss, ms) == 0.0 then ms
    else
      var scale := Quotient(target, WeightedSum(ss, ms));
      var next := Round(ms, scale, lo, hi);
      if ClampsNone(ms, scale, lo, hi) then next else Normalized(ss, next, target, lo, hi, n - 1)
  }

  method SumWeights(vs: seq<ValidatorState>) returns (sum: real)
    ensures sum == WeightedSum(Stakes(vs), Multipliers(vs))
  {
    sum := 0.0;
    var ss, ms := Stakes(vs), Multipliers(vs);
    for i := 0 to |vs|
      invariant sum + WeightedSum(ss[i..], ms[i..]) == WeightedSum(ss, ms)
    {
      sum := sum + Product(vs[i].stake, vs[i].multiplier);
      assert ss[i..][1..] == ss[i + 1..] && ms[i..][1..] == ms[i + 1..];
    }
  }

  method ApplyScale(vs: seq<ValidatorState>, scale: real, lo: real, hi: real) returns (anyClamped: bool)
    requires Distinct(vs)
    modifies vs`multiplier
    ensures Multipliers(vs) == Round(old(Multipliers(vs)), scale, lo, hi) && Stakes(vs) == old(Stakes(vs))
    ensures anyClamped <==> !ClampsNone(old(Multipliers(vs)), scale, lo, hi)
  {
    anyClamped := false;
    ghost var ms := Multipliers(vs);
    hide Product;
    for k := 0 to |vs|
      invariant forall i :: 0 <= i < k ==> vs[i].multiplier == Clamp(Product(ms[i], scale), lo, hi)
      invariant forall i :: k <= i < |vs| ==> vs[i].multiplier == ms[i]
      invariant anyClamped <==> exists i :: 0 <= i < k && Clamp(Product(ms[i], scale), lo, hi) != Product(ms[i], scale)
    {
      var newM := Product(vs[k].multiplier, scale);
      var clamped := Clamp(newM, lo, hi);
      if clamped != newM { anyClamped := true; }
      vs[k].multiplier := clamped;
    }
  }

  /** `_normalize_multipliers`, with the source's default of three rounds left to the caller. */
  method NormalizeMultipliers(vs: seq<ValidatorState>, totalStaked: real, lo: real, hi: real, maxIterations: nat)
    requires Distinct(vs)
    modifies vs`multiplier
    ensures Multipliers(vs) == if totalStaked == 0.0 then old(Multipliers(vs))
      else Normalized(old(Stakes(vs)), old(Multipliers(vs)), totalStaked, lo, hi, maxIterations)
  {
    if totalStaked == 0.0 { return; }
    hide *;
    ghost var ss, start := Stakes(vs), Multipliers(vs);
    LeadsFrom(ss, start, totalStaked, lo, hi, maxIterations);
    for i := 0 to maxIterations
      invariant Stakes(vs) == ss
      invariant Leads(ss, Multipliers(vs), start, totalStaked, lo, hi, maxIterations - i, maxIterations)
    {
      LeadsOn(ss, Multipliers(vs), start, totalStaked, lo, hi, maxIterations - i, maxIterations);
      var weightedSum := SumWeights(vs);
      if weightedSum == 0.0 { return; }
      var scale := Quotient(totalStaked, weightedSum);
      var anyClamped := ApplyScale(vs, scale, lo, hi);
      if !anyClamped { return; }
    }
    LeadsThere(ss, Multipliers(vs), start, totalStaked, lo, hi, maxIterations);
  }

  /** Normalising ms in m rounds gives what normalising start in n rounds does. */
  ghost predicate Leads(ss: seq<real>, ms: seq<real>, start: seq<real>, target: real, lo: real, hi: real, m: nat, n: nat) {
    |ss| == |ms| == |start| && Normalized(ss, ms, target, lo, hi, m) == Normalized(ss, start, target, lo, hi, n)
  }

  lemma LeadsFrom(ss: seq<real>, start: seq<real>, target: real, lo: real, hi: real, n: nat)
    requires |ss| == |start|
    ensures Leads(ss, start, start, target, lo, hi, n, n)
  {}

  lemma LeadsOn(ss: seq<real>, ms: seq<real>, start: seq<real>, target: real, lo: real, hi: real, m: nat, n: nat)
    requires Leads(ss, ms, start, target, lo, hi, m, n) && m > 0
    ensures |ss| == |ms| == |start|
    ensures var scale := Quotient(target, WeightedSum(ss, ms));
      if WeightedSum(ss, ms) == 0.0 then ms == Normalized(ss, start, target, lo, hi, n)
      else if ClampsNone(ms, scale, lo, hi) then Round(ms, scale, lo, hi) == Normalized(ss, start, target, lo, hi, n)
      else Leads(ss, Round(ms, scale, lo, hi), start, target, lo, hi, m - 1, n)
  {
    hide WeightedSum, Quotient, Round, ClampsNone;
  }

  lemma LeadsThere(ss: seq<real>, ms: seq<real>, start: seq<real>, target: real, lo: real, hi: real, n: nat)
    requires Leads(ss, ms, start, target, lo, hi, 0, n)
    ensures |ss| == |start| && ms == Normalized(ss, start, target, lo, hi, n)
  {}

  // --- What a round does ---------------------------------------------------------------

  ghost predicate AllWithin(ms: seq<real>, lo: real, hi: real) {
    forall m <- ms :: lo <= m <= hi
  }

  /** W moves toward the target without passing it. */
  predicate Toward(w: real, w': real, target: real) {
    (w <= target ==> w <= w' <= target) && (w >= target ==> target <= w' <= w)
  }

  lemma {:induction false} ScaledSum(ss: seq<real>, ms: seq<real>, c: real)
    requires |ss| == |ms|
    ensures WeightedSum(ss, Scaled(ms, c)) == Product(WeightedSum(ss, ms), c)
  {
    if ss == [] {
      ProductUnits(c);
    } else {
      ScaledSum(ss[1..], ms[1..], c);
      ProductAssociates(ss[0], ms[0], c);
      ProductSum(c, Product(ss[0], ms[0]), WeightedSum(ss[1..], ms[1..]));
      hide Product;
    }
  }

  lemma {:induction false} WeightedMonotone(ss: seq<real>, xs: seq<real>, ys: seq<real>)
    requires |ss| == |xs| == |ys| && NonNegative(ss)
    requires forall i :: 0 <= i < |xs| ==> xs[i] <= ys[i]
    ensures WeightedSum(ss, xs) <= WeightedSum(ss, ys)
  {
    if ss != [] {
      assert ss[0] in ss && forall s <- ss[1..] :: s in ss;
      hide Product;
      WeightedMonotone(ss[1..], xs[1..], ys[1..]);
      ProductMonotone(xs[0], ys[0], ss[0]);
    }
  }

  /** A scale of at least 1 lifts, one of at most 1 lowers, and the clamp only holds back. */
  lemma ClampBetween(m: real, scale: real, lo: real, hi: real)
    requires 0.0 <= lo <= m <= hi && scale > 0.0
    ensures scale >= 1.0 ==> m <= Clamp(Product(m, scale), lo, hi) <= Product(m, scale)
    ensures scale <= 1.0 ==> Product(m, scale) <= Clamp(Product(m, scale), lo, hi) <= m
  {
    hide Product;
    ProductUnits(m);
    if scale >= 1.0 { ProductMonotone(1.0, scale, m); }
    if scale <= 1.0 { ProductMonotone(scale, 1.0, m); }
  }

  lemma ScaleSide(target: real, w: real)
    requires target > 0.0 && w > 0.0
    ensures var scale := Quotient(target, w);
      && scale > 0.0 && Product(w, scale) == target
      && (w <= target <==> scale >= 1.0) && (w >= target <==> scale <= 1.0)
  {
    var scale := Quotient(target, w);
    QuotientTimes(target, w);
    hide Quotient, Product;
    ProductCommutes(scale, w);
    ProductUnits(w);
    ProductCancel(1.0, scale, w);
    ProductCancel(scale, 1.0, w);
    ProductCancel(scale, 0.0, w);
  }

  /** One round keeps every multiplier in range and moves the stake-weighted sum toward the
      budget, never past it. */
  lemma RoundTowardBudget(ss: seq<real>, ms: seq<real>, target: real, lo: real, hi: real)
    requires |ss| == |ms| && NonNegative(ss) && 0.0 <= lo <= hi && AllWithin(ms, lo, hi)
    requires target > 0.0 && WeightedSum(ss, ms) > 0.0
    ensures var next := Round(ms, Quotient(target, WeightedSum(ss, ms)), lo, hi);
      && AllWithin(next, lo, hi)
      && Toward(WeightedSum(ss, ms), WeightedSum(ss, next), target)
  {
    var w := WeightedSum(ss, ms);
    var scale := Quotient(target, w);
    var next, scaled := Round(ms, scale, lo, hi), Scaled(ms, scale);
    ScaleSide(target, w);
    ScaledSum(ss, ms, scale);
    hide Quotient, Product, WeightedSum;
    forall i | 0 <= i < |ms|
      ensures scale >= 1.0 ==> ms[i] <= next[i] <= scaled[i]
      ensures scale <= 1.0 ==> scaled[i] <= next[i] <= ms[i]
    {
      assert ms[i] in ms;
      ClampBetween(ms[i], scale, lo, hi);
    }
    if scale >= 1.0 {
      WeightedMonotone(ss, ms, next);
      WeightedMonotone(ss, next, scaled);
    }
    if scale <= 1.0 {
      WeightedMonotone(ss, scaled, next);
      WeightedMonotone(ss, next, ms);
    }
  }

  /** A round keeps the order of the multipliers. */
  lemma RoundKeepsOrder(ms: seq<real>, scale: real, lo: real, hi: real, i: nat, j: nat)
    requires scale >= 0.0 && i < |ms| && j < |ms| && ms[i] <= ms[j]
    ensures Round(ms, scale, lo, hi)[i] <= Round(ms, scale, lo, hi)[j]
  {
    ProductMonotone(ms[i], ms[j], scale);
  }

  lemma {:induction false} SameSumSameTerms(ss: seq<real>, xs: seq<real>, ys: seq<real>)
    requires |ss| == |xs| == |ys| && NonNegative(ss)
    requires forall i :: 0 <= i < |xs| ==> xs[i] <= ys[i]
    ensures WeightedSum(ss, xs) == WeightedSum(ss, ys) <==> forall i :: 0 <= i < |xs| ==> ss[i] == 0.0 || xs[i] == ys[i]
  {
    if ss != [] {
      assert ss[0] in ss && forall s <- ss[1..] :: s in ss;
      WeightedMonotone(ss[1..], xs[1..], ys[1..]);
      SameSumSameTerms(ss[1..], xs[1..], ys[1..]);
      ProductMonotone(xs[0], ys[0], ss[0]);
      ProductDifference(ss[0], ys[0], xs[0]);
      ProductZero(ss[0], ys[0] - xs[0]);
      hide Product;
      TailCondition(ss, xs, ys);
    }
  }

  lemma TailCondition(ss: seq<real>, xs: seq<real>, ys: seq<real>)
    requires |ss| == |xs| == |ys| > 0
    ensures (forall i :: 0 <= i < |xs| ==> ss[i] == 0.0 || xs[i] == ys[i])
       <==> (ss[0] == 0.0 || xs[0] == ys[0])
            && (forall i :: 0 <= i < |xs| - 1 ==> ss[1..][i] == 0.0 || xs[1..][i] == ys[1..][i])
  {
    if ss[0] == 0.0 || xs[0] == ys[0] {
      if forall i :: 0 <= i < |xs| - 1 ==> ss[1..][i] == 0.0 || xs[1..][i] == ys[1..][i] {
        forall i | 0 <= i < |xs| ensures ss[i] == 0.0 || xs[i] == ys[i] {
          if i > 0 { assert ss[1..][i - 1] == 0.0 || xs[1..][i - 1] == ys[1..][i - 1]; }
        }
      }
    }
  }

  /** After a round the budget is met exactly if and only if no validator with stake was clamped. */
  lemma RoundExactIff(ss: seq<real>, ms: seq<real>, target: real, lo: real, hi: real)
    requires |ss| == |ms| && NonNegative(ss) && 0.0 <= lo <= hi && AllWithin(ms, lo, hi)
    requires target > 0.0 && WeightedSum(ss, ms) > 0.0
    ensures var scale := Quotient(target, WeightedSum(ss, ms));
      WeightedSum(ss, Round(ms, scale, lo, hi)) == target
      <==> forall i :: 0 <= i < |ms| ==> ss[i] == 0.0 || Round(ms, scale, lo, hi)[i] == Product(ms[i], scale)
  {
    var w := WeightedSum(ss, ms);
    var scale := Quotient(target, w);
    var next, scaled := Round(ms, scale, lo, hi), Scaled(ms, scale);
    ScaleSide(target, w);
    ScaledSum(ss, ms, scale);
    hide Quotient, Product, WeightedSum, Round, Scaled;
    forall i | 0 <= i < |ms|
      ensures scale >= 1.0 ==> next[i] <= scaled[i]
      ensures scale <= 1.0 ==> scaled[i] <= next[i]
    {
      assert ms[i] in ms;
      ClampBetween(ms[i], scale, lo, hi);
    }
    if scale >= 1.0 {
      SameSumSameTerms(ss, next, scaled);
    } else {
      SameSumSameTerms(ss, scaled, next);
    }
  }

  // --- When a round makes progress ------------------------------------------------------------

  /** The round for scale cannot move the multiplier: it is at the limit in its way, or zero. */
  predicate Stuck(m: real, scale: real, lo: real, hi: real) {
    scale == 1.0 || (scale > 1.0 && (m == hi || m == 0.0)) || (scale < 1.0 && m == lo)
  }

  lemma UnmovedIff(m: real, scale: real, lo: real, hi: real)
    requires 0.0 <= lo <= m <= hi && scale > 0.0
    ensures Clamp(Product(m, scale), lo, hi) == m <==> Stuck(m, scale, lo, hi)
  {
    ProductDifference(m, scale, 1.0);
    ProductUnits(m);
    ProductSign(m, scale - 1.0);
    ProductSign(m, 1.0 - scale);
    ProductDifference(m, 1.0, scale);
    ProductUnits(scale);
    hide Product;
  }

  /** The sum stays where it is exactly when no staked multiplier moves. */
  lemma SameSumIff(ss: seq<real>, ms: seq<real>, scale: real, lo: real, hi: real)
    requires |ss| == |ms| && NonNegative(ss) && 0.0 <= lo <= hi && AllWithin(ms, lo, hi) && scale > 0.0
    ensures WeightedSum(ss, Round(ms, scale, lo, hi)) == WeightedSum(ss, ms)
       <==> forall i :: 0 <= i < |ms| ==> ss[i] == 0.0 || Round(ms, scale, lo, hi)[i] == ms[i]
  {
    var next := Round(ms, scale, lo, hi);
    forall i | 0 <= i < |ms|
      ensures scale >= 1.0 ==> ms[i] <= next[i]
      ensures scale <= 1.0 ==> next[i] <= ms[i]
    {
      assert ms[i] in ms;
      ClampBetween(ms[i], scale, lo, hi);
    }
    hide Round, WeightedSum, Product;
    if scale >= 1.0 {
      SameSumSameTerms(ss, ms, next);
    } else {
      SameSumSameTerms(ss, next, ms);
    }
  }

  /** A round leaves the weighted sum where it is if and only if every staked multiplier is stuck: the
      budget is met, or all are at the limit in the way of the budget (or zero). */
  lemma RoundStallsIff(ss: seq<real>, ms: seq<real>, target: real, lo: real, hi: real)
    requires |ss| == |ms| && NonNegative(ss) && 0.0 <= lo <= hi && AllWithin(ms, lo, hi)
    requires target > 0.0 && WeightedSum(ss, ms) > 0.0
    ensures var w := WeightedSum(ss, ms);
      WeightedSum(ss, NextRound(ss, ms, target, lo, hi)) == w
      <==> w == target
           || (w < target && forall i :: 0 <= i < |ms| ==> ss[i] == 0.0 || ms[i] == hi || ms[i] == 0.0)
           || (w > target && forall i :: 0 <= i < |ms| ==> ss[i] == 0.0 || ms[i] == lo)
  {
    var w := WeightedSum(ss, ms);
    var scale := Quotient(target, w);
    ScaleSide(target, w);
    SameSumIff(ss, ms, scale, lo, hi);
    forall i | 0 <= i < |ms|
      ensures Round(ms, scale, lo, hi)[i] == ms[i] <==> Stuck(ms[i], scale, lo, hi)
    {
      assert ms[i] in ms;
      UnmovedIff(ms[i], scale, lo, hi);
    }
    hide Round, WeightedSum, Quotient, Product, AllWithin, NonNegative;
  }

  /** Against a weighted sum whose every staked multiplier lies on one side of 1. */
  lemma {:induction false} SumAgainstOnes(ss: seq<real>, ms: seq<real>)
    requires |ss| == |ms| && NonNegative(ss)
    ensures (forall i :: 0 <= i < |ms| ==> ss[i] == 0.0 || ms[i] >= 1.0) ==> WeightedSum(ss, ms) >= SumOf(ss)
    ensures (forall i :: 0 <= i < |ms| ==> ss[i] == 0.0 || ms[i] <= 1.0) ==> WeightedSum(ss, ms) <= SumOf(ss)
  {
    if ss != [] {
      assert ss[0] in ss && forall s <- ss[1..] :: s in ss;
      assert forall i :: 0 <= i < |ms| - 1 ==> ss[1..][i] == ss[i + 1] && ms[1..][i] == ms[i + 1];
      SumAgainstOnes(ss[1..], ms[1..]);
      ProductUnits(ss[0]);
      ProductUnits(ms[0]);
      if ms[0] >= 1.0 { ProductMonotone(1.0, ms[0], ss[0]); }
      if ms[0] <= 1.0 { ProductMonotone(ms[0], 1.0, ss[0]); }
      hide Product, NonNegative;
    }
  }

  /** W moves toward the target, and only stands still on it. */
  predicate StrictlyToward(w: real, w': real, target: real) {
    Toward(w, w', target) && (w' == w <==> w == target)
  }

  /** A zero multiplier can hold a round below the budget although 1 is in range. */
  lemma ZeroMultiplierStalls()
    ensures var ss, ms := [1.0, 1.0], [1.0, 0.0];
      WeightedSum(ss, NextRound(ss, ms, SumOf(ss), 0.0, 1.0)) == WeightedSum(ss, ms) < SumOf(ss)
  {
    var ss, ms := [1.0, 1.0], [1.0, 0.0];
    assert ss[1..] == [1.0] && ms[1..] == [0.0];
    assert SumOf([1.0]) == 1.0 + SumOf([]) && WeightedSum([1.0], [0.0]) == 0.0;
    RoundStallsIff(ss, ms, 2.0, 0.0, 1.0);
  }

  /** With 1 in range, positive multipliers and the stakes' own total as the budget, a round that is
      off the budget always comes closer to it. */
  lemma RoundProgress(ss: seq<real>, ms: seq<real>, lo: real, hi: real)
    requires |ss| == |ms| && NonNegative(ss) && 0.0 <= lo <= 1.0 <= hi && AllWithin(ms, lo, hi)
    requires SumOf(ss) > 0.0 && WeightedSum(ss, ms) > 0.0 && forall m <- ms :: m > 0.0
    ensures StrictlyToward(WeightedSum(ss, ms), WeightedSum(ss, NextRound(ss, ms, SumOf(ss), lo, hi)), SumOf(ss))
  {
    RoundTowardBudget(ss, ms, SumOf(ss), lo, hi);
    RoundStallsIff(ss, ms, SumOf(ss), lo, hi);
    SumAgainstOnes(ss, ms);
    assert forall i :: 0 <= i < |ms| ==> ms[i] in ms;
    hide Round, WeightedSum, Quotient, SumOf;
  }

  // --- Any number of rounds ----------------------------------------------------------------

  /** The whole normalisation keeps range and order and moves the weighted sum toward the budget. */
  lemma {:induction false} NormalizedTowardBudget(ss: seq<real>, ms: seq<real>, target: real, lo: real, hi: real, n: nat)
    requires |ss| == |ms| && NonNegative(ss) && 0.0 <= lo <= hi && AllWithin(ms, lo, hi)
    requires target > 0.0 && WeightedSum(ss, ms) > 0.0
    ensures var out := Normalized(ss, ms, target, lo, hi, n);
      && AllWithin(out, lo, hi)
      && Toward(WeightedSum(ss, ms), WeightedSum(ss, out), target)
      && WeightedSum(ss, out) > 0.0
    decreases n
  {
    if n > 0 {
      RoundTowardBudget(ss, ms, target, lo, hi);
      var next := Round(ms, Quotient(target, WeightedSum(ss, ms)), lo, hi);
      hide WeightedSum, Quotient, Round, ClampsNone;
      NormalizedTowardBudget(ss, next, target, lo, hi, n - 1);
    }
  }

  lemma {:induction false} NormalizedKeepsOrder(ss: seq<real>, ms: seq<real>, target: real, lo: real, hi: real, n: nat, i: nat, j: nat)
    requires |ss| == |ms| && NonNegative(ss) && 0.0 <= lo <= hi && AllWithin(ms, lo, hi)
    requires target > 0.0 && WeightedSum(ss, ms) > 0.0
    requires i < |ms| && j < |ms| && ms[i] <= ms[j]
    ensures Normalized(ss, ms, target, lo, hi, n)[i] <= Normalized(ss, ms, target, lo, hi, n)[j]
    decreases n
  {
    if n > 0 {
      var w := WeightedSum(ss, ms);
      ScaleSide(target, w);
      RoundTowardBudget(ss, ms, target, lo, hi);
      RoundKeepsOrder(ms, Quotient(target, w), lo, hi, i, j);
      var next := Round(ms, Quotient(target, w), lo, hi);
      hide WeightedSum, Quotient, Round, ClampsNone;
      NormalizedKeepsOrder(ss, next, target, lo, hi, n - 1, i, j);
    }
  }

  /** So every run of at least one round that starts off the budget ends strictly closer to it. */
  lemma NormalizedProgress(ss: seq<real>, ms: seq<real>, lo: real, hi: real, n: nat)
    requires |ss| == |ms| && NonNegative(ss) && 0.0 <= lo <= 1.0 <= hi && AllWithin(ms, lo, hi)
    requires SumOf(ss) > 0.0 && WeightedSum(ss, ms) > 0.0 && (forall m <- ms :: m > 0.0) && n > 0
    ensures StrictlyToward(WeightedSum(ss, ms), WeightedSum(ss, Normalized(ss, ms, SumOf(ss), lo, hi, n)), SumOf(ss))
  {
    var next := NextRound(ss, ms, SumOf(ss), lo, hi);
    RoundProgress(ss, ms, lo, hi);
    RoundTowardBudget(ss, ms, SumOf(ss), lo, hi);
    hide WeightedSum, SumOf, Round, Quotient, ClampsNone;
    NormalizedTowardBudget(ss, next, SumOf(ss), lo, hi, n - 1);
  }

  function NextRound(ss: seq<real>, ms: seq<real>, target: real, lo: real, hi: real): (r: seq<real>)
    requires |ss| == |ms|
    ensures |r| == |ms|
  {
    Round(ms, Quotient(target, WeightedSum(ss, ms)), lo, hi)
  }

  predicate Unclamped(ss: seq<real>, ms: seq<real>, target: real, lo: real, hi: real)
    requires |ss| == |ms|
  {
    ClampsNone(ms, Quotient(target, WeightedSum(ss, ms)), lo, hi)
  }

  /** The multipliers before the last round that is run: the first that clamps nothing, or the n-th. */
  function BeforeLast(ss: seq<real>, ms: seq<real>, target: real, lo: real, hi: real, n: nat): (r: seq<real>)
    requires |ss| == |ms| && n > 0
    ensures |r| == |ms|
    decreases n
  {
    if n == 1 || Unclamped(ss, ms, target, lo, hi) then ms
    else BeforeLast(ss, NextRound(ss, ms, target, lo, hi), target, lo, hi, n - 1)
  }

  /** Some round among the first n clamps nothing. */
  predicate SomeUnclamped(ss: seq<real>, ms: seq<real>, target: real, lo: real, hi: real, n: nat)
    requires |ss| == |ms|
    decreases n
  {
    n > 0 && (Unclamped(ss, ms, target, lo, hi)
              || SomeUnclamped(ss, NextRound(ss, ms, target, lo, hi), target, lo, hi, n - 1))
  }

  /** The result is the last round applied to what came before it, and that round clamps nothing if
      and only if some round does. */
  lemma {:induction false} LastRound(ss: seq<real>, ms: seq<real>, target: real, lo: real, hi: real, n: nat)
    requires |ss| == |ms| && NonNegative(ss) && 0.0 <= lo <= hi && AllWithin(ms, lo, hi)
    requires target > 0.0 && WeightedSum(ss, ms) > 0.0 && n > 0
    ensures var last := BeforeLast(ss, ms, target, lo, hi, n);
      && AllWithin(last, lo, hi) && WeightedSum(ss, last) > 0.0
      && Normalized(ss, ms, target, lo, hi, n) == NextRound(ss, last, target, lo, hi)
      && (SomeUnclamped(ss, ms, target, lo, hi, n) <==> Unclamped(ss, last, target, lo, hi))
    decreases n
  {
    RoundTowardBudget(ss, ms, target, lo, hi);
    var next := NextRound(ss, ms, target, lo, hi);
    hide WeightedSum, Quotient, Round, ClampsNone;
    if n > 1 && !Unclamped(ss, ms, target, lo, hi) {
      LastRound(ss, next, target, lo, hi, n - 1);
    } else if n == 1 {
      assert Normalized(ss, next, target, lo, hi, 0) == next;
      assert !SomeUnclamped(ss, next, target, lo, hi, 0);
    }
  }

  /** After n rounds the budget is met exactly if and only if the last round run clamped no
      validator with stake. */
  lemma NormalizedExactIff(ss: seq<real>, ms: seq<real>, target: real, lo: real, hi: real, n: nat)
    requires |ss| == |ms| && NonNegative(ss) && 0.0 <= lo <= hi && AllWithin(ms, lo, hi)
    requires target > 0.0 && WeightedSum(ss, ms) > 0.0 && n > 0
    ensures var last := BeforeLast(ss, ms, target, lo, hi, n);
      var scale, out := Quotient(target, WeightedSum(ss, last)), Normalized(ss, ms, target, lo, hi, n);
      WeightedSum(ss, out) == target
      <==> forall i :: 0 <= i < |ms| ==> ss[i] == 0.0 || out[i] == Product(last[i], scale)
  {
    LastRound(ss, ms, target, lo, hi, n);
    hide BeforeLast, Normalized, WeightedSum, Quotient, Round, Product;
    RoundExactIff(ss, BeforeLast(ss, ms, target, lo, hi, n), target, lo, hi);
  }

  /** If any of the first n rounds clamps nothing, the budget is met exactly. */
  lemma UnclampedRoundIsExact(ss: seq<real>, ms: seq<real>, target: real, lo: real, hi: real, n: nat)
    requires |ss| == |ms| && NonNegative(ss) && 0.0 <= lo <= hi && AllWithin(ms, lo, hi)
    requires target > 0.0 && WeightedSum(ss, ms) > 0.0
    requires SomeUnclamped(ss, ms, target, lo, hi, n)
    ensures WeightedSum(ss, Normalized(ss, ms, target, lo, hi, n)) == target
  {
    LastRound(ss, ms, target, lo, hi, n);
    NormalizedExactIff(ss, ms, target, lo, hi, n);
    hide BeforeLast, Normalized, WeightedSum, Quotient, Product, SomeUnclamped;
  }

  /** Exactly n rounds, whether or not one clamps nothing. */
  function Iterated(ss: seq<real>, ms: seq<real>, target: real, lo: real, hi: real, n: nat): (r: seq<real>)
    requires |ss| == |ms|
    ensures |r| == |ms|
    decreases n
  {
    if n == 0 then ms else Iterated(ss, NextRound(ss, ms, target, lo, hi), target, lo, hi, n - 1)
  }

  /** Multipliers on the budget stay as they are. */
  lemma {:induction false} OnBudgetStays(ss: seq<real>, ms: seq<real>, target: real, lo: real, hi: real, n: nat)
    requires |ss| == |ms| && AllWithin(ms, lo, hi) && WeightedSum(ss, ms) == target > 0.0
    ensures Iterated(ss, ms, target, lo, hi, n) == ms
    decreases n
  {
    if n > 0 {
      QuotientUnitary(target);
      forall i | 0 <= i < |ms| ensures NextRound(ss, ms, target, lo, hi)[i] == ms[i] {
        ProductUnits(ms[i]);
        assert ms[i] in ms;
      }
      assert NextRound(ss, ms, target, lo, hi) == ms;
      hide Round, WeightedSum, Quotient;
      OnBudgetStays(ss, ms, target, lo, hi, n - 1);
    }
  }

  lemma QuotientUnitary(a: real)
    requires a > 0.0
    ensures Quotient(a, a) == 1.0
  {
    QuotientUnique(1.0, a, a);
    ProductUnits(a);
  }

  /** Stopping early loses nothing: the result is that of all n rounds. */
  lemma {:induction false} NormalizedIsIterated(ss: seq<real>, ms: seq<real>, target: real, lo: real, hi: real, n: nat)
    requires |ss| == |ms| && NonNegative(ss) && 0.0 <= lo <= hi && AllWithin(ms, lo, hi)
    requires target > 0.0 && WeightedSum(ss, ms) > 0.0
    ensures Normalized(ss, ms, target, lo, hi, n) == Iterated(ss, ms, target, lo, hi, n)
    decreases n
  {
    if n > 0 {
      var next := NextRound(ss, ms, target, lo, hi);
      RoundTowardBudget(ss, ms, target, lo, hi);
      RoundExactIff(ss, ms, target, lo, hi);
      hide WeightedSum, Quotient, Product, Round;
      if Unclamped(ss, ms, target, lo, hi) {
        OnBudgetStays(ss, next, target, lo, hi, n - 1);
      } else {
        NormalizedIsIterated(ss, next, target, lo, hi, n - 1);
      }
    }
  }

  // --- Equal multipliers ------------------------------------------------------------------

  function Constant(m: real, n: nat): (r: seq<real>)
    ensures |r| == n && forall i :: 0 <= i < n ==> r[i] == m
  {
    seq(n, _ => m)
  }

  lemma {:induction false} ConstantSum(ss: seq<real>, m: real)
    ensures WeightedSum(ss, Constant(m, |ss|)) == Product(SumOf(ss), m)
  {
    if ss == [] {
      ProductUnits(m);
    } else {
      ConstantSum(ss[1..], m);
      assert Constant(m, |ss|)[1..] == Constant(m, |ss| - 1);
      ProductSum(m, ss[0], SumOf(ss[1..]));
      hide Product;
    }
  }

  /** Multipliers that are all equal become 1 in one round, or the limit next to it; with stakes that
      add up to the target this meets the budget if and only if 1 is in range. */
  lemma {:induction false} EqualMultipliersNeutral(ss: seq<real>, m: real, target: real, lo: real, hi: real, n: nat)
    requires SumOf(ss) == target > 0.0 && 0.0 < lo <= m <= hi && n > 0
    ensures Normalized(ss, Constant(m, |ss|), target, lo, hi, n) == Constant(Clamp(1.0, lo, hi), |ss|)
    ensures WeightedSum(ss, Constant(Clamp(1.0, lo, hi), |ss|)) == target <==> lo <= 1.0 <= hi
    decreases n
  {
    var c := Clamp(1.0, lo, hi);
    EqualRound(ss, m, target, lo, hi);
    if n > 1 { EqualMultipliersNeutral(ss, c, target, lo, hi, n - 1); }
    ConstantSum(ss, c);
    ProductUnits(target);
    ProductCommutes(target, c);
    ProductCancel(c, 1.0, target);
    hide WeightedSum, Quotient, Product, Round, ClampsNone, SumOf;
  }

  lemma EqualRound(ss: seq<real>, m: real, target: real, lo: real, hi: real)
    requires SumOf(ss) == target > 0.0 && 0.0 < lo <= m <= hi
    ensures var ms := Constant(m, |ss|);
      WeightedSum(ss, ms) > 0.0
      && Round(ms, Quotient(target, WeightedSum(ss, ms)), lo, hi) == Constant(Clamp(1.0, lo, hi), |ss|)
  {
    var ms := Constant(m, |ss|);
    ConstantSum(ss, m);
    ProductSign(target, m);
    var w := WeightedSum(ss, ms);
    var scale := Quotient(target, w);
    QuotientTimes(target, w);
    ProductAssociates(scale, m, target);
    ProductCommutes(target, m);
    ProductCommutes(scale, m);
    ProductUnits(target);
    hide WeightedSum, Quotient, Product;
    ProductCancel(Product(scale, m), 1.0, target);
    assert Round(ms, scale, lo, hi) == Constant(Clamp(1.0, lo, hi), |ss|);
  }
}
