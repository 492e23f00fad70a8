/** The rank-weighted Gini coefficient of the two simulators, and the pairwise form it equals.
    `Decimal` is modelled by `real`. */
module Inequality {
  import opened RealArith

  function SumOf(xs: seq<real>): real {
    if xs == [] then 0.0 else xs[0] + SumOf(xs[1..])
  }

  function Dist(a: real, b: real): real { if a < b then b - a else a - b }

  /** Sum of |a - x| over xs. */
  function Spread(a: real, xs: seq<real>): real {
    if xs == [] then 0.0 else Dist(a, xs[0]) + Spread(a, xs[1..])
  }

  /** Sum of |x - y| over all x in xs and y in ys. */
  function PairSum(xs: seq<real>, ys: seq<real>): real {
    if xs == [] then 0.0 else Spread(xs[0], ys) + PairSum(xs[1..], ys)
  }

  ghost predicate NonNegative(xs: seq<real>) { forall x <- xs :: x >= 0.0 }

  /** The reference definition: the pair sum over 2 * n * total, and 0 when the total is 0. */
  function Gini(xs: seq<real>): real {
    Quotient(PairSum(xs, xs), 2.0 * Product(|xs| as real, SumOf(xs)))
  }

  // --- Sorting ---------------------------------------------------------------------

  ghost predicate Ascending(xs: seq<real>) {
    forall i, j :: 0 <= i < j < |xs| ==> xs[i] <= xs[j]
  }

  function Insert(a: real, xs: seq<real>): (r: seq<real>)
    ensures |r| == |xs| + 1 && multiset(r) == multiset{a} + multiset(xs)
  {
    if xs == [] || a <= xs[0] then [a] + xs
    else
      assert xs == [xs[0]] + xs[1..];
      [xs[0]] + Insert(a, xs[1..])
  }

  lemma {:induction false} InsertAscending(a: real, xs: seq<real>)
    requires Ascending(xs)
    ensures Ascending(Insert(a, xs))
  {
    if xs != [] && a > xs[0] {
      InsertAscending(a, xs[1..]);
      var t := Insert(a, xs[1..]);
      forall k | 0 <= k < |t| ensures xs[0] <= t[k] {
        assert t[k] in multiset(t);
      }
    }
  }

  /** `sorted(xs)`: ascending, and a permutation. */
  function Sorted(xs: seq<real>): (r: seq<real>)
    ensures |r| == |xs| && multiset(r) == multiset(xs)
  {
    if xs == [] then []
    else
      assert xs == [xs[0]] + xs[1..];
      Insert(xs[0], Sorted(xs[1..]))
  }

  lemma {:induction false} SortedAscending(xs: seq<real>)
    ensures Ascending(Sorted(xs))
  {
    if xs != [] {
      SortedAscending(xs[1..]);
      InsertAscending(xs[0], Sorted(xs[1..]));
    }
  }

  lemma {:induction false} InsertSums(a: real, xs: seq<real>, b: real, ys: seq<real>)
    ensures SumOf(Insert(a, xs)) == a + SumOf(xs)
    ensures Spread(b, Insert(a, xs)) == Dist(b, a) + Spread(b, xs)
    ensures PairSum(Insert(a, xs), ys) == Spread(a, ys) + PairSum(xs, ys)
  {
    var r := Insert(a, xs);
    if xs == [] || a <= xs[0] {
      assert r[1..] == xs;
    } else {
      InsertSums(a, xs[1..], b, ys);
      assert r[1..] == Insert(a, xs[1..]);
    }
  }

  /** Sorting changes no sum and no spread. */
  lemma {:induction false} SortedSums(xs: seq<real>, b: real, ys: seq<real>)
    ensures SumOf(Sorted(xs)) == SumOf(xs)
    ensures Spread(b, Sorted(xs)) == Spread(b, xs)
    ensures PairSum(Sorted(xs), ys) == PairSum(xs, ys)
  {
    if xs != [] {
      SortedSums(xs[1..], b, ys);
      InsertSums(xs[0], Sorted(xs[1..]), b, ys);
    }
  }

  lemma {:induction false} PairSumSortedRight(xs: seq<real>, ys: seq<real>)
    ensures PairSum(xs, Sorted(ys)) == PairSum(xs, ys)
  {
    if xs != [] {
      PairSumSortedRight(xs[1..], ys);
      SortedSums(ys, xs[0], []);
    }
  }

  lemma SortedPairs(xs: seq<real>)
    ensures PairSum(Sorted(xs), Sorted(xs)) == PairSum(xs, xs)
  {
    SortedSums(xs, 0.0, Sorted(xs));
    PairSumSortedRight(xs, xs);
  }

  // --- The rank-weighted form --------------------------------------------------------

  /** The weight 2(i+1) - n - 1 of the entry with rank index i. */
  function RankWeight(i: int, n: int): real { (2 * (i + 1) - n - 1) as real }

  /** Sum of weight * x over xs, the first entry having rank index i. */
  function RankSum(xs: seq<real>, i: int, n: int): real {
    if xs == [] then 0.0 else Product(RankWeight(i, n), xs[0]) + RankSum(xs[1..], i + 1, n)
  }

  lemma {:induction false} RankShift(xs: seq<real>, i: int, n: int)
    ensures RankSum(xs, i + 1, n + 1) == RankSum(xs, i, n) + SumOf(xs)
  {
    if xs != [] {
      RankShift(xs[1..], i + 1, n);
      assert RankWeight(i + 1, n + 1) == RankWeight(i, n) + 1.0;
      ProductSum(xs[0], RankWeight(i, n), 1.0);
      ProductUnits(xs[0]);
      hide Product;
    }
  }

  lemma OneMore(n: nat, a: real)
    requires n > 0
    ensures Product(n as real, a) == Product((n - 1) as real, a) + a
  {
    ProductSum(a, (n - 1) as real, 1.0);
    ProductUnits(a);
    assert n as real == (n - 1) as real + 1.0;
  }

  lemma {:induction false} SpreadFromBelow(a: real, xs: seq<real>)
    requires forall x <- xs :: a <= x
    ensures Spread(a, xs) == SumOf(xs) - Product(|xs| as real, a)
  {
    if xs == [] {
      ProductUnits(a);
    } else {
      hide Product;
      assert xs[0] in xs && forall x <- xs[1..] :: x in xs;
      SpreadFromBelow(a, xs[1..]);
      OneMore(|xs|, a);
    }
  }

  lemma {:induction false} PairSumConsRight(xs: seq<real>, a: real, ys: seq<real>)
    ensures PairSum(xs, [a] + ys) == Spread(a, xs) + PairSum(xs, ys)
  {
    if xs != [] {
      PairSumConsRight(xs[1..], a, ys);
      assert ([a] + ys)[1..] == ys;
    }
  }

  /** Peeling one entry off both sides of the pair sum. */
  lemma PairSumPeel(a: real, t: seq<real>)
    ensures PairSum([a] + t, [a] + t) == PairSum(t, t) + 2.0 * Spread(a, t)
  {
    var xs := [a] + t;
    assert xs[1..] == t;
    PairSumConsRight(t, a, t);
  }

  /** On an ascending list the rank-weighted sum is half the pair sum. */
  lemma {:induction false} RankSumIsHalfPairSum(xs: seq<real>)
    requires Ascending(xs)
    ensures 2.0 * RankSum(xs, 0, |xs|) == PairSum(xs, xs)
  {
    if xs != [] {
      var a, t := xs[0], xs[1..];
      assert xs == [a] + t;
      RankSumIsHalfPairSum(t);
      PairSumPeel(a, t);
      SpreadFromBelow(a, t);
      RankShift(t, 0, |t|);
      assert RankWeight(0, |xs|) == 0.0 - |t| as real;
      ProductDifference(a, 0.0, |t| as real);
      ProductUnits(a);
      hide Product;
    }
  }

  /** Halving both sides of a quotient. */
  lemma HalfQuotient(rank: real, pairs: real, d: real)
    requires 2.0 * rank == pairs
    ensures Quotient(rank, d) == Quotient(pairs, 2.0 * d)
  {
    if d != 0.0 {
      QuotientTimes(rank, d);
      DoubleBoth(Quotient(rank, d), rank, d);
      QuotientUnique(Quotient(rank, d), pairs, 2.0 * d);
    }
  }

  lemma DoubleBoth(q: real, a: real, d: real)
    requires Product(q, d) == a
    ensures Product(q, 2.0 * d) == 2.0 * a
  {
    ProductSum(q, d, d);
    assert d + d == 2.0 * d;
  }

  lemma {:induction false} SumOfZeros(xs: seq<real>)
    requires forall x <- xs :: x == 0.0
    ensures SumOf(xs) == 0.0
  {
    if xs != [] {
      assert xs[0] in xs && forall x <- xs[1..] :: x in xs;
      SumOfZeros(xs[1..]);
    }
  }

  /** What the loops divide gives the reference coefficient. */
  lemma RankQuotient(xs: seq<real>)
    ensures SumOf(Sorted(xs)) == SumOf(xs)
    ensures Quotient(RankSum(Sorted(xs), 0, |xs|), Product(|xs| as real, SumOf(xs))) == Gini(xs)
  {
    hide RankSum, PairSum, Product, Quotient, Ascending, SumOf, Sorted;
    assert 2.0 * RankSum(Sorted(xs), 0, |xs|) == PairSum(xs, xs) by {
      SortedAscending(xs);
      RankSumIsHalfPairSum(Sorted(xs));
      SortedPairs(xs);
    }
    SortedSums(xs, 0.0, []);
    HalfQuotient(RankSum(Sorted(xs), 0, |xs|), PairSum(xs, xs), Product(|xs| as real, SumOf(xs)));
  }

  lemma GiniOfNothing(xs: seq<real>)
    requires SumOf(xs) == 0.0
    ensures Gini(xs) == 0.0
  {}

  /** The accumulating loop both functions share in form. */
  method RankNumerator(vals: seq<real>) returns (numerator: real)
    ensures numerator == RankSum(vals, 0, |vals|)
  {
    numerator := 0.0;
    var n := |vals|;
    hide Product;
    for i := 0 to n
      invariant numerator + RankSum(vals[i..], i, n) == RankSum(vals, 0, n)
    {
      numerator := numerator + Product((2 * (i + 1) - n - 1) as real, vals[i]);
      assert vals[i..][1..] == vals[i + 1..];
    }
  }

  /** `_compute_gini` of the simulator: the loop gives the pairwise coefficient of every list. */
  method ComputeGini(stakes: seq<real>) returns (g: real)
    ensures g == Gini(stakes)
  {
    hide RankSum, PairSum, Sorted;
    if stakes == [] || forall s <- stakes :: s == 0.0 {
      SumOfZeros(stakes);
      GiniOfNothing(stakes);
      return 0.0;
    }
    var sorted := Sorted(stakes);
    var n := |sorted|;
    var total := SumOf(sorted);
    RankQuotient(stakes);
    if total == 0.0 {
      GiniOfNothing(stakes);
      return 0.0;
    }
    var numerator := RankNumerator(sorted);
    g := numerator / (n as real * total);
    hide Gini;
    QuotientDefined(numerator, n as real, total);
  }

  lemma QuotientDefined(a: real, n: real, total: real)
    requires n * total != 0.0
    ensures Quotient(a, Product(n, total)) == a / (n * total)
  {}

  /** `gini_coefficient` of the analysis module: the same coefficient of every list. */
  method GiniCoefficient(rewards: seq<real>) returns (g: real)
    ensures g == Gini(rewards)
  {
    hide RankSum, PairSum, Sorted;
    if rewards == [] {
      GiniOfNothing(rewards);
      return 0.0;
    }
    var vals := Sorted(rewards);
    var n := |vals|;
    var total := SumOf(vals);
    RankQuotient(rewards);
    if total == 0.0 {
      GiniOfNothing(rewards);
      return 0.0;
    }
    var numerator := RankNumerator(vals);
    g := numerator / (n as real * total);
    hide Gini;
    QuotientDefined(numerator, n as real, total);
  }

  // --- Properties of the coefficient ---------------------------------------------------

  lemma {:induction false} SpreadBounds(a: real, xs: seq<real>)
    requires a >= 0.0 && NonNegative(xs)
    ensures 0.0 <= Spread(a, xs) <= Product(|xs| as real, a) + SumOf(xs)
    ensures SumOf(xs) >= 0.0
  {
    if xs == [] {
      ProductUnits(a);
    } else {
      hide Product;
      assert xs[0] in xs && forall x <- xs[1..] :: x in xs;
      SpreadBounds(a, xs[1..]);
      OneMore(|xs|, a);
    }
  }

  lemma {:induction false} PairSumBounds(xs: seq<real>)
    requires NonNegative(xs) && xs != []
    ensures 0.0 <= PairSum(xs, xs) <= 2.0 * Product((|xs| - 1) as real, SumOf(xs))
  {
    var a, t := xs[0], xs[1..];
    assert xs == [a] + t && a in xs && forall x <- t :: x in xs;
    PairSumPeel(a, t);
    SpreadBounds(a, t);
    ProductSum(|t| as real, a, SumOf(t));
    if t == [] {
      ProductUnits(0.0);
      ProductUnits(a);
      assert PairSum(t, t) == 0.0 && SumOf(t) == 0.0;
    } else {
      PairSumBounds(t);
      OneMore(|t|, SumOf(t));
    }
    hide Product;
  }

  /** On a non-negative list the coefficient lies in [0, (n-1)/n]. */
  lemma GiniBounds(xs: seq<real>)
    requires NonNegative(xs) && xs != []
    ensures 0.0 <= Gini(xs) <= Quotient((|xs| - 1) as real, |xs| as real)
  {
    SpreadBounds(0.0, xs);
    PairSumBounds(xs);
    hide PairSum, SumOf, Product, Quotient;
    QuotientBounds(PairSum(xs, xs), |xs| as real, SumOf(xs));
  }

  lemma QuotientBounds(pairs: real, n: real, total: real)
    requires n >= 1.0 && total >= 0.0 && 0.0 <= pairs <= 2.0 * Product(n - 1.0, total)
    ensures 0.0 <= Quotient(pairs, 2.0 * Product(n, total)) <= Quotient(n - 1.0, n)
  {
    var u := Quotient(n - 1.0, n);
    QuotientTimes(n - 1.0, n);
    ProductCancel(0.0, u, n);
    ProductUnits(n);
    assert u >= 0.0;
    if total > 0.0 {
      BoundByRatio(pairs, n, total, u);
    } else {
      ProductUnits(n);
    }
  }

  lemma BoundByRatio(pairs: real, n: real, total: real, u: real)
    requires n >= 1.0 && total > 0.0 && 0.0 <= pairs <= 2.0 * Product(n - 1.0, total)
    requires Product(u, n) == n - 1.0
    ensures 0.0 <= Quotient(pairs, 2.0 * Product(n, total)) <= u
  {
    var d := 2.0 * Product(n, total);
    ProductSign(n, total);
    var q := Quotient(pairs, d);
    QuotientTimes(pairs, d);
    ProductAssociates(u, n, total);
    DoubleBoth(u, Product(n - 1.0, total), Product(n, total));
    hide Product, Quotient;
    ProductCancel(q, u, d);
    ProductCancel(0.0, q, d);
    ProductUnits(d);
  }

  ghost predicate AllAre(xs: seq<real>, a: real) { forall x <- xs :: x == a }

  lemma {:induction false} SpreadZeroIff(a: real, xs: seq<real>)
    ensures Spread(a, xs) >= 0.0 && (Spread(a, xs) == 0.0 <==> AllAre(xs, a))
  {
    if xs != [] {
      SpreadZeroIff(a, xs[1..]);
      assert xs[0] in xs && forall x :: x in xs <==> x == xs[0] || x in xs[1..];
      if AllAre(xs[1..], a) && xs[0] == a { assert AllAre(xs, a); }
    }
  }

  lemma {:induction false} PairSumZeroIff(xs: seq<real>, ys: seq<real>)
    ensures PairSum(xs, ys) >= 0.0 && (PairSum(xs, ys) == 0.0 <==> forall x <- xs :: AllAre(ys, x))
  {
    hide AllAre;
    if xs != [] {
      SpreadZeroIff(xs[0], ys);
      PairSumZeroIff(xs[1..], ys);
      assert forall x :: x in xs <==> x == xs[0] || x in xs[1..];
      hide Spread;
    }
  }

  /** The coefficient is 0 exactly when all hold the same. */
  lemma GiniZeroIff(xs: seq<real>)
    requires SumOf(xs) > 0.0
    ensures Gini(xs) == 0.0 <==> forall x <- xs :: AllAre(xs, x)
  {
    PairSumZeroIff(xs, xs);
    var d := 2.0 * Product(|xs| as real, SumOf(xs));
    assert |xs| > 0;
    ProductSign(|xs| as real, SumOf(xs));
    QuotientTimes(PairSum(xs, xs), d);
    ProductZero(Gini(xs), d);
    hide Product, Quotient, SumOf, PairSum, AllAre;
  }

  /** And the upper bound is reached when one holds everything. */
  lemma GiniOfOneHolder(a: real, rest: seq<real>)
    requires a > 0.0 && AllAre(rest, 0.0)
    ensures Gini([a] + rest) == Quotient(|rest| as real, (|rest| + 1) as real)
  {
    var xs, n := [a] + rest, (|rest| + 1) as real;
    assert xs[1..] == rest;
    SumOfZeros(rest);
    PairSumPeel(a, rest);
    SpreadOfZeros(a, rest);
    assert forall x <- rest :: AllAre(rest, x);
    PairSumZeroIff(rest, rest);
    hide PairSum, SumOf, Spread, AllAre;
    var q := Quotient(|rest| as real, n);
    QuotientTimes(|rest| as real, n);
    ProductAssociates(q, n, a);
    ProductSign(n, a);
    DoubleBoth(q, Product(|rest| as real, a), Product(n, a));
    hide Product, Quotient;
    QuotientUnique(q, PairSum(xs, xs), 2.0 * Product(n, a));
  }

  lemma {:induction false} SpreadOfZeros(a: real, xs: seq<real>)
    requires a > 0.0 && AllAre(xs, 0.0)
    ensures Spread(a, xs) == Product(|xs| as real, a)
  {
    if xs == [] {
      ProductUnits(a);
    } else {
      assert xs[0] in xs && forall x <- xs[1..] :: x in xs;
      SpreadOfZeros(a, xs[1..]);
      OneMore(|xs|, a);
      hide Product;
    }
  }

  function Scaled(xs: seq<real>, c: real): (r: seq<real>)
    ensures |r| == |xs| && forall i :: 0 <= i < |xs| ==> r[i] == Product(xs[i], c)
  {
    if xs == [] then [] else [Product(xs[0], c)] + Scaled(xs[1..], c)
  }

  lemma {:induction false} SumScaled(xs: seq<real>, c: real)
    ensures SumOf(Scaled(xs, c)) == Product(SumOf(xs), c)
  {
    if xs == [] {
      ProductUnits(c);
    } else {
      hide Product;
      SumScaled(xs[1..], c);
      ProductSum(c, xs[0], SumOf(xs[1..]));
    }
  }

  lemma DistScaled(a: real, b: real, c: real)
    requires c > 0.0
    ensures Dist(Product(a, c), Product(b, c)) == Product(Dist(a, b), c)
  {
    hide Product;
    ProductCancel(a, b, c);
    ProductCancel(b, a, c);
    ProductDifference(c, b, a);
    ProductDifference(c, a, b);
  }

  lemma {:induction false} SpreadScaled(a: real, xs: seq<real>, c: real)
    requires c > 0.0
    ensures Spread(Product(a, c), Scaled(xs, c)) == Product(Spread(a, xs), c)
  {
    if xs == [] {
      ProductUnits(c);
    } else {
      hide Product, Dist;
      SpreadScaled(a, xs[1..], c);
      DistScaled(a, xs[0], c);
      ProductSum(c, Dist(a, xs[0]), Spread(a, xs[1..]));
    }
  }

  lemma {:induction false} PairSumScaled(xs: seq<real>, ys: seq<real>, c: real)
    requires c > 0.0
    ensures PairSum(Scaled(xs, c), Scaled(ys, c)) == Product(PairSum(xs, ys), c)
  {
    if xs == [] {
      ProductUnits(c);
    } else {
      hide Product, Spread;
      PairSumScaled(xs[1..], ys, c);
      SpreadScaled(xs[0], ys, c);
      ProductSum(c, Spread(xs[0], ys), PairSum(xs[1..], ys));
    }
  }

  /** A common positive factor does not change the coefficient. */
  lemma GiniScaleInvariant(xs: seq<real>, c: real)
    requires c > 0.0
    ensures Gini(Scaled(xs, c)) == Gini(xs)
  {
    SumScaled(xs, c);
    PairSumScaled(xs, xs, c);
    hide PairSum, SumOf, Product, Quotient;
    CancelFactor(PairSum(xs, xs), |xs| as real, SumOf(xs), c);
  }

  lemma CancelFactor(pairs: real, n: real, total: real, c: real)
    requires c > 0.0
    ensures Quotient(Product(pairs, c), 2.0 * Product(n, Product(total, c)))
         == Quotient(pairs, 2.0 * Product(n, total))
  {
    var d := 2.0 * Product(n, total);
    var e := 2.0 * Product(n, Product(total, c));
    ProductAssociates(n, total, c);
    ProductSum(c, Product(n, total), Product(n, total));
    assert e == Product(d, c) by { hide Product; }
    ProductZero(d, c);
    if d != 0.0 {
      var q := Quotient(pairs, d);
      QuotientTimes(pairs, d);
      ProductAssociates(q, d, c);
      hide Product, Quotient;
      QuotientUnique(q, Product(pairs, c), e);
    }
  }
}
