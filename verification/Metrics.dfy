/** The derived figures of a recorded epoch: ratios and rates, transaction volume and the share of
    stake that the five largest validators hold. */
module Metrics {
  import opened RealArith
  import opened Inequality
  import opened Ledger

  datatype Derived = Derived(
    annualProvisions: real, stakingRatio: real, stakingApy: real, netInflation: real, supplyPctOfCap: real,
    dailyTxVolume: real, mevExtracted: real, topFivePct: real)

  /** 0 when the base is not positive. */
  function Ratio(a: real, b: real): real { if b > 0.0 then Quotient(a, b) else 0.0 }

  function Percent(a: real, b: real): real { Product(Ratio(a, b), 100.0) }

  function Largest(xs: seq<real>, k: nat): (r: seq<real>)
    ensures |r| == if k < |xs| then k else |xs|
  {
    Last(Sorted(xs), if k < |xs| then k else |xs|)
  }

  function Last(s: seq<real>, k: nat): (r: seq<real>)
    requires k <= |s|
    ensures |r| == k
  {
    s[|s| - k..]
  }

  function AnnualProvisions(before: Ledger, f: Flows): real { Product(before.supply, f.rate) }

  /** The figures recorded for an epoch that began with the ledger before and ended with l. */
  function Derive(cfg: Config, volume: real, before: Ledger, f: Flows, l: Ledger, stakes: seq<real>): Derived {
    Derived(AnnualProvisions(before, f),
            Ratio(l.staked, l.supply),
            Percent(Product(AnnualProvisions(before, f), cfg.splitStaking), l.staked),
            Percent(Product(f.mint - f.burn, cfg.epochsPerYear as real), l.supply),
            Percent(l.supply, cfg.supplyCap),
            volume, Product(volume, cfg.mevExtractionRate),
            Percent(SumOf(Largest(stakes, 5)), l.staked))
  }

  /** The daily volume after n compounding steps. */
  function Volume(cfg: Config, n: nat): real {
    if n == 0 then cfg.dailyTxVolume else Product(Volume(cfg, n - 1), 1.0 + cfg.txVolumeGrowth)
  }

  lemma PercentTimes(a: real, b: real)
    requires b > 0.0
    ensures Product(Percent(a, b), b) == Product(100.0, a)
  {
    var q := Quotient(a, b);
    QuotientTimes(a, b);
    ProductCommutes(q, 100.0);
    ProductAssociates(100.0, q, b);
    hide Product, Quotient;
  }

  lemma PercentCancel(a: real, a': real, b: real)
    requires b > 0.0
    ensures Percent(a, b) == Percent(a', b) <==> a == a'
  {
    PercentTimes(a, b);
    PercentTimes(a', b);
    ProductCommutes(100.0, a);
    ProductCommutes(100.0, a');
    ProductCancel(a, a', 100.0);
    hide Product, Percent;
  }

  /** Every figure times its base is what it measures; a figure with an empty base is 0. */
  ghost predicate DerivedExact(cfg: Config, before: Ledger, f: Flows, l: Ledger, stakes: seq<real>, d: Derived) {
    var provisions, epy := Product(before.supply, f.rate), cfg.epochsPerYear as real;
    && d.annualProvisions == provisions
    && (if l.supply > 0.0 then Product(d.stakingRatio, l.supply) == l.staked else d.stakingRatio == 0.0)
    && (if l.staked > 0.0 then Product(d.stakingApy, l.staked) == Product(100.0, Product(provisions, cfg.splitStaking))
        else d.stakingApy == 0.0)
    && (if l.supply > 0.0 then Product(d.netInflation, l.supply) == Product(100.0, Product(f.mint - f.burn, epy))
        else d.netInflation == 0.0)
    && (if cfg.supplyCap > 0.0 then Product(d.supplyPctOfCap, cfg.supplyCap) == Product(100.0, l.supply)
        else d.supplyPctOfCap == 0.0)
    && d.mevExtracted == Product(d.dailyTxVolume, cfg.mevExtractionRate)
    && (if l.staked > 0.0 then Product(d.topFivePct, l.staked) == Product(100.0, SumOf(Largest(stakes, 5)))
        else d.topFivePct == 0.0)
  }

  lemma DeriveIsExact(cfg: Config, volume: real, before: Ledger, f: Flows, l: Ledger, stakes: seq<real>)
    ensures DerivedExact(cfg, before, f, l, stakes, Derive(cfg, volume, before, f, l, stakes))
    ensures Derive(cfg, volume, before, f, l, stakes).dailyTxVolume == volume
  {
    hide Product, Quotient, Percent, Ratio, SumOf, Largest;
    RatioMeasures(l.staked, l.supply);
    PercentMeasures(Product(AnnualProvisions(before, f), cfg.splitStaking), l.staked);
    PercentMeasures(Product(f.mint - f.burn, cfg.epochsPerYear as real), l.supply);
    PercentMeasures(l.supply, cfg.supplyCap);
    PercentMeasures(SumOf(Largest(stakes, 5)), l.staked);
  }

  lemma RatioMeasures(a: real, b: real)
    ensures if b > 0.0 then Product(Ratio(a, b), b) == a else Ratio(a, b) == 0.0
  {
    if b > 0.0 { QuotientTimes(a, b); }
    hide Product, Quotient;
  }

  lemma PercentMeasures(a: real, b: real)
    ensures if b > 0.0 then Product(Percent(a, b), b) == Product(100.0, a) else Percent(a, b) == 0.0
  {
    if b > 0.0 { PercentTimes(a, b); } else { ProductUnits(100.0); }
    hide Product;
  }

  /** base^n. */
  function PowerOf(base: real, n: nat): real { if n == 0 then 1.0 else Product(base, PowerOf(base, n - 1)) }

  /** Volume compounds from its first value. */
  lemma {:induction false} VolumeCompounds(cfg: Config, n: nat)
    ensures Volume(cfg, n) == Product(cfg.dailyTxVolume, PowerOf(1.0 + cfg.txVolumeGrowth, n))
  {
    ProductUnits(cfg.dailyTxVolume);
    if n > 0 {
      VolumeCompounds(cfg, n - 1);
      var g := 1.0 + cfg.txVolumeGrowth;
      ProductAssociates(cfg.dailyTxVolume, PowerOf(g, n - 1), g);
      ProductCommutes(PowerOf(g, n - 1), g);
    }
    hide Product;
  }

  // --- What the rates say ------------------------------------------------------------------

  /** The recorded net inflation times the supply is a year of the epoch's change of supply. */
  lemma NetInflationIsGrowth(cfg: Config, year: int, l: Ledger, volume: real, stakes: seq<real>)
    requires cfg.Admissible()
    ensures var f := EpochFlows(cfg, year, l); var next := Settle(cfg, l, f);
      next.supply > 0.0 ==>
        Product(Derive(cfg, volume, l, f, next, stakes).netInflation, next.supply)
        == Product(100.0, Product(next.supply - l.supply, cfg.epochsPerYear as real))
  {
    var f := EpochFlows(cfg, year, l);
    var next := Settle(cfg, l, f);
    if next.supply > 0.0 {
      PercentTimes(Product(f.mint - f.burn, cfg.epochsPerYear as real), next.supply);
    }
    hide EpochFlows, Product, Quotient, DesiredStake, Largest, Percent;
  }

  /** The recorded APY is the year's rate at which the epoch paid stakers if and only if the cap did
      not cut the epoch's mint, or stakers are paid nothing. */
  lemma ApyIsPaidIff(cfg: Config, year: int, l: Ledger, volume: real, stakes: seq<real>)
    requires cfg.Admissible() && Sound(cfg, l)
    requires Settle(cfg, l, EpochFlows(cfg, year, l)).staked > 0.0
    ensures var f := EpochFlows(cfg, year, l); var next, epy := Settle(cfg, l, f), cfg.epochsPerYear as real;
      Derive(cfg, volume, l, f, next, stakes).stakingApy == Percent(Product(f.toStaking, epy), next.staked)
      <==> cfg.splitStaking == 0.0 || Quotient(AnnualProvisions(l, f), epy) <= cfg.supplyCap - l.supply
  {
    var f, epy := EpochFlows(cfg, year, l), cfg.epochsPerYear as real;
    var next, annual := Settle(cfg, l, f), AnnualProvisions(l, f);
    PercentCancel(Product(annual, cfg.splitStaking), Product(f.toStaking, epy), next.staked);
    YearOfMintIff(cfg, l, f.rate);
    ProductAssociates(f.mint, cfg.splitStaking, epy);
    ProductCommutes(cfg.splitStaking, epy);
    ProductAssociates(f.mint, epy, cfg.splitStaking);
    ProductUnits(annual);
    ProductUnits(Product(f.mint, epy));
    if cfg.splitStaking > 0.0 { ProductCancel(annual, Product(f.mint, epy), cfg.splitStaking); }
    hide Settle, CappedMint, Product, Quotient, Percent, TreasuryShare, BurnBase, Largest, Sound;
  }

  /** The mint is a year's provisions over the epochs exactly when they fit under the cap. */
  lemma YearOfMintIff(cfg: Config, l: Ledger, rate: real)
    requires cfg.Admissible() && Sound(cfg, l) && rate >= 0.0
    ensures var annual, epy := Product(l.supply, rate), cfg.epochsPerYear as real;
      Product(CappedMint(cfg, l, rate), epy) == annual <==> Quotient(annual, epy) <= cfg.supplyCap - l.supply
  {
    var annual, epy := Product(l.supply, rate), cfg.epochsPerYear as real;
    QuotientTimes(annual, epy);
    ProductCancel(CappedMint(cfg, l, rate), Quotient(annual, epy), epy);
    YearAtCap(cfg, l, rate);
    hide Product, Quotient;
  }

  lemma YearAtCap(cfg: Config, l: Ledger, rate: real)
    requires cfg.Admissible() && Sound(cfg, l) && rate >= 0.0
    ensures var mint := Quotient(Product(l.supply, rate), cfg.epochsPerYear as real);
      CappedMint(cfg, l, rate) == mint <==> mint <= cfg.supplyCap - l.supply
  {
    ProductSign(l.supply, rate);
    hide Product, Quotient;
    QuotientSign(Product(l.supply, rate), cfg.epochsPerYear as real);
  }

  lemma RatioBounds(a: real, b: real)
    requires 0.0 <= a <= b
    ensures 0.0 <= Ratio(a, b) <= 1.0
  {
    if b > 0.0 {
      QuotientTimes(a, b);
      ProductUnits(b);
      ProductCancel(0.0, Quotient(a, b), b);
      ProductCancel(Quotient(a, b), 1.0, b);
      hide Product, Quotient;
    }
  }

  /** Staking ratio and share of the cap stay in range on every sound ledger. */
  lemma SharesInRange(cfg: Config, volume: real, before: Ledger, f: Flows, l: Ledger, stakes: seq<real>)
    requires Sound(cfg, l)
    ensures var d := Derive(cfg, volume, before, f, l, stakes);
      0.0 <= d.stakingRatio <= 1.0 && 0.0 <= d.supplyPctOfCap <= 100.0
  {
    RatioBounds(l.staked, l.supply);
    RatioBounds(l.supply, cfg.supplyCap);
    ProductMonotone(0.0, Ratio(l.supply, cfg.supplyCap), 100.0);
    ProductMonotone(Ratio(l.supply, cfg.supplyCap), 1.0, 100.0);
    ProductUnits(100.0);
    hide Product, Ratio, Largest;
  }

  // --- The five largest stakes --------------------------------------------------------------

  lemma {:induction false} SumRemove(xs: seq<real>, i: nat)
    requires i < |xs|
    ensures SumOf(xs) == xs[i] + SumOf(xs[..i] + xs[i + 1..])
  {
    if i == 0 {
      assert xs[..0] + xs[1..] == xs[1..];
    } else {
      SumRemove(xs[1..], i - 1);
      var rest := xs[..i] + xs[i + 1..];
      assert rest[1..] == xs[1..][..i - 1] + xs[1..][i..];
    }
  }

  lemma LastSum(s: seq<real>, k: nat)
    requires 0 < k <= |s|
    ensures SumOf(Last(s, k)) == s[|s| - 1] + SumOf(Last(s[..|s| - 1], k - 1))
  {
    var last := Last(s, k);
    SumRemove(last, k - 1);
    assert last[..k - 1] + last[k..] == Last(s[..|s| - 1], k - 1);
    hide SumOf;
  }

  /** Of an ascending list no k entries add up to more than the last k. */
  lemma {:induction false} LastAreLargest(s: seq<real>, ys: seq<real>)
    requires Ascending(s) && multiset(ys) <= multiset(s) && |ys| <= |s|
    ensures SumOf(ys) <= SumOf(Last(s, |ys|))
  {
    if ys == [] {
      assert Last(s, 0) == [];
    } else {
      var less := s[..|s| - 1];
      var i := Chosen(s, ys);
      var rest := ys[..i] + ys[i + 1..];
      WithoutOne(ys, i);
      SumRemove(ys, i);
      LastSum(s, |ys|);
      hide SumOf, Last;
      LastAreLargest(less, rest);
    }
  }

  lemma WithoutOne(ys: seq<real>, i: nat)
    requires i < |ys|
    ensures multiset(ys[..i] + ys[i + 1..]) == multiset(ys) - multiset{ys[i]}
  {
    assert ys == ys[..i] + [ys[i]] + ys[i + 1..];
  }

  /** An entry that can be left out together with the last of s. */
  lemma Chosen(s: seq<real>, ys: seq<real>) returns (i: nat)
    requires Ascending(s) && multiset(ys) <= multiset(s) && ys != [] && s != []
    ensures i < |ys| && ys[i] <= s[|s| - 1]
    ensures multiset(ys) - multiset{ys[i]} <= multiset(s[..|s| - 1])
  {
    var top, less := s[|s| - 1], s[..|s| - 1];
    assert s == less + [top];
    assert multiset(s) == multiset(less) + multiset{top};
    if top in ys {
      i :| 0 <= i < |ys| && ys[i] == top;
    } else {
      i := 0;
      assert top !in multiset(ys) && ys[0] in multiset(s);
    }
  }

  /** No five validators hold more than the recorded ones: the sum of any k stakes is at most that of
      the k largest, which are themselves stakes. */
  lemma LargestIsMaximal(xs: seq<real>, ys: seq<real>)
    requires multiset(ys) <= multiset(xs)
    ensures SumOf(ys) <= SumOf(Largest(xs, |ys|)) && multiset(Largest(xs, |ys|)) <= multiset(xs)
  {
    hide *;
    SizeFromMultiset(xs, ys);
    SortedAscending(xs);
    LastAreLargest(Sorted(xs), ys);
    LargestIsLast(xs, |ys|);
    LastIsPart(Sorted(xs), |ys|);
  }

  lemma LargestIsLast(xs: seq<real>, k: nat)
    requires k <= |xs|
    ensures Largest(xs, k) == Last(Sorted(xs), k)
  {
    hide Sorted, Last;
  }

  lemma LastIsPart(s: seq<real>, k: nat)
    requires k <= |s|
    ensures multiset(Last(s, k)) <= multiset(s)
  {
    assert s == s[..|s| - k] + Last(s, k);
  }

  lemma SizeFromMultiset(xs: seq<real>, ys: seq<real>)
    requires multiset(ys) <= multiset(xs)
    ensures |ys| <= |xs|
  {
    var more := multiset(xs) - multiset(ys);
    assert multiset(xs) == multiset(ys) + more;
    assert |multiset(xs)| == |multiset(ys)| + |more|;
  }

  lemma {:induction false} InsertScaled(a: real, xs: seq<real>, c: real)
    requires c > 0.0
    ensures Scaled(Insert(a, xs), c) == Insert(Product(a, c), Scaled(xs, c))
  {
    if xs != [] {
      ProductCancel(a, xs[0], c);
      hide Product;
      if a <= xs[0] {
        assert ([a] + xs)[1..] == xs;
      } else {
        InsertScaled(a, xs[1..], c);
        assert ([xs[0]] + Insert(a, xs[1..]))[1..] == Insert(a, xs[1..]);
      }
    }
  }

  lemma {:induction false} SortedScaled(xs: seq<real>, c: real)
    requires c > 0.0
    ensures Sorted(Scaled(xs, c)) == Scaled(Sorted(xs), c)
  {
    if xs != [] {
      SortedScaled(xs[1..], c);
      InsertScaled(xs[0], Sorted(xs[1..]), c);
      hide Product, Insert;
    }
  }

  /** A common positive factor passes through the sum of the largest. */
  lemma LargestScaled(xs: seq<real>, k: nat, c: real)
    requires c > 0.0
    ensures SumOf(Largest(Scaled(xs, c), k)) == Product(SumOf(Largest(xs, k)), c)
  {
    SortedScaled(xs, c);
    SumScaled(Largest(xs, k), c);
    hide Sorted, SumOf, Product;
    assert Largest(Scaled(xs, c), k) == Scaled(Largest(xs, k), c);
  }

  /** Rescaling stakes does not change the share that the largest have of the total. */
  lemma LargestShareKept(xs: seq<real>, k: nat, c: real)
    requires c > 0.0 && SumOf(xs) > 0.0
    ensures Percent(SumOf(Largest(Scaled(xs, c), k)), SumOf(Scaled(xs, c))) == Percent(SumOf(Largest(xs, k)), SumOf(xs))
  {
    LargestScaled(xs, k, c);
    SumScaled(xs, c);
    hide SumOf, Largest;
    var top, total := SumOf(Largest(xs, k)), SumOf(xs);
    ProductSign(total, c);
    QuotientTimes(top, total);
    ProductAssociates(Quotient(top, total), total, c);
    hide Product, Quotient;
    QuotientUnique(Quotient(top, total), Product(top, c), Product(total, c));
  }
}
