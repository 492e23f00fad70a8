/** The token ledger of the tokenomics simulator: mint, emission split, burn, staking flow. */
module Ledger {
  import opened RealArith
  import opened RewardMult

  datatype Distribution = Uniform | PowerLaw | Whale

  datatype Config = Config(
    supplyCap: real, genesisSupply: real,
    inflationSchedule: map<int, real>, inflationDecay: real, inflationFloor: real, inflationCeiling: real,
    splitStaking: real, splitPoc: real, splitSequencer: real, splitTreasury: real,
    treasuryBurnRedirect: real, effectiveBurnRate: real,
    targetStakingRatio: real, adjustmentSpeed: real, initialStakingRatio: real,
    multMin: real, multMax: real, emaAlpha: real, epochsPerYear: nat,
    numValidators: nat, distribution: Distribution, whaleStakePct: real, pocGamingFraction: real,
    dailyTxVolume: real, txVolumeGrowth: real, mevExtractionRate: real)
  {
    /** `get_inflation_rate`: the schedule, then a linear decay, clamped. */
    function InflationRate(year: int): (rate: real)
      ensures inflationFloor <= inflationCeiling ==> inflationFloor <= rate <= inflationCeiling
    {
      var rate := if year in inflationSchedule then inflationSchedule[year]
                  else 0.0175 - Product(inflationDecay, (year - 5) as real);
      Clamp(rate, inflationFloor, inflationCeiling)
    }

    /** Admissible parameters. Nothing is asked of the staking target, its speed or the EMA. */
    ghost predicate Admissible() {
      && 0.0 <= genesisSupply <= supplyCap
      && epochsPerYear >= 1 && numValidators >= 1
      && 0.0 <= inflationFloor <= inflationCeiling
      && splitStaking >= 0.0 && splitPoc >= 0.0 && splitSequencer >= 0.0 && splitTreasury >= 0.0
      && SplitTotal() <= 1.0
      && 0.0 <= treasuryBurnRedirect <= 1.0
      && 0.0 <= effectiveBurnRate <= epochsPerYear as real
      && 0.0 <= initialStakingRatio <= 1.0
    }

    /** Parameters under which something always stays staked: a positive genesis stake, a target that
        is not negative, and an adjustment of less than the whole gap per epoch. */
    ghost predicate KeepsStake() {
      && Admissible() && genesisSupply > 0.0 && initialStakingRatio > 0.0
      && targetStakingRatio >= 0.0 && 0.0 <= adjustmentSpeed < epochsPerYear as real
    }

    function SplitTotal(): real { splitStaking + splitPoc + splitSequencer + splitTreasury }
  }

  datatype Ledger = Ledger(supply: real, minted: real, burned: real, staked: real, treasury: real) {
    function Unclamped(): real { supply - staked - treasury }

    /** `total_supply - staked - treasury`, cut at zero. */
    function Circulating(): real { if Unclamped() < 0.0 then 0.0 else Unclamped() }
  }

  datatype Flows = Flows(
    rate: real, mint: real, toStaking: real, toPoc: real, toSequencer: real, toTreasury: real,
    burn: real, redirected: real)

  function Genesis(cfg: Config): Ledger {
    Ledger(cfg.genesisSupply, cfg.genesisSupply, 0.0, Product(cfg.genesisSupply, cfg.initialStakingRatio), 0.0)
  }

  function CappedMint(cfg: Config, l: Ledger, rate: real): real {
    var mint := Quotient(Product(l.supply, rate), cfg.epochsPerYear as real);
    var remaining := cfg.supplyCap - l.supply;
    if remaining <= 0.0 then 0.0 else if mint > remaining then remaining else mint
  }

  /** The treasury's share, with the rounding remainder. */
  function TreasuryShare(cfg: Config, mint: real): real {
    var distributed := Product(mint, cfg.splitStaking) + Product(mint, cfg.splitPoc)
                       + Product(mint, cfg.splitSequencer) + Product(mint, cfg.splitTreasury);
    Product(mint, cfg.splitTreasury) + if distributed < mint then mint - distributed else 0.0
  }

  function BurnBase(cfg: Config, l: Ledger): real {
    Product(l.Circulating(), Quotient(cfg.effectiveBurnRate, cfg.epochsPerYear as real))
  }

  function EpochFlows(cfg: Config, year: int, l: Ledger): Flows {
    var rate := cfg.InflationRate(year);
    var mint := CappedMint(cfg, l, rate);
    var base := BurnBase(cfg, l);
    var redirected := Product(base, cfg.treasuryBurnRedirect);
    var tooMuch := base - redirected > l.supply;
    Flows(rate, mint,
          Product(mint, cfg.splitStaking), Product(mint, cfg.splitPoc), Product(mint, cfg.splitSequencer),
          TreasuryShare(cfg, mint),
          if tooMuch then l.supply else base - redirected,
          if tooMuch then 0.0 else redirected)
  }

  /** Mean reversion of the staked amount, before its two limits. */
  function DesiredStake(cfg: Config, staked: real, emission: real, supply: real): real {
    var ratio := if supply > 0.0 then Quotient(staked, supply) else 0.0;
    var adjustment := Product(cfg.targetStakingRatio - ratio, cfg.adjustmentSpeed);
    staked + emission + Quotient(Product(supply, adjustment), cfg.epochsPerYear as real)
  }

  function LimitStake(stake: real, maxStakeable: real): real {
    var capped := if stake > maxStakeable then maxStakeable else stake;
    if capped < 0.0 then 0.0 else capped
  }

  function Settle(cfg: Config, l: Ledger, f: Flows): Ledger {
    var supply := l.supply + f.mint - f.burn;
    var treasury := l.treasury + (f.toTreasury + f.redirected);
    Ledger(supply, l.minted + f.mint, l.burned + f.burn,
           LimitStake(DesiredStake(cfg, l.staked, f.toStaking, supply), supply - treasury), treasury)
  }

  // --- The invariant ---------------------------------------------------------------

  ghost predicate Sound(cfg: Config, l: Ledger) {
    && l.supply == l.minted - l.burned
    && 0.0 <= l.supply <= cfg.supplyCap
    && l.minted >= 0.0 && l.burned >= 0.0 && l.staked >= 0.0 && l.treasury >= 0.0
    && l.staked + l.treasury <= l.supply
  }

  lemma GenesisSound(cfg: Config)
    requires cfg.Admissible()
    ensures Sound(cfg, Genesis(cfg))
  {
    ProductMonotone(0.0, cfg.initialStakingRatio, cfg.genesisSupply);
    ProductMonotone(cfg.initialStakingRatio, 1.0, cfg.genesisSupply);
    ProductUnits(cfg.genesisSupply);
    hide Product;
  }

  lemma QuotientSign(a: real, b: real)
    requires a >= 0.0 && b > 0.0
    ensures Quotient(a, b) >= 0.0
  {
    QuotientTimes(a, b);
    ProductCancel(0.0, Quotient(a, b), b);
    ProductUnits(b);
  }

  lemma MintBounds(cfg: Config, l: Ledger, rate: real)
    requires cfg.Admissible() && Sound(cfg, l) && rate >= 0.0
    ensures 0.0 <= CappedMint(cfg, l, rate) <= cfg.supplyCap - l.supply
  {
    ProductSign(l.supply, rate);
    hide Product, Quotient;
    QuotientSign(Product(l.supply, rate), cfg.epochsPerYear as real);
  }

  lemma SplitSum(cfg: Config, mint: real)
    ensures Product(mint, cfg.splitStaking) + Product(mint, cfg.splitPoc) + Product(mint, cfg.splitSequencer)
            + Product(mint, cfg.splitTreasury) == Product(mint, cfg.SplitTotal())
  {
    ProductSum(mint, cfg.splitStaking, cfg.splitPoc);
    ProductSum(mint, cfg.splitStaking + cfg.splitPoc, cfg.splitSequencer);
    ProductSum(mint, cfg.splitStaking + cfg.splitPoc + cfg.splitSequencer, cfg.splitTreasury);
    hide Product;
  }

  /** The four channels add up to the mint exactly when nothing is minted or the splits do not
      exceed the whole. */
  lemma ChannelsSumToMintIff(cfg: Config, mint: real)
    requires mint >= 0.0
    ensures Product(mint, cfg.splitStaking) + Product(mint, cfg.splitPoc) + Product(mint, cfg.splitSequencer)
            + TreasuryShare(cfg, mint) == mint
       <==> mint == 0.0 || cfg.SplitTotal() <= 1.0
  {
    SplitSum(cfg, mint);
    ProductUnits(mint);
    if mint > 0.0 {
      ProductCancel(cfg.SplitTotal(), 1.0, mint);
      ProductCommutes(cfg.SplitTotal(), mint);
    } else {
      ProductUnits(cfg.SplitTotal());
    }
    hide Product;
  }

  lemma SharesBounded(cfg: Config, mint: real)
    requires cfg.Admissible() && mint >= 0.0
    ensures Product(mint, cfg.splitStaking) >= 0.0 && Product(mint, cfg.splitPoc) >= 0.0
    ensures Product(mint, cfg.splitSequencer) >= 0.0 && 0.0 <= TreasuryShare(cfg, mint) <= mint
  {
    ProductSign(mint, cfg.splitStaking);
    ProductSign(mint, cfg.splitPoc);
    ProductSign(mint, cfg.splitSequencer);
    ProductSign(mint, cfg.splitTreasury);
    ChannelsSumToMintIff(cfg, mint);
    hide Product;
  }

  /** What leaves circulation in an epoch never exceeds what circulates. */
  lemma BurnBounds(cfg: Config, l: Ledger)
    requires cfg.Admissible() && Sound(cfg, l)
    ensures var base := BurnBase(cfg, l); var redirected := Product(base, cfg.treasuryBurnRedirect);
      0.0 <= redirected <= base <= l.Circulating() && l.Circulating() == l.Unclamped()
  {
    var epy := cfg.epochsPerYear as real;
    var share := Quotient(cfg.effectiveBurnRate, epy);
    QuotientTimes(cfg.effectiveBurnRate, epy);
    QuotientSign(cfg.effectiveBurnRate, epy);
    ProductUnits(epy);
    ProductCancel(share, 1.0, epy);
    var c := l.Circulating();
    ProductMonotone(share, 1.0, c);
    ProductUnits(c);
    ProductSign(c, share);
    var base := Product(c, share);
    ProductMonotone(cfg.treasuryBurnRedirect, 1.0, base);
    ProductUnits(base);
    ProductSign(base, cfg.treasuryBurnRedirect);
    hide Product, Quotient;
  }

  lemma FlowsSound(cfg: Config, year: int, l: Ledger)
    requires cfg.Admissible() && Sound(cfg, l)
    ensures var f := EpochFlows(cfg, year, l);
      && 0.0 <= f.mint <= cfg.supplyCap - l.supply
      && f.toStaking >= 0.0 && f.toPoc >= 0.0 && f.toSequencer >= 0.0 && 0.0 <= f.toTreasury <= f.mint
      && f.toStaking + f.toPoc + f.toSequencer + f.toTreasury == f.mint
      && f.burn >= 0.0 && f.redirected >= 0.0 && f.burn + f.redirected <= l.Unclamped()
      && f.burn + f.redirected == BurnBase(cfg, l)
  {
    var mint := CappedMint(cfg, l, cfg.InflationRate(year));
    MintBounds(cfg, l, cfg.InflationRate(year));
    hide CappedMint;
    SharesBounded(cfg, mint);
    ChannelsSumToMintIff(cfg, mint);
    BurnBounds(cfg, l);
    hide Product, TreasuryShare, BurnBase;
  }

  /** One epoch keeps the ledger sound. */
  lemma EpochSound(cfg: Config, year: int, l: Ledger)
    requires cfg.Admissible() && Sound(cfg, l)
    ensures Sound(cfg, Settle(cfg, l, EpochFlows(cfg, year, l)))
  {
    FlowsSound(cfg, year, l);
    hide EpochFlows, DesiredStake;
  }

  // --- Stake that never runs out -----------------------------------------------------

  lemma GenesisStaked(cfg: Config)
    requires cfg.KeepsStake()
    ensures Genesis(cfg).staked > 0.0
  {
    ProductSign(cfg.genesisSupply, cfg.initialStakingRatio);
  }

  /** Mean reversion takes away less than everything. */
  lemma DesiredStakePositive(cfg: Config, staked: real, emission: real, supply: real)
    requires cfg.KeepsStake() && staked > 0.0 && emission >= 0.0 && supply > 0.0
    ensures DesiredStake(cfg, staked, emission, supply) > 0.0
  {
    var epy, speed, target := cfg.epochsPerYear as real, cfg.adjustmentSpeed, cfg.targetStakingRatio;
    var ratio := Quotient(staked, supply);
    var pull := Product(supply, Product(target - ratio, speed));
    hide Product, Quotient;
    QuotientTimes(staked, supply);
    ProductCommutes(ratio, supply);
    ProductDifference(supply, target, ratio);
    ProductAssociates(supply, target - ratio, speed);
    ProductSign(supply, target);
    ProductMonotone(0.0 - staked, Product(supply, target) - staked, speed);
    ProductDifference(speed, 0.0, staked);
    ProductUnits(speed);
    assert pull >= 0.0 - Product(staked, speed);
    ProductDifference(staked, epy, speed);
    ProductSign(staked, epy - speed);
    QuotientTimes(pull, epy);
    ProductDifference(epy, 0.0, staked);
    ProductUnits(epy);
    ProductCancel(Quotient(pull, epy), 0.0 - staked, epy);
  }

  /** An epoch that starts with stake ends with stake. */
  lemma EpochKeepsStake(cfg: Config, year: int, l: Ledger)
    requires cfg.KeepsStake() && Sound(cfg, l) && l.staked > 0.0
    ensures Settle(cfg, l, EpochFlows(cfg, year, l)).staked > 0.0
  {
    FlowsSound(cfg, year, l);
    var f := EpochFlows(cfg, year, l);
    hide EpochFlows, BurnBase;
    DesiredStakePositive(cfg, l.staked, f.toStaking, l.supply + f.mint - f.burn);
    hide DesiredStake;
  }

  // --- Every flow exactly ----------------------------------------------------------------

  /** The yearly rate outside the schedule: 1.75% in year 5, one decay lower every year after, one
      higher every year before. */
  function DecayedRate(cfg: Config, year: int): real
    decreases if year >= 5 then year - 5 else 5 - year
  {
    if year == 5 then 0.0175
    else if year > 5 then DecayedRate(cfg, year - 1) - cfg.inflationDecay
    else DecayedRate(cfg, year + 1) + cfg.inflationDecay
  }

  lemma {:induction false} DecayedRateClosed(cfg: Config, year: int)
    ensures DecayedRate(cfg, year) == 0.0175 - Product(cfg.inflationDecay, (year - 5) as real)
    decreases if year >= 5 then year - 5 else 5 - year
  {
    var d := cfg.inflationDecay;
    ProductUnits(d);
    if year > 5 {
      DecayedRateClosed(cfg, year - 1);
      ProductSum(d, (year - 6) as real, 1.0);
      assert (year - 5) as real == (year - 6) as real + 1.0;
    } else if year < 5 {
      DecayedRateClosed(cfg, year + 1);
      ProductDifference(d, (year - 4) as real, 1.0);
      assert (year - 5) as real == (year - 4) as real - 1.0;
    }
    hide Product;
  }

  function UnlimitedRate(cfg: Config, year: int): real {
    if year in cfg.inflationSchedule then cfg.inflationSchedule[year] else DecayedRate(cfg, year)
  }

  /** The rate of a year is the scheduled or else the decayed one, limited to floor and ceiling. */
  lemma InflationByYear(cfg: Config, year: int)
    requires cfg.inflationFloor <= cfg.inflationCeiling
    ensures Nearest(cfg.InflationRate(year), UnlimitedRate(cfg, year), cfg.inflationFloor, cfg.inflationCeiling)
  {
    DecayedRateClosed(cfg, year);
  }

  /** A year's provisions spread over the epochs, where they fit under the cap; otherwise what is
      left. */
  ghost predicate MintsExactly(cfg: Config, l: Ledger, rate: real, mint: real) {
    var epy, left := cfg.epochsPerYear as real, cfg.supplyCap - l.supply;
    if Product(l.supply, rate) <= Product(left, epy) then Product(mint, epy) == Product(l.supply, rate) else mint == left
  }

  /** The three named channels get their own split of the mint, the treasury all the rest. */
  ghost predicate SplitsExactly(cfg: Config, f: Flows) {
    && f.toStaking == Product(f.mint, cfg.splitStaking) && f.toPoc == Product(f.mint, cfg.splitPoc)
    && f.toSequencer == Product(f.mint, cfg.splitSequencer)
    && f.toTreasury == Product(f.mint, 1.0 - cfg.splitStaking - cfg.splitPoc - cfg.splitSequencer)
  }

  /** An epoch's part of the yearly burn rate leaves circulation; the redirect's part of that goes to
      the treasury and the rest is burned. */
  ghost predicate BurnsExactly(cfg: Config, l: Ledger, f: Flows) {
    && Product(f.burn + f.redirected, cfg.epochsPerYear as real)
       == Product(l.supply - l.staked - l.treasury, cfg.effectiveBurnRate)
    && f.redirected == Product(f.burn + f.redirected, cfg.treasuryBurnRedirect)
    && f.burn == Product(f.burn + f.redirected, 1.0 - cfg.treasuryBurnRedirect)
  }

  lemma MintExact(cfg: Config, l: Ledger, rate: real)
    requires cfg.Admissible() && Sound(cfg, l) && rate >= 0.0
    ensures MintsExactly(cfg, l, rate, CappedMint(cfg, l, rate))
  {
    var annual, epy, left := Product(l.supply, rate), cfg.epochsPerYear as real, cfg.supplyCap - l.supply;
    ProductSign(l.supply, rate);
    QuotientTimes(annual, epy);
    ProductCancel(Quotient(annual, epy), left, epy);
    hide Product, Quotient;
    QuotientSign(annual, epy);
  }

  lemma SplitExact(cfg: Config, year: int, l: Ledger)
    requires cfg.Admissible() && Sound(cfg, l)
    ensures SplitsExactly(cfg, EpochFlows(cfg, year, l))
  {
    var f := EpochFlows(cfg, year, l);
    FlowsSound(cfg, year, l);
    var m := f.mint;
    ProductUnits(m);
    ProductDifference(m, 1.0, cfg.splitStaking);
    ProductDifference(m, 1.0 - cfg.splitStaking, cfg.splitPoc);
    ProductDifference(m, 1.0 - cfg.splitStaking - cfg.splitPoc, cfg.splitSequencer);
    hide Product, CappedMint, TreasuryShare, BurnBase;
  }

  lemma BurnExact(cfg: Config, year: int, l: Ledger)
    requires cfg.Admissible() && Sound(cfg, l)
    ensures BurnsExactly(cfg, l, EpochFlows(cfg, year, l))
  {
    var f, base := EpochFlows(cfg, year, l), BurnBase(cfg, l);
    var epy, c := cfg.epochsPerYear as real, l.Circulating();
    BurnBounds(cfg, l);
    FlowsSound(cfg, year, l);
    QuotientTimes(cfg.effectiveBurnRate, epy);
    ProductAssociates(c, Quotient(cfg.effectiveBurnRate, epy), epy);
    ProductDifference(base, 1.0, cfg.treasuryBurnRedirect);
    ProductUnits(base);
    hide Product, Quotient, CappedMint, TreasuryShare;
  }

  /** The stake aimed at: the emission is added, and the distance between target and ratio draws in
      supply at the yearly speed. */
  ghost predicate AimsAt(cfg: Config, l: Ledger, f: Flows, next: Ledger, desired: real) {
    Product(desired - l.staked - f.toStaking, cfg.epochsPerYear as real)
    == Product(Product(cfg.targetStakingRatio, next.supply) - (if next.supply > 0.0 then l.staked else 0.0), cfg.adjustmentSpeed)
  }

  /** The staked amount is that, limited to what is neither negative nor in the treasury. */
  ghost predicate StakesExactly(cfg: Config, l: Ledger, f: Flows, next: Ledger) {
    exists desired :: AimsAt(cfg, l, f, next, desired) && Nearest(next.staked, desired, 0.0, next.supply - next.treasury)
  }

  lemma StakeExact(cfg: Config, year: int, l: Ledger)
    requires cfg.Admissible() && Sound(cfg, l)
    ensures var f := EpochFlows(cfg, year, l); StakesExactly(cfg, l, f, Settle(cfg, l, f))
  {
    var f := EpochFlows(cfg, year, l);
    var next := Settle(cfg, l, f);
    FlowsSound(cfg, year, l);
    hide EpochFlows, BurnBase;
    EpochDrift(cfg, l.staked, f.toStaking, next.supply);
    var desired := DesiredStake(cfg, l.staked, f.toStaking, next.supply);
    assert next.staked == LimitStake(desired, next.supply - next.treasury);
    hide DesiredStake, Product;
    assert AimsAt(cfg, l, f, next, desired) && Nearest(next.staked, desired, 0.0, next.supply - next.treasury);
  }

  lemma EpochDrift(cfg: Config, staked: real, emission: real, supply: real)
    requires cfg.epochsPerYear >= 1 && supply >= 0.0
    ensures Product(DesiredStake(cfg, staked, emission, supply) - staked - emission, cfg.epochsPerYear as real)
      == Product(Product(cfg.targetStakingRatio, supply) - (if supply > 0.0 then staked else 0.0), cfg.adjustmentSpeed)
  {
    var epy, speed, target := cfg.epochsPerYear as real, cfg.adjustmentSpeed, cfg.targetStakingRatio;
    var ratio := if supply > 0.0 then Quotient(staked, supply) else 0.0;
    QuotientTimes(Product(supply, Product(target - ratio, speed)), epy);
    ProductAssociates(supply, target - ratio, speed);
    ProductDifference(supply, target, ratio);
    ProductCommutes(supply, target);
    ProductUnits(supply);
    if supply > 0.0 {
      QuotientTimes(staked, supply);
      ProductCommutes(ratio, supply);
    }
    hide Product, Quotient;
  }

  /** Every figure of an epoch against the ledger it starts from. */
  ghost predicate EpochExact(cfg: Config, year: int, l: Ledger, f: Flows, next: Ledger) {
    && Nearest(f.rate, UnlimitedRate(cfg, year), cfg.inflationFloor, cfg.inflationCeiling)
    && MintsExactly(cfg, l, f.rate, f.mint)
    && SplitsExactly(cfg, f) && BurnsExactly(cfg, l, f)
    && next.supply == l.supply + f.mint - f.burn
    && next.minted == l.minted + f.mint && next.burned == l.burned + f.burn
    && next.treasury == l.treasury + f.toTreasury + f.redirected
    && StakesExactly(cfg, l, f, next)
  }

  /** The flows and the settlement of an epoch are exactly these. */
  lemma EpochIsExact(cfg: Config, year: int, l: Ledger)
    requires cfg.Admissible() && Sound(cfg, l)
    ensures var f := EpochFlows(cfg, year, l); EpochExact(cfg, year, l, f, Settle(cfg, l, f))
  {
    InflationByYear(cfg, year);
    MintExact(cfg, l, cfg.InflationRate(year));
    SplitExact(cfg, year, l);
    BurnExact(cfg, year, l);
    StakeExact(cfg, year, l);
    hide MintsExactly, SplitsExactly, BurnsExactly, StakesExactly, CappedMint, TreasuryShare, BurnBase, DesiredStake, LimitStake;
    hide Product, UnlimitedRate, Nearest;
  }
}
