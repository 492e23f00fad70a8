/** The epoch loop: ledger, validator stakes, reward multipliers and the recorded coefficients. */
module Simulation {
  import opened RealArith
  import opened Inequality
  import opened RewardMult
  import opened Ledger
  import opened Metrics

  // --- The initial validator set --------------------------------------------------

  function Ranks(n: nat): (r: seq<real>)
    ensures |r| == n && forall i :: 0 <= i < n ==> r[i] == Quotient(1.0, (i + 1) as real)
  {
    if n == 0 then [] else Ranks(n - 1) + [Quotient(1.0, n as real)]
  }

  function WhaleShares(n: nat, whale: real, each: real): (r: seq<real>)
    ensures |r| == n
  {
    if n == 0 then [] else [whale] + Constant(each, n - 1)
  }

  function InitialStakes(cfg: Config, total: real): (r: seq<real>)
    ensures |r| == cfg.numValidators
  {
    var n := cfg.numValidators;
    if cfg.distribution == Whale && cfg.whaleStakePct > 0.0 then
      var whale := Product(total, cfg.whaleStakePct);
      WhaleShares(n, whale, Quotient(total - whale, (if n > 1 then n - 1 else 1) as real))
    else if cfg.distribution == PowerLaw then
      Scaled(Scaled(Ranks(n), Quotient(1.0, SumOf(Ranks(n)))), total)
    else Constant(Quotient(total, n as real), n)
  }

  /** Fresh validators holding the given stakes. */
  method NewValidators(stakes: seq<real>) returns (vs: seq<ValidatorState>)
    ensures Distinct(vs) && fresh(vs) && Stakes(vs) == stakes
    ensures Multipliers(vs) == Emas(vs) == Constant(1.0, |stakes|) && Rewards(vs) == Constant(0.0, |stakes|)
  {
    vs := [];
    for i := 0 to |stakes|
      invariant |vs| == i && Distinct(vs) && fresh(vs)
      invariant forall k :: 0 <= k < i ==> vs[k].stake == stakes[k] && vs[k].rewardsEarned == 0.0
      invariant forall v <- vs :: v.multiplier == v.multiplierRaw == v.multiplierEma == 1.0
    {
      var v := new ValidatorState(i, stakes[i]);
      vs := vs + [v];
    }
  }

  function Emas(vs: seq<ValidatorState>): (r: seq<real>)
    reads vs`multiplierEma
    ensures |r| == |vs| && forall i :: 0 <= i < |vs| ==> r[i] == vs[i].multiplierEma
  {
    if vs == [] then [] else Emas(vs[..|vs| - 1]) + [vs[|vs| - 1].multiplierEma]
  }

  function Rewards(vs: seq<ValidatorState>): (r: seq<real>)
    reads vs`rewardsEarned
    ensures |r| == |vs| && forall i :: 0 <= i < |vs| ==> r[i] == vs[i].rewardsEarned
  {
    if vs == [] then [] else Rewards(vs[..|vs| - 1]) + [vs[|vs| - 1].rewardsEarned]
  }

  // --- One epoch of the validator set ------------------------------------------------

  function Rescaled(stakes: seq<real>, staked: real): (r: seq<real>)
    ensures |r| == |stakes|
  {
    if SumOf(stakes) > 0.0 then Scaled(stakes, Quotient(staked, SumOf(stakes))) else stakes
  }

  /** A validator's share of the emission, by its weight in the staked total. */
  function Share(emission: real, stake: real, staked: real): real {
    Product(emission, Quotient(stake, staked))
  }

  function Paid(rewards: seq<real>, stakes: seq<real>, staked: real, emission: real): (r: seq<real>)
    requires |rewards| == |stakes|
    ensures |r| == |rewards|
    ensures forall i :: 0 <= i < |r| ==> r[i] == rewards[i] + Share(emission, stakes[i], staked)
  {
    if rewards == [] then []
    else [rewards[0] + Share(emission, stakes[0], staked)] + Paid(rewards[1..], stakes[1..], staked, emission)
  }

  function RawMultiplier(cfg: Config): real {
    1.0 + Product(0.01, 1.0 - cfg.pocGamingFraction) + 0.005
  }

  function Ema(cfg: Config, previous: real): real {
    Product(cfg.emaAlpha, RawMultiplier(cfg)) + Product(1.0 - cfg.emaAlpha, previous)
  }

  function Smoothed(cfg: Config, emas: seq<real>): (r: seq<real>)
    ensures |r| == |emas| && forall i :: 0 <= i < |emas| ==> r[i] == Ema(cfg, emas[i])
  {
    if emas == [] then [] else [Ema(cfg, emas[0])] + Smoothed(cfg, emas[1..])
  }

  function Clamped(emas: seq<real>, lo: real, hi: real): (r: seq<real>)
    ensures |r| == |emas| && forall i :: 0 <= i < |emas| ==> r[i] == Clamp(emas[i], lo, hi)
  {
    if emas == [] then [] else [Clamp(emas[0], lo, hi)] + Clamped(emas[1..], lo, hi)
  }

  datatype State = State(ledger: Ledger, stakes: seq<real>, emas: seq<real>, rewards: seq<real>) {
    ghost predicate Sized(n: nat) { |stakes| == |emas| == |rewards| == n }
  }

  function Start(cfg: Config): (s: State)
    ensures s.Sized(cfg.numValidators)
  {
    var n := cfg.numValidators;
    State(Genesis(cfg), InitialStakes(cfg, Genesis(cfg).staked), Constant(1.0, n), Constant(0.0, n))
  }

  function Year(cfg: Config, epoch: nat): nat
    requires cfg.epochsPerYear >= 1
  {
    epoch / cfg.epochsPerYear
  }

  function FlowsAt(cfg: Config, epoch: nat, s: State): Flows
    requires cfg.epochsPerYear >= 1
  {
    EpochFlows(cfg, Year(cfg, epoch), s.ledger)
  }

  function Step(cfg: Config, epoch: nat, s: State): (s': State)
    requires cfg.epochsPerYear >= 1 && |s.stakes| == |s.emas| == |s.rewards|
    ensures |s'.stakes| == |s'.emas| == |s'.rewards| == |s.stakes|
  {
    var f := FlowsAt(cfg, epoch, s);
    var l := Settle(cfg, s.ledger, f);
    var stakes := Rescaled(s.stakes, l.staked);
    var rewards := if SumOf(s.stakes) > 0.0 then Paid(s.rewards, stakes, l.staked, f.toStaking) else s.rewards;
    State(l, stakes, Smoothed(cfg, s.emas), rewards)
  }

  function After(cfg: Config, epochs: nat): (s: State)
    requires cfg.epochsPerYear >= 1
    ensures s.Sized(cfg.numValidators)
  {
    if epochs == 0 then Start(cfg) else Step(cfg, epochs - 1, After(cfg, epochs - 1))
  }

  /** The multipliers at the end of an epoch, from the state after it. */
  function FinalMultipliers(cfg: Config, s: State): seq<real>
    requires |s.stakes| == |s.emas|
  {
    var ms := Clamped(s.emas, cfg.multMin, cfg.multMax);
    if s.ledger.staked == 0.0 then ms
    else Normalized(s.stakes, ms, s.ledger.staked, cfg.multMin, cfg.multMax, 3)
  }

  /** A recorded epoch. */
  datatype EpochState = EpochState(
    epoch: nat, year: nat, ledger: Ledger, circulating: real, flows: Flows, gini: real, derived: Derived,
    validatorCount: nat)

  function RecordAt(cfg: Config, epoch: nat): EpochState
    requires cfg.epochsPerYear >= 1
  {
    var before, after := After(cfg, epoch), After(cfg, epoch + 1);
    EpochState(epoch, Year(cfg, epoch), after.ledger, after.ledger.Circulating(),
               FlowsAt(cfg, epoch, before), Gini(after.stakes), DerivedAt(cfg, epoch), cfg.numValidators)
  }

  function DerivedAt(cfg: Config, epoch: nat): Derived
    requires cfg.epochsPerYear >= 1
  {
    var before, after := After(cfg, epoch), After(cfg, epoch + 1);
    Derive(cfg, Volume(cfg, epoch + 1), before.ledger, FlowsAt(cfg, epoch, before), after.ledger, after.stakes)
  }

  // --- The loop ---------------------------------------------------------------------------

  ghost predicate Represents(vs: seq<ValidatorState>, s: State)
    reads vs
  {
    Distinct(vs) && Stakes(vs) == s.stakes && Emas(vs) == s.emas && Rewards(vs) == s.rewards
  }

  /** `Decimal` sums are folds from the left; over reals the order does not matter. */
  method SumStakes(vs: seq<ValidatorState>) returns (sum: real)
    ensures sum == SumOf(Stakes(vs))
  {
    sum := 0.0;
    var ss := Stakes(vs);
    for i := 0 to |vs|
      invariant sum + SumOf(ss[i..]) == SumOf(ss)
    {
      sum := sum + vs[i].stake;
      assert ss[i..][1..] == ss[i + 1..];
    }
  }

  method PayValidator(v: ValidatorState, scale: real, staked: real, emission: real)
    modifies v`stake, v`rewardsEarned
    ensures v.stake == Product(old(v.stake), scale)
    ensures v.rewardsEarned == old(v.rewardsEarned) + Share(emission, v.stake, staked)
  {
    v.stake := Product(v.stake, scale);
    var share := Product(emission, Quotient(v.stake, staked));
    v.rewardsEarned := v.rewardsEarned + share;
  }

  ghost predicate PaidUpTo(vs: seq<ValidatorState>, k: nat, ss: seq<real>, rs: seq<real>, scale: real, staked: real, emission: real)
    requires k <= |vs| == |ss| == |rs|
    reads vs
  {
    && (forall i :: 0 <= i < k ==> vs[i].stake == Product(ss[i], scale))
    && (forall i :: 0 <= i < k ==> vs[i].rewardsEarned == rs[i] + Share(emission, vs[i].stake, staked))
    && (forall i :: k <= i < |vs| ==> vs[i].stake == ss[i] && vs[i].rewardsEarned == rs[i])
  }

  method PayAll(vs: seq<ValidatorState>, scale: real, staked: real, emission: real)
    requires Distinct(vs)
    modifies vs`stake, vs`rewardsEarned
    ensures Stakes(vs) == Scaled(old(Stakes(vs)), scale)
    ensures Rewards(vs) == Paid(old(Rewards(vs)), Stakes(vs), staked, emission)
  {
    hide Product, Quotient, Share, Stakes, Rewards, Scaled, Paid;
    ghost var ss, rs := Stakes(vs), Rewards(vs);
    for k := 0 to |vs|
      invariant PaidUpTo(vs, k, ss, rs, scale, staked, emission)
    {
      PayValidator(vs[k], scale, staked, emission);
    }
    AllPaid(vs, ss, rs, scale, staked, emission);
  }

  method DistributeStaking(vs: seq<ValidatorState>, staked: real, emission: real)
    requires Distinct(vs)
    modifies vs`stake, vs`rewardsEarned
    ensures Stakes(vs) == Rescaled(old(Stakes(vs)), staked)
    ensures Rewards(vs) == if SumOf(old(Stakes(vs))) > 0.0
      then Paid(old(Rewards(vs)), Stakes(vs), staked, emission) else old(Rewards(vs))
  {
    hide Quotient, Stakes, Rewards, SumOf, Scaled, Paid;
    var total := SumStakes(vs);
    if total > 0.0 {
      var scale := Quotient(staked, total);
      PayAll(vs, scale, staked, emission);
    }
  }

  lemma AllPaid(vs: seq<ValidatorState>, ss: seq<real>, rs: seq<real>, scale: real, staked: real, emission: real)
    requires |vs| == |ss| == |rs| && PaidUpTo(vs, |vs|, ss, rs, scale, staked, emission)
    ensures Stakes(vs) == Scaled(ss, scale)
    ensures Rewards(vs) == Paid(rs, Stakes(vs), staked, emission)
  {
    hide Product, Quotient, Share, Stakes, Rewards, Scaled, Paid;
    assert Stakes(vs) == Scaled(ss, scale);
    assert Rewards(vs) == Paid(rs, Stakes(vs), staked, emission);
  }

  method UpdateMultipliers(cfg: Config, vs: seq<ValidatorState>)
    requires Distinct(vs)
    modifies vs`multiplierRaw, vs`multiplierEma, vs`multiplier
    ensures Emas(vs) == Smoothed(cfg, old(Emas(vs)))
    ensures Multipliers(vs) == Clamped(Emas(vs), cfg.multMin, cfg.multMax)
  {
    ghost var es := Emas(vs);
    hide Product, Emas, Multipliers;
    for k := 0 to |vs|
      invariant forall i :: 0 <= i < k ==> vs[i].multiplierEma == Ema(cfg, es[i])
      invariant forall i :: 0 <= i < k ==> vs[i].multiplier == Clamp(vs[i].multiplierEma, cfg.multMin, cfg.multMax)
      invariant forall i :: k <= i < |vs| ==> vs[i].multiplierEma == es[i]
    {
      var pocBonus := Product(0.01, 1.0 - cfg.pocGamingFraction);
      vs[k].multiplierRaw := 1.0 + pocBonus + 0.005;
      vs[k].multiplierEma := Product(cfg.emaAlpha, vs[k].multiplierRaw)
                             + Product(1.0 - cfg.emaAlpha, vs[k].multiplierEma);
      vs[k].multiplier := Clamp(vs[k].multiplierEma, cfg.multMin, cfg.multMax);
    }
  }

  /** Mint, split, burn and stake: the ledger part of the loop body. */
  method SettleEpoch(cfg: Config, year: nat, l: Ledger) returns (f: Flows, l': Ledger)
    requires cfg.epochsPerYear >= 1
    ensures f == EpochFlows(cfg, year, l) && l' == Settle(cfg, l, f)
  {
    hide Product, Quotient;
    var totalSupply, staked, treasury := l.supply, l.staked, l.treasury;
    var epy := cfg.epochsPerYear as real;
    var rate := cfg.InflationRate(year);
    var epochMint := Quotient(Product(totalSupply, rate), epy);
    var remainingMintable := cfg.supplyCap - totalSupply;
    if remainingMintable <= 0.0 {
      epochMint := 0.0;
    } else if epochMint > remainingMintable {
      epochMint := remainingMintable;
    }
    var stakingEmission := Product(epochMint, cfg.splitStaking);
    var pocEmission := Product(epochMint, cfg.splitPoc);
    var sequencerEmission := Product(epochMint, cfg.splitSequencer);
    var treasuryEmission := Product(epochMint, cfg.splitTreasury);
    var distributed := stakingEmission + pocEmission + sequencerEmission + treasuryEmission;
    if distributed < epochMint {
      treasuryEmission := treasuryEmission + (epochMint - distributed);
    }
    var circulating := totalSupply - staked - treasury;
    if circulating < 0.0 { circulating := 0.0; }
    var burnBase := Product(circulating, Quotient(cfg.effectiveBurnRate, epy));
    var burnToTreasury := Product(burnBase, cfg.treasuryBurnRedirect);
    var epochBurn := burnBase - burnToTreasury;
    if epochBurn > totalSupply {
      epochBurn := totalSupply;
      burnToTreasury := 0.0;
    }
    totalSupply := totalSupply + epochMint - epochBurn;
    treasury := treasury + (treasuryEmission + burnToTreasury);
    var ratio := if totalSupply > 0.0 then Quotient(staked, totalSupply) else 0.0;
    var adjustment := Product(cfg.targetStakingRatio - ratio, cfg.adjustmentSpeed);
    staked := staked + stakingEmission + Quotient(Product(totalSupply, adjustment), epy);
    var maxStakeable := totalSupply - treasury;
    if staked > maxStakeable { staked := maxStakeable; }
    if staked < 0.0 { staked := 0.0; }
    f := Flows(rate, epochMint, stakingEmission, pocEmission, sequencerEmission, treasuryEmission, epochBurn, burnToTreasury);
    l' := Ledger(totalSupply, l.minted + epochMint, l.burned + epochBurn, staked, treasury);
  }

  /** The validator part of the loop body. */
  method RewardEpoch(cfg: Config, vs: seq<ValidatorState>, staked: real, emission: real)
    requires Distinct(vs)
    modifies vs
    ensures Stakes(vs) == Rescaled(old(Stakes(vs)), staked)
    ensures Rewards(vs) == if SumOf(old(Stakes(vs))) > 0.0
      then Paid(old(Rewards(vs)), Stakes(vs), staked, emission) else old(Rewards(vs))
    ensures Emas(vs) == Smoothed(cfg, old(Emas(vs)))
    ensures Multipliers(vs) == if staked == 0.0 then Clamped(Emas(vs), cfg.multMin, cfg.multMax)
      else Normalized(Stakes(vs), Clamped(Emas(vs), cfg.multMin, cfg.multMax), staked, cfg.multMin, cfg.multMax, 3)
  {
    hide Normalized, Stakes, Emas, Rewards, Multipliers, Rescaled, Paid, Smoothed, Clamped, SumOf;
    DistributeStaking(vs, staked, emission);
    UpdateMultipliers(cfg, vs);
    NormalizeMultipliers(vs, staked, cfg.multMin, cfg.multMax, 3);
  }

  /** The whole loop body. */
  method SimulateEpoch(cfg: Config, epoch: nat, l: Ledger, vs: seq<ValidatorState>, ghost s: State)
    returns (flows: Flows, l': Ledger, gini: real)
    requires cfg.epochsPerYear >= 1 && l == s.ledger && Represents(vs, s)
    modifies vs
    ensures |s.stakes| == |s.emas| == |s.rewards|
    ensures Represents(vs, Step(cfg, epoch, s)) && l' == Step(cfg, epoch, s).ledger
    ensures flows == FlowsAt(cfg, epoch, s) && gini == Gini(Step(cfg, epoch, s).stakes)
    ensures Multipliers(vs) == FinalMultipliers(cfg, Step(cfg, epoch, s))
  {
    hide Gini, Normalized, Stakes, Emas, Rewards, Multipliers, Settle, EpochFlows, Rescaled, Paid, Smoothed, Clamped, SumOf;
    flows, l' := SettleEpoch(cfg, Year(cfg, epoch), l);
    RewardEpoch(cfg, vs, l'.staked, flows.toStaking);
    gini := ComputeGini(Stakes(vs));
  }

  lemma Beginning(cfg: Config)
    requires cfg.epochsPerYear >= 1
    ensures After(cfg, 0) == Start(cfg) && Volume(cfg, 0) == cfg.dailyTxVolume
  {}

  lemma NextEpoch(cfg: Config, epoch: nat)
    requires cfg.epochsPerYear >= 1
    ensures After(cfg, epoch + 1) == Step(cfg, epoch, After(cfg, epoch))
    ensures Volume(cfg, epoch + 1) == Product(Volume(cfg, epoch), 1.0 + cfg.txVolumeGrowth)
  {}

  lemma RecordNow(cfg: Config, epoch: nat)
    requires cfg.epochsPerYear >= 1
    ensures var s := After(cfg, epoch + 1);
      RecordAt(cfg, epoch) == EpochState(
        epoch, Year(cfg, epoch), s.ledger, s.ledger.Circulating(), FlowsAt(cfg, epoch, After(cfg, epoch)),
        Gini(s.stakes),
        Derive(cfg, Volume(cfg, epoch + 1), After(cfg, epoch).ledger, FlowsAt(cfg, epoch, After(cfg, epoch)), s.ledger, s.stakes),
        cfg.numValidators)
  {}

  method SimulateEpochs(cfg: Config, numEpochs: nat) returns (results: seq<EpochState>)
    requires cfg.epochsPerYear >= 1 && cfg.numValidators >= 1
    ensures |results| == numEpochs
    ensures forall e :: 0 <= e < numEpochs ==> results[e] == RecordAt(cfg, e)
  {
    hide Gini, Stakes, Emas, Rewards, Multipliers, FinalMultipliers, InitialStakes, Step, FlowsAt, After, RecordAt, Product;
    hide Derive, Year, Volume;
    Beginning(cfg);
    var volume := cfg.dailyTxVolume;
    var ledger := Genesis(cfg);
    var vs := NewValidators(InitialStakes(cfg, ledger.staked));
    results := [];
    for epoch := 0 to numEpochs
      invariant |results| == epoch && fresh(vs) && |vs| == cfg.numValidators
      invariant ledger == After(cfg, epoch).ledger && Represents(vs, After(cfg, epoch))
      invariant volume == Volume(cfg, epoch)
      invariant forall e :: 0 <= e < epoch ==> results[e] == RecordAt(cfg, e)
    {
      var before := ledger;
      var flows, gini;
      flows, ledger, gini := SimulateEpoch(cfg, epoch, before, vs, After(cfg, epoch));
      volume := Product(volume, 1.0 + cfg.txVolumeGrowth);
      var derived := Derive(cfg, volume, before, flows, ledger, Stakes(vs));
      NextEpoch(cfg, epoch);
      RecordNow(cfg, epoch);
      results := results + [EpochState(epoch, Year(cfg, epoch), ledger, ledger.Circulating(), flows, gini, derived, |vs|)];
    }
  }

  // --- Over every run: the ledger --------------------------------------------------------------

  lemma {:induction false} LedgerSoundAfter(cfg: Config, epochs: nat)
    requires cfg.Admissible()
    ensures Sound(cfg, After(cfg, epochs).ledger)
  {
    if epochs == 0 {
      GenesisSound(cfg);
    } else {
      LedgerSoundAfter(cfg, epochs - 1);
      EpochSound(cfg, Year(cfg, epochs - 1), After(cfg, epochs - 1).ledger);
      hide Settle, EpochFlows, Sound, Rescaled, Paid, Smoothed;
    }
  }

  /** What every recorded epoch satisfies: supply is minted less burned and under the cap, the
      channels add up to the mint, nothing is negative, and circulating, staked and treasury add up
      to the supply, so no clamp ever cut circulation. */
  lemma RecordsBalance(cfg: Config, epoch: nat)
    requires cfg.Admissible()
    ensures var r := RecordAt(cfg, epoch); var l, f := r.ledger, r.flows;
      && l.supply == l.minted - l.burned && 0.0 <= l.supply <= cfg.supplyCap
      && l.staked >= 0.0 && l.treasury >= 0.0 && r.circulating >= 0.0
      && r.circulating + l.staked + l.treasury == l.supply
      && f.toStaking + f.toPoc + f.toSequencer + f.toTreasury == f.mint >= 0.0
      && f.burn >= 0.0 && f.redirected >= 0.0
      && After(cfg, epoch).ledger.Circulating() == After(cfg, epoch).ledger.Unclamped()
  {
    LedgerSoundAfter(cfg, epoch);
    LedgerSoundAfter(cfg, epoch + 1);
    FlowsSound(cfg, Year(cfg, epoch), After(cfg, epoch).ledger);
    hide After, EpochFlows, Gini, BurnBase;
  }

  /** Minted, burned and treasury totals only grow, by exactly the recorded flows. */
  lemma TotalsAccumulate(cfg: Config, epoch: nat)
    requires cfg.Admissible()
    ensures var l, r := After(cfg, epoch).ledger, RecordAt(cfg, epoch);
      && r.ledger.minted == l.minted + r.flows.mint >= l.minted
      && r.ledger.burned == l.burned + r.flows.burn >= l.burned
      && r.ledger.treasury == l.treasury + r.flows.toTreasury + r.flows.redirected >= l.treasury
  {
    LedgerSoundAfter(cfg, epoch);
    FlowsSound(cfg, Year(cfg, epoch), After(cfg, epoch).ledger);
    assert After(cfg, epoch + 1) == Step(cfg, epoch, After(cfg, epoch));
    hide After, EpochFlows, Gini, DesiredStake, LimitStake, Rescaled, Paid, Smoothed, BurnBase, Sound;
  }

  // --- Over every run: the validators ---------------------------------------------------------

  lemma {:induction false} ConstantTotal(m: real, n: nat)
    ensures SumOf(Constant(m, n)) == Product(n as real, m)
  {
    if n == 0 {
      ProductUnits(m);
    } else {
      ConstantTotal(m, n - 1);
      assert Constant(m, n)[1..] == Constant(m, n - 1);
      OneMore(n, m);
      hide Product;
    }
  }

  lemma EvenShares(total: real, n: nat)
    requires n >= 1
    ensures SumOf(Constant(Quotient(total, n as real), n)) == total
  {
    ConstantTotal(Quotient(total, n as real), n);
    QuotientTimes(total, n as real);
    ProductCommutes(Quotient(total, n as real), n as real);
  }

  lemma {:induction false} RanksPositive(n: nat)
    requires n >= 1
    ensures SumOf(Ranks(n)) > 0.0
  {
    if n == 1 {
      assert Ranks(1) == [Quotient(1.0, 1.0)] by { assert Ranks(0) == []; }
      assert SumOf([Quotient(1.0, 1.0)]) == Quotient(1.0, 1.0) + SumOf([]);
    } else {
      RanksPositive(n - 1);
      SumAppend(Ranks(n - 1), Quotient(1.0, n as real));
      QuotientSign(1.0, n as real);
    }
  }

  lemma {:induction false} SumAppend(xs: seq<real>, x: real)
    ensures SumOf(xs + [x]) == SumOf(xs) + x
  {
    if xs == [] {
      assert [] + [x] == [x] && SumOf([x]) == x + SumOf([]);
    } else {
      SumAppend(xs[1..], x);
      assert (xs + [x])[1..] == xs[1..] + [x];
    }
  }

  lemma NormalizedRanks(n: nat, total: real)
    requires n >= 1
    ensures SumOf(Scaled(Scaled(Ranks(n), Quotient(1.0, SumOf(Ranks(n)))), total)) == total
  {
    var r, sum := Ranks(n), SumOf(Ranks(n));
    RanksPositive(n);
    SumScaled(r, Quotient(1.0, sum));
    SumScaled(Scaled(r, Quotient(1.0, sum)), total);
    QuotientTimes(1.0, sum);
    ProductCommutes(Quotient(1.0, sum), sum);
    ProductUnits(total);
  }

  lemma WhaleTotal(n: nat, total: real, whale: real)
    requires n >= 1
    ensures SumOf(WhaleShares(n, whale, Quotient(total - whale, (if n > 1 then n - 1 else 1) as real)))
         == if n == 1 then whale else total
  {
    var each := Quotient(total - whale, (if n > 1 then n - 1 else 1) as real);
    var shares := WhaleShares(n, whale, each);
    assert shares[1..] == Constant(each, n - 1);
    if n == 1 {
      assert SumOf(Constant(each, 0)) == 0.0;
    } else {
      EvenShares(total - whale, n - 1);
    }
  }

  /** The initial stakes add up to the staked amount, except that a lone whale holds only its
      fraction of it. */
  lemma InitialStakesTotal(cfg: Config, total: real)
    requires cfg.numValidators >= 1
    ensures SumOf(InitialStakes(cfg, total)) ==
      if cfg.distribution == Whale && cfg.whaleStakePct > 0.0 && cfg.numValidators == 1
      then Product(total, cfg.whaleStakePct) else total
  {
    hide Product, Quotient, SumOf;
    if cfg.distribution == Whale && cfg.whaleStakePct > 0.0 {
      WhaleTotal(cfg.numValidators, total, Product(total, cfg.whaleStakePct));
    } else if cfg.distribution == PowerLaw {
      NormalizedRanks(cfg.numValidators, total);
    } else {
      EvenShares(total, cfg.numValidators);
    }
  }

  /** The staked amount is positive at the end of each of the first `epochs` epochs. */
  ghost predicate StaysStaked(cfg: Config, epochs: nat)
    requires cfg.epochsPerYear >= 1
  {
    forall e: nat | 1 <= e <= epochs :: After(cfg, e).ledger.staked > 0.0
  }

  lemma RescaledTotal(stakes: seq<real>, staked: real)
    requires SumOf(stakes) > 0.0 && staked > 0.0
    ensures SumOf(Rescaled(stakes, staked)) == staked
    ensures Gini(Rescaled(stakes, staked)) == Gini(stakes)
  {
    var total := SumOf(stakes);
    var scale := Quotient(staked, total);
    SumScaled(stakes, scale);
    QuotientTimes(staked, total);
    ProductCommutes(scale, total);
    ProductUnits(total);
    ProductCancel(scale, 0.0, total);
    GiniScaleInvariant(stakes, scale);
  }

  /** While something stays staked, the validators' stakes add up to the staked total and their
      Gini coefficient never changes. */
  lemma {:induction false} TrackedWhileStaked(cfg: Config, epochs: nat)
    requires cfg.epochsPerYear >= 1 && StaysStaked(cfg, epochs) && SumOf(Start(cfg).stakes) > 0.0
    ensures SumOf(After(cfg, epochs).stakes) > 0.0
    ensures epochs > 0 ==> SumOf(After(cfg, epochs).stakes) == After(cfg, epochs).ledger.staked
    ensures Gini(After(cfg, epochs).stakes) == Gini(Start(cfg).stakes)
  {
    if epochs > 0 {
      TrackedWhileStaked(cfg, epochs - 1);
      var before := After(cfg, epochs - 1);
      assert After(cfg, epochs) == Step(cfg, epochs - 1, before);
      hide Settle, EpochFlows, Paid, Smoothed, Gini, SumOf, Start, Rescaled;
      RescaledTotal(before.stakes, After(cfg, epochs).ledger.staked);
    }
  }

  /** Validators that start with nothing keep nothing and earn nothing. */
  lemma {:induction false} EmptyStakesStay(cfg: Config, epochs: nat)
    requires cfg.epochsPerYear >= 1 && SumOf(Start(cfg).stakes) <= 0.0
    ensures After(cfg, epochs).stakes == Start(cfg).stakes && After(cfg, epochs).rewards == Start(cfg).rewards
  {
    hide SumOf, Start, Settle, EpochFlows, Paid, Smoothed;
    if epochs > 0 { EmptyStakesStay(cfg, epochs - 1); }
  }

  lemma ZeroRescaled(stakes: seq<real>)
    requires SumOf(stakes) >= 0.0
    ensures SumOf(Rescaled(stakes, 0.0)) == 0.0
  {
    SumScaled(stakes, Quotient(0.0, SumOf(stakes)));
    ProductUnits(SumOf(stakes));
  }

  lemma StakedNotNegative(cfg: Config, epoch: nat, s: State)
    requires cfg.epochsPerYear >= 1 && |s.stakes| == |s.emas| == |s.rewards|
    ensures Step(cfg, epoch, s).ledger.staked >= 0.0
  {
    hide EpochFlows, DesiredStake, Rescaled, Paid, Smoothed;
  }

  /** Once nothing is staked the validators hold nothing, and never hold anything again. */
  lemma {:induction false} NothingAfterZero(cfg: Config, epochs: nat)
    requires cfg.epochsPerYear >= 1 && SumOf(Start(cfg).stakes) > 0.0 && !StaysStaked(cfg, epochs)
    ensures SumOf(After(cfg, epochs).stakes) == 0.0
  {
    hide *;
    StaysStakedNone(cfg);
    if epochs > 0 {
      var before := After(cfg, epochs - 1);
      StaysStakedNext(cfg, epochs - 1);
      StakesAfterEpoch(cfg, epochs - 1);
      if StaysStaked(cfg, epochs - 1) {
        TrackedWhileStaked(cfg, epochs - 1);
        ZeroRescaled(before.stakes);
      } else {
        NothingAfterZero(cfg, epochs - 1);
        NothingRescaled(before.stakes, After(cfg, epochs).ledger.staked);
      }
    }
  }

  lemma StakesAfterEpoch(cfg: Config, epoch: nat)
    requires cfg.epochsPerYear >= 1
    ensures After(cfg, epoch + 1).stakes == Rescaled(After(cfg, epoch).stakes, After(cfg, epoch + 1).ledger.staked)
    ensures After(cfg, epoch + 1).ledger.staked >= 0.0
  {
    NextEpoch(cfg, epoch);
    StakedNotNegative(cfg, epoch, After(cfg, epoch));
    hide After, Settle, FlowsAt, Rescaled, Paid, Smoothed, SumOf;
  }

  lemma StaysStakedNone(cfg: Config)
    requires cfg.epochsPerYear >= 1
    ensures StaysStaked(cfg, 0)
  {}

  lemma StaysStakedNext(cfg: Config, epochs: nat)
    requires cfg.epochsPerYear >= 1
    ensures StaysStaked(cfg, epochs + 1) <==> StaysStaked(cfg, epochs) && After(cfg, epochs + 1).ledger.staked > 0.0
  {
    hide After;
  }

  lemma NothingRescaled(stakes: seq<real>, staked: real)
    requires SumOf(stakes) == 0.0
    ensures Rescaled(stakes, staked) == stakes
  {}

  /** For all parameters: every recorded coefficient is the initial one, until the staked amount
      reaches zero in a run that began with stake; from then on it is zero. */
  lemma RecordedGiniExact(cfg: Config, epoch: nat)
    requires cfg.epochsPerYear >= 1
    ensures RecordAt(cfg, epoch).gini ==
      if SumOf(Start(cfg).stakes) > 0.0 && !StaysStaked(cfg, epoch + 1) then 0.0 else Gini(Start(cfg).stakes)
  {
    if SumOf(Start(cfg).stakes) <= 0.0 {
      EmptyStakesStay(cfg, epoch + 1);
    } else if StaysStaked(cfg, epoch + 1) {
      TrackedWhileStaked(cfg, epoch + 1);
    } else {
      NothingAfterZero(cfg, epoch + 1);
      GiniOfNothing(After(cfg, epoch + 1).stakes);
    }
    hide Gini, SumOf, Start, Step;
  }

  /** The one EMA value all validators share. */
  function SharedEma(cfg: Config, epochs: nat): real {
    if epochs == 0 then 1.0 else Ema(cfg, SharedEma(cfg, epochs - 1))
  }

  lemma {:induction false} EmasStayEqual(cfg: Config, epochs: nat)
    requires cfg.epochsPerYear >= 1
    ensures After(cfg, epochs).emas == Constant(SharedEma(cfg, epochs), cfg.numValidators)
  {
    if epochs > 0 {
      EmasStayEqual(cfg, epochs - 1);
      hide Settle, EpochFlows, Paid, Ema, Smoothed, Rescaled;
    }
  }

  /** In such a run the final multipliers of every epoch are all 1, or the limit next to it; the
      epoch is budget-neutral exactly when 1 is in range. */
  lemma NeutralWhileStaked(cfg: Config, epochs: nat)
    requires cfg.epochsPerYear >= 1 && epochs > 0 && StaysStaked(cfg, epochs) && SumOf(Start(cfg).stakes) > 0.0
    requires 0.0 < cfg.multMin <= cfg.multMax
    ensures var s := After(cfg, epochs);
      && FinalMultipliers(cfg, s) == Constant(Clamp(1.0, cfg.multMin, cfg.multMax), cfg.numValidators)
      && (WeightedSum(s.stakes, FinalMultipliers(cfg, s)) == s.ledger.staked <==> cfg.multMin <= 1.0 <= cfg.multMax)
  {
    var s := After(cfg, epochs);
    TrackedWhileStaked(cfg, epochs);
    EmasStayEqual(cfg, epochs);
    var m := Clamp(SharedEma(cfg, epochs), cfg.multMin, cfg.multMax);
    assert Clamped(s.emas, cfg.multMin, cfg.multMax) == Constant(m, cfg.numValidators);
    hide After, Clamped, Normalized, WeightedSum, SumOf, SharedEma;
    EqualMultipliersNeutral(s.stakes, m, s.ledger.staked, cfg.multMin, cfg.multMax, 3);
  }

  lemma {:induction false} PaidTotal(rewards: seq<real>, stakes: seq<real>, staked: real, emission: real)
    requires |rewards| == |stakes| && staked > 0.0
    ensures SumOf(Paid(rewards, stakes, staked, emission)) == SumOf(rewards) + Share(emission, SumOf(stakes), staked)
  {
    if rewards == [] {
      assert Quotient(0.0, staked) == 0.0;
      ProductUnits(emission);
    } else {
      PaidTotal(rewards[1..], stakes[1..], staked, emission);
      ShareSum(emission, stakes[0], SumOf(stakes[1..]), staked);
      hide Share;
    }
  }

  lemma ShareSum(emission: real, a: real, b: real, staked: real)
    requires staked > 0.0
    ensures Share(emission, a, staked) + Share(emission, b, staked) == Share(emission, a + b, staked)
  {
    QuotientTimes(a, staked);
    QuotientTimes(b, staked);
    ProductSum(staked, Quotient(a, staked), Quotient(b, staked));
    QuotientUnique(Quotient(a, staked) + Quotient(b, staked), a + b, staked);
    ProductSum(emission, Quotient(a, staked), Quotient(b, staked));
    hide Product, Quotient;
  }

  /** Total of the staking emissions of the first epochs. */
  function StakingEmissions(cfg: Config, epochs: nat): real
    requires cfg.epochsPerYear >= 1
  {
    if epochs == 0 then 0.0
    else StakingEmissions(cfg, epochs - 1) + FlowsAt(cfg, epochs - 1, After(cfg, epochs - 1)).toStaking
  }

  /** What the validators have earned is exactly what was emitted to staking. */
  lemma {:induction false} EarnedWhileStaked(cfg: Config, epochs: nat)
    requires cfg.epochsPerYear >= 1 && StaysStaked(cfg, epochs) && SumOf(Start(cfg).stakes) > 0.0
    ensures SumOf(After(cfg, epochs).rewards) == StakingEmissions(cfg, epochs)
  {
    if epochs == 0 {
      ConstantTotal(0.0, cfg.numValidators);
      ProductUnits(cfg.numValidators as real);
    } else {
      EarnedWhileStaked(cfg, epochs - 1);
      TrackedWhileStaked(cfg, epochs - 1);
      TrackedWhileStaked(cfg, epochs);
      var before, after := After(cfg, epochs - 1), After(cfg, epochs);
      assert after == Step(cfg, epochs - 1, before);
      hide Settle, EpochFlows, Smoothed, Rescaled, Paid, SumOf, Share, Start;
      var f := FlowsAt(cfg, epochs - 1, before);
      PaidTotal(before.rewards, after.stakes, after.ledger.staked, f.toStaking);
      WholeShare(f.toStaking, after.ledger.staked);
    }
  }

  lemma WholeShare(emission: real, staked: real)
    requires staked > 0.0
    ensures Share(emission, staked, staked) == emission
  {
    ProductUnits(staked);
    QuotientUnique(1.0, staked, staked);
    ProductUnits(emission);
  }

  // --- Over every run: from the parameters ----------------------------------------------------

  lemma {:induction false} AlwaysStaked(cfg: Config, epochs: nat)
    requires cfg.KeepsStake()
    ensures After(cfg, epochs).ledger.staked > 0.0
  {
    if epochs == 0 {
      GenesisStaked(cfg);
    } else {
      AlwaysStaked(cfg, epochs - 1);
      LedgerSoundAfter(cfg, epochs - 1);
      EpochKeepsStake(cfg, Year(cfg, epochs - 1), After(cfg, epochs - 1).ledger);
      hide Settle, EpochFlows, Sound, Rescaled, Paid, Smoothed;
    }
  }

  lemma StakeNeverRunsOut(cfg: Config, epochs: nat)
    requires cfg.KeepsStake()
    ensures StaysStaked(cfg, epochs) && SumOf(Start(cfg).stakes) > 0.0
  {
    hide Genesis, SumOf, InitialStakes;
    forall e: nat | 1 <= e <= epochs ensures After(cfg, e).ledger.staked > 0.0 { AlwaysStaked(cfg, e); }
    GenesisStaked(cfg);
    InitialStakesTotal(cfg, Genesis(cfg).staked);
    ProductSign(Genesis(cfg).staked, cfg.whaleStakePct);
  }

  /** At the end of every epoch the validators' stakes add up to the staked total, and their Gini
      coefficient is the initial one. */
  lemma StakesTrackLedger(cfg: Config, epochs: nat)
    requires cfg.KeepsStake() && epochs > 0
    ensures SumOf(After(cfg, epochs).stakes) == After(cfg, epochs).ledger.staked > 0.0
    ensures Gini(After(cfg, epochs).stakes) == Gini(Start(cfg).stakes)
  {
    StakeNeverRunsOut(cfg, epochs);
    TrackedWhileStaked(cfg, epochs);
    hide Gini, SumOf, Start, Step;
  }

  /** Every recorded coefficient is the initial one. */
  lemma RecordedGiniConstant(cfg: Config, epoch: nat)
    requires cfg.KeepsStake()
    ensures RecordAt(cfg, epoch).gini == Gini(Start(cfg).stakes)
  {
    StakeNeverRunsOut(cfg, epoch + 1);
    RecordedGiniExact(cfg, epoch);
    hide Gini, SumOf, Start, Step;
  }

  /** The final multipliers of every epoch are all 1, or the limit next to it; the stake-weighted sum
      equals the staked total if and only if 1 is in range. */
  lemma EveryEpochBudgetNeutral(cfg: Config, epochs: nat)
    requires cfg.KeepsStake() && epochs > 0 && 0.0 < cfg.multMin <= cfg.multMax
    ensures var s := After(cfg, epochs);
      && FinalMultipliers(cfg, s) == Constant(Clamp(1.0, cfg.multMin, cfg.multMax), cfg.numValidators)
      && (WeightedSum(s.stakes, FinalMultipliers(cfg, s)) == s.ledger.staked <==> cfg.multMin <= 1.0 <= cfg.multMax)
  {
    StakeNeverRunsOut(cfg, epochs);
    NeutralWhileStaked(cfg, epochs);
  }

  /** What the validators have earned is exactly what was emitted to staking. */
  lemma RewardsEqualEmissions(cfg: Config, epochs: nat)
    requires cfg.KeepsStake()
    ensures SumOf(After(cfg, epochs).rewards) == StakingEmissions(cfg, epochs)
  {
    StakeNeverRunsOut(cfg, epochs);
    EarnedWhileStaked(cfg, epochs);
  }

  // --- Over every run: the derived figures ------------------------------------------------------

  /** The share of the k largest stakes never changes while something stays staked. */
  lemma {:induction false} LargestShareWhileStaked(cfg: Config, epochs: nat, k: nat)
    requires cfg.epochsPerYear >= 1 && StaysStaked(cfg, epochs) && SumOf(Start(cfg).stakes) > 0.0
    ensures var s, start := After(cfg, epochs).stakes, Start(cfg).stakes;
      Percent(SumOf(Largest(s, k)), SumOf(s)) == Percent(SumOf(Largest(start, k)), SumOf(start))
  {
    if epochs > 0 {
      LargestShareWhileStaked(cfg, epochs - 1, k);
      TrackedWhileStaked(cfg, epochs - 1);
      StakesAfterEpoch(cfg, epochs - 1);
      var before, staked := After(cfg, epochs - 1).stakes, After(cfg, epochs).ledger.staked;
      hide After, Percent, Largest, SumOf, Start, Scaled, Product, Quotient;
      ScalePositive(before, staked);
      LargestShareKept(before, k, Quotient(staked, SumOf(before)));
    }
  }

  lemma ScalePositive(stakes: seq<real>, staked: real)
    requires SumOf(stakes) > 0.0 && staked > 0.0
    ensures Quotient(staked, SumOf(stakes)) > 0.0
  {
    QuotientTimes(staked, SumOf(stakes));
    ProductCancel(Quotient(staked, SumOf(stakes)), 0.0, SumOf(stakes));
    ProductUnits(SumOf(stakes));
  }

  /** Every recorded top-five share is the one the validators began with; it is all of the stake when
      there are at most five of them. */
  lemma RecordedTopFiveConstant(cfg: Config, epoch: nat)
    requires cfg.KeepsStake()
    ensures var start := Start(cfg).stakes;
      RecordAt(cfg, epoch).derived.topFivePct == Percent(SumOf(Largest(start, 5)), SumOf(start))
    ensures cfg.numValidators <= 5 ==> RecordAt(cfg, epoch).derived.topFivePct == 100.0
  {
    StakeNeverRunsOut(cfg, epoch + 1);
    TrackedWhileStaked(cfg, epoch + 1);
    LargestShareWhileStaked(cfg, epoch + 1, 5);
    var stakes := After(cfg, epoch + 1).stakes;
    if cfg.numValidators <= 5 { AllAreLargest(stakes); }
    hide After, Start, Percent, Largest, SumOf, Gini;
  }

  lemma AllAreLargest(stakes: seq<real>)
    requires |stakes| <= 5 && SumOf(stakes) > 0.0
    ensures Percent(SumOf(Largest(stakes, 5)), SumOf(stakes)) == 100.0
  {
    SortedSums(stakes, 0.0, []);
    hide Sorted, SumOf;
    assert Largest(stakes, 5) == Sorted(stakes);
    QuotientUnique(1.0, SumOf(stakes), SumOf(stakes));
  }

  /** A record against one step of the ledger. */
  lemma RecordParts(cfg: Config, epoch: nat)
    requires cfg.epochsPerYear >= 1
    ensures var r, before := RecordAt(cfg, epoch), After(cfg, epoch).ledger;
      && r.flows == EpochFlows(cfg, Year(cfg, epoch), before)
      && r.ledger == Settle(cfg, before, r.flows) == After(cfg, epoch + 1).ledger
      && r.derived == Derive(cfg, Volume(cfg, epoch + 1), before, r.flows, r.ledger, After(cfg, epoch + 1).stakes)
      && r.derived.annualProvisions == AnnualProvisions(before, r.flows)
  {
    NextEpoch(cfg, epoch);
    hide After, EpochFlows, Settle, Gini, Rescaled, Paid, Smoothed, SumOf, Volume, Percent, Ratio, Product, Largest;
  }

  /** In every record the staking ratio and the share of the cap are in range, and the net inflation
      is a year of the epoch's change of supply. */
  lemma RecordedRates(cfg: Config, epoch: nat)
    requires cfg.Admissible()
    ensures var r, before := RecordAt(cfg, epoch), After(cfg, epoch).ledger;
      && 0.0 <= r.derived.stakingRatio <= 1.0 && 0.0 <= r.derived.supplyPctOfCap <= 100.0
      && (r.ledger.supply > 0.0 ==>
            Product(r.derived.netInflation, r.ledger.supply)
            == Product(100.0, Product(r.ledger.supply - before.supply, cfg.epochsPerYear as real)))
  {
    hide *;
    PositiveYear(cfg);
    RecordedShares(cfg, epoch);
    RecordParts(cfg, epoch);
    NetInflationIsGrowth(
      cfg, Year(cfg, epoch), After(cfg, epoch).ledger, Volume(cfg, epoch + 1), After(cfg, epoch + 1).stakes);
  }

  lemma PositiveYear(cfg: Config)
    requires cfg.Admissible()
    ensures cfg.epochsPerYear >= 1
  {}

  lemma RecordedShares(cfg: Config, epoch: nat)
    requires cfg.Admissible()
    ensures var r := RecordAt(cfg, epoch);
      0.0 <= r.derived.stakingRatio <= 1.0 && 0.0 <= r.derived.supplyPctOfCap <= 100.0
  {
    hide *;
    PositiveYear(cfg);
    LedgerSoundAfter(cfg, epoch + 1);
    RecordParts(cfg, epoch);
    var r := RecordAt(cfg, epoch);
    SharesInRange(cfg, Volume(cfg, epoch + 1), After(cfg, epoch).ledger, r.flows, r.ledger, After(cfg, epoch + 1).stakes);
  }

  /** From the parameters alone: the recorded APY is the year's rate at which stakers were paid in the
      epoch, if and only if the cap did not cut the mint or the staking split is zero. */
  lemma RecordedApyIsPaidIff(cfg: Config, epoch: nat)
    requires cfg.KeepsStake()
    ensures var r, before := RecordAt(cfg, epoch), After(cfg, epoch).ledger;
      r.derived.stakingApy == Percent(Product(r.flows.toStaking, cfg.epochsPerYear as real), r.ledger.staked)
      <==> cfg.splitStaking == 0.0
           || Quotient(r.derived.annualProvisions, cfg.epochsPerYear as real) <= cfg.supplyCap - before.supply
  {
    LedgerSoundAfter(cfg, epoch);
    AlwaysStaked(cfg, epoch + 1);
    RecordParts(cfg, epoch);
    hide RecordAt, After, Volume, Sound, Product, Quotient, Derive, EpochFlows, Settle, Percent, AnnualProvisions;
    ApyIsPaidIff(cfg, Year(cfg, epoch), After(cfg, epoch).ledger, Volume(cfg, epoch + 1), After(cfg, epoch + 1).stakes);
  }

  // --- Over every run: every figure exactly -------------------------------------------------------

  lemma YearOfEpoch(cfg: Config, epoch: nat)
    requires cfg.epochsPerYear >= 1
    ensures Year(cfg, epoch) * cfg.epochsPerYear <= epoch < (Year(cfg, epoch) + 1) * cfg.epochsPerYear
  {}

  /** Every recorded epoch: its year, its flows, its ledger and its derived figures are exactly what
      the ledger before it, the parameters and the stakes determine. */
  lemma RecordedEpochExact(cfg: Config, epoch: nat)
    requires cfg.Admissible()
    ensures var r, before := RecordAt(cfg, epoch), After(cfg, epoch).ledger;
      && r.epoch == epoch && r.validatorCount == cfg.numValidators
      && r.year * cfg.epochsPerYear <= epoch < (r.year + 1) * cfg.epochsPerYear
      && r.ledger == After(cfg, epoch + 1).ledger
      && EpochExact(cfg, r.year, before, r.flows, r.ledger)
      && DerivedExact(cfg, before, r.flows, r.ledger, After(cfg, epoch + 1).stakes, r.derived)
      && r.derived.dailyTxVolume == Product(cfg.dailyTxVolume, PowerOf(1.0 + cfg.txVolumeGrowth, epoch + 1))
  {
    hide *;
    PositiveYear(cfg);
    LedgerSoundAfter(cfg, epoch);
    RecordParts(cfg, epoch);
    RecordNow(cfg, epoch);
    YearOfEpoch(cfg, epoch);
    EpochIsExact(cfg, Year(cfg, epoch), After(cfg, epoch).ledger);
    var r := RecordAt(cfg, epoch);
    DeriveIsExact(cfg, Volume(cfg, epoch + 1), After(cfg, epoch).ledger, r.flows, r.ledger, After(cfg, epoch + 1).stakes);
    VolumeCompounds(cfg, epoch + 1);
  }

  /** Totals of the recorded flows of the first epochs. */
  function TotalOf(cfg: Config, flow: Flows -> real, epochs: nat): real
    requires cfg.epochsPerYear >= 1
  {
    if epochs == 0 then 0.0
    else TotalOf(cfg, flow, epochs - 1) + flow(FlowsAt(cfg, epochs - 1, After(cfg, epochs - 1)))
  }

  function MintOf(f: Flows): real { f.mint }

  function BurnOf(f: Flows): real { f.burn }

  function TreasuryOf(f: Flows): real { f.toTreasury + f.redirected }

  /** Over a run of any length supply, minted, burned and treasury are the genesis amounts and the
      totals of the recorded flows. */
  lemma {:induction false} RunTotals(cfg: Config, epochs: nat)
    requires cfg.epochsPerYear >= 1
    ensures var l := After(cfg, epochs).ledger;
      && l.minted == cfg.genesisSupply + TotalOf(cfg, MintOf, epochs)
      && l.burned == TotalOf(cfg, BurnOf, epochs)
      && l.supply == cfg.genesisSupply + TotalOf(cfg, MintOf, epochs) - TotalOf(cfg, BurnOf, epochs)
      && l.treasury == TotalOf(cfg, TreasuryOf, epochs)
    ensures After(cfg, 0).ledger.staked == Product(cfg.genesisSupply, cfg.initialStakingRatio)
  {
    hide After, FlowsAt, Product;
    Beginning(cfg);
    if epochs > 0 {
      RunTotals(cfg, epochs - 1);
      LedgerNext(cfg, epochs - 1);
    }
  }

  lemma LedgerNext(cfg: Config, epoch: nat)
    requires cfg.epochsPerYear >= 1
    ensures var l, next, f := After(cfg, epoch).ledger, After(cfg, epoch + 1).ledger, FlowsAt(cfg, epoch, After(cfg, epoch));
      && next.minted == l.minted + MintOf(f) && next.burned == l.burned + BurnOf(f)
      && next.supply == l.supply + MintOf(f) - BurnOf(f) && next.treasury == l.treasury + TreasuryOf(f)
  {
    NextEpoch(cfg, epoch);
    hide After, EpochFlows, DesiredStake, LimitStake, Rescaled, Paid, Smoothed, SumOf;
  }

  // --- Over every run: every validator exactly -------------------------------------------------------

  /** How the genesis stake is shared out: equally; by rank, the i-th validator holding the first
      one's stake divided by i + 1; or a fraction to the first and equal shares of the rest. */
  lemma InitialStakesShape(cfg: Config, total: real, i: nat)
    requires i < cfg.numValidators
    ensures var ss := InitialStakes(cfg, total);
      if cfg.distribution == Whale && cfg.whaleStakePct > 0.0 then
        && ss[0] == Product(total, cfg.whaleStakePct)
        && (i > 0 ==> Product(ss[i], (cfg.numValidators - 1) as real) == total - ss[0])
      else if cfg.distribution == PowerLaw then Product(ss[i], (i + 1) as real) == ss[0]
      else Product(ss[i], cfg.numValidators as real) == total
  {
    var n := cfg.numValidators;
    if cfg.distribution == Whale && cfg.whaleStakePct > 0.0 {
      if i > 0 { QuotientTimes(total - Product(total, cfg.whaleStakePct), (n - 1) as real); }
      hide Product, Quotient;
    } else if cfg.distribution == PowerLaw {
      RankShare(Ranks(n), Quotient(1.0, SumOf(Ranks(n))), total, i);
      hide Product, Quotient, Ranks, SumOf;
    } else {
      QuotientTimes(total, n as real);
      hide Product, Quotient;
    }
  }

  lemma RankShare(ranks: seq<real>, c: real, total: real, i: nat)
    requires i < |ranks| && ranks[0] == Quotient(1.0, 1.0) && ranks[i] == Quotient(1.0, (i + 1) as real)
    ensures var ss := Scaled(Scaled(ranks, c), total); Product(ss[i], (i + 1) as real) == ss[0]
  {
    var k := (i + 1) as real;
    QuotientTimes(1.0, k);
    QuotientTimes(1.0, 1.0);
    ProductUnits(ranks[0]);
    ProductUnits(c);
    ProductCommutes(ranks[i], c);
    ProductCommutes(Product(c, ranks[i]), total);
    ProductAssociates(total, Product(c, ranks[i]), k);
    ProductAssociates(c, ranks[i], k);
    ProductCommutes(total, c);
    hide Product, Quotient;
  }

  /** Every validator keeps its share of the stake and earns that share of the staking emissions. */
  lemma {:induction false} ValidatorShares(cfg: Config, epochs: nat, i: nat)
    requires cfg.KeepsStake() && i < cfg.numValidators
    ensures var s, start := After(cfg, epochs), Start(cfg).stakes;
      && Product(s.stakes[i], SumOf(start)) == Product(start[i], SumOf(s.stakes))
      && Product(s.rewards[i], SumOf(start)) == Product(start[i], StakingEmissions(cfg, epochs))
  {
    var s, start := After(cfg, epochs), Start(cfg).stakes;
    StakeNeverRunsOut(cfg, epochs);
    ProductUnits(start[i]);
    ProductUnits(SumOf(start));
    if epochs > 0 {
      ValidatorShares(cfg, epochs - 1, i);
      StakeNeverRunsOut(cfg, epochs - 1);
      TrackedWhileStaked(cfg, epochs - 1);
      TrackedWhileStaked(cfg, epochs);
      ShareStep(cfg, epochs - 1, i);
    }
    hide Product, Quotient, SumOf, Step;
  }

  lemma ShareStep(cfg: Config, epoch: nat, i: nat)
    requires cfg.epochsPerYear >= 1 && i < cfg.numValidators
    requires var s, start := After(cfg, epoch), Start(cfg).stakes;
      && SumOf(s.stakes) > 0.0 && SumOf(After(cfg, epoch + 1).stakes) == After(cfg, epoch + 1).ledger.staked > 0.0
      && Product(s.stakes[i], SumOf(start)) == Product(start[i], SumOf(s.stakes))
      && Product(s.rewards[i], SumOf(start)) == Product(start[i], StakingEmissions(cfg, epoch))
    ensures var s, start := After(cfg, epoch + 1), Start(cfg).stakes;
      && Product(s.stakes[i], SumOf(start)) == Product(start[i], SumOf(s.stakes))
      && Product(s.rewards[i], SumOf(start)) == Product(start[i], StakingEmissions(cfg, epoch + 1))
  {
    var s, next, start := After(cfg, epoch), After(cfg, epoch + 1), Start(cfg).stakes;
    var staked, emission := next.ledger.staked, FlowsAt(cfg, epoch, s).toStaking;
    ValidatorStep(cfg, epoch, i);
    hide After, Start, FlowsAt, SumOf, Quotient, Product, Share;
    ShareAlgebra(s.stakes[i], SumOf(s.stakes), staked, s.rewards[i], StakingEmissions(cfg, epoch), emission, start[i], SumOf(start));
  }

  lemma ShareAlgebra(stake: real, total: real, staked: real, reward: real, earned: real, emission: real, first: real, start: real)
    requires total > 0.0 && staked > 0.0 && Product(stake, start) == Product(first, total)
    requires Product(reward, start) == Product(first, earned)
    ensures var next := Product(stake, Quotient(staked, total));
      && Product(next, start) == Product(first, staked)
      && Product(reward + Share(emission, next, staked), start) == Product(first, earned + emission)
  {
    var next := Product(stake, Quotient(staked, total));
    RescaledShare(stake, total, staked, first, start);
    EarnedShare(next, staked, emission, first, start);
    ProductSum(start, reward, Share(emission, next, staked));
    ProductSum(first, earned, emission);
    hide Product, Quotient, Share;
  }

  lemma ValidatorStep(cfg: Config, epoch: nat, i: nat)
    requires cfg.epochsPerYear >= 1 && i < cfg.numValidators && SumOf(After(cfg, epoch).stakes) > 0.0
    ensures var s, next := After(cfg, epoch), After(cfg, epoch + 1);
      && next.stakes[i] == Product(s.stakes[i], Quotient(next.ledger.staked, SumOf(s.stakes)))
      && next.rewards[i] == s.rewards[i] + Share(FlowsAt(cfg, epoch, s).toStaking, next.stakes[i], next.ledger.staked)
  {
    NextEpoch(cfg, epoch);
    hide After, Settle, EpochFlows, Smoothed, SumOf, Quotient, Product, Share;
  }

  lemma RescaledShare(stake: real, total: real, staked: real, first: real, start: real)
    requires total > 0.0 && Product(stake, start) == Product(first, total)
    ensures Product(Product(stake, Quotient(staked, total)), start) == Product(first, staked)
  {
    var scale := Quotient(staked, total);
    QuotientTimes(staked, total);
    ProductCommutes(stake, scale);
    ProductAssociates(scale, stake, start);
    ProductCommutes(first, total);
    ProductAssociates(scale, total, first);
    ProductCommutes(first, staked);
    hide Product, Quotient;
  }

  lemma EarnedShare(stake: real, staked: real, emission: real, first: real, start: real)
    requires staked > 0.0 && Product(stake, start) == Product(first, staked)
    ensures Product(Share(emission, stake, staked), start) == Product(first, emission)
  {
    var weight := Quotient(stake, staked);
    QuotientTimes(stake, staked);
    ProductCommutes(weight, staked);
    ProductAssociates(staked, weight, start);
    ProductCommutes(first, staked);
    ProductCancelEqual(Product(weight, start), first, staked);
    ProductAssociates(emission, weight, start);
    ProductCommutes(emission, first);
    hide Product, Quotient;
  }

  lemma ProductCancelEqual(a: real, b: real, c: real)
    requires c > 0.0 && Product(c, a) == Product(c, b)
    ensures a == b
  {
    ProductCommutes(c, a);
    ProductCommutes(c, b);
    ProductCancel(a, b, c);
    hide Product;
  }

  /** The distance of the shared EMA from the raw multiplier shrinks by 1 - alpha an epoch, from 1 at
      the start; the raw multiplier is 1.005, and one percent more of what is not gamed. */
  lemma {:induction false} EmaConverges(cfg: Config, epochs: nat, i: nat)
    requires cfg.epochsPerYear >= 1 && i < cfg.numValidators
    ensures RawMultiplier(cfg) == 1.005 + Product(0.01, 1.0 - cfg.pocGamingFraction)
    ensures After(cfg, epochs).emas[i] - RawMultiplier(cfg)
         == Product(1.0 - RawMultiplier(cfg), PowerOf(1.0 - cfg.emaAlpha, epochs))
  {
    EmasStayEqual(cfg, epochs);
    SharedEmaConverges(cfg, epochs);
    hide RawMultiplier, Product, After, SharedEma;
  }

  lemma {:induction false} SharedEmaConverges(cfg: Config, epochs: nat)
    ensures SharedEma(cfg, epochs) - RawMultiplier(cfg)
         == Product(1.0 - RawMultiplier(cfg), PowerOf(1.0 - cfg.emaAlpha, epochs))
  {
    var raw, a := RawMultiplier(cfg), cfg.emaAlpha;
    ProductUnits(1.0 - raw);
    if epochs > 0 {
      SharedEmaConverges(cfg, epochs - 1);
      EmaAlgebra(raw, a, SharedEma(cfg, epochs - 1), PowerOf(1.0 - a, epochs - 1));
    }
    hide Product, RawMultiplier;
  }

  lemma EmaAlgebra(raw: real, a: real, before: real, p: real)
    requires before - raw == Product(1.0 - raw, p)
    ensures Product(a, raw) + Product(1.0 - a, before) - raw == Product(1.0 - raw, Product(1.0 - a, p))
  {
    ProductDifference(raw, 1.0, a);
    ProductUnits(raw);
    ProductDifference(1.0 - a, before, raw);
    ProductCommutes(1.0 - raw, p);
    ProductAssociates(1.0 - a, p, 1.0 - raw);
    ProductCommutes(Product(1.0 - a, p), 1.0 - raw);
    hide Product;
  }
}
