/** The faucet's rate limiter: check and record run under a lock, the send between them does not.
    Times are nanoseconds. */
module Faucet {

  const DAY := 86_400_000_000_000

  datatype Config = Config(dailyCap: int, cooldown: int)

  /** The values the clock shows during one check: at the reset test, when the next reset is set,
      when each old cooldown is looked at, and at the cooldown test. */
  datatype Readings = Readings(resetTest: int, resetStamp: int, purge: string -> int, cooldownTest: int) {
    ghost predicate Monotone(from: int) {
      && from <= resetTest <= resetStamp <= cooldownTest
      && forall a :: resetStamp <= purge(a) <= cooldownTest
    }
  }

  datatype Verdict = Allowed | CapReached | CoolingDown

  datatype Limits = Limits(count: int, resetTime: int, cooldowns: map<string, int>)

  // --- The two locked operations as functions --------------------------------------

  function NextReset(now: int): int { now - now % DAY + DAY }

  function Purged(cooldowns: map<string, int>, r: Readings): map<string, int> {
    map a | a in cooldowns && r.purge(a) <= cooldowns[a] :: cooldowns[a]
  }

  function AfterReset(l: Limits, r: Readings): Limits {
    if r.resetTest > l.resetTime then Limits(0, NextReset(r.resetStamp), Purged(l.cooldowns, r)) else l
  }

  function Judge(cfg: Config, l: Limits, address: string, now: int): Verdict {
    if l.count >= cfg.dailyCap then CapReached
    else if address in l.cooldowns && now < l.cooldowns[address] then CoolingDown
    else Allowed
  }

  function Recorded(cfg: Config, l: Limits, address: string, now: int): Limits {
    Limits(l.count + 1, l.resetTime, l.cooldowns[address := now + cfg.cooldown])
  }

  // --- The service --------------------------------------------------------------------

  class FaucetService {
    const config: Config
    var addressCooldowns: map<string, int>
    var dailyCount: int
    var dailyResetTime: int

    function Snapshot(): Limits
      reads this
    {
      Limits(dailyCount, dailyResetTime, addressCooldowns)
    }

    constructor (config: Config, now: int)
      ensures this.config == config && Snapshot() == Limits(0, NextReset(now), map[])
    {
      this.config := config;
      addressCooldowns := map[];
      dailyCount := 0;
      dailyResetTime := now - now % DAY + DAY;
    }

    /** Drops the cooldowns that have run out, one address at a time. */
    method ClearOldCooldowns(r: Readings)
      modifies this`addressCooldowns
      ensures addressCooldowns == Purged(old(addressCooldowns), r)
    {
      var todo := addressCooldowns.Keys;
      while todo != {}
        invariant todo <= old(addressCooldowns).Keys
        invariant addressCooldowns == map a | a in old(addressCooldowns)
          && (a in todo || r.purge(a) <= old(addressCooldowns)[a]) :: old(addressCooldowns)[a]
      {
        var addr :| addr in todo;
        if r.purge(addr) > addressCooldowns[addr] {
          addressCooldowns := addressCooldowns - {addr};
        }
        todo := todo - {addr};
      }
    }

    method CheckRateLimits(address: string, r: Readings) returns (verdict: Verdict)
      modifies this
      ensures Snapshot() == AfterReset(old(Snapshot()), r)
      ensures verdict == Judge(config, Snapshot(), address, r.cooldownTest)
    {
      if r.resetTest > dailyResetTime {
        dailyCount := 0;
        dailyResetTime := r.resetStamp - r.resetStamp % DAY + DAY;
        ClearOldCooldowns(r);
      }
      if dailyCount >= config.dailyCap { return CapReached; }
      if address in addressCooldowns {
        var cooldownEnd := addressCooldowns[address];
        if r.cooldownTest < cooldownEnd { return CoolingDown; }
      }
      return Allowed;
    }

    method RecordDistribution(address: string, now: int)
      modifies this
      ensures Snapshot() == Recorded(config, old(Snapshot()), address, now)
    {
      dailyCount := dailyCount + 1;
      addressCooldowns := addressCooldowns[address := now + config.cooldown];
    }
  }

  /** The next reset is the next midnight, at most 24 hours away. */
  lemma NextMidnight(now: int)
    ensures DAY == 24 * 60 * 60 * 1_000_000_000
    ensures now < NextReset(now) <= now + DAY && NextReset(now) % DAY == 0
  {}

  // --- Interleaved handlers -----------------------------------------------------------

  /** A handler between a passed check and its record. */
  datatype Pending = Pending(address: string, since: int)

  datatype Distribution = Distribution(address: string, sentAt: int)

  /** Check and Record are the locked sections; between them the handler sends (at sentAt) or fails. */
  datatype Event =
    | Check(id: nat, address: string, r: Readings)
    | Fail(id: nat)
    | Record(id: nat, sentAt: int, now: int)

  datatype System = System(limits: Limits, pending: map<nat, Pending>, sent: seq<Distribution>, clock: int)

  ghost predicate Possible(s: System, e: Event) {
    match e
    case Check(id, _, r) => id !in s.pending && r.Monotone(s.clock)
    case Fail(id) => id in s.pending
    case Record(id, sentAt, now) => id in s.pending && s.pending[id].since <= sentAt <= now && s.clock <= now
  }

  function Step(cfg: Config, s: System, e: Event): System
  {
    match e
    case Check(id, address, r) =>
      var l := AfterReset(s.limits, r);
      var pending := if Judge(cfg, l, address, r.cooldownTest) == Allowed
                     then s.pending[id := Pending(address, r.cooldownTest)] else s.pending;
      System(l, pending, s.sent, r.cooldownTest)
    case Fail(id) => s.(pending := s.pending - {id})
    case Record(id, sentAt, now) =>
      if id !in s.pending then s
      else
        var address := s.pending[id].address;
        System(Recorded(cfg, s.limits, address, now), s.pending - {id},
               s.sent + [Distribution(address, sentAt)], now)
  }

  function Initial(now: int): System { System(Limits(0, NextReset(now), map[]), map[], [], now) }

  function Run(cfg: Config, start: int, events: seq<Event>): System {
    if events == [] then Initial(start)
    else Step(cfg, Run(cfg, start, events[..|events| - 1]), events[|events| - 1])
  }

  ghost predicate PossibleRun(cfg: Config, start: int, events: seq<Event>) {
    events != [] ==>
      && PossibleRun(cfg, start, events[..|events| - 1])
      && Possible(Run(cfg, start, events[..|events| - 1]), events[|events| - 1])
  }

  /** At most k handlers are ever past their check. */
  ghost predicate AtMost(k: nat, cfg: Config, start: int, events: seq<Event>) {
    |Run(cfg, start, events).pending| <= k
    && (events == [] || AtMost(k, cfg, start, events[..|events| - 1]))
  }

  /** No two pending handlers serve the same address. */
  ghost predicate OnePerAddress(s: System) {
    forall i, j :: i in s.pending && j in s.pending && s.pending[i].address == s.pending[j].address ==> i == j
  }

  ghost predicate Exclusive(cfg: Config, start: int, events: seq<Event>) {
    OnePerAddress(Run(cfg, start, events))
    && (events == [] || Exclusive(cfg, start, events[..|events| - 1]))
  }

  lemma RemoveOne<T>(m: map<nat, T>, id: nat)
    requires id in m
    ensures |m - {id}| == |m| - 1
  {
    assert m == (m - {id})[id := m[id]];
  }

  /** The daily cap is exceeded by less than the number of handlers in flight. */
  lemma {:induction false} CapBound(cfg: Config, start: int, events: seq<Event>, k: nat)
    requires cfg.dailyCap >= 1 && PossibleRun(cfg, start, events) && AtMost(k, cfg, start, events)
    ensures var s := Run(cfg, start, events);
      0 <= s.limits.count && s.limits.count + |s.pending| <= cfg.dailyCap - 1 + k
  {
    if events != [] {
      var before, e := events[..|events| - 1], events[|events| - 1];
      CapBound(cfg, start, before, k);
      var s := Run(cfg, start, before);
      if !e.Check? { RemoveOne(s.pending, e.id); }
    }
  }

  lemma RunOne(cfg: Config, start: int, events: seq<Event>, e: Event, k: nat)
    ensures Run(cfg, start, events + [e]) == Step(cfg, Run(cfg, start, events), e)
    ensures PossibleRun(cfg, start, events + [e])
       <==> PossibleRun(cfg, start, events) && Possible(Run(cfg, start, events), e)
    ensures AtMost(k, cfg, start, events + [e])
       <==> AtMost(k, cfg, start, events) && |Step(cfg, Run(cfg, start, events), e).pending| <= k
    ensures Exclusive(cfg, start, events + [e])
       <==> Exclusive(cfg, start, events) && OnePerAddress(Step(cfg, Run(cfg, start, events), e))
  {
    assert (events + [e])[..|events|] == events;
  }

  // --- The bound is reached ---------------------------------------------------------------

  /** The n-th of a supply of distinct addresses. */
  function Address(n: nat): string { seq(n, _ => 'a') }

  const NOW := Readings(0, 0, _ => 0, 0)

  /** n handlers, one after the other, each for its own address. */
  function Sequential(n: nat): seq<Event> {
    if n == 0 then [] else Sequential(n - 1) + [Check(n - 1, Address(n - 1), NOW)] + [Record(n - 1, 0, 0)]
  }

  /** Then j more that have only checked. */
  function Opened(n: nat, j: nat): seq<Event> {
    if j == 0 then Sequential(n) else Opened(n, j - 1) + [Check(n + j - 1, Address(n + j - 1), NOW)]
  }

  /** And of those k, m have recorded. */
  function Closed(n: nat, k: nat, m: nat): seq<Event> {
    if m == 0 then Opened(n, k) else Closed(n, k, m - 1) + [Record(n + m - 1, 0, 0)]
  }

  function Interval(low: nat, high: nat): (r: set<nat>)
    requires low <= high
    ensures forall id :: id in r <==> low <= id < high
    ensures |r| == high - low
  {
    if low == high then {} else Interval(low, high - 1) + {high - 1}
  }

  /** Still the first day, `count` distributions, the handlers low..high pending, and only shorter
      addresses cooling down. */
  ghost predicate Midway(s: System, count: nat, low: nat, high: nat) {
    && low <= high && s.clock == 0 && s.limits.resetTime == DAY && s.limits.count == count
    && s.pending.Keys == Interval(low, high)
    && (forall id :: id in s.pending ==> s.pending[id] == Pending(Address(id), 0))
    && (forall a :: a in s.limits.cooldowns ==> |a| < low)
  }

  lemma MidwayCheck(cfg: Config, s: System, count: nat, low: nat, high: nat)
    requires Midway(s, count, low, high) && count < cfg.dailyCap
    ensures var e := Check(high, Address(high), NOW);
      Possible(s, e) && Midway(Step(cfg, s, e), count, low, high + 1) && |Step(cfg, s, e).pending| == high + 1 - low
  {
    hide Interval, Purged;
    assert Address(high) !in s.limits.cooldowns;
    hide Address;
    assert AfterReset(s.limits, NOW) == s.limits;
    var t := Step(cfg, s, Check(high, Address(high), NOW));
    assert t.pending == s.pending[high := Pending(Address(high), 0)];
    assert t.pending.Keys == Interval(low, high + 1);
    assert |t.pending| == |t.pending.Keys|;
  }

  lemma MidwayRecord(cfg: Config, s: System, count: nat, low: nat, high: nat)
    requires Midway(s, count, low, high) && low < high
    ensures var e := Record(low, 0, 0);
      Possible(s, e) && Midway(Step(cfg, s, e), count + 1, low + 1, high) && |Step(cfg, s, e).pending| == high - low - 1
  {
    hide Interval;
    assert low in s.pending;
    var t := Step(cfg, s, Record(low, 0, 0));
    assert t.pending == s.pending - {low};
    assert t.pending.Keys == Interval(low + 1, high);
    assert |t.pending| == |t.pending.Keys|;
  }

  ghost predicate Reaches(cfg: Config, k: nat, events: seq<Event>, count: nat, low: nat, high: nat) {
    && PossibleRun(cfg, 0, events) && AtMost(k, cfg, 0, events) && Midway(Run(cfg, 0, events), count, low, high)
  }

  lemma OpenOne(cfg: Config, k: nat, events: seq<Event>, count: nat, low: nat, high: nat)
    requires Reaches(cfg, k, events, count, low, high) && count < cfg.dailyCap && high < low + k
    ensures Reaches(cfg, k, events + [Check(high, Address(high), NOW)], count, low, high + 1)
  {
    hide Midway, Step, Possible, Run, PossibleRun, AtMost;
    RunOne(cfg, 0, events, Check(high, Address(high), NOW), k);
    MidwayCheck(cfg, Run(cfg, 0, events), count, low, high);
  }

  lemma CloseOne(cfg: Config, k: nat, events: seq<Event>, count: nat, low: nat, high: nat)
    requires Reaches(cfg, k, events, count, low, high) && low < high <= low + k
    ensures Reaches(cfg, k, events + [Record(low, 0, 0)], count + 1, low + 1, high)
  {
    hide Midway, Step, Possible, Run, PossibleRun, AtMost;
    RunOne(cfg, 0, events, Record(low, 0, 0), k);
    MidwayRecord(cfg, Run(cfg, 0, events), count, low, high);
  }

  lemma NothingReaches(cfg: Config, k: nat)
    ensures Reaches(cfg, k, [], 0, 0, 0)
  {
    assert Run(cfg, 0, []) == Initial(0) && PossibleRun(cfg, 0, []) && AtMost(k, cfg, 0, []);
    hide Run, PossibleRun, AtMost;
    assert Initial(0).pending.Keys == {} == Interval(0, 0);
  }

  lemma {:induction false} SequentialReaches(cfg: Config, k: nat, n: nat)
    requires n < cfg.dailyCap && k >= 1
    ensures Reaches(cfg, k, Sequential(n), n, n, n)
  {
    hide Reaches;
    if n == 0 {
      NothingReaches(cfg, k);
    } else {
      SequentialReaches(cfg, k, n - 1);
      OpenOne(cfg, k, Sequential(n - 1), n - 1, n - 1, n - 1);
      CloseOne(cfg, k, Sequential(n - 1) + [Check(n - 1, Address(n - 1), NOW)], n - 1, n - 1, n);
    }
  }

  lemma {:induction false} OpenedReaches(cfg: Config, k: nat, n: nat, j: nat)
    requires n < cfg.dailyCap && k >= 1 && j <= k
    ensures Reaches(cfg, k, Opened(n, j), n, n, n + j)
  {
    hide Reaches;
    if j == 0 {
      SequentialReaches(cfg, k, n);
    } else {
      OpenedReaches(cfg, k, n, j - 1);
      OpenOne(cfg, k, Opened(n, j - 1), n, n, n + j - 1);
    }
  }

  lemma {:induction false} ClosedReaches(cfg: Config, k: nat, n: nat, m: nat)
    requires n < cfg.dailyCap && k >= 1 && m <= k
    ensures Reaches(cfg, k, Closed(n, k, m), n + m, n + m, n + k)
  {
    hide Reaches;
    if m == 0 {
      OpenedReaches(cfg, k, n, k);
    } else {
      ClosedReaches(cfg, k, n, m - 1);
      CloseOne(cfg, k, Closed(n, k, m - 1), n + m - 1, n + m - 1, n + k);
    }
  }

  /** The bound is reached for every cap and every number of handlers in flight. */
  lemma CapBoundTight(cfg: Config, k: nat)
    requires cfg.dailyCap >= 1 && k >= 1
    ensures exists events: seq<Event> ::
      && PossibleRun(cfg, 0, events) && AtMost(k, cfg, 0, events)
      && Run(cfg, 0, events).limits.count == cfg.dailyCap - 1 + k
  {
    hide Closed, Midway, Run, PossibleRun, AtMost;
    ClosedReaches(cfg, k, cfg.dailyCap - 1, k);
    MidwayCount(Run(cfg, 0, Closed(cfg.dailyCap - 1, k, k)), cfg.dailyCap - 1 + k, cfg.dailyCap - 1 + k, cfg.dailyCap - 1 + k);
  }

  lemma MidwayCount(s: System, count: nat, low: nat, high: nat)
    requires Midway(s, count, low, high)
    ensures s.limits.count == count
  {}

  ghost predicate Capped(cfg: Config, k: nat, start: int, events: seq<Event>) {
    PossibleRun(cfg, start, events) && AtMost(k, cfg, start, events) ==> Run(cfg, start, events).limits.count <= cfg.dailyCap
  }

  /** So all runs with at most k handlers in flight respect the cap exactly when k is at most 1. */
  lemma CapRespectedIff(cfg: Config, k: nat)
    requires cfg.dailyCap >= 1
    ensures (forall start: int, events: seq<Event> :: Capped(cfg, k, start, events)) <==> k <= 1
  {
    if k <= 1 {
      forall start: int, events: seq<Event> ensures Capped(cfg, k, start, events) {
        if PossibleRun(cfg, start, events) && AtMost(k, cfg, start, events) { CapBound(cfg, start, events, k); }
      }
    } else {
      CapBoundTight(cfg, k);
      var events: seq<Event> :| PossibleRun(cfg, 0, events) && AtMost(k, cfg, 0, events)
        && Run(cfg, 0, events).limits.count == cfg.dailyCap - 1 + k;
      assert !Capped(cfg, k, 0, events);
    }
  }

  // --- Cooldowns ---------------------------------------------------------------------------

  /** The limiter still blocks the address until d is old enough, or d is old enough. */
  ghost predicate Covered(cfg: Config, s: System, d: Distribution) {
    || s.clock >= d.sentAt + cfg.cooldown
    || (d.address in s.limits.cooldowns && s.limits.cooldowns[d.address] >= d.sentAt + cfg.cooldown)
  }

  ghost predicate Spaced(cfg: Config, sent: seq<Distribution>) {
    forall i, j :: 0 <= i < j < |sent| && sent[i].address == sent[j].address
      ==> sent[j].sentAt >= sent[i].sentAt + cfg.cooldown
  }

  ghost predicate CooldownInvariant(cfg: Config, s: System) {
    && Spaced(cfg, s.sent)
    && (forall d <- s.sent :: Covered(cfg, s, d) && d.sentAt <= s.clock)
    && (forall id, d :: id in s.pending && d in s.sent && s.pending[id].address == d.address
          ==> s.pending[id].since >= d.sentAt + cfg.cooldown)
    && (forall id :: id in s.pending ==> s.pending[id].since <= s.clock)
  }

  lemma CheckKeepsCooldowns(cfg: Config, s: System, e: Event)
    requires cfg.cooldown >= 0 && CooldownInvariant(cfg, s) && Possible(s, e) && e.Check?
    ensures CooldownInvariant(cfg, Step(cfg, s, e))
  {
    var s' := Step(cfg, s, e);
    forall d | d in s.sent ensures Covered(cfg, s', d) {
      assert Covered(cfg, s, d);
      assert e.r.resetStamp <= e.r.purge(d.address) <= e.r.cooldownTest;
    }
  }

  lemma RecordKeepsCooldowns(cfg: Config, s: System, e: Event)
    requires cfg.cooldown >= 0 && CooldownInvariant(cfg, s) && Possible(s, e) && e.Record? && OnePerAddress(s)
    ensures CooldownInvariant(cfg, Step(cfg, s, e))
  {
    var s' := Step(cfg, s, e);
    var d' := Distribution(s.pending[e.id].address, e.sentAt);
    forall d | d in s'.sent ensures Covered(cfg, s', d) && d.sentAt <= s'.clock {
      if d != d' { assert d in s.sent && Covered(cfg, s, d); }
    }
    forall i, j | 0 <= i < j < |s'.sent| && s'.sent[i].address == s'.sent[j].address
      ensures s'.sent[j].sentAt >= s'.sent[i].sentAt + cfg.cooldown
    {
      assert s'.sent[i] in s.sent;
    }
  }

  lemma {:induction false} CooldownsHold(cfg: Config, start: int, events: seq<Event>)
    requires cfg.cooldown >= 0 && PossibleRun(cfg, start, events) && Exclusive(cfg, start, events)
    ensures CooldownInvariant(cfg, Run(cfg, start, events))
  {
    if events != [] {
      var before, e := events[..|events| - 1], events[|events| - 1];
      CooldownsHold(cfg, start, before);
      var s := Run(cfg, start, before);
      match e
      case Check(_, _, _) => CheckKeepsCooldowns(cfg, s, e);
      case Fail(_) =>
        forall d | d in s.sent ensures Covered(cfg, Step(cfg, s, e), d) { assert Covered(cfg, s, d); }
      case Record(_, _, _) => RecordKeepsCooldowns(cfg, s, e);
    }
  }

  /** With one handler per address at a time and a monotone clock, two distributions to one
      address are at least the cooldown apart. */
  lemma DistributionsSpaced(cfg: Config, start: int, events: seq<Event>, i: nat, j: nat)
    requires cfg.cooldown >= 0 && PossibleRun(cfg, start, events) && Exclusive(cfg, start, events)
    requires i < j < |Run(cfg, start, events).sent|
    requires Run(cfg, start, events).sent[i].address == Run(cfg, start, events).sent[j].address
    ensures Run(cfg, start, events).sent[j].sentAt >= Run(cfg, start, events).sent[i].sentAt + cfg.cooldown
  {
    CooldownsHold(cfg, start, events);
  }

  // --- When the spacing is safe ------------------------------------------------------------

  /** Handlers in flight finish or fail; no new one checks. */
  ghost predicate Closing(more: seq<Event>) { forall e <- more :: !e.Check? }

  ghost predicate SpacedThrough(cfg: Config, start: int, events: seq<Event>, more: seq<Event>) {
    Closing(more) && PossibleRun(cfg, start, events + more) ==> Spaced(cfg, Run(cfg, start, events + more).sent)
  }

  /** However the handlers now in flight end, the distributions are spaced. */
  ghost predicate SpacingSafe(cfg: Config, start: int, events: seq<Event>) {
    forall more: seq<Event> :: SpacedThrough(cfg, start, events, more)
  }

  ghost predicate AlwaysSafe(cfg: Config, start: int, events: seq<Event>) {
    SpacingSafe(cfg, start, events) && (events == [] || AlwaysSafe(cfg, start, events[..|events| - 1]))
  }

  lemma {:induction false} PendingInThePast(cfg: Config, start: int, events: seq<Event>, id: nat)
    requires PossibleRun(cfg, start, events) && id in Run(cfg, start, events).pending
    ensures Run(cfg, start, events).pending[id].since <= Run(cfg, start, events).clock
  {
    if events != [] {
      var before, e := events[..|events| - 1], events[|events| - 1];
      if id in Run(cfg, start, before).pending { PendingInThePast(cfg, start, before, id); }
    }
  }

  /** Two handlers in flight for one address can always break the spacing, whatever the cooldown:
      both record now. */
  lemma ConcurrentHandlersBreakSpacing(cfg: Config, start: int, events: seq<Event>, i: nat, j: nat)
    requires PossibleRun(cfg, start, events) && cfg.cooldown > 0
    requires var p := Run(cfg, start, events).pending; i in p && j in p && i != j && p[i].address == p[j].address
    ensures exists more: seq<Event> ::
      Closing(more) && PossibleRun(cfg, start, events + more) && !Spaced(cfg, Run(cfg, start, events + more).sent)
  {
    var s := Run(cfg, start, events);
    var e, f := Record(i, s.clock, s.clock), Record(j, s.clock, s.clock);
    PendingInThePast(cfg, start, events, i);
    PendingInThePast(cfg, start, events, j);
    hide Run, PossibleRun, AtMost, Exclusive;
    RunOne(cfg, start, events, e, 0);
    RunOne(cfg, start, events + [e], f, 0);
    assert events + [e, f] == events + [e] + [f];
    TwoRecords(cfg, s, i, j);
    hide Step, Possible, Spaced;
    assert Closing([e, f]);
  }

  lemma TwoRecords(cfg: Config, s: System, i: nat, j: nat)
    requires cfg.cooldown > 0 && i in s.pending && j in s.pending && i != j
    requires s.pending[i].address == s.pending[j].address
    requires s.pending[i].since <= s.clock && s.pending[j].since <= s.clock
    ensures var e, f := Record(i, s.clock, s.clock), Record(j, s.clock, s.clock);
      Possible(s, e) && Possible(Step(cfg, s, e), f) && !Spaced(cfg, Step(cfg, Step(cfg, s, e), f).sent)
  {
    var e, f := Record(i, s.clock, s.clock), Record(j, s.clock, s.clock);
    var n, t := |s.sent|, Step(cfg, Step(cfg, s, e), f);
    assert t.sent[n] == Distribution(s.pending[i].address, s.clock);
    assert t.sent[n + 1] == Distribution(s.pending[i].address, s.clock);
  }

  lemma {:induction false} ClosingKeepsExclusive(cfg: Config, start: int, events: seq<Event>, more: seq<Event>)
    requires Exclusive(cfg, start, events) && Closing(more) && PossibleRun(cfg, start, events + more)
    ensures Exclusive(cfg, start, events + more)
  {
    if more == [] {
      assert events + more == events;
    } else {
      var before, e := more[..|more| - 1], more[|more| - 1];
      assert events + more == events + before + [e];
      assert e in more && forall d <- before :: d in more;
      RunOne(cfg, start, events + before, e, 0);
      ClosingKeepsExclusive(cfg, start, events, before);
    }
  }

  /** The exact condition: along a possible run the spacing is safe at every moment if and only if
      there is never more than one handler in flight for an address. */
  lemma {:induction false} SpacingSafeIff(cfg: Config, start: int, events: seq<Event>)
    requires PossibleRun(cfg, start, events) && cfg.cooldown > 0
    ensures AlwaysSafe(cfg, start, events) <==> Exclusive(cfg, start, events)
  {
    if events != [] { SpacingSafeIff(cfg, start, events[..|events| - 1]); }
    if Exclusive(cfg, start, events) {
      forall more: seq<Event> ensures SpacedThrough(cfg, start, events, more) {
        if Closing(more) && PossibleRun(cfg, start, events + more) {
          ClosingKeepsExclusive(cfg, start, events, more);
          CooldownsHold(cfg, start, events + more);
        }
      }
    }
    if !OnePerAddress(Run(cfg, start, events)) {
      var p := Run(cfg, start, events).pending;
      var i, j :| i in p && j in p && p[i].address == p[j].address && i != j;
      ConcurrentHandlersBreakSpacing(cfg, start, events, i, j);
      var more: seq<Event> :|
        Closing(more) && PossibleRun(cfg, start, events + more) && !Spaced(cfg, Run(cfg, start, events + more).sent);
      assert !SpacedThrough(cfg, start, events, more);
    }
  }

  /** The hazard is real: two handlers that check one after the other are both in flight. */
  lemma TwoHandlersShareAddress(cfg: Config, a: string)
    requires cfg.dailyCap >= 1
    ensures exists events: seq<Event> :: PossibleRun(cfg, 0, events) && !Exclusive(cfg, 0, events)
  {
    var e, f := Check(1, a, NOW), Check(2, a, NOW);
    RunOne(cfg, 0, [], e, 2);
    RunOne(cfg, 0, [] + [e], f, 2);
    assert Run(cfg, 0, []) == Initial(0) && PossibleRun(cfg, 0, []);
    hide Run, PossibleRun, AtMost, Exclusive;
    var s := Step(cfg, Step(cfg, Initial(0), e), f);
    assert s.pending == map[1 := Pending(a, 0), 2 := Pending(a, 0)];
    assert 1 in s.pending && 2 in s.pending;
  }

  // --- The purge ---------------------------------------------------------------------------------

  /** The same step without dropping any cooldown. */
  function StepKeeping(cfg: Config, s: System, e: Event): System {
    if e.Check? && e.r.resetTest > s.limits.resetTime then
      var l := Limits(0, NextReset(e.r.resetStamp), s.limits.cooldowns);
      var pending := if Judge(cfg, l, e.address, e.r.cooldownTest) == Allowed
                     then s.pending[e.id := Pending(e.address, e.r.cooldownTest)] else s.pending;
      System(l, pending, s.sent, e.r.cooldownTest)
    else Step(cfg, s, e)
  }

  function RunKeeping(cfg: Config, start: int, events: seq<Event>): System {
    if events == [] then Initial(start)
    else StepKeeping(cfg, RunKeeping(cfg, start, events[..|events| - 1]), events[|events| - 1])
  }

  /** The kept cooldowns are a superset, and the extra ones ran out. */
  ghost predicate OnlyExpiredDropped(s: System, t: System) {
    && t == s.(limits := s.limits.(cooldowns := t.limits.cooldowns))
    && (forall a :: a in s.limits.cooldowns ==> a in t.limits.cooldowns && t.limits.cooldowns[a] == s.limits.cooldowns[a])
    && (forall a :: a in t.limits.cooldowns && a !in s.limits.cooldowns ==> t.limits.cooldowns[a] < s.clock)
  }

  lemma KeepingStep(cfg: Config, s: System, t: System, e: Event)
    requires OnlyExpiredDropped(s, t) && Possible(s, e)
    ensures OnlyExpiredDropped(Step(cfg, s, e), StepKeeping(cfg, t, e))
  {
    match e
    case Check(id, address, r) =>
      forall a | a in t.limits.cooldowns && a !in Step(cfg, s, e).limits.cooldowns
        ensures t.limits.cooldowns[a] < r.cooldownTest
      {
        assert r.resetStamp <= r.purge(a) <= r.cooldownTest;
      }
    case Fail(_) =>
    case Record(_, _, _) =>
  }

  /** Dropping old cooldowns at the reset changes no verdict, in any run. */
  lemma {:induction false} PurgeIsInvisible(cfg: Config, start: int, events: seq<Event>)
    requires PossibleRun(cfg, start, events)
    ensures OnlyExpiredDropped(Run(cfg, start, events), RunKeeping(cfg, start, events))
    ensures Run(cfg, start, events).pending == RunKeeping(cfg, start, events).pending
    ensures Run(cfg, start, events).sent == RunKeeping(cfg, start, events).sent
  {
    if events != [] {
      var before, e := events[..|events| - 1], events[|events| - 1];
      PurgeIsInvisible(cfg, start, before);
      KeepingStep(cfg, Run(cfg, start, before), RunKeeping(cfg, start, before), e);
    }
  }

  // --- The limiter against the history ----------------------------------------------------------

  /** The i-th event of a run recorded a distribution to the address. */
  ghost predicate RecordedFor(cfg: Config, start: int, events: seq<Event>, i: nat, a: string) {
    && i < |events| && events[i].Record?
    && var p := Run(cfg, start, events[..i]).pending;
       events[i].id in p && p[events[i].id].address == a
  }

  /** Remembered cooldowns stem from records. */
  ghost predicate Stems(cfg: Config, start: int, events: seq<Event>, a: string, until: int) {
    exists i: nat :: RecordedFor(cfg, start, events, i, a) && until == events[i].now + cfg.cooldown
  }

  /** A cooldown is remembered at least as long as it lasts. */
  ghost predicate Kept(cfg: Config, s: System, a: string, now: int) {
    && now <= s.clock
    && (now + cfg.cooldown < s.clock || (a in s.limits.cooldowns && now + cfg.cooldown <= s.limits.cooldowns[a]))
  }

  ghost predicate Remembers(cfg: Config, start: int, events: seq<Event>) {
    var s := Run(cfg, start, events);
    && (forall a :: a in s.limits.cooldowns ==> Stems(cfg, start, events, a, s.limits.cooldowns[a]))
    && (forall i: nat, a :: RecordedFor(cfg, start, events, i, a) ==> Kept(cfg, s, a, events[i].now))
  }

  lemma RecordedBefore(cfg: Config, start: int, events: seq<Event>, e: Event, i: nat, a: string)
    requires i < |events|
    ensures RecordedFor(cfg, start, events + [e], i, a) <==> RecordedFor(cfg, start, events, i, a)
  {
    assert (events + [e])[..i] == events[..i];
    hide Run;
  }

  lemma RecordedLast(cfg: Config, start: int, events: seq<Event>, e: Event, a: string)
    ensures var p := Run(cfg, start, events).pending;
      RecordedFor(cfg, start, events + [e], |events|, a) <==> e.Record? && e.id in p && p[e.id].address == a
  {
    assert (events + [e])[..|events|] == events;
    hide Run;
  }

  lemma StepKeeps(cfg: Config, s: System, e: Event, a: string, now: int)
    requires Kept(cfg, s, a, now) && Possible(s, e)
    ensures Kept(cfg, Step(cfg, s, e), a, now)
  {
    if e.Check? { assert e.r.resetStamp <= e.r.purge(a) <= e.r.cooldownTest; }
  }

  lemma RecordKeeps(cfg: Config, s: System, e: Event)
    requires e.Record? && Possible(s, e)
    ensures Kept(cfg, Step(cfg, s, e), s.pending[e.id].address, e.now)
  {}

  lemma StepStems(cfg: Config, s: System, e: Event, a: string)
    requires Possible(s, e) && a in Step(cfg, s, e).limits.cooldowns
    ensures var until := Step(cfg, s, e).limits.cooldowns[a];
      (a in s.limits.cooldowns && s.limits.cooldowns[a] == until)
      || (e.Record? && s.pending[e.id].address == a && until == e.now + cfg.cooldown)
  {}

  lemma StemsLonger(cfg: Config, start: int, events: seq<Event>, e: Event, a: string, until: int)
    requires Stems(cfg, start, events, a, until)
    ensures Stems(cfg, start, events + [e], a, until)
  {
    var i: nat :| RecordedFor(cfg, start, events, i, a) && until == events[i].now + cfg.cooldown;
    RecordedBefore(cfg, start, events, e, i, a);
    hide RecordedFor;
    assert RecordedFor(cfg, start, events + [e], i, a) && (events + [e])[i] == events[i];
  }

  lemma RemembersNext(cfg: Config, start: int, events: seq<Event>, e: Event)
    requires Remembers(cfg, start, events) && Possible(Run(cfg, start, events), e)
    ensures Remembers(cfg, start, events + [e])
  {
    var all, s := events + [e], Run(cfg, start, events);
    var t := Step(cfg, s, e);
    RunOne(cfg, start, events, e, 0);
    hide Run, Step, Kept, Stems;
    forall i: nat, a | RecordedFor(cfg, start, all, i, a) ensures Kept(cfg, t, a, all[i].now) {
      if i < |events| {
        RecordedBefore(cfg, start, events, e, i, a);
        StepKeeps(cfg, s, e, a, events[i].now);
      } else {
        RecordedLast(cfg, start, events, e, a);
        RecordKeeps(cfg, s, e);
      }
    }
    forall a | a in t.limits.cooldowns ensures Stems(cfg, start, all, a, t.limits.cooldowns[a]) {
      StepStems(cfg, s, e, a);
      if a in s.limits.cooldowns && s.limits.cooldowns[a] == t.limits.cooldowns[a] {
        StemsLonger(cfg, start, events, e, a, t.limits.cooldowns[a]);
      } else {
        RecordedLast(cfg, start, events, e, a);
        LastStems(cfg, start, events, e, a);
      }
    }
  }

  lemma LastStems(cfg: Config, start: int, events: seq<Event>, e: Event, a: string)
    requires RecordedFor(cfg, start, events + [e], |events|, a)
    ensures Stems(cfg, start, events + [e], a, e.now + cfg.cooldown)
  {
    assert (events + [e])[|events|] == e;
    hide RecordedFor;
  }

  lemma {:induction false} RunRemembers(cfg: Config, start: int, events: seq<Event>)
    requires PossibleRun(cfg, start, events)
    ensures Remembers(cfg, start, events)
  {
    if events != [] {
      var before, e := events[..|events| - 1], events[|events| - 1];
      assert events == before + [e];
      RunRemembers(cfg, start, before);
      hide Run, Possible, Remembers;
      RemembersNext(cfg, start, before, e);
    }
  }

  /** The i-th event of a run starts a new day. */
  ghost predicate Resets(cfg: Config, start: int, events: seq<Event>, i: nat) {
    i < |events| && events[i].Check? && events[i].r.resetTest > Run(cfg, start, events[..i]).limits.resetTime
  }

  /** The day began with the n-th event, or with the service when n is 0. */
  ghost predicate DayBegan(cfg: Config, start: int, events: seq<Event>, n: nat) {
    && n <= |events| && (n == 0 || Resets(cfg, start, events, n - 1))
    && forall i: nat :: n <= i < |events| ==> !Resets(cfg, start, events, i)
  }

  function Records(events: seq<Event>, n: nat): set<nat> {
    set i: nat | n <= i < |events| && events[i].Record?
  }

  lemma ResetsBefore(cfg: Config, start: int, events: seq<Event>, e: Event, i: nat)
    ensures i < |events| ==> (Resets(cfg, start, events + [e], i) <==> Resets(cfg, start, events, i))
    ensures Resets(cfg, start, events + [e], |events|)
       <==> e.Check? && e.r.resetTest > Run(cfg, start, events).limits.resetTime
  {
    if i < |events| { assert (events + [e])[..i] == events[..i]; }
    assert (events + [e])[..|events|] == events;
    hide Run;
  }

  lemma RecordsNext(events: seq<Event>, e: Event, n: nat)
    requires n <= |events|
    ensures |Records(events + [e], n)| == |Records(events, n)| + if e.Record? then 1 else 0
    ensures Records(events, |events|) == {}
  {
    var more := Records(events + [e], n);
    assert more == Records(events, n) + if e.Record? then {|events|} else {};
  }

  ghost predicate Counts(cfg: Config, start: int, events: seq<Event>, n: nat) {
    && DayBegan(cfg, start, events, n) && Run(cfg, start, events).limits.count == |Records(events, n)|
    && Run(cfg, start, events).limits.resetTime == NextReset(if n == 0 then start else events[n - 1].r.resetStamp)
  }

  /** The count is the number of distributions recorded since the day began, and the next reset is the
      midnight after that. */
  lemma {:induction false} CountIsHistory(cfg: Config, start: int, events: seq<Event>) returns (n: nat)
    requires PossibleRun(cfg, start, events)
    ensures Counts(cfg, start, events, n)
  {
    if events == [] {
      n := 0;
      NoRecords(events);
    } else {
      var before, e := events[..|events| - 1], events[|events| - 1];
      assert events == before + [e];
      n := CountIsHistory(cfg, start, before);
      hide Run, PossibleRun;
      CountStep(cfg, start, before, e, n);
      if e.Check? && e.r.resetTest > Run(cfg, start, before).limits.resetTime { n := |events|; }
    }
  }

  lemma CountStep(cfg: Config, start: int, events: seq<Event>, e: Event, n: nat)
    requires Counts(cfg, start, events, n) && Possible(Run(cfg, start, events), e)
    ensures var resets := e.Check? && e.r.resetTest > Run(cfg, start, events).limits.resetTime;
      Counts(cfg, start, events + [e], if resets then |events| + 1 else n)
  {
    hide Step, Resets, Records, NextReset, Possible, Run;
    DayStep(cfg, start, events, e, n);
    RecordsNext(events, e, n);
    NoRecords(events + [e]);
    NextRun(cfg, start, events, e);
    RecordedCount(cfg, Run(cfg, start, events), e);
    hide DayBegan;
    if n > 0 { assert (events + [e])[n - 1] == events[n - 1]; }
  }

  lemma NextRun(cfg: Config, start: int, events: seq<Event>, e: Event)
    ensures Run(cfg, start, events + [e]) == Step(cfg, Run(cfg, start, events), e)
  {
    RunOne(cfg, start, events, e, 0);
  }

  lemma DayStep(cfg: Config, start: int, events: seq<Event>, e: Event, n: nat)
    requires DayBegan(cfg, start, events, n)
    ensures n <= |events|
    ensures var resets := e.Check? && e.r.resetTest > Run(cfg, start, events).limits.resetTime;
      DayBegan(cfg, start, events + [e], if resets then |events| + 1 else n)
  {
    hide Run, Resets;
    forall i: nat { ResetsBefore(cfg, start, events, e, i); }
  }

  /** A step counts a record, starts at 0 again on a reset, and changes the count in no other way. */
  lemma RecordedCount(cfg: Config, s: System, e: Event)
    requires Possible(s, e)
    ensures var t := Step(cfg, s, e);
      if e.Check? && e.r.resetTest > s.limits.resetTime then t.limits.count == 0 && t.limits.resetTime == NextReset(e.r.resetStamp)
      else t.limits.count == s.limits.count + (if e.Record? then 1 else 0) && t.limits.resetTime == s.limits.resetTime
  {
    hide NextReset, Purged;
  }

  lemma NoRecords(events: seq<Event>)
    ensures |Records(events, |events|)| == 0
  {
    assert Records(events, |events|) == {};
  }

  /** The verdict of a check is what the history says, although the limiter forgets old cooldowns: the
      cap is reached when that many distributions were recorded since the day began; otherwise the
      address cools down when one to it was recorded less than the cooldown ago. */
  lemma VerdictIsHistory(cfg: Config, start: int, events: seq<Event>, n: nat, address: string, r: Readings)
    requires PossibleRun(cfg, start, events) && r.Monotone(Run(cfg, start, events).clock) && DayBegan(cfg, start, events, n)
    ensures var l := Run(cfg, start, events).limits;
      var newDay := r.resetTest > NextReset(if n == 0 then start else events[n - 1].r.resetStamp);
      Judge(cfg, AfterReset(l, r), address, r.cooldownTest) ==
        if (if newDay then 0 else |Records(events, n)|) >= cfg.dailyCap then CapReached
        else if exists i: nat :: RecordedFor(cfg, start, events, i, address) && r.cooldownTest < events[i].now + cfg.cooldown
          then CoolingDown
        else Allowed
  {
    var l := Run(cfg, start, events).limits;
    var m := CountIsHistory(cfg, start, events);
    DayOnce(cfg, start, events, n, m);
    RunRemembers(cfg, start, events);
    CoolingIsHistory(cfg, start, events, address, r);
    hide Run, Records, NextReset, Remembers, RecordedFor, Purged;
  }

  lemma DayOnce(cfg: Config, start: int, events: seq<Event>, n: nat, m: nat)
    requires DayBegan(cfg, start, events, n) && DayBegan(cfg, start, events, m)
    ensures n == m
  {
    hide Resets;
  }

  lemma CoolingIsHistory(cfg: Config, start: int, events: seq<Event>, address: string, r: Readings)
    requires Remembers(cfg, start, events) && r.Monotone(Run(cfg, start, events).clock)
    ensures var l := AfterReset(Run(cfg, start, events).limits, r);
      (address in l.cooldowns && r.cooldownTest < l.cooldowns[address]) <==>
        exists i: nat :: RecordedFor(cfg, start, events, i, address) && r.cooldownTest < events[i].now + cfg.cooldown
  {
    assert r.resetStamp <= r.purge(address) <= r.cooldownTest;
    hide Run, RecordedFor;
  }
}
