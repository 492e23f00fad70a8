/** The Ethereum deposit watcher: a block cursor, a confirmation depth, a batch cap, and
    submissions that may fail part-way through a batch. */
module DepositPoll {
  import opened IntegerMath
  import opened Bytes
  import opened NumberTheory
  import opened AbiCodec

  /** The two settings the poll reads; Config.Validate demands that both are positive. */
  datatype Config = Config(confirmations: nat, batchSize: nat) {
    ghost predicate Valid() { 0 < confirmations < U64 && 0 < batchSize < U64 / 2 }
  }

  /** What the outside does during one poll: the head it answers with, the raw logs it answers
      with (None: the call fails), and how many submissions succeed before one fails. */
  datatype Poll = Poll(head: Option<nat>, logs: Option<seq<EthLog>>, accepts: nat)

  /** The machine types: a 64-bit head, and byte slices of 63-bit lengths. */
  ghost predicate Plausible(poll: Poll) {
    && (poll.head.Some? ==> poll.head.value < U64)
    && (poll.logs.Some? ==> forall log <- poll.logs.value :: WellSized(log))
  }

  ghost predicate WellSized(log: EthLog) {
    log.data.Some? ==> |log.data.value| < U64 / 2
  }

  /** No log that is parsed stops the parser. */
  predicate Readable(logs: seq<EthLog>) {
    forall i :: 0 <= i < |logs| ==> logs[i].removed || ParsedDeposit(logs[i]) != OutOfRange
  }

  predicate Answered(poll: Poll) { poll.logs.Some? && Readable(poll.logs.value) }

  /** The deposits among raw logs: not removed, and parseable. */
  function Deposits(logs: seq<EthLog>): seq<DepositEvent> {
    if logs == [] then []
    else
      var log := logs[|logs| - 1];
      Deposits(logs[..|logs| - 1])
      + if !log.removed && ParsedDeposit(log).Parsed? then [ParsedDeposit(log).event] else []
  }

  /** A log that the filter keeps. */
  predicate Kept(log: EthLog) { !log.removed && ParsedDeposit(log).Parsed? }

  /** The positions of the logs that are kept, in order. */
  ghost predicate Selects(logs: seq<EthLog>, at: seq<nat>) {
    && (forall k, l :: 0 <= k < l < |at| ==> at[k] < at[l])
    && (forall k :: 0 <= k < |at| ==> at[k] < |logs| && Kept(logs[at[k]]))
    && (forall i: nat :: i < |logs| && Kept(logs[i]) ==> i in at)
  }

  /** The events are the parses of the logs at these positions. */
  ghost predicate ReadAt(logs: seq<EthLog>, at: seq<nat>, events: seq<DepositEvent>) {
    && |events| == |at|
    && forall k :: 0 <= k < |at| ==> at[k] < |logs| && ParsedDeposit(logs[at[k]]) == Parsed(events[k])
  }

  lemma SelectsLess(logs: seq<EthLog>, at: seq<nat>)
    requires logs != [] && Selects(logs, at)
    ensures var n, less := |logs| - 1, logs[..|logs| - 1];
      if Kept(logs[n]) then at != [] && at[|at| - 1] == n && Selects(less, at[..|at| - 1]) else Selects(less, at)
  {
    hide Kept;
    var n, less := |logs| - 1, logs[..|logs| - 1];
    var before := if Kept(logs[n]) then at[..|at| - 1] else at;
    if Kept(logs[n]) {
      assert n in at;
      LastOfRising(at, n);
    }
    assert forall k :: 0 <= k < |before| ==> before[k] == at[k] && before[k] < n;
    forall i: nat | i < |less| && Kept(less[i]) ensures i in before {
      assert i in at;
      InPrefix(at, |before|, i, n);
    }
  }

  lemma InPrefix(at: seq<nat>, m: nat, i: nat, n: nat)
    requires i in at && m <= |at| && (m == |at| || (m == |at| - 1 && at[m] == n)) && i != n
    ensures i in at[..m]
  {
    var k :| 0 <= k < |at| && at[k] == i;
    assert at[..m][k] == i;
  }

  lemma LastOfRising(at: seq<nat>, n: nat)
    requires n in at && (forall k, l :: 0 <= k < l < |at| ==> at[k] < at[l]) && forall k :: 0 <= k < |at| ==> at[k] <= n
    ensures at[|at| - 1] == n
  {
    var k :| 0 <= k < |at| && at[k] == n;
  }

  lemma ReadAtLast(logs: seq<EthLog>, at: seq<nat>, events: seq<DepositEvent>)
    requires logs != [] && at != [] && at[|at| - 1] == |logs| - 1
    requires forall k :: 0 <= k < |at| - 1 ==> at[k] < |logs| - 1
    ensures ReadAt(logs, at, events) <==>
      && |events| == |at| && ParsedDeposit(logs[|logs| - 1]) == Parsed(events[|events| - 1])
      && ReadAt(logs[..|logs| - 1], at[..|at| - 1], events[..|events| - 1])
  {
    hide ParsedDeposit;
    var less := logs[..|logs| - 1];
    if |events| == |at| {
      assert forall k :: 0 <= k < |at| - 1 ==>
        at[..|at| - 1][k] == at[k] && events[..|events| - 1][k] == events[k] && less[at[k]] == logs[at[k]];
    }
  }

  lemma ReadAtLess(logs: seq<EthLog>, at: seq<nat>, events: seq<DepositEvent>)
    requires logs != [] && forall k :: 0 <= k < |at| ==> at[k] < |logs| - 1
    ensures ReadAt(logs, at, events) <==> ReadAt(logs[..|logs| - 1], at, events)
  {
    hide ParsedDeposit;
    assert forall k :: 0 <= k < |at| ==> logs[..|logs| - 1][at[k]] == logs[at[k]];
  }

  /** The deposits of a list are exactly the parses of its kept logs: all of them, none twice, in
      order. */
  lemma {:induction false} DepositsIff(logs: seq<EthLog>, at: seq<nat>, events: seq<DepositEvent>)
    requires Selects(logs, at)
    ensures ReadAt(logs, at, events) <==> events == Deposits(logs)
  {
    hide ParsedDeposit, Selects, ReadAt;
    if logs == [] {
      NothingSelected(at, events);
    } else {
      var n, less := |logs| - 1, logs[..|logs| - 1];
      SelectsLess(logs, at);
      if Kept(logs[n]) {
        SelectedBelow(less, at[..|at| - 1]);
        ReadAtLast(logs, at, events);
        if events != [] { DepositsIff(less, at[..|at| - 1], events[..|events| - 1]); }
        DepositsIff(less, at[..|at| - 1], Deposits(less));
        ReadAtLength(less, at[..|at| - 1], Deposits(less));
        OneMoreEvent(events, Deposits(less), ParsedDeposit(logs[n]).event);
      } else {
        SelectedBelow(less, at);
        ReadAtLess(logs, at, events);
        DepositsIff(less, at, events);
      }
    }
  }

  lemma OneMoreEvent(events: seq<DepositEvent>, less: seq<DepositEvent>, d: DepositEvent)
    ensures events == less + [d] <==>
      events != [] && |events| == |less| + 1 && events[..|events| - 1] == less && events[|events| - 1] == d
  {
    if events != [] { assert events == events[..|events| - 1] + [events[|events| - 1]]; }
  }

  lemma ReadAtLength(logs: seq<EthLog>, at: seq<nat>, events: seq<DepositEvent>)
    requires ReadAt(logs, at, events)
    ensures |events| == |at|
  {}

  lemma NothingSelected(at: seq<nat>, events: seq<DepositEvent>)
    requires Selects([], at)
    ensures at == [] && (ReadAt([], at, events) <==> events == [])
  {
    BelowZero(at, 0);
  }

  lemma BelowZero(at: seq<nat>, n: nat)
    requires forall k :: 0 <= k < |at| ==> at[k] < n
    ensures n == 0 ==> at == []
  {
    if at != [] { assert at[0] < n; }
  }

  lemma SelectedBelow(logs: seq<EthLog>, at: seq<nat>)
    requires Selects(logs, at)
    ensures forall k :: 0 <= k < |at| ==> at[k] < |logs|
  {}

  /** Every list has such positions. */
  lemma {:induction false} SelectionExists(logs: seq<EthLog>) returns (at: seq<nat>)
    ensures Selects(logs, at)
  {
    hide Kept;
    if logs == [] {
      at := [];
    } else {
      var n, less := |logs| - 1, logs[..|logs| - 1];
      var before := SelectionExists(less);
      at := if Kept(logs[n]) then before + [n] else before;
      SelectsMore(logs, before, at);
    }
  }

  lemma SelectsMore(logs: seq<EthLog>, before: seq<nat>, at: seq<nat>)
    requires logs != [] && Selects(logs[..|logs| - 1], before)
    requires at == if Kept(logs[|logs| - 1]) then before + [|logs| - 1] else before
    ensures Selects(logs, at)
  {
    hide Kept;
    var n, less := |logs| - 1, logs[..|logs| - 1];
    forall i: nat | i < |logs| && Kept(logs[i]) ensures i in at {
      if i < n { assert less[i] == logs[i] && i in before; }
    }
    assert forall k :: 0 <= k < |before| ==> at[k] == before[k] && less[before[k]] == logs[before[k]];
  }

  lemma KeptIsDeposit(logs: seq<EthLog>, log: EthLog, d: DepositEvent)
    requires log in logs && !log.removed && ParsedDeposit(log) == Parsed(d)
    ensures d in Deposits(logs)
  {
    hide ParsedDeposit, Deposits;
    var at := SelectionExists(logs);
    DepositsIff(logs, at, Deposits(logs));
    var i: nat :| i < |logs| && logs[i] == log;
    assert Kept(logs[i]) && i in at;
    var k :| 0 <= k < |at| && at[k] == i;
    assert Deposits(logs)[k] == d;
  }

  lemma DepositIsKept(logs: seq<EthLog>, d: DepositEvent) returns (log: EthLog)
    requires d in Deposits(logs)
    ensures log in logs && !log.removed && ParsedDeposit(log) == Parsed(d)
  {
    hide ParsedDeposit, Deposits;
    var at := SelectionExists(logs);
    DepositsIff(logs, at, Deposits(logs));
    var k :| 0 <= k < |Deposits(logs)| && Deposits(logs)[k] == d;
    assert Kept(logs[at[k]]);
    log := logs[at[k]];
  }

  // --- One poll as a function ----------------------------------------------------

  /** `head - EthConfirmations` in uint64. */
  function Confirmed(cfg: Config, head: nat): (c: nat)
    requires cfg.confirmations < U64 && head < U64
    ensures c < U64 && (c + cfg.confirmations) % U64 == head
  {
    if head >= cfg.confirmations then head - cfg.confirmations
    else U64 + head - cfg.confirmations
  }

  function ToBlock(cfg: Config, last: nat, confirmed: nat): (t: nat)
    requires cfg.batchSize > 0 && last < confirmed
    ensures last < t <= confirmed && t <= last + cfg.batchSize
  {
    if confirmed - last > cfg.batchSize then last + cfg.batchSize else confirmed
  }

  predicate Queries(cfg: Config, last: nat, poll: Poll)
    requires cfg.confirmations < U64 && (poll.head.Some? ==> poll.head.value < U64)
  {
    poll.head.Some? && Confirmed(cfg, poll.head.value) > last
  }

  /** The submissions a poll attempts, and whether all of them (and the calls before) succeed. */
  ghost function Attempts(cfg: Config, last: nat, poll: Poll): seq<DepositEvent>
    requires cfg.Valid() && Plausible(poll)
  {
    if Queries(cfg, last, poll) && Answered(poll) then
      var ds := Deposits(poll.logs.value);
      if poll.accepts < |ds| then ds[..poll.accepts + 1] else ds
    else []
  }

  ghost function Successes(cfg: Config, last: nat, poll: Poll): seq<DepositEvent>
    requires cfg.Valid() && Plausible(poll)
  {
    if Queries(cfg, last, poll) && Answered(poll) then
      var ds := Deposits(poll.logs.value);
      if poll.accepts < |ds| then ds[..poll.accepts] else ds
    else []
  }

  ghost predicate Completes(cfg: Config, last: nat, poll: Poll)
    requires cfg.Valid() && Plausible(poll)
  {
    Queries(cfg, last, poll) && Answered(poll) && |Deposits(poll.logs.value)| <= poll.accepts
  }

  ghost function Cursor(cfg: Config, last: nat, poll: Poll): nat
    requires cfg.Valid() && Plausible(poll)
  {
    if Completes(cfg, last, poll) then ToBlock(cfg, last, Confirmed(cfg, poll.head.value)) else last
  }

  /** The last block of the next batch, in uint64 arithmetic. */
  method BlockRange(cfg: Config, last: nat, confirmed: nat) returns (toBlock: nat)
    requires cfg.Valid() && last < confirmed < U64
    ensures toBlock == ToBlock(cfg, last, confirmed)
  {
    var fromBlock := (last + 1) % U64;
    toBlock := confirmed;
    if (toBlock - fromBlock + 1) % U64 > cfg.batchSize {
      toBlock := (fromBlock + cfg.batchSize - 1) % U64;
    }
  }

  /** Failed is the error return, Stopped a slice out of range in the parser. */
  datatype PollResult = Done | Failed | Stopped

  // --- The relay -------------------------------------------------------------------

  class Relay {
    const cfg: Config
    var lastEthBlock: nat
    ghost var attempted: seq<DepositEvent>
    ghost var submitted: seq<DepositEvent>

    ghost predicate Valid() reads this { cfg.Valid() && lastEthBlock < U64 }

    /** Starts just below the configured block, or at the current head when none is configured. */
    constructor (cfg: Config, startBlock: nat, head: nat)
      requires cfg.Valid() && startBlock < U64 && head < U64
      ensures Valid() && this.cfg == cfg && attempted == [] && submitted == []
      ensures lastEthBlock == if startBlock > 0 then startBlock - 1 else head
    {
      this.cfg := cfg;
      if startBlock > 0 {
        lastEthBlock := startBlock - 1;
      } else {
        lastEthBlock := head;
      }
      attempted, submitted := [], [];
    }

    /** The filter over the raw logs of a block range; None when the parser stops. */
    method EthGetLogs(rawLogs: seq<EthLog>) returns (r: Option<seq<DepositEvent>>)
      requires forall log <- rawLogs :: WellSized(log)
      ensures r == if Readable(rawLogs) then Some(Deposits(rawLogs)) else None
    {
      hide ParsedDeposit;
      var deposits := [];
      for i := 0 to |rawLogs|
        invariant Readable(rawLogs[..i]) && deposits == Deposits(rawLogs[..i])
      {
        var log := rawLogs[i];
        assert rawLogs[..i + 1] == rawLogs[..i] + [log] && log in rawLogs;
        if log.removed { continue; }
        var d := ParseDepositLog(log);
        if d.OutOfRange? { return None; }
        if d.Parsed? {
          deposits := deposits + [d.event];
        }
      }
      assert rawLogs[..|rawLogs|] == rawLogs;
      return Some(deposits);
    }

    method PollEthDeposits(poll: Poll) returns (result: PollResult)
      requires Valid() && Plausible(poll)
      modifies this
      ensures Valid()
      ensures lastEthBlock == Cursor(cfg, old(lastEthBlock), poll)
      ensures attempted == old(attempted) + Attempts(cfg, old(lastEthBlock), poll)
      ensures submitted == old(submitted) + Successes(cfg, old(lastEthBlock), poll)
      ensures result == Done <==>
        Completes(cfg, old(lastEthBlock), poll) || (poll.head.Some? && !Queries(cfg, old(lastEthBlock), poll))
      ensures result == Stopped <==>
        Queries(cfg, old(lastEthBlock), poll) && poll.logs.Some? && !Readable(poll.logs.value)
    {
      hide Deposits, ParsedDeposit, ToBlock, Readable;
      if poll.head.None? { return Failed; }
      var head := poll.head.value;
      var confirmed := (head - cfg.confirmations) % U64;
      WrappedDifference(head, cfg.confirmations);
      if confirmed <= lastEthBlock { return Done; }
      var toBlock := BlockRange(cfg, lastEthBlock, confirmed);
      if poll.logs.None? { return Failed; }
      var logs := EthGetLogs(poll.logs.value);
      if logs.None? { return Stopped; }
      var deposits := logs.value;
      for i := 0 to |deposits|
        invariant lastEthBlock == old(lastEthBlock) && i <= poll.accepts
        invariant attempted == old(attempted) + deposits[..i]
        invariant submitted == old(submitted) + deposits[..i]
      {
        attempted := attempted + [deposits[i]];
        assert attempted == old(attempted) + deposits[..i + 1];
        if i == poll.accepts { return Failed; }
        submitted := submitted + [deposits[i]];
      }
      assert deposits[..|deposits|] == deposits;
      lastEthBlock := toBlock;
      return Done;
    }
  }

  ghost predicate Stops(logs: seq<EthLog>) {
    exists log :: log in logs && !log.removed && ParsedDeposit(log) == OutOfRange
  }

  lemma StopsIff(logs: seq<EthLog>)
    ensures Stops(logs) <==> !Readable(logs)
  {
    hide ParsedDeposit;
    if i :| 0 <= i < |logs| && !logs[i].removed && ParsedDeposit(logs[i]) == OutOfRange { assert logs[i] in logs; }
  }

  /** What a poll does with the kept logs of its answer: it submits them in order, the first `accepts`
      of them with success, tries one more if there is one, and moves the cursor only when none is
      left. */
  lemma PollSubmitsKept(cfg: Config, last: nat, poll: Poll, at: seq<nat>, events: seq<DepositEvent>)
    requires cfg.Valid() && Plausible(poll) && poll.head.Some? && poll.logs.Some?
    requires Selects(poll.logs.value, at) && ReadAt(poll.logs.value, at, events)
    ensures var asks := (poll.head.value - cfg.confirmations) % U64 > last;
      if !asks || Stops(poll.logs.value) then
        Attempts(cfg, last, poll) == [] == Successes(cfg, last, poll) && Cursor(cfg, last, poll) == last
      else
        && Successes(cfg, last, poll) == events[..Min(|events|, poll.accepts)]
        && Attempts(cfg, last, poll) == events[..Min(|events|, poll.accepts + 1)]
        && (Cursor(cfg, last, poll) > last <==> |events| <= poll.accepts)
  {
    WrappedDifference(poll.head.value, cfg.confirmations);
    StopsIff(poll.logs.value);
    DepositsIff(poll.logs.value, at, events);
    hide ParsedDeposit, Deposits, Readable, Stops, Selects, ReadAt;
    assert events[..|events|] == events;
  }

  lemma WrappedDifference(a: int, b: int)
    requires 0 <= a < U64 && 0 <= b < U64
    ensures (a - b) % U64 == if a >= b then a - b else U64 + a - b
  {}

  // --- Runs --------------------------------------------------------------------------

  ghost predicate PlausibleRun(polls: seq<Poll>) {
    forall poll <- polls :: Plausible(poll)
  }

  ghost function CursorAfter(cfg: Config, start: nat, polls: seq<Poll>): nat
    requires cfg.Valid() && PlausibleRun(polls)
  {
    if polls == [] then start
    else Cursor(cfg, CursorAfter(cfg, start, polls[..|polls| - 1]), polls[|polls| - 1])
  }

  ghost function SubmittedAfter(cfg: Config, start: nat, polls: seq<Poll>): seq<DepositEvent>
    requires cfg.Valid() && PlausibleRun(polls)
  {
    if polls == [] then []
    else
      var before := polls[..|polls| - 1];
      SubmittedAfter(cfg, start, before)
      + Successes(cfg, CursorAfter(cfg, start, before), polls[|polls| - 1])
  }

  /** The i-th poll of a run starts from this cursor. */
  ghost function CursorAt(cfg: Config, start: nat, polls: seq<Poll>, i: nat): nat
    requires cfg.Valid() && PlausibleRun(polls) && i <= |polls|
  {
    CursorAfter(cfg, start, polls[..i])
  }

  /** The cursor never decreases, and moves by at most one batch a poll. */
  lemma {:induction false} CursorMonotone(cfg: Config, start: nat, polls: seq<Poll>, i: nat, j: nat)
    requires cfg.Valid() && PlausibleRun(polls) && i <= j <= |polls|
    ensures CursorAt(cfg, start, polls, i) <= CursorAt(cfg, start, polls, j)
         <= CursorAt(cfg, start, polls, i) + (j - i) * cfg.batchSize
  {
    if i < j {
      CursorMonotone(cfg, start, polls, i, j - 1);
      CursorStep(cfg, start, polls, j - 1);
      assert (j - i) * cfg.batchSize == (j - 1 - i) * cfg.batchSize + cfg.batchSize;
    }
  }

  lemma CursorStep(cfg: Config, start: nat, polls: seq<Poll>, i: nat)
    requires cfg.Valid() && PlausibleRun(polls) && i < |polls|
    ensures CursorAt(cfg, start, polls, i + 1) == Cursor(cfg, CursorAt(cfg, start, polls, i), polls[i])
  {
    assert polls[..i + 1][..i] == polls[..i];
  }

  // --- The chain -----------------------------------------------------------------------

  /** The final logs of every block. */
  type Chain = nat -> seq<EthLog>

  function BlockDeposits(chain: Chain, b: nat): seq<DepositEvent> { Deposits(chain(b)) }

  /** All deposits of the blocks in (low, high], in order. */
  function RangeDeposits(chain: Chain, low: nat, high: nat): seq<DepositEvent> {
    if high <= low then [] else RangeDeposits(chain, low, high - 1) + BlockDeposits(chain, high)
  }

  ghost predicate Numbered(chain: Chain) {
    forall b: nat :: BlockNumbered(chain, b)
  }

  ghost predicate BlockNumbered(chain: Chain, b: nat) {
    forall d <- BlockDeposits(chain, b) :: d.blockNumber == b
  }

  /** Confirmed logs are stable: an answered query over confirmed blocks gives exactly the deposits
      the chain ends up with in the range asked for. */
  ghost predicate Stable(cfg: Config, chain: Chain, last: nat, poll: Poll)
    requires cfg.Valid() && Plausible(poll)
  {
    Queries(cfg, last, poll) && Answered(poll) && poll.head.value >= cfg.confirmations ==>
      Deposits(poll.logs.value) == RangeDeposits(chain, last, ToBlock(cfg, last, Confirmed(cfg, poll.head.value)))
  }

  /** Every answered head is at least the confirmation depth. */
  ghost predicate DeepHeads(cfg: Config, polls: seq<Poll>) {
    forall poll <- polls :: poll.head.Some? ==> poll.head.value >= cfg.confirmations
  }

  ghost predicate StableAt(cfg: Config, chain: Chain, start: nat, polls: seq<Poll>, i: nat)
    requires cfg.Valid() && PlausibleRun(polls) && i < |polls|
  {
    Stable(cfg, chain, CursorAt(cfg, start, polls, i), polls[i])
  }

  ghost predicate StableRun(cfg: Config, chain: Chain, start: nat, polls: seq<Poll>)
    requires cfg.Valid() && PlausibleRun(polls)
  {
    && DeepHeads(cfg, polls)
    && forall i: nat | i < |polls| :: StableAt(cfg, chain, start, polls, i)
  }

  lemma StablePrefix(cfg: Config, chain: Chain, start: nat, polls: seq<Poll>)
    requires cfg.Valid() && PlausibleRun(polls) && StableRun(cfg, chain, start, polls) && |polls| > 0
    ensures var before := polls[..|polls| - 1];
      && StableRun(cfg, chain, start, before)
      && Stable(cfg, chain, CursorAfter(cfg, start, before), polls[|polls| - 1])
  {
    var before := polls[..|polls| - 1];
    forall i: nat | i < |before| ensures StableAt(cfg, chain, start, before, i) {
      assert StableAt(cfg, chain, start, polls, i);
      assert before[..i] == polls[..i];
    }
    assert StableAt(cfg, chain, start, polls, |polls| - 1);
    assert polls[|polls| - 1] in polls;
  }

  lemma {:induction false} RangeSplit(chain: Chain, low: nat, mid: nat, high: nat)
    requires low <= mid <= high
    ensures RangeDeposits(chain, low, high) == RangeDeposits(chain, low, mid) + RangeDeposits(chain, mid, high)
  {
    hide Deposits, ParsedDeposit;
    if mid < high {
      RangeSplit(chain, low, mid, high - 1);
    }
  }

  lemma {:induction false} RangeNumbers(chain: Chain, low: nat, high: nat, d: DepositEvent)
    requires Numbered(chain) && d in RangeDeposits(chain, low, high)
    ensures low < d.blockNumber <= high
  {
    hide Deposits, ParsedDeposit;
    assert BlockNumbered(chain, high);
    if d !in BlockDeposits(chain, high) {
      RangeNumbers(chain, low, high - 1, d);
    }
  }

  lemma {:induction false} RangeContains(chain: Chain, low: nat, high: nat, b: nat, d: DepositEvent)
    requires low < b <= high && d in BlockDeposits(chain, b)
    ensures d in RangeDeposits(chain, low, high)
  {
    hide Deposits, ParsedDeposit;
    if b < high { RangeContains(chain, low, high - 1, b, d); }
  }

  /** Successful submissions of the batches that completed. */
  ghost function CompletedBatches(cfg: Config, start: nat, polls: seq<Poll>): seq<DepositEvent>
    requires cfg.Valid() && PlausibleRun(polls)
  {
    if polls == [] then []
    else
      var before, poll := polls[..|polls| - 1], polls[|polls| - 1];
      var last := CursorAfter(cfg, start, before);
      CompletedBatches(cfg, start, before)
      + if Completes(cfg, last, poll) then Successes(cfg, last, poll) else []
  }

  /** The completed batches of any run, put end to end, are exactly the deposits of the blocks the
      cursor has passed: none skipped, none twice, in block order. */
  lemma {:induction false} CompletedBatchesAreTheRange(cfg: Config, chain: Chain, start: nat, polls: seq<Poll>)
    requires cfg.Valid() && PlausibleRun(polls) && StableRun(cfg, chain, start, polls)
    ensures CompletedBatches(cfg, start, polls) == RangeDeposits(chain, start, CursorAfter(cfg, start, polls))
  {
    if polls != [] {
      var before := polls[..|polls| - 1];
      StablePrefix(cfg, chain, start, polls);
      CompletedBatchesAreTheRange(cfg, chain, start, before);
      var last := CursorAfter(cfg, start, before);
      CursorMonotone(cfg, start, polls, 0, |before|);
      RangeSplit(chain, start, last, CursorAfter(cfg, start, polls));
    }
  }

  lemma {:induction false} CompletedAreSubmitted(cfg: Config, start: nat, polls: seq<Poll>, d: DepositEvent)
    requires cfg.Valid() && PlausibleRun(polls) && d in CompletedBatches(cfg, start, polls)
    ensures d in SubmittedAfter(cfg, start, polls)
  {
    var before, poll := polls[..|polls| - 1], polls[|polls| - 1];
    if d in CompletedBatches(cfg, start, before) {
      CompletedAreSubmitted(cfg, start, before, d);
    }
  }

  /** No block is skipped: every log of the passed blocks that is not removed and parses has been
      submitted successfully. */
  lemma NoDepositSkipped(cfg: Config, chain: Chain, start: nat, polls: seq<Poll>, b: nat, log: EthLog, d: DepositEvent)
    requires cfg.Valid() && PlausibleRun(polls) && StableRun(cfg, chain, start, polls)
    requires start < b <= CursorAfter(cfg, start, polls)
    requires log in chain(b) && !log.removed && ParsedDeposit(log) == Parsed(d)
    ensures d in SubmittedAfter(cfg, start, polls)
  {
    KeptIsDeposit(chain(b), log, d);
    hide Deposits, ParsedDeposit;
    RangeContains(chain, start, CursorAfter(cfg, start, polls), b, d);
    CompletedBatchesAreTheRange(cfg, chain, start, polls);
    CompletedAreSubmitted(cfg, start, polls, d);
  }

  /** Nothing is made up: every attempt is the parse of an answered log that is not removed, and with
      stable confirmed logs of such a log in one of the next blocks of the chain. */
  lemma AttemptsAreAnswered(cfg: Config, chain: Chain, last: nat, poll: Poll, d: DepositEvent)
    requires cfg.Valid() && Plausible(poll) && d in Attempts(cfg, last, poll)
    ensures exists log :: log in poll.logs.value && !log.removed && ParsedDeposit(log) == Parsed(d)
    ensures Stable(cfg, chain, last, poll) && poll.head.value >= cfg.confirmations ==>
      exists b: nat, log :: last < b <= last + cfg.batchSize && log in chain(b) && !log.removed && ParsedDeposit(log) == Parsed(d)
  {
    hide Deposits, ParsedDeposit;
    var log := DepositIsKept(poll.logs.value, d);
    if Stable(cfg, chain, last, poll) && poll.head.value >= cfg.confirmations {
      var b := RangeBlock(chain, last, ToBlock(cfg, last, Confirmed(cfg, poll.head.value)), d);
      var origin := DepositIsKept(chain(b), d);
    }
  }

  lemma {:induction false} RangeBlock(chain: Chain, low: nat, high: nat, d: DepositEvent) returns (b: nat)
    requires d in RangeDeposits(chain, low, high)
    ensures low < b <= high && d in BlockDeposits(chain, b)
  {
    hide Deposits, ParsedDeposit;
    if d in BlockDeposits(chain, high) { b := high; } else { b := RangeBlock(chain, low, high - 1, d); }
  }

  /** Whatever poll i attempts lies strictly above the cursor it starts from, and within one batch
      of it. */
  lemma AttemptsAboveCursor(cfg: Config, chain: Chain, start: nat, polls: seq<Poll>, i: nat, d: DepositEvent)
    requires cfg.Valid() && PlausibleRun(polls) && StableRun(cfg, chain, start, polls) && Numbered(chain)
    requires i < |polls| && d in Attempts(cfg, CursorAt(cfg, start, polls, i), polls[i])
    ensures CursorAt(cfg, start, polls, i) < d.blockNumber <= CursorAt(cfg, start, polls, i) + cfg.batchSize
    ensures d.blockNumber <= Confirmed(cfg, polls[i].head.value)
  {
    var last := CursorAt(cfg, start, polls, i);
    assert StableAt(cfg, chain, start, polls, i) && polls[i] in polls;
    assert d in Deposits(polls[i].logs.value);
    RangeNumbers(chain, last, ToBlock(cfg, last, Confirmed(cfg, polls[i].head.value)), d);
  }

  /** Once the cursor has passed a deposit's block, no later poll attempts it again: repeats come
      only from failed batches. */
  lemma NoResubmission(cfg: Config, chain: Chain, start: nat, polls: seq<Poll>, i: nat, j: nat, d: DepositEvent)
    requires cfg.Valid() && PlausibleRun(polls) && StableRun(cfg, chain, start, polls) && Numbered(chain)
    requires i <= j < |polls| && d.blockNumber <= CursorAt(cfg, start, polls, i)
    ensures d !in Attempts(cfg, CursorAt(cfg, start, polls, j), polls[j])
  {
    CursorMonotone(cfg, start, polls, i, j);
    if d in Attempts(cfg, CursorAt(cfg, start, polls, j), polls[j]) {
      AttemptsAboveCursor(cfg, chain, start, polls, j, d);
    }
  }

  /** A deposit is attempted by two polls only when the earlier one did not complete. */
  lemma RepeatsNeedFailure(cfg: Config, chain: Chain, start: nat, polls: seq<Poll>, i: nat, j: nat, d: DepositEvent)
    requires cfg.Valid() && PlausibleRun(polls) && StableRun(cfg, chain, start, polls) && Numbered(chain)
    requires i < j < |polls|
    requires d in Attempts(cfg, CursorAt(cfg, start, polls, i), polls[i])
    requires d in Attempts(cfg, CursorAt(cfg, start, polls, j), polls[j])
    ensures !Completes(cfg, CursorAt(cfg, start, polls, i), polls[i])
  {
    var last := CursorAt(cfg, start, polls, i);
    if Completes(cfg, last, polls[i]) {
      CursorStep(cfg, start, polls, i);
      assert StableAt(cfg, chain, start, polls, i) && polls[i] in polls;
      RangeNumbers(chain, last, ToBlock(cfg, last, Confirmed(cfg, polls[i].head.value)), d);
      NoResubmission(cfg, chain, start, polls, i + 1, j, d);
    }
  }

  // --- Confirmation depth ------------------------------------------------------------------

  ghost predicate HeadsAtMost(polls: seq<Poll>, bound: nat) {
    forall poll <- polls :: poll.head.Some? ==> poll.head.value <= bound
  }

  /** With heads no smaller than the depth, no run submits above the largest head minus the depth. */
  lemma DepthRespected(cfg: Config, chain: Chain, start: nat, polls: seq<Poll>, i: nat, d: DepositEvent, maxHead: nat)
    requires cfg.Valid() && PlausibleRun(polls) && StableRun(cfg, chain, start, polls) && Numbered(chain)
    requires HeadsAtMost(polls, maxHead)
    requires i < |polls| && d in Attempts(cfg, CursorAt(cfg, start, polls, i), polls[i])
    ensures d.blockNumber <= maxHead - cfg.confirmations
  {
    AttemptsAboveCursor(cfg, chain, start, polls, i, d);
    assert polls[i] in polls;
  }

  ghost predicate StaysConfirmed(cfg: Config, last: nat, poll: Poll)
    requires cfg.Valid()
  {
    Plausible(poll) && poll.head.Some? ==>
      Cursor(cfg, last, poll) == last || Cursor(cfg, last, poll) <= poll.head.value - cfg.confirmations
  }

  /** A head whose wrapped difference lies above the cursor makes every poll leave the cursor where it
      is or at a confirmed block if and only if the head is at least the depth. */
  lemma DepthGuard(cfg: Config, head: nat, last: nat)
    requires cfg.Valid() && head < U64 && last < Confirmed(cfg, head)
    ensures (forall poll: Poll | poll.head == Some(head) :: StaysConfirmed(cfg, last, poll)) <==> head >= cfg.confirmations
  {
    hide Deposits, ParsedDeposit;
    if head < cfg.confirmations {
      EmptyAnswerCompletes(cfg, last, head);
      assert !StaysConfirmed(cfg, last, EmptyAnswer(head));
    }
  }

  /** An answer without any log. */
  function EmptyAnswer(head: nat): Poll { Poll(Some(head), Some([]), 0) }

  lemma EmptyAnswerCompletes(cfg: Config, last: nat, head: nat)
    requires cfg.Valid() && head < U64 && last < Confirmed(cfg, head)
    ensures var poll := EmptyAnswer(head);
      && Plausible(poll) && Completes(cfg, last, poll) && Successes(cfg, last, poll) == []
      && last < Cursor(cfg, last, poll)
  {
    assert Deposits([]) == [];
  }

  /** Every answered log lies above the cursor its poll starts from, as the query asked. */
  ghost predicate AnswersAbove(cfg: Config, start: nat, polls: seq<Poll>)
    requires cfg.Valid() && PlausibleRun(polls)
  {
    polls == [] ||
    (var before, poll := polls[..|polls| - 1], polls[|polls| - 1];
     AnswersAbove(cfg, start, before)
     && forall d <- Successes(cfg, CursorAfter(cfg, start, before), poll) :: CursorAfter(cfg, start, before) < d.blockNumber)
  }

  /** What has been submitted after a poll lies above the cursor of that moment, or was submitted
      before. */
  lemma {:induction false} LaterSubmissionsAbove(cfg: Config, start: nat, polls: seq<Poll>, i: nat, d: DepositEvent)
    requires cfg.Valid() && PlausibleRun(polls) && AnswersAbove(cfg, start, polls) && i <= |polls|
    requires d in SubmittedAfter(cfg, start, polls) && d !in SubmittedAfter(cfg, start, polls[..i])
    ensures d.blockNumber > CursorAt(cfg, start, polls, i)
  {
    hide Successes, Cursor;
    assert polls[..|polls|] == polls;
    if i < |polls| {
      var before := polls[..|polls| - 1];
      assert before[..i] == polls[..i];
      if d in SubmittedAfter(cfg, start, before) {
        LaterSubmissionsAbove(cfg, start, before, i, d);
      } else {
        CursorMonotone(cfg, start, polls, i, |before|);
        assert polls[..|before|] == before;
      }
    }
  }

  /** Below the depth the subtraction wraps, for every depth, batch, head and start: an empty answer
      then moves the cursor past block start + 1, and no later poll ever submits its deposits. */
  lemma {:induction false} ShallowHeadSkipsBlocks(cfg: Config, head: nat, start: nat, polls: seq<Poll>, d: DepositEvent)
    requires cfg.Valid() && head < cfg.confirmations && start < Confirmed(cfg, head)
    requires |polls| > 0 && polls[0] == EmptyAnswer(head) && PlausibleRun(polls) && AnswersAbove(cfg, start, polls)
    requires d.blockNumber == start + 1
    ensures CursorAfter(cfg, start, polls) > start && d !in SubmittedAfter(cfg, start, polls)
  {
    hide Deposits, ParsedDeposit;
    EmptyAnswerCompletes(cfg, start, head);
    hide Successes, Cursor, Completes;
    assert polls[..0] == [] && polls[..1] == [polls[0]] && polls[..1][..0] == [] && polls[..|polls|] == polls;
    assert CursorAfter(cfg, start, []) == start && SubmittedAfter(cfg, start, []) == [];
    assert CursorAfter(cfg, start, [polls[0]]) == Cursor(cfg, start, polls[0]);
    assert SubmittedAfter(cfg, start, polls[..1]) == [];
    CursorMonotone(cfg, start, polls, 1, |polls|);
    if d in SubmittedAfter(cfg, start, polls) { LaterSubmissionsAbove(cfg, start, polls, 1, d); }
  }

  // --- Restarting ------------------------------------------------------------------------------

  /** The cursor is not kept across restarts. A relay restarted at or below its old cursor submits
      the blocks in between again, and only those. */
  lemma RestartRepeats(cfg: Config, chain: Chain, start: nat, polls: seq<Poll>, again: nat, more: seq<Poll>)
    requires cfg.Valid() && PlausibleRun(polls) && PlausibleRun(more)
    requires StableRun(cfg, chain, start, polls) && StableRun(cfg, chain, again, more)
    requires again <= CursorAfter(cfg, start, polls) <= CursorAfter(cfg, again, more)
    ensures var last, end := CursorAfter(cfg, start, polls), CursorAfter(cfg, again, more);
      CompletedBatches(cfg, start, polls) + CompletedBatches(cfg, again, more)
      == RangeDeposits(chain, start, last) + RangeDeposits(chain, again, last) + RangeDeposits(chain, last, end)
  {
    hide *;
    CompletedBatchesAreTheRange(cfg, chain, start, polls);
    CompletedBatchesAreTheRange(cfg, chain, again, more);
    RangeSplit(chain, again, CursorAfter(cfg, start, polls), CursorAfter(cfg, again, more));
  }

  /** One restarted above its old cursor (at the head, when no start block is configured) skips
      exactly the blocks in between. */
  lemma RestartSkips(cfg: Config, chain: Chain, start: nat, polls: seq<Poll>, again: nat, more: seq<Poll>)
    requires cfg.Valid() && PlausibleRun(polls) && PlausibleRun(more)
    requires StableRun(cfg, chain, start, polls) && StableRun(cfg, chain, again, more)
    requires CursorAfter(cfg, start, polls) <= again
    ensures var last, end := CursorAfter(cfg, start, polls), CursorAfter(cfg, again, more);
      RangeDeposits(chain, start, end)
      == CompletedBatches(cfg, start, polls) + RangeDeposits(chain, last, again) + CompletedBatches(cfg, again, more)
  {
    hide *;
    var last, end := CursorAfter(cfg, start, polls), CursorAfter(cfg, again, more);
    CompletedBatchesAreTheRange(cfg, chain, start, polls);
    CompletedBatchesAreTheRange(cfg, chain, again, more);
    CursorFromStart(cfg, start, polls);
    CursorFromStart(cfg, again, more);
    RangeSplit(chain, start, last, again);
    RangeSplit(chain, start, again, end);
  }

  lemma CursorFromStart(cfg: Config, start: nat, polls: seq<Poll>)
    requires cfg.Valid() && PlausibleRun(polls)
    ensures start <= CursorAfter(cfg, start, polls)
  {
    CursorMonotone(cfg, start, polls, 0, |polls|);
    assert polls[..0] == [] && polls[..|polls|] == polls;
  }

  // --- Catching up -----------------------------------------------------------------------------

  function Gap(cfg: Config, last: nat, head: nat): nat
    requires cfg.confirmations <= head
  {
    if head - cfg.confirmations > last then head - cfg.confirmations - last else 0
  }

  function Min(a: int, b: int): int { if a < b then a else b }

  ghost predicate FailureFree(poll: Poll) {
    poll.head.Some? && Answered(poll) && |Deposits(poll.logs.value)| <= poll.accepts
  }

  /** A failure-free poll shrinks the gap by exactly min(gap, batch). */
  lemma FailureFreeProgress(cfg: Config, last: nat, poll: Poll)
    requires cfg.Valid() && Plausible(poll) && FailureFree(poll)
    requires poll.head.value >= cfg.confirmations
    ensures Gap(cfg, Cursor(cfg, last, poll), poll.head.value)
         == Gap(cfg, last, poll.head.value) - Min(Gap(cfg, last, poll.head.value), cfg.batchSize)
  {}

  /** So against a fixed head, n failure-free polls leave max(0, gap - n*batch), and
      ceil(gap / batch) of them, no fewer, catch up. */
  lemma {:induction false} CatchUp(cfg: Config, start: nat, polls: seq<Poll>, head: nat)
    requires cfg.Valid() && PlausibleRun(polls) && head >= cfg.confirmations
    requires forall poll <- polls :: poll.head == Some(head) && FailureFree(poll)
    ensures Gap(cfg, CursorAfter(cfg, start, polls), head)
         == Gap(cfg, start, head) - Min(Gap(cfg, start, head), |polls| * cfg.batchSize)
    ensures Gap(cfg, CursorAfter(cfg, start, polls), head) == 0
       <==> |polls| >= (Gap(cfg, start, head) + cfg.batchSize - 1) / cfg.batchSize
  {
    if polls != [] {
      var before, poll := polls[..|polls| - 1], polls[|polls| - 1];
      CatchUp(cfg, start, before, head);
      assert poll in polls;
      FailureFreeProgress(cfg, CursorAfter(cfg, start, before), poll);
      ShrinkOnce(Gap(cfg, start, head), |before|, cfg.batchSize);
    }
    hide Gap, CursorAfter;
    CeilingBound(Gap(cfg, start, head), cfg.batchSize, |polls|);
  }

  lemma ShrinkOnce(gap: nat, n: nat, batch: nat)
    ensures var left := gap - Min(gap, n * batch);
      left - Min(left, batch) == gap - Min(gap, (n + 1) * batch)
  {
    assert (n + 1) * batch == n * batch + batch;
  }

  lemma CeilingBound(gap: nat, batch: nat, n: nat)
    requires batch > 0
    ensures n * batch >= gap <==> n >= (gap + batch - 1) / batch
  {
    var q := (gap + batch - 1) / batch;
    var r := (gap + batch - 1) % batch;
    assert gap + batch - 1 == q * batch + r;
    assert (n - q) * batch == n * batch - q * batch;
    MultipleBounds(n - q, batch);
  }
}
