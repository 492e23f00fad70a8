/** The constant-product pool contract: a validator compares the current and the proposed state.
    128-bit arithmetic is checked, so an overflow is an outcome of its own. */
module AmmPool {
  import opened IntegerMath

  datatype Pool = Pool(
    tokenA: nat, tokenB: nat, reserveA: u128, reserveB: u128, lpShares: u128, feeBps: u128, admin: nat)

  /** The wording of a rejection is represented by its reason. */
  datatype Reason =
    | ReservesNotRaised | SharesNotRaised | TokensChanged | NotProportional | ReservesNotLowered | SharesNotLowered
    | PoolDrained | NotASwap | SharesChanged | ProductLowered | UnknownMethod(call: string)

  datatype Outcome = Accepted | Rejected(reason: Reason) | Overflow | DivisionByZero

  /** Tolerance of one percent around the proportional amount, by two floor divisions. */
  predicate NearProportional(deltaB: int, expectedB: int) {
    var tolerance := expectedB / 100;
    deltaB <= expectedB + tolerance && (expectedB > tolerance ==> expectedB - tolerance <= deltaB)
  }

  function ValidateAddLiquidity(cur: Pool, next: Pool): Outcome {
    if next.reserveA <= cur.reserveA || next.reserveB <= cur.reserveB then
      Rejected(ReservesNotRaised)
    else if next.lpShares <= cur.lpShares then Rejected(SharesNotRaised)
    else if next.tokenA != cur.tokenA || next.tokenB != cur.tokenB then Rejected(TokensChanged)
    else if cur.reserveA == 0 && cur.reserveB == 0 then Accepted
    else
      var deltaA, deltaB := next.reserveA - cur.reserveA, next.reserveB - cur.reserveB;
      if deltaA * cur.reserveB >= U128 then Overflow
      else if cur.reserveA == 0 then DivisionByZero
      else
        var expectedB := (deltaA * cur.reserveB) / cur.reserveA;
        if expectedB + expectedB / 100 >= U128 then Overflow
        else if !NearProportional(deltaB, expectedB) then
          Rejected(NotProportional)
        else Accepted
  }

  function ValidateRemoveLiquidity(cur: Pool, next: Pool): Outcome {
    if next.reserveA >= cur.reserveA || next.reserveB >= cur.reserveB then
      Rejected(ReservesNotLowered)
    else if next.lpShares >= cur.lpShares then Rejected(SharesNotLowered)
    else if next.reserveA == 0 || next.reserveB == 0 then Rejected(PoolDrained)
    else Accepted
  }

  function Product(p: Pool): nat { p.reserveA * p.reserveB }

  function ValidateSwap(cur: Pool, next: Pool): Outcome {
    var aIncreased, bIncreased := next.reserveA > cur.reserveA, next.reserveB > cur.reserveB;
    var aDecreased, bDecreased := next.reserveA < cur.reserveA, next.reserveB < cur.reserveB;
    if !(aIncreased && bDecreased) && !(aDecreased && bIncreased) then
      Rejected(NotASwap)
    else if next.lpShares != cur.lpShares then Rejected(SharesChanged)
    else if Product(cur) >= U128 || Product(next) >= U128 then Overflow
    else if Product(next) < Product(cur) then
      Rejected(ProductLowered)
    else Accepted
  }

  function Validate(call: string, cur: Pool, next: Pool): Outcome {
    if call == "add_liquidity" then ValidateAddLiquidity(cur, next)
    else if call == "remove_liquidity" then ValidateRemoveLiquidity(cur, next)
    else if call == "swap" then ValidateSwap(cur, next)
    else Rejected(UnknownMethod(call))
  }

  // --- Runs -----------------------------------------------------------------------

  ghost predicate Step(cur: Pool, next: Pool) {
    exists call: string :: Validate(call, cur, next) == Accepted
  }

  predicate StepByCases(cur: Pool, next: Pool) {
    || ValidateAddLiquidity(cur, next) == Accepted
    || ValidateRemoveLiquidity(cur, next) == Accepted
    || ValidateSwap(cur, next) == Accepted
  }

  /** Every state of a run is accepted from the one before it. */
  ghost predicate Run(states: seq<Pool>) {
    |states| > 0 && forall i :: 0 < i < |states| ==> Step(states[i - 1], states[i])
  }

  predicate Empty(p: Pool) { p.reserveA == 0 && p.reserveB == 0 && p.lpShares == 0 }

  ghost predicate Reachable(p: Pool) {
    exists states: seq<Pool> :: Run(states) && Empty(states[0]) && states[|states| - 1] == p
  }

  predicate Balanced(p: Pool) { p.reserveA == 0 <==> p.reserveB == 0 }

  lemma StepCases(cur: Pool, next: Pool)
    ensures Step(cur, next) <==> StepByCases(cur, next)
  {
    hide ValidateAddLiquidity, ValidateRemoveLiquidity, ValidateSwap;
    if StepByCases(cur, next) {
      var call := if ValidateAddLiquidity(cur, next) == Accepted then "add_liquidity"
                  else if ValidateRemoveLiquidity(cur, next) == Accepted then "remove_liquidity"
                  else "swap";
      assert Validate(call, cur, next) == Accepted;
    }
  }

  lemma StepKeepsBalance(cur: Pool, next: Pool)
    requires Step(cur, next) && Balanced(cur)
    ensures Balanced(next)
  {
    StepCases(cur, next);
    ZeroProduct(next.reserveA, next.reserveB);
    ZeroProduct(cur.reserveA, cur.reserveB);
  }

  lemma ZeroProduct(a: nat, b: nat)
    ensures a * b == 0 <==> a == 0 || b == 0
  {}

  /** Along any run from the empty pool the reserves are both zero or both positive. */
  lemma {:induction false} RunsStayBalanced(states: seq<Pool>, i: nat)
    requires Run(states) && Empty(states[0]) && i < |states|
    ensures Balanced(states[i])
  {
    if i > 0 {
      RunsStayBalanced(states, i - 1);
      StepKeepsBalance(states[i - 1], states[i]);
    }
  }

  /** So no call on a reachable pool, whatever state it proposes, divides by zero. */
  lemma ReachableNeverDividesByZero(p: Pool, call: string, next: Pool)
    requires Reachable(p)
    ensures Validate(call, p, next) != DivisionByZero
  {
    var states :| Run(states) && Empty(states[0]) && states[|states| - 1] == p;
    RunsStayBalanced(states, |states| - 1);
    BalancedNeverDividesByZero(p, call, next);
    hide Validate;
  }

  lemma BalancedNeverDividesByZero(p: Pool, call: string, next: Pool)
    requires Balanced(p)
    ensures Validate(call, p, next) != DivisionByZero
  {}

  /** The division goes wrong exactly on a pool that lost only its first reserve. */
  lemma DividesByZeroIff(p: Pool)
    ensures (exists call: string, next: Pool :: Validate(call, p, next) == DivisionByZero) <==>
      && p.reserveA == 0 && p.reserveB > 0 && p.reserveB + 1 < U128 && p.lpShares + 1 < U128
  {
    if p.reserveA == 0 && p.reserveB > 0 && p.reserveB + 1 < U128 && p.lpShares + 1 < U128 {
      var next := p.(reserveA := 1, reserveB := p.reserveB + 1, lpShares := p.lpShares + 1);
      assert Validate("add_liquidity", p, next) == DivisionByZero;
    }
  }

  /** Conversely every pair of positive reserves is reached, by one call. */
  lemma EveryPositivePairReachable(p: Pool)
    requires p.reserveA > 0 && p.reserveB > 0 && p.lpShares > 0
    ensures Reachable(p)
  {
    var empty := p.(reserveA := 0, reserveB := 0, lpShares := 0);
    assert Validate("add_liquidity", empty, p) == Accepted;
    assert Run([empty, p]);
  }

  /** Removing undoes adding: the state before an accepted deposit into a live pool is accepted as
      the outcome of a withdrawal from the state after it. */
  lemma RemoveUndoesAdd(cur: Pool, next: Pool)
    requires cur.reserveA > 0 && cur.reserveB > 0 && Validate("add_liquidity", cur, next) == Accepted
    ensures Validate("remove_liquidity", next, cur) == Accepted
  {
    hide NearProportional;
  }

  // --- What is accepted -----------------------------------------------------------------

  /** A swap is accepted exactly when one reserve rises, the other falls, the shares stay and the
      product does not fall, provided that both products fit 128 bits. */
  lemma SwapAcceptedIff(cur: Pool, next: Pool)
    ensures Validate("swap", cur, next) == Accepted <==>
      && ((next.reserveA > cur.reserveA && next.reserveB < cur.reserveB) || (next.reserveA < cur.reserveA && next.reserveB > cur.reserveB))
      && next.lpShares == cur.lpShares
      && cur.reserveA * cur.reserveB <= next.reserveA * next.reserveB < U128
  {
    CallNames(cur, next);
    hide Validate;
  }

  lemma CallNames(cur: Pool, next: Pool)
    ensures Validate("swap", cur, next) == ValidateSwap(cur, next)
    ensures Validate("remove_liquidity", cur, next) == ValidateRemoveLiquidity(cur, next)
    ensures Validate("add_liquidity", cur, next) == ValidateAddLiquidity(cur, next)
  {
    assert "swap"[0] == 's' && "remove_liquidity"[0] == 'r' && "add_liquidity"[0] == 'a';
    hide ValidateSwap, ValidateRemoveLiquidity, ValidateAddLiquidity;
  }

  /** A withdrawal is accepted exactly when both reserves and the shares fall and nothing is drained. */
  lemma RemoveAcceptedIff(cur: Pool, next: Pool)
    ensures Validate("remove_liquidity", cur, next) == Accepted <==>
      0 < next.reserveA < cur.reserveA && 0 < next.reserveB < cur.reserveB && next.lpShares < cur.lpShares
  {
    CallNames(cur, next);
    hide Validate;
  }

  /** The second token comes within the floored hundredth of the floored quotient n / d. */
  ghost predicate WithinTolerance(deltaB: nat, n: nat, d: nat) {
    exists expected: nat, tolerance: nat ::
      && IsFloor(expected, n, d) && IsFloor(tolerance, expected, 100) && expected + tolerance < U128
      && expected - tolerance <= deltaB <= expected + tolerance
  }

  lemma WithinToleranceIff(deltaB: nat, n: nat, d: nat)
    requires d > 0
    ensures WithinTolerance(deltaB, n, d) <==> n / d + n / d / 100 < U128 && NearProportional(deltaB, n / d)
  {
    var e := n / d;
    forall q: nat { FloorIs(q, n, d); }
    forall q: nat { FloorIs(q, e, 100); }
    assert IsFloor(e, n, d) && IsFloor(e / 100, e, 100);
    hide IsFloor;
  }

  /** A deposit is accepted exactly when both reserves and the shares rise, the tokens stay, and into a
      pool that is not empty it brings the second token within the tolerance of the proportional
      amount, all products in 128 bits. */
  lemma AddAcceptedIff(cur: Pool, next: Pool)
    ensures Validate("add_liquidity", cur, next) == Accepted <==>
      && next.reserveA > cur.reserveA && next.reserveB > cur.reserveB && next.lpShares > cur.lpShares
      && next.tokenA == cur.tokenA && next.tokenB == cur.tokenB
      && ((cur.reserveA == 0 && cur.reserveB == 0)
          || (cur.reserveA > 0 && (next.reserveA - cur.reserveA) * cur.reserveB < U128
              && WithinTolerance(next.reserveB - cur.reserveB, (next.reserveA - cur.reserveA) * cur.reserveB, cur.reserveA)))
  {
    CallNames(cur, next);
    hide Validate, WithinTolerance, NearProportional;
    if next.reserveA > cur.reserveA && next.reserveB > cur.reserveB && cur.reserveA > 0 {
      WithinToleranceIff(next.reserveB - cur.reserveB, (next.reserveA - cur.reserveA) * cur.reserveB, cur.reserveA);
    }
  }

  /** What a rejection says about the current and the proposed pool. */
  ghost predicate Explains(reason: Reason, call: string, cur: Pool, next: Pool) {
    match reason
    case ReservesNotRaised => next.reserveA <= cur.reserveA || next.reserveB <= cur.reserveB
    case SharesNotRaised => next.lpShares <= cur.lpShares
    case TokensChanged => next.tokenA != cur.tokenA || next.tokenB != cur.tokenB
    case NotProportional =>
      && cur.reserveA > 0 && next.reserveA > cur.reserveA && next.reserveB > cur.reserveB
      && !WithinTolerance(next.reserveB - cur.reserveB, (next.reserveA - cur.reserveA) * cur.reserveB, cur.reserveA)
    case ReservesNotLowered => next.reserveA >= cur.reserveA || next.reserveB >= cur.reserveB
    case SharesNotLowered => next.lpShares >= cur.lpShares
    case PoolDrained => next.reserveA == 0 || next.reserveB == 0
    case NotASwap =>
      || (next.reserveA >= cur.reserveA && next.reserveB >= cur.reserveB)
      || (next.reserveA <= cur.reserveA && next.reserveB <= cur.reserveB)
    case SharesChanged => next.lpShares != cur.lpShares
    case ProductLowered => next.reserveA * next.reserveB < cur.reserveA * cur.reserveB
    case UnknownMethod(name) => name == call && call !in ["add_liquidity", "remove_liquidity", "swap"]
  }

  lemma AddRejections(call: string, cur: Pool, next: Pool)
    ensures var r := ValidateAddLiquidity(cur, next); r.Rejected? ==> Explains(r.reason, call, cur, next)
  {
    hide WithinTolerance, NearProportional;
    if next.reserveA > cur.reserveA && next.reserveB > cur.reserveB && cur.reserveA > 0 {
      WithinToleranceIff(next.reserveB - cur.reserveB, (next.reserveA - cur.reserveA) * cur.reserveB, cur.reserveA);
    }
  }

  lemma OtherRejections(call: string, cur: Pool, next: Pool)
    ensures var r := ValidateRemoveLiquidity(cur, next); r.Rejected? ==> Explains(r.reason, call, cur, next)
    ensures var r := ValidateSwap(cur, next); r.Rejected? ==> Explains(r.reason, call, cur, next)
  {
    hide WithinTolerance;
  }

  /** Every rejection is true: its reason holds of the call and the pools. */
  lemma RejectionsAreTrue(call: string, cur: Pool, next: Pool)
    ensures var r := Validate(call, cur, next); r.Rejected? ==> Explains(r.reason, call, cur, next)
  {
    AddRejections(call, cur, next);
    OtherRejections(call, cur, next);
    hide ValidateAddLiquidity, ValidateRemoveLiquidity, ValidateSwap, WithinTolerance;
  }

  /** q is n / d rounded down. */
  predicate IsFloor(q: nat, n: nat, d: nat) { q * d <= n < q * d + d }

  lemma FloorIs(q: nat, n: nat, d: nat)
    requires d > 0
    ensures IsFloor(q, n, d) <==> q == n / d
  {
    FloorBounds(n, d);
    MulStrict(q, n / d, d);
    MulStrict(n / d, q, d);
  }

  // --- Swaps ------------------------------------------------------------------------

  ghost predicate SwapRun(states: seq<Pool>) {
    |states| > 0 && forall i :: 0 < i < |states| ==> Validate("swap", states[i - 1], states[i]) == Accepted
  }

  lemma {:induction false} SwapRunProduct(states: seq<Pool>, i: nat)
    requires SwapRun(states) && i < |states|
    ensures Product(states[0]) <= Product(states[i])
    ensures states[i].lpShares == states[0].lpShares
  {
    hide Product;
    if i > 0 {
      SwapRunProduct(states, i - 1);
      assert Validate("swap", states[i - 1], states[i]) == Accepted;
    }
  }

  /** No sequence of swaps takes value out: when either reserve is back to at most its start, the
      other is at least at its start. */
  lemma SwapsTakeNothingOut(states: seq<Pool>, i: nat)
    requires SwapRun(states) && i < |states| && Product(states[0]) > 0
    ensures states[i].reserveA <= states[0].reserveA ==> states[i].reserveB >= states[0].reserveB
    ensures states[i].reserveB <= states[0].reserveB ==> states[i].reserveA >= states[0].reserveA
  {
    SwapRunProduct(states, i);
    var s, t := states[0], states[i];
    OneSideLower(s.reserveA, s.reserveB, t.reserveA, t.reserveB);
    OneSideLower(s.reserveB, s.reserveA, t.reserveB, t.reserveA);
  }

  lemma OneSideLower(a: nat, b: nat, x: nat, y: nat)
    requires 0 < a * b <= x * y
    ensures x <= a ==> y >= b
  {
    ZeroProduct(a, b);
    MulStrict(y, b, a);
    if x <= a { MulMonotone(x, a, y); }
  }

  // --- Proportional deposits -----------------------------------------------------------

  /** An accepted deposit into a live pool is proportional within one percent, up to what the two
      floor divisions lose. */
  lemma AcceptedAddIsProportional(cur: Pool, next: Pool)
    requires ValidateAddLiquidity(cur, next) == Accepted && !(cur.reserveA == 0 && cur.reserveB == 0)
    ensures var ra, rb := cur.reserveA, cur.reserveB;
      var da, db := next.reserveA - ra, next.reserveB - rb;
      100 * (db * ra - da * rb) <= da * rb && 100 * (da * rb - db * ra) <= da * rb + 99 * ra
  {
    var ra, rb := cur.reserveA, cur.reserveB;
    var da, db := next.reserveA - ra, next.reserveB - rb;
    var e := (da * rb) / ra;
    FloorBounds(da * rb, ra);
    ScaledUpper(db, e, ra);
    ScaledLower(db, e, ra);
  }

  lemma ScaledUpper(db: nat, e: nat, ra: nat)
    requires db <= e + e / 100
    ensures 100 * (db * ra) <= 101 * (ra * e)
  {
    MulMonotone(100 * db, 101 * e, ra);
    assert (100 * db) * ra == 100 * (db * ra) && (101 * e) * ra == 101 * (ra * e);
  }

  lemma ScaledLower(db: nat, e: nat, ra: nat)
    requires db > 0 && NearProportional(db, e)
    ensures 99 * (ra * e) <= 100 * (db * ra)
  {
    MulMonotone(99 * e, 100 * db, ra);
    assert (100 * db) * ra == 100 * (db * ra) && (99 * e) * ra == 99 * (ra * e);
  }

  /** Conversely a deposit that is proportional within one percent, with one unit of the second
      token to spare, is accepted. */
  lemma ProportionalAddIsAccepted(cur: Pool, next: Pool)
    requires cur.reserveA > 0 && cur.reserveA < next.reserveA && cur.reserveB < next.reserveB
    requires cur.lpShares < next.lpShares && cur.tokenA == next.tokenA && cur.tokenB == next.tokenB
    requires var ra, rb := cur.reserveA, cur.reserveB;
      var da, db := next.reserveA - ra, next.reserveB - rb;
      && 101 * (da * rb) < 100 * U128
      && 100 * (db * ra - da * rb) <= da * rb - 100 * ra
      && 100 * (da * rb - db * ra) <= da * rb
    ensures ValidateAddLiquidity(cur, next) == Accepted
  {
    var ra, rb := cur.reserveA, cur.reserveB;
    var da, db := next.reserveA - ra, next.reserveB - rb;
    var e := (da * rb) / ra;
    FloorBounds(da * rb, ra);
    QuotientNoLarger(da * rb, ra);
    NotAbove(db, e, ra, da * rb);
    NotBelow(db, e, ra, da * rb);
  }

  lemma QuotientNoLarger(n: nat, d: nat)
    requires d > 0
    ensures n / d <= n
  {
    FloorBounds(n, d);
    MulMonotone(1, d, n / d);
  }

  lemma NotAbove(db: nat, e: nat, ra: nat, n: nat)
    requires ra > 0 && ra * e <= n < ra * e + ra && 100 * (db * ra - n) <= n - 100 * ra
    ensures db <= e + e / 100
  {
    MulStrict(101 * e, 100 * db, ra);
    assert (100 * db) * ra == 100 * (db * ra) && (101 * e) * ra == 101 * (ra * e);
  }

  lemma NotBelow(db: nat, e: nat, ra: nat, n: nat)
    requires ra > 0 && ra * e <= n < ra * e + ra && 100 * (n - db * ra) <= n
    ensures e - e / 100 <= db
  {
    MulStrict(100 * db, 99 * e, ra);
    assert (100 * db) * ra == 100 * (db * ra) && (99 * e) * ra == 99 * (ra * e);
  }
}
