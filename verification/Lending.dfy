/** The collateralised lending contract: its loan-to-value computation by two floor divisions and
    the four validators that compare the current and the proposed position. */
module Lending {
  import opened IntegerMath

  const MAX_LTV_BPS := 7500
  const LIQUIDATION_THRESHOLD_BPS := 8500

  datatype Status = Active | Repaid | Liquidated

  datatype Position = Position(
    borrower: nat, collateral: u128, borrowed: u128, interest: u128, priceBps: u128, status: Status)

  /** The wording of a rejection is represented by its reason. */
  datatype Reason =
    | NotActive | NotTheBorrower | CollateralNotRaised | LoanChanged | LoanNotRaised | CollateralChanged | LtvTooHigh
    | LoanRaised | NotClosed | LtvTooLow | NotMarkedLiquidated | CollateralNotLowered

  datatype Outcome = Accepted | Rejected(reason: Reason) | Overflow

  /** Debt and value, in the borrowed asset; the value is a floor division. */
  function Debt(p: Position): nat { p.borrowed + p.interest }

  function Value(p: Position): nat { p.collateral * p.priceBps / 10000 }

  /** None when a 128-bit intermediate overflows. */
  datatype Ltv = Bps(bps: nat) | TooWide

  function CurrentLtvBps(p: Position): Ltv {
    if p.collateral == 0 || p.priceBps == 0 then Bps(10000)
    else if p.collateral * p.priceBps >= U128 then TooWide
    else if Value(p) == 0 then Bps(10000)
    else if Debt(p) >= U128 || Debt(p) * 10000 >= U128 then TooWide
    else Bps(Debt(p) * 10000 / Value(p))
  }

  function ValidateDeposit(sender: nat, cur: Position, next: Position): Outcome {
    if cur.status != Active && cur.collateral > 0 then Rejected(NotActive)
    else if sender != cur.borrower && cur.collateral > 0 then Rejected(NotTheBorrower)
    else if next.collateral <= cur.collateral then Rejected(CollateralNotRaised)
    else if next.borrowed != cur.borrowed then Rejected(LoanChanged)
    else Accepted
  }

  function ValidateBorrow(sender: nat, cur: Position, next: Position): Outcome {
    if cur.status != Active then Rejected(NotActive)
    else if sender != cur.borrower then Rejected(NotTheBorrower)
    else if next.borrowed <= cur.borrowed then Rejected(LoanNotRaised)
    else if next.collateral != cur.collateral then Rejected(CollateralChanged)
    else
      match CurrentLtvBps(next)
      case TooWide => Overflow
      case Bps(ltv) => if ltv > MAX_LTV_BPS then Rejected(LtvTooHigh) else Accepted
  }

  function ValidateRepay(cur: Position, next: Position): Outcome {
    if cur.status != Active then Rejected(NotActive)
    else if next.borrowed > cur.borrowed then Rejected(LoanRaised)
    else if next.borrowed == 0 && next.interest == 0 && next.status != Repaid then
      Rejected(NotClosed)
    else Accepted
  }

  function ValidateLiquidate(cur: Position, next: Position): Outcome {
    if cur.status != Active then Rejected(NotActive)
    else
      match CurrentLtvBps(cur)
      case TooWide => Overflow
      case Bps(ltv) =>
        if ltv < LIQUIDATION_THRESHOLD_BPS then Rejected(LtvTooLow)
        else if next.status != Liquidated then Rejected(NotMarkedLiquidated)
        else if next.collateral >= cur.collateral then Rejected(CollateralNotLowered)
        else Accepted
  }

  // --- What the two divisions decide ----------------------------------------------------

  /** A measured position: no overflow and a non-zero value. */
  predicate Measured(p: Position) { Value(p) > 0 && CurrentLtvBps(p).Bps? }

  /** The ratio in basis points is the floored quotient of debt and floored value; 100% stands for a
      position without any value, and too wide are exactly the products that leave 128 bits. */
  lemma LtvIff(p: Position, bps: nat)
    ensures CurrentLtvBps(p) == Bps(bps) <==>
      p.collateral * p.priceBps < U128
      && if p.collateral * p.priceBps < 10000 then bps == 10000
         else Debt(p) * 10000 < U128 && bps * Value(p) <= Debt(p) * 10000 < bps * Value(p) + Value(p)
  {
    var n := p.collateral * p.priceBps;
    if p.collateral == 0 || p.priceBps == 0 { assert n == 0; }
    FloorBelow(n, 10000, 1);
    if Value(p) > 0 {
      FloorBounds(Debt(p) * 10000, Value(p));
      FloorBelow(Debt(p) * 10000, Value(p), bps);
      FloorBelow(Debt(p) * 10000, Value(p), bps + 1);
      assert (bps + 1) * Value(p) == bps * Value(p) + Value(p);
    }
  }

  /** A deposit is accepted exactly when it raises the collateral and leaves the loan, from the borrower
      of an active position or into a position without collateral. */
  lemma DepositAcceptedIff(sender: nat, cur: Position, next: Position)
    ensures ValidateDeposit(sender, cur, next) == Accepted <==>
      && next.collateral > cur.collateral && next.borrowed == cur.borrowed
      && (cur.collateral == 0 || (cur.status == Active && sender == cur.borrower))
  {}

  /** A repayment is accepted exactly when the position is active, the loan does not grow, and a
      position without debt is closed. */
  lemma RepayAcceptedIff(cur: Position, next: Position)
    ensures ValidateRepay(cur, next) == Accepted <==>
      && cur.status == Active && next.borrowed <= cur.borrowed
      && (Debt(next) == 0 ==> next.status == Repaid)
  {}

  /** Borrowing is accepted exactly when the new debt is below 75.01% of the floored value (and the
      call is the borrower's, on an active position, raising the loan and not touching collateral). */
  lemma BorrowAcceptedIff(sender: nat, cur: Position, next: Position)
    ensures ValidateBorrow(sender, cur, next) == Accepted <==>
      && cur.status == Active && sender == cur.borrower
      && next.borrowed > cur.borrowed && next.collateral == cur.collateral
      && Measured(next) && 10000 * Debt(next) < 7501 * Value(next)
  {
    if Value(next) > 0 { FloorBelow(Debt(next) * 10000, Value(next), 7501); }
  }

  /** Liquidation is accepted exactly when the debt is at least 85% of the floored value, or the
      collateral is worth nothing (counted as 100%). */
  lemma LiquidateAcceptedIff(cur: Position, next: Position)
    ensures ValidateLiquidate(cur, next) == Accepted <==>
      && cur.status == Active && next.status == Liquidated && next.collateral < cur.collateral
      && CurrentLtvBps(cur).Bps?
      && (Value(cur) == 0 || 10000 * Debt(cur) >= 8500 * Value(cur))
  {
    if Value(cur) > 0 { FloorBelow(Debt(cur) * 10000, Value(cur), 8500); }
  }

  /** What a rejection says about the current and the proposed position. */
  predicate Explains(reason: Reason, sender: nat, cur: Position, next: Position) {
    match reason
    case NotActive => cur.status != Active
    case NotTheBorrower => sender != cur.borrower
    case CollateralNotRaised => next.collateral <= cur.collateral
    case LoanChanged => next.borrowed != cur.borrowed
    case LoanNotRaised => next.borrowed <= cur.borrowed
    case CollateralChanged => next.collateral != cur.collateral
    case LtvTooHigh => Value(next) == 0 || 10000 * Debt(next) >= 7501 * Value(next)
    case LoanRaised => next.borrowed > cur.borrowed
    case NotClosed => Debt(next) == 0 && next.status != Repaid
    case LtvTooLow => 10000 * Debt(cur) < 8500 * Value(cur)
    case NotMarkedLiquidated => next.status != Liquidated
    case CollateralNotLowered => next.collateral >= cur.collateral
  }

  /** Every rejection is true: its reason holds of the positions. */
  lemma RejectionsAreTrue(sender: nat, cur: Position, next: Position)
    ensures var r := ValidateDeposit(sender, cur, next); r.Rejected? ==> Explains(r.reason, sender, cur, next)
    ensures var r := ValidateBorrow(sender, cur, next); r.Rejected? ==> Explains(r.reason, sender, cur, next)
    ensures var r := ValidateRepay(cur, next); r.Rejected? ==> Explains(r.reason, sender, cur, next)
    ensures var r := ValidateLiquidate(cur, next); r.Rejected? ==> Explains(r.reason, sender, cur, next)
  {
    if Value(next) > 0 { FloorBelow(Debt(next) * 10000, Value(next), 7501); }
    if Value(cur) > 0 { FloorBelow(Debt(cur) * 10000, Value(cur), 8500); }
  }

  // --- The liquidation gap -----------------------------------------------------------------

  /** Between an accepted borrow and an accepted liquidation of a later, still valued, position the
      ratio of debt to value must have grown by more than 8500/7501. */
  lemma LiquidationGap(sender: nat, cur: Position, borrowed: Position, later: Position, next: Position)
    requires ValidateBorrow(sender, cur, borrowed) == Accepted
    requires ValidateLiquidate(later, next) == Accepted && Value(later) > 0
    ensures 7501 * (Debt(later) * Value(borrowed)) > 8500 * (Debt(borrowed) * Value(later))
  {
    BorrowAcceptedIff(sender, cur, borrowed);
    LiquidateAcceptedIff(later, next);
    hide ValidateBorrow, ValidateLiquidate, CurrentLtvBps, Value, Debt;
    CrossRatio(Debt(borrowed), Value(borrowed), Debt(later), Value(later));
  }

  lemma CrossRatio(d: nat, v: nat, e: nat, w: nat)
    requires 10000 * d < 7501 * v && 10000 * e >= 8500 * w && w > 0
    ensures 7501 * (e * v) > 8500 * (d * w)
  {
    MulStrict(10000 * d, 7501 * v, w);
    assert (10000 * d) * w == 10000 * (d * w) && (7501 * v) * w == 7501 * (v * w);
    MulMonotone(8500 * w, 10000 * e, v);
    assert (8500 * w) * v == 8500 * (v * w) && (10000 * e) * v == 10000 * (e * v);
  }

  /** In particular a position cannot be liquidated, whatever the liquidator proposes, while its
      debt has not grown and its value has not fallen since an accepted borrow. */
  lemma NoLiquidationAfterBorrow(sender: nat, cur: Position, borrowed: Position, later: Position, next: Position)
    requires ValidateBorrow(sender, cur, borrowed) == Accepted
    requires Debt(later) <= Debt(borrowed) && Value(later) >= Value(borrowed)
    ensures ValidateLiquidate(later, next) != Accepted
  {
    BorrowAcceptedIff(sender, cur, borrowed);
    LiquidateAcceptedIff(later, next);
    hide ValidateBorrow, ValidateLiquidate, CurrentLtvBps, Value, Debt;
  }

  lemma ValueMonotone(p: Position, q: Position)
    requires p.collateral <= q.collateral && p.priceBps <= q.priceBps
    ensures Value(p) <= Value(q)
  {
    MulMonotone(p.collateral, q.collateral, p.priceBps);
    MulMonotone(p.priceBps, q.priceBps, q.collateral);
    QuotientMonotone(p.collateral * p.priceBps, q.collateral * q.priceBps, 10000);
  }

  // --- Runs of deposits and repayments --------------------------------------------------------

  /** Some liquidation of the position is accepted. */
  ghost predicate Liquidable(p: Position) {
    exists next: Position :: ValidateLiquidate(p, next) == Accepted
  }

  ghost predicate AcceptedStep(cur: Position, next: Position) {
    (exists sender: nat :: ValidateDeposit(sender, cur, next) == Accepted) || ValidateRepay(cur, next) == Accepted
  }

  /** What a caller keeps besides what the validators check: the collateral does not fall, the
      interest does not rise, the price does not fall. */
  datatype Guards = Guards(collateral: bool, interest: bool, price: bool)

  ghost predicate GuardedStep(g: Guards, cur: Position, next: Position) {
    && AcceptedStep(cur, next)
    && (g.collateral ==> next.collateral >= cur.collateral)
    && (g.interest ==> next.interest <= cur.interest)
    && (g.price ==> next.priceBps >= cur.priceBps)
  }

  ghost predicate GuardedRun(g: Guards, states: seq<Position>) {
    |states| > 0 && forall i :: 0 < i < |states| ==> GuardedStep(g, states[i - 1], states[i])
  }

  const ALL_KEPT := Guards(true, true, true)

  lemma {:induction false} KeptRunKeepsLtv(states: seq<Position>, i: nat)
    requires GuardedRun(ALL_KEPT, states) && i < |states|
    ensures Debt(states[i]) <= Debt(states[0]) && Value(states[i]) >= Value(states[0])
  {
    hide Value;
    if i > 0 {
      KeptRunKeepsLtv(states, i - 1);
      assert GuardedStep(ALL_KEPT, states[i - 1], states[i]);
      ValueMonotone(states[i - 1], states[i]);
    }
  }

  /** After an accepted borrow no run of accepted deposits and repayments makes the position
      liquidable, provided that none of its steps lowers the collateral, raises the interest or
      lowers the price. */
  lemma CalmRunsAreSafe(sender: nat, cur: Position, states: seq<Position>, i: nat)
    requires GuardedRun(ALL_KEPT, states) && i < |states| && ValidateBorrow(sender, cur, states[0]) == Accepted
    ensures !Liquidable(states[i])
  {
    KeptRunKeepsLtv(states, i);
    forall next: Position ensures ValidateLiquidate(states[i], next) != Accepted {
      NoLiquidationAfterBorrow(sender, cur, states[0], states[i], next);
    }
  }

  // --- What deposits and repayments leave unchecked ----------------------------------------------

  lemma LiquidableIff(p: Position)
    ensures Liquidable(p) <==>
      && p.status == Active && p.collateral > 0 && CurrentLtvBps(p).Bps?
      && (Value(p) == 0 || 10000 * Debt(p) >= 8500 * Value(p))
  {
    LiquidateAcceptedIff(p, p.(status := Liquidated, collateral := 0));
    forall next: Position { LiquidateAcceptedIff(p, next); }
    hide ValidateLiquidate, CurrentLtvBps, Value, Debt;
  }

  /** A repayment can leave a liquidable position behind from every active position. */
  lemma RepayExposesIff(p: Position)
    ensures (exists q: Position :: ValidateRepay(p, q) == Accepted && Liquidable(q)) <==> p.status == Active
  {
    var q := p.(borrowed := 0, interest := 1, collateral := 1, priceBps := 0);
    LiquidableIff(q);
    hide Liquidable;
    if p.status == Active { assert ValidateRepay(p, q) == Accepted && Liquidable(q); }
  }

  /** So can a deposit, from every position that takes one at all. */
  lemma DepositExposesIff(p: Position)
    ensures (exists sender: nat, q: Position :: ValidateDeposit(sender, p, q) == Accepted && Liquidable(q))
       <==> (p.status == Active || p.collateral == 0) && p.collateral + 1 < U128
  {
    hide Liquidable;
    if (p.status == Active || p.collateral == 0) && p.collateral + 1 < U128 {
      var q := p.(collateral := p.collateral + 1, priceBps := 0, status := Active);
      LiquidableIff(q);
      assert ValidateDeposit(p.borrower, p, q) == Accepted && Liquidable(q);
    }
  }

  /** The collateral guard alone: right after an accepted borrow a step that keeps all but the
      collateral can expose the position if and only if the position is active and a single unit of
      its collateral would be liquidable. */
  lemma CollateralGuardNeeded(sender: nat, cur: Position, p: Position)
    requires ValidateBorrow(sender, cur, p) == Accepted
    ensures (exists c: u128 :: AcceptedStep(p, p.(collateral := c)) && Liquidable(p.(collateral := c)))
       <==> p.status == Active && p.collateral > 1 && 10000 * Debt(p) >= 8500 * (p.priceBps / 10000)
  {
    BorrowAcceptedIff(sender, cur, p);
    forall c: u128 | Liquidable(p.(collateral := c))
      ensures p.status == Active && p.collateral > 1 && 10000 * Debt(p) >= 8500 * (p.priceBps / 10000)
    {
      LessCollateral(sender, cur, p, c);
    }
    hide CurrentLtvBps, Value, Liquidable, AcceptedStep;
    if p.status == Active && p.collateral > 1 && 10000 * Debt(p) >= 8500 * (p.priceBps / 10000) {
      OneUnitExposed(p);
    }
  }

  lemma OneUnitExposed(p: Position)
    requires p.status == Active && Measured(p) && p.borrowed > 0
    requires p.collateral > 1 && 10000 * Debt(p) >= 8500 * (p.priceBps / 10000)
    ensures AcceptedStep(p, p.(collateral := 1)) && Liquidable(p.(collateral := 1))
  {
    var q := p.(collateral := 1);
    assert ValidateRepay(p, q) == Accepted;
    LiquidableIff(q);
    assert Value(q) == p.priceBps / 10000;
  }

  lemma LessCollateral(sender: nat, cur: Position, p: Position, c: u128)
    requires ValidateBorrow(sender, cur, p) == Accepted && Liquidable(p.(collateral := c))
    ensures p.status == Active && p.collateral > 1 && 10000 * Debt(p) >= 8500 * (p.priceBps / 10000)
  {
    var q, one := p.(collateral := c), p.(collateral := 1);
    BorrowAcceptedIff(sender, cur, p);
    LiquidableIff(q);
    if c >= p.collateral {
      ValueMonotone(p, q);
    } else {
      ValueMonotone(one, q);
      assert Value(one) == p.priceBps / 10000;
    }
  }

  /** The interest guard alone: after an accepted borrow a step that raises nothing but the interest
      can expose the position, whenever it is active. */
  lemma InterestGuardNeeded(sender: nat, cur: Position, p: Position)
    requires ValidateBorrow(sender, cur, p) == Accepted
    ensures (exists i: u128 :: AcceptedStep(p, p.(interest := i)) && Liquidable(p.(interest := i)))
       <==> p.status == Active
  {
    BorrowAcceptedIff(sender, cur, p);
    if p.status == Active {
      var i := InterestUpTo(p);
      var q := p.(interest := i);
      assert ValidateRepay(p, q) == Accepted;
      LiquidableIff(q);
      assert AcceptedStep(p, q) && Liquidable(q);
    } else {
      forall i: u128 { LiquidableIff(p.(interest := i)); }
    }
  }

  /** The least interest at which the position is liquidable. */
  lemma InterestUpTo(p: Position) returns (i: u128)
    requires Measured(p) && 10000 * Debt(p) < 7501 * Value(p)
    ensures 10000 * (p.borrowed + i) >= 8500 * Value(p) && (p.borrowed + i) * 10000 < U128
  {
    var v := Value(p);
    FloorBounds(p.collateral * p.priceBps, 10000);
    FloorBounds(8500 * v + 9999, 10000);
    assert 10000 * v < U128;
    i := (8500 * v + 9999) / 10000 - p.borrowed;
  }

  /** The price guard alone: after an accepted borrow a step that lowers nothing but the price can
      expose the position, whenever it is active. */
  lemma PriceGuardNeeded(sender: nat, cur: Position, p: Position)
    requires ValidateBorrow(sender, cur, p) == Accepted
    ensures (exists price: u128 :: AcceptedStep(p, p.(priceBps := price)) && Liquidable(p.(priceBps := price)))
       <==> p.status == Active
  {
    BorrowAcceptedIff(sender, cur, p);
    if p.status == Active {
      var q := p.(priceBps := 0);
      assert ValidateRepay(p, q) == Accepted;
      LiquidableIff(q);
      assert p.collateral > 0;
      assert AcceptedStep(p, q) && Liquidable(q);
    } else {
      forall price: u128 { LiquidableIff(p.(priceBps := price)); }
    }
  }

  /** No run of accepted deposits and repayments that respects the guards makes a position liquidable
      after an accepted borrow. */
  ghost predicate Safe(g: Guards) {
    forall sender: nat, cur: Position, states: seq<Position>, i: nat ::
      GuardedRun(g, states) && i < |states| && ValidateBorrow(sender, cur, states[0]) == Accepted ==>
        !Liquidable(states[i])
  }

  lemma ExposedRun(g: Guards, sender: nat, cur: Position, p: Position, q: Position)
    requires ValidateBorrow(sender, cur, p) == Accepted && GuardedStep(g, p, q) && Liquidable(q)
    ensures !Safe(g)
  {
    hide ValidateBorrow, GuardedStep, Liquidable;
    var states := [p, q];
    assert GuardedRun(g, states) && states[0] == p && states[1] == q;
  }

  /** Runs are safe with all three guards and with no fewer. */
  lemma SafeIff(g: Guards)
    ensures Safe(g) <==> g == ALL_KEPT
  {
    if g == ALL_KEPT {
      forall sender: nat, cur: Position, states: seq<Position>, i: nat
        | GuardedRun(g, states) && i < |states| && ValidateBorrow(sender, cur, states[0]) == Accepted
        ensures !Liquidable(states[i])
      {
        CalmRunsAreSafe(sender, cur, states, i);
      }
    } else {
      var cur := Position(0, 2, 0, 0, 10000, Active);
      var p := cur.(borrowed := 1);
      BorrowAcceptedIff(0, cur, p);
      if !g.collateral {
        CollateralGuardNeeded(0, cur, p);
        var c: u128 :| AcceptedStep(p, p.(collateral := c)) && Liquidable(p.(collateral := c));
        ExposedRun(g, 0, cur, p, p.(collateral := c));
      } else if !g.interest {
        InterestGuardNeeded(0, cur, p);
        var i: u128 :| AcceptedStep(p, p.(interest := i)) && Liquidable(p.(interest := i));
        ExposedRun(g, 0, cur, p, p.(interest := i));
      } else {
        PriceGuardNeeded(0, cur, p);
        var price: u128 :| AcceptedStep(p, p.(priceBps := price)) && Liquidable(p.(priceBps := price));
        ExposedRun(g, 0, cur, p, p.(priceBps := price));
      }
    }
  }
}
