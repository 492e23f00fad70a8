/** What a single constraint checks in local testing, on the texts and numbers of a test case. */
module ConstraintEvaluator {
  import opened ContractSchema
  import opened IntegerMath
  import opened NumberTheory
  import opened Strings
  import opened Numerals
  import opened TextForms

  const I128_HALF := 0x8000_0000_0000_0000_0000_0000_0000_0000

  datatype TestCase = TestCase(
    name: string, intent: string, params: Fields, sender: string, epoch: nat,
    stateBefore: Fields, stateAfter: Fields, expectValid: bool, expectError: string)

  /** Why a constraint does not hold. */
  datatype Cause =
    | LowBalance(balance: nat, required: nat) | ExceedsBalance(amount: nat, balance: nat)
    | NotOwner(field: string, owner: string)
    | BadTimeValue | EpochFails(epoch: nat, op: string, value: nat)
    | NumberFails(field: string, actual: int, op: string, target: int)
    | TextFails(field: string, text: string, op: string, other: string)
    | NotComparable(op: string)

  // --- Constraint evaluators -------------------------------------------------------------

  function TextAt(o: Fields, key: string): Option<string> {
    var v := Get(o, key);
    if v.Some? && v.value.Str? then Some(v.value.s) else None
  }

  function Amount(o: Fields, key: string): Option<nat> {
    var t := TextAt(o, key);
    if t.Some? then ParseUnsigned(t.value, U128) else None
  }

  function NumberText(n: Number): string { if n.Integer? then DecimalInt(n.n) else n.text }

  /** A string's own text, and the JSON text of anything else. */
  function JsonText(v: Json): string {
    match v
    case Null => "null"
    case Bool(b) => if b then "true" else "false"
    case Num(n) => NumberText(n)
    case Str(s) => s
    case Array(text) => text
    case Object(text) => text
  }

  /** The comparison an operator names; None is the accept-by-default arm. */
  function Compare(op: string, a: int, b: int): Option<bool> {
    if op == "gte" then Some(a >= b) else if op == "lte" then Some(a <= b)
    else if op == "gt" then Some(a > b) else if op == "lt" then Some(a < b) else None
  }

  function CompareState(op: string, a: int, b: int): Option<bool> {
    if op == "eq" then Some(a == b) else if op == "neq" then Some(a != b) else Compare(op, a, b)
  }

  function CompareSymbol(op: string, a: int, b: int): Option<bool> {
    if op == ">=" then Some(a >= b) else if op == "<=" then Some(a <= b) else if op == ">" then Some(a > b)
    else if op == "<" then Some(a < b) else if op == "==" then Some(a == b) else if op == "!=" then Some(a != b)
    else None
  }

  function EvaluateBalance(c: Constraint, t: TestCase): Option<Cause> {
    var required, balance, amount := Amount(c.params, "min_amount"), Amount(t.stateBefore, "balance"), Amount(t.params, "amount");
    if required.None? || balance.None? then None
    else if balance.value < required.value then Some(LowBalance(balance.value, required.value))
    else if amount.Some? && amount.value > balance.value then Some(ExceedsBalance(amount.value, balance.value))
    else None
  }

  function EvaluateOwnership(c: Constraint, t: TestCase): Option<Cause> {
    var field := TextAt(c.params, "object_field");
    if field.None? || t.sender == "" then None
    else
      var owner := TextAt(t.stateBefore, field.value);
      if owner.Some? && owner.value != t.sender then Some(NotOwner(field.value, owner.value)) else None
  }

  function EvaluateTime(c: Constraint, t: TestCase): Option<Cause> {
    var op, bound := TextAt(c.params, "op"), Get(c.params, "value");
    if op.None? || bound.None? || !(bound.value.Str? || bound.value.Num?) then None
    else
      var value := if bound.value.Str? then ParseUnsigned(bound.value.s, U64)
                   else if bound.value.number.Integer? && bound.value.number.n >= 0 then Some(bound.value.number.n)
                   else None;
      if value.None? then Some(BadTimeValue)
      else if Compare(op.value, t.epoch, value.value) == Some(false) then Some(EpochFails(t.epoch, op.value, value.value))
      else None
  }

  /** The proposed state when the test gives one, else the state before. */
  function TestedState(t: TestCase): Fields { if t.stateAfter != [] then t.stateAfter else t.stateBefore }

  function EvaluateState(c: Constraint, t: TestCase): Option<Cause> {
    var field, op, value := TextAt(c.params, "field"), TextAt(c.params, "op"), Get(c.params, "value");
    if field.None? || op.None? || value.None? || !(value.value.Str? || value.value.Num?) then None
    else
      var actual := Get(TestedState(t), field.value);
      if actual.None? then None
      else
        var text, target := JsonText(actual.value), JsonText(value.value);
        var a, b := ParseSigned(text, I128_HALF), ParseSigned(target, I128_HALF);
        if a.Some? && b.Some? then
          if CompareState(op.value, a.value, b.value) == Some(false) then
            Some(NumberFails(field.value, a.value, op.value, b.value))
          else None
        else if op.value == "eq" then
          if text == target then None else Some(TextFails(field.value, text, op.value, target))
        else if op.value == "neq" then
          if text != target then None else Some(TextFails(field.value, text, op.value, target))
        else Some(NotComparable(op.value))
  }

  /** A three-word expression `field op number`; anything else is left to the runtime. */
  function EvaluateCustom(c: Constraint, t: TestCase): Option<Cause> {
    var expr := TextAt(c.params, "expression");
    if expr.None? || |Words(expr.value)| != 3 then None
    else
      var parts := Words(expr.value);
      var actual := Get(TestedState(t), parts[0]);
      if actual.None? then None
      else
        var a, b := ParseSigned(JsonText(actual.value), I128_HALF), ParseSigned(parts[2], I128_HALF);
        if a.Some? && b.Some? && CompareSymbol(parts[1], a.value, b.value) == Some(false) then
          Some(NumberFails(parts[0], a.value, parts[1], b.value))
        else None
  }

  function Evaluate(c: Constraint, t: TestCase): Option<Cause> {
    match c.constraintType
    case BalanceCheck => EvaluateBalance(c, t)
    case OwnershipCheck => EvaluateOwnership(c, t)
    case TimeCheck => EvaluateTime(c, t)
    case StateCheck => EvaluateState(c, t)
    case Custom => EvaluateCustom(c, t)
  }

  // --- What holding means, without the evaluators -----------------------------------------------

  /** The first value under a key. */
  lemma {:induction false} GetIff(o: Fields, key: string, v: Json)
    ensures Get(o, key) == Some(v) <==> exists i :: 0 <= i < |o| && o[i] == (key, v) && forall j :: 0 <= j < i ==> o[j].0 != key
  {
    if o != [] {
      GetIff(o[1..], key, v);
      if o[0].0 != key {
        if i :| 0 <= i < |o[1..]| && o[1..][i] == (key, v) && forall j :: 0 <= j < i ==> o[1..][j].0 != key {
          assert o[i + 1] == (key, v);
          forall j | 0 <= j < i + 1 ensures o[j].0 != key {
            if j > 0 { assert o[1..][j - 1] == o[j]; }
          }
        }
        if i :| 0 <= i < |o| && o[i] == (key, v) && forall j :: 0 <= j < i ==> o[j].0 != key {
          assert i > 0 && o[1..][i - 1] == (key, v);
        }
      } else {
        assert o[0] == (key, o[0].1);
      }
    }
  }

  /** The orders that the four operator names stand for. */
  predicate Ordered(op: string, a: int, b: int) {
    (op == "gte" ==> a >= b) && (op == "lte" ==> a <= b) && (op == "gt" ==> a > b) && (op == "lt" ==> a < b)
  }

  predicate Related(op: string, a: int, b: int) {
    Ordered(op, a, b) && (op == "eq" ==> a == b) && (op == "neq" ==> a != b)
  }

  predicate RelatedBySymbol(op: string, a: int, b: int) {
    && (op == ">=" ==> a >= b) && (op == "<=" ==> a <= b) && (op == ">" ==> a > b) && (op == "<" ==> a < b)
    && (op == "==" ==> a == b) && (op == "!=" ==> a != b)
  }

  /** The object holds the text of this amount under the key. */
  ghost predicate AmountIs(o: Fields, key: string, n: nat) {
    exists s :: Get(o, key) == Some(Str(s)) && ParseUnsigned(s, U128) == Some(n)
  }

  /** The bound of a TimeCheck: a text of a 64-bit number or a JSON number without sign. */
  ghost predicate BoundIs(v: Json, n: nat) {
    || (v.Str? && ParseUnsigned(v.s, U64) == Some(n))
    || (v.Num? && v.number.Integer? && v.number.n == n)
  }

  /** A value whose text is a signed 128-bit number. */
  ghost predicate Reads(v: Json, n: int) { ParseSigned(JsonText(v), I128_HALF) == Some(n) }

  /** The requested amount, if any, is at most the balance. */
  ghost predicate Affords(t: TestCase, balance: nat) {
    forall amount: nat :: AmountIs(t.params, "amount", amount) ==> amount <= balance
  }

  ghost predicate BalanceHolds(c: Constraint, t: TestCase) {
    forall required: nat, balance: nat ::
      AmountIs(c.params, "min_amount", required) && AmountIs(t.stateBefore, "balance", balance) ==>
        required <= balance && Affords(t, balance)
  }

  ghost predicate OwnershipHolds(c: Constraint, t: TestCase) {
    forall field, owner ::
      Get(c.params, "object_field") == Some(Str(field)) && Get(t.stateBefore, field) == Some(Str(owner)) && t.sender != "" ==>
        owner == t.sender
  }

  ghost predicate TimeHolds(c: Constraint, t: TestCase) {
    forall op, v :: Get(c.params, "op") == Some(Str(op)) && Get(c.params, "value") == Some(v) && (v.Str? || v.Num?) ==>
      exists n: nat :: BoundIs(v, n) && Ordered(op, t.epoch, n)
  }

  /** As numbers when both texts are numbers, otherwise as texts, which only "eq" and "neq" can do. */
  ghost predicate Compared(op: string, actual: Json, target: Json) {
    if exists a, b :: Reads(actual, a) && Reads(target, b)
    then exists a, b :: Reads(actual, a) && Reads(target, b) && Related(op, a, b)
    else (op == "eq" && JsonText(actual) == JsonText(target)) || (op == "neq" && JsonText(actual) != JsonText(target))
  }

  ghost predicate StateHolds(c: Constraint, t: TestCase) {
    forall field, op, target, actual ::
      StateTerms(c, t, field, op, target, actual) ==> Compared(op, actual, target)
  }

  /** What a StateCheck compares: all of its parameters are there, and the field is in the state after
      or, without one, the state before. */
  ghost predicate StateTerms(c: Constraint, t: TestCase, field: string, op: string, target: Json, actual: Json) {
    var state := if t.stateAfter != [] then t.stateAfter else t.stateBefore;
    && Get(c.params, "field") == Some(Str(field)) && Get(c.params, "op") == Some(Str(op))
    && Get(c.params, "value") == Some(target) && (target.Str? || target.Num?) && Get(state, field) == Some(actual)
  }

  /** A three-word expression whose field is present and whose two sides are numbers. */
  ghost predicate CustomHolds(c: Constraint, t: TestCase) {
    forall field, op, target, actual, a, b ::
      CustomTerms(c, t, field, op, target, actual) && Reads(actual, a) && ParseSigned(target, I128_HALF) == Some(b) ==>
        RelatedBySymbol(op, a, b)
  }

  ghost predicate CustomTerms(c: Constraint, t: TestCase, field: string, op: string, target: string, actual: Json) {
    var state := if t.stateAfter != [] then t.stateAfter else t.stateBefore;
    && (exists expression :: Get(c.params, "expression") == Some(Str(expression)) && ThreeWords(expression, field, op, target))
    && Get(state, field) == Some(actual)
  }

  ghost predicate Holds(c: Constraint, t: TestCase) {
    match c.constraintType
    case BalanceCheck => BalanceHolds(c, t)
    case OwnershipCheck => OwnershipHolds(c, t)
    case TimeCheck => TimeHolds(c, t)
    case StateCheck => StateHolds(c, t)
    case Custom => CustomHolds(c, t)
  }

  lemma CompareIs(op: string, a: int, b: int)
    ensures Compare(op, a, b) == Some(false) <==> !Ordered(op, a, b)
    ensures CompareState(op, a, b) == Some(false) <==> !Related(op, a, b)
    ensures CompareSymbol(op, a, b) == Some(false) <==> !RelatedBySymbol(op, a, b)
  {
    OperatorNamesDiffer();
  }

  lemma OperatorNamesDiffer()
    ensures "gte" != "lte" && "gte" != "gt" && "gte" != "lt" && "lte" != "gt" && "lte" != "lt" && "gt" != "lt"
    ensures "eq" !in ["gte", "lte", "gt", "lt"] && "neq" !in ["gte", "lte", "gt", "lt"] && "eq" != "neq"
    ensures ">=" != "<=" && ">=" != ">" && ">=" != "<" && "<=" != ">" && "<=" != "<" && ">" != "<"
    ensures "==" !in [">=", "<=", ">", "<"] && "!=" !in [">=", "<=", ">", "<"] && "==" != "!="
  {
    assert "gte"[0] == 'g' && "lte"[0] == 'l' && "gt"[0] == 'g' && "lt"[0] == 'l' && "eq"[0] == 'e' && "neq"[0] == 'n';
    assert ">="[0] == '>' && "<="[0] == '<' && ">"[0] == '>' && "<"[0] == '<' && "=="[0] == '=' && "!="[0] == '!';
    assert |"gte"| == 3 && |"gt"| == 2 && |"lte"| == 3 && |"lt"| == 2 && |">="| == 2 && |">"| == 1 && |"<="| == 2 && |"<"| == 1;
  }

  lemma AmountIff(o: Fields, key: string, n: nat)
    ensures Amount(o, key) == Some(n) <==> AmountIs(o, key, n)
  {
    hide Get, ParseUnsigned;
  }

  lemma BalanceIff(c: Constraint, t: TestCase)
    ensures EvaluateBalance(c, t).None? <==> BalanceHolds(c, t)
  {
    var required, balance, amount := Amount(c.params, "min_amount"), Amount(t.stateBefore, "balance"), Amount(t.params, "amount");
    AmountFound(c.params, "min_amount");
    AmountFound(t.stateBefore, "balance");
    AmountFound(t.params, "amount");
    hide Amount, AmountIs;
    if required.Some? { assert AmountIs(c.params, "min_amount", required.value); }
    if balance.Some? { assert AmountIs(t.stateBefore, "balance", balance.value); }
    if amount.Some? { assert AmountIs(t.params, "amount", amount.value); }
    if balance.Some? { assert Affords(t, balance.value) <==> amount.None? || amount.value <= balance.value; }
  }

  lemma AmountFound(o: Fields, key: string)
    ensures if Amount(o, key).Some? then forall n: nat :: AmountIs(o, key, n) <==> n == Amount(o, key).value
            else forall n: nat :: !AmountIs(o, key, n)
  {
    forall n: nat { AmountIff(o, key, n); }
    hide Amount, AmountIs;
  }

  lemma OwnershipIff(c: Constraint, t: TestCase)
    ensures EvaluateOwnership(c, t).None? <==> OwnershipHolds(c, t)
  {
    hide Get;
  }

  lemma TimeIff(c: Constraint, t: TestCase)
    ensures EvaluateTime(c, t).None? <==> TimeHolds(c, t)
  {
    hide Get, ParseUnsigned, Compare, Ordered;
    forall op: string, a: int, b: int ensures Compare(op, a, b) == Some(false) <==> !Ordered(op, a, b) { CompareIs(op, a, b); }
    var op, v := TextAt(c.params, "op"), Get(c.params, "value");
    if op.Some? && v.Some? && (v.value.Str? || v.value.Num?) {
      if n: nat :| BoundIs(v.value, n) { BoundUnique(v.value, n); }
    }
  }

  lemma BoundUnique(v: Json, n: nat)
    requires BoundIs(v, n)
    ensures forall m: nat :: BoundIs(v, m) ==> m == n
  {
    hide ParseUnsigned;
  }

  lemma StateIff(c: Constraint, t: TestCase)
    ensures EvaluateState(c, t).None? <==> StateHolds(c, t)
  {
    hide Get, ParseSigned, JsonText, CompareState, Compared;
    OperatorNamesDiffer();
    var field, op, value := TextAt(c.params, "field"), TextAt(c.params, "op"), Get(c.params, "value");
    if field.Some? && op.Some? && value.Some? && (value.value.Str? || value.value.Num?) {
      var actual := Get(TestedState(t), field.value);
      if actual.Some? {
        ComparedIff(op.value, actual.value, value.value);
        assert StateTerms(c, t, field.value, op.value, value.value, actual.value);
      }
    }
  }

  /** The comparison of the StateCheck evaluator. */
  lemma ComparedIff(op: string, actual: Json, target: Json)
    ensures var text, other := JsonText(actual), JsonText(target);
      var a, b := ParseSigned(text, I128_HALF), ParseSigned(other, I128_HALF);
      Compared(op, actual, target) <==>
        if a.Some? && b.Some? then CompareState(op, a.value, b.value) != Some(false)
        else (op == "eq" && text == other) || (op == "neq" && text != other)
  {
    var a, b := ParseSigned(JsonText(actual), I128_HALF), ParseSigned(JsonText(target), I128_HALF);
    hide ParseSigned, JsonText, CompareState, Related;
    if a.Some? && b.Some? {
      CompareIs(op, a.value, b.value);
      assert Reads(actual, a.value) && Reads(target, b.value);
    }
  }

  lemma CustomIff(c: Constraint, t: TestCase)
    ensures EvaluateCustom(c, t).None? <==> CustomHolds(c, t)
  {
    hide Get, ParseSigned, JsonText, CompareSymbol, RelatedBySymbol, Words, ThreeWords;
    forall op: string, a: int, b: int ensures CompareSymbol(op, a, b) == Some(false) <==> !RelatedBySymbol(op, a, b) {
      CompareIs(op, a, b);
    }
    var expr := TextAt(c.params, "expression");
    if expr.Some? && |Words(expr.value)| == 3 {
      var parts := Words(expr.value);
      var actual := Get(TestedState(t), parts[0]);
      ExpressionWords(c, t, expr.value);
      if actual.Some? {
        assert CustomTerms(c, t, parts[0], parts[1], parts[2], actual.value);
        var a := ParseSigned(JsonText(actual.value), I128_HALF);
        if a.Some? { assert Reads(actual.value, a.value); }
      }
    } else if expr.Some? {
      NoExpression(c, t, expr.value);
    }
  }

  lemma ExpressionWords(c: Constraint, t: TestCase, expr: string)
    requires Get(c.params, "expression") == Some(Str(expr)) && |Words(expr)| == 3
    ensures var parts, state := Words(expr), TestedState(t);
      forall field, op, target, actual :: CustomTerms(c, t, field, op, target, actual) <==>
        field == parts[0] && op == parts[1] && target == parts[2] && Get(state, field) == Some(actual)
  {
    var parts := Words(expr);
    assert parts == [parts[0], parts[1], parts[2]];
    forall x: string, y: string, z: string ensures ThreeWords(expr, x, y, z) <==> x == parts[0] && y == parts[1] && z == parts[2] {
      WordsAreThreeIff(expr, x, y, z);
    }
    hide Get, Words, ThreeWords;
  }

  lemma NoExpression(c: Constraint, t: TestCase, expr: string)
    requires Get(c.params, "expression") == Some(Str(expr)) && |Words(expr)| != 3
    ensures forall field, op, target, actual :: !CustomTerms(c, t, field, op, target, actual)
  {
    forall x: string, y: string, z: string ensures !ThreeWords(expr, x, y, z) { WordsAreThreeIff(expr, x, y, z); }
    hide Get, Words, ThreeWords;
  }

  /** A constraint is accepted exactly when it holds, on every test case and for any parameters. */
  lemma EvaluateIff(c: Constraint, t: TestCase)
    ensures Evaluate(c, t).None? <==> Holds(c, t)
  {
    BalanceIff(c, t);
    OwnershipIff(c, t);
    TimeIff(c, t);
    StateIff(c, t);
    CustomIff(c, t);
    hide EvaluateBalance, EvaluateOwnership, EvaluateTime, EvaluateState, EvaluateCustom;
    hide BalanceHolds, OwnershipHolds, TimeHolds, StateHolds, CustomHolds;
  }

  /** Numbers are read through their printed text, whether they are JSON numbers or strings. */
  lemma PrintedNumbers(n: int, m: nat)
    requires 0 - I128_HALF <= n < I128_HALF && m < U64
    ensures Reads(Str(DecimalInt(n)), n) && (-0x8000_0000_0000_0000 <= n < U64 ==> Reads(Num(Integer(n)), n))
    ensures BoundIs(Str(Decimal(m)), m) && BoundIs(Num(Integer(m)), m)
  {
    ParseDecimalInt(n, I128_HALF);
    DecimalSpells(m);
    ParseUnsignedIff(Decimal(m), U64, m);
    hide ParseSigned, ParseUnsigned, SpellsDecimal, Decimal;
  }

  /** The texts of the other values. */
  lemma PrintedValues(text: string)
    ensures JsonText(Bool(true)) == "true" && JsonText(Bool(false)) == "false" && JsonText(Null) == "null"
    ensures JsonText(Str(text)) == JsonText(Num(Float(text))) == JsonText(Array(text)) == JsonText(Object(text)) == text
  {}

  /** The reported cause is a fact about the test case. */
  ghost predicate IsTrue(c: Constraint, t: TestCase, cause: Cause) {
    var state := if t.stateAfter != [] then t.stateAfter else t.stateBefore;
    match cause
    case LowBalance(balance, required) =>
      AmountIs(c.params, "min_amount", required) && AmountIs(t.stateBefore, "balance", balance) && balance < required
    case ExceedsBalance(amount, balance) =>
      AmountIs(t.params, "amount", amount) && AmountIs(t.stateBefore, "balance", balance) && amount > balance
    case NotOwner(field, owner) =>
      && Get(c.params, "object_field") == Some(Str(field)) && Get(t.stateBefore, field) == Some(Str(owner))
      && owner != t.sender && t.sender != ""
    case BadTimeValue =>
      Get(c.params, "value").Some? && !exists n: nat :: BoundIs(Get(c.params, "value").value, n)
    case EpochFails(epoch, op, value) =>
      && epoch == t.epoch && Get(c.params, "op") == Some(Str(op)) && Get(c.params, "value").Some?
      && BoundIs(Get(c.params, "value").value, value) && !Ordered(op, epoch, value)
    case NumberFails(field, actual, op, target) =>
      && Get(state, field).Some? && Reads(Get(state, field).value, actual)
      && if c.constraintType.Custom? then !RelatedBySymbol(op, actual, target) else !Related(op, actual, target)
    case TextFails(field, text, op, other) =>
      && Get(state, field).Some? && JsonText(Get(state, field).value) == text
      && Get(c.params, "value").Some? && JsonText(Get(c.params, "value").value) == other
      && (op == "eq" ==> text != other) && (op == "neq" ==> text == other)
    case NotComparable(op) => Get(c.params, "op") == Some(Str(op)) && op != "eq" && op != "neq"
  }

  lemma CauseIsTrue(c: Constraint, t: TestCase)
    ensures Evaluate(c, t).Some? ==> IsTrue(c, t, Evaluate(c, t).value)
  {
    if Evaluate(c, t).Some? {
      match c.constraintType
      case BalanceCheck => BalanceCause(c, t);
      case OwnershipCheck => OwnershipCause(c, t);
      case TimeCheck => TimeCause(c, t);
      case StateCheck => StateCause(c, t);
      case Custom => CustomCause(c, t);
    }
    hide EvaluateBalance, EvaluateOwnership, EvaluateTime, EvaluateState, EvaluateCustom, IsTrue;
  }

  lemma BalanceCause(c: Constraint, t: TestCase)
    requires EvaluateBalance(c, t).Some?
    ensures IsTrue(c, t, EvaluateBalance(c, t).value)
  {
    forall o: Fields, key: string, n: nat ensures Amount(o, key) == Some(n) <==> AmountIs(o, key, n) { AmountIff(o, key, n); }
    hide Amount, AmountIs;
  }

  lemma OwnershipCause(c: Constraint, t: TestCase)
    requires EvaluateOwnership(c, t).Some?
    ensures IsTrue(c, t, EvaluateOwnership(c, t).value)
  {
    hide Get;
  }

  lemma TimeCause(c: Constraint, t: TestCase)
    requires EvaluateTime(c, t).Some?
    ensures IsTrue(c, t, EvaluateTime(c, t).value)
  {
    hide Get, ParseUnsigned, Compare, Ordered;
    forall op: string, a: int, b: int ensures Compare(op, a, b) == Some(false) <==> !Ordered(op, a, b) { CompareIs(op, a, b); }
  }

  lemma StateCause(c: Constraint, t: TestCase)
    requires EvaluateState(c, t).Some? && c.constraintType.StateCheck?
    ensures IsTrue(c, t, EvaluateState(c, t).value)
  {
    hide Get, ParseSigned, JsonText, CompareState, Related, RelatedBySymbol;
    forall op: string, a: int, b: int ensures CompareState(op, a, b) == Some(false) <==> !Related(op, a, b) { CompareIs(op, a, b); }
    OperatorNamesDiffer();
  }

  lemma CustomCause(c: Constraint, t: TestCase)
    requires EvaluateCustom(c, t).Some? && c.constraintType.Custom?
    ensures IsTrue(c, t, EvaluateCustom(c, t).value)
  {
    hide Get, ParseSigned, JsonText, CompareSymbol, RelatedBySymbol, Words;
    forall op: string, a: int, b: int ensures CompareSymbol(op, a, b) == Some(false) <==> !RelatedBySymbol(op, a, b) {
      CompareIs(op, a, b);
    }
  }

  /** In a well-formed schema the accept-by-default arms of the TimeCheck and StateCheck operators
      are never taken: every operator that is compared at all names a comparison. */
  lemma OperatorsAreKnown(lower: string -> string, s: Schema, c: Constraint, a: int, b: int)
    requires WellFormed(lower, s) && c in s.constraints && TextAt(c.params, "op").Some?
    ensures c.constraintType.TimeCheck? ==> Compare(TextAt(c.params, "op").value, a, b).Some?
    ensures c.constraintType.StateCheck? ==> CompareState(TextAt(c.params, "op").value, a, b).Some?
  {
    hide Get, Names, MetadataOk, IntentsOk, FieldsOk, ReferencesOk, Named;
    var i :| 0 <= i < |s.constraints| && s.constraints[i] == c;
    assert ParamsFit(lower, c, s.stateFields);
  }

  // --- State checks that check nothing ------------------------------------------------------

  /** The constraint with another target value. */
  function WithTarget(c: Constraint, target: string): Constraint { c.(params := [("value", Str(target))] + c.params) }

  predicate HoldsFor(c: Constraint, t: TestCase, target: string) { Evaluate(WithTarget(c, target), t).None? }

  /** A target that the operator refuses for a given actual text. */
  function RefusedTarget(op: string, text: string): string { if op == "neq" then text else text + "x" }

  lemma NotANumber(text: string)
    ensures ParseSigned(text + "x", I128_HALF).None?
  {
    var s := text + "x";
    assert s[|s| - 1] == 'x' && !IsDigit('x');
    assert s[1..] == "" || s[1..][|s[1..]| - 1] == 'x';
  }

  lemma TargetParams(c: Constraint, target: string)
    ensures Get(WithTarget(c, target).params, "value") == Some(Str(target))
    ensures TextAt(WithTarget(c, target).params, "op") == TextAt(c.params, "op")
    ensures TextAt(WithTarget(c, target).params, "field") == TextAt(c.params, "field")
  {
    var params := WithTarget(c, target).params;
    assert params[1..] == c.params;
    assert "value"[0] != "op"[0] && "value"[0] != "field"[0];
  }

  /** A well-formed StateCheck accepts the test whatever its target value is, exactly when its
      operator is not text or the tested state has no key spelled exactly like its field. */
  lemma StateCheckVacuousIff(lower: string -> string, s: Schema, c: Constraint, t: TestCase)
    requires WellFormed(lower, s) && c in s.constraints && c.constraintType.StateCheck?
    ensures TextAt(c.params, "field").Some?
    ensures (forall target: string :: HoldsFor(c, t, target)) <==>
      TextAt(c.params, "op").None? || Get(TestedState(t), TextAt(c.params, "field").value).None?
  {
    WellFormedStateCheck(lower, s, c);
    hide WellFormed, TestedState;
    var field, op := TextAt(c.params, "field").value, TextAt(c.params, "op");
    var actual := Get(TestedState(t), field);
    forall target: string ensures op.None? || actual.None? ==> HoldsFor(c, t, target) {
      TargetParams(c, target);
      hide WithTarget;
    }
    if op.Some? && actual.Some? {
      var target := RefusedTarget(op.value, JsonText(actual.value));
      RefusedTargetFails(c, t, op.value, field, actual.value);
      assert !HoldsFor(c, t, target);
    }
  }

  lemma RefusedTargetFails(c: Constraint, t: TestCase, op: string, field: string, actual: Json)
    requires c.constraintType.StateCheck? && StateOperator(op)
    requires TextAt(c.params, "op") == Some(op) && TextAt(c.params, "field") == Some(field)
    requires Get(TestedState(t), field) == Some(actual)
    ensures !HoldsFor(c, t, RefusedTarget(op, JsonText(actual)))
  {
    var text := JsonText(actual);
    TargetParams(c, RefusedTarget(op, text));
    NotANumber(text);
    assert text + "x" != text;
    hide WithTarget, JsonText, TestedState, Get, ParseSigned;
  }

  lemma WellFormedStateCheck(lower: string -> string, s: Schema, c: Constraint)
    requires WellFormed(lower, s) && c in s.constraints && c.constraintType.StateCheck?
    ensures TextAt(c.params, "field").Some? && Names(lower, FieldNames(s.stateFields), TextAt(c.params, "field").value)
    ensures TextAt(c.params, "op").Some? ==> StateOperator(TextAt(c.params, "op").value)
  {
    hide Get, Names, MetadataOk, IntentsOk, FieldsOk, ReferencesOk, Named, StateOperator;
    var i :| 0 <= i < |s.constraints| && s.constraints[i] == c;
    assert ParamsFit(lower, c, s.stateFields);
  }

  /** The validator and the runner accept a key that spells the field with other letter case, and
      when no key of a state spells it exactly the check accepts that state for every target. */
  lemma OtherCaseIsVacuous(lower: string -> string, s: Schema, c: Constraint, t: TestCase)
    requires WellFormed(lower, s) && c in s.constraints && c.constraintType.StateCheck?
    requires TextAt(c.params, "field").Some?
    requires forall p :: p in TestedState(t) ==> p.0 != TextAt(c.params, "field").value
    ensures forall p :: p in TestedState(t) && lower(p.0) == lower(TextAt(c.params, "field").value) ==>
      Names(lower, FieldNames(s.stateFields), p.0)
    ensures forall target: string :: HoldsFor(c, t, target)
  {
    var field := TextAt(c.params, "field").value;
    StateCheckVacuousIff(lower, s, c, t);
    WellFormedStateCheck(lower, s, c);
    NoSuchKey(TestedState(t), field);
    hide WellFormed, HoldsFor, TextAt, TestedState, Get;
  }

  lemma {:induction false} NoSuchKey(o: Fields, key: string)
    ensures Get(o, key).None? <==> forall p :: p in o ==> p.0 != key
  {
    if o != [] {
      NoSuchKey(o[1..], key);
      assert forall p :: p in o <==> p == o[0] || p in o[1..];
    }
  }
}
