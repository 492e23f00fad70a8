/** The local test runner: it resolves the intent, checks parameters and state keys, evaluates the
    constraints in order and grades the outcome against what the test case expects. */
module ConstraintTester {
  import opened ContractSchema
  import opened ConstraintEvaluator
  import opened IntegerMath
  import opened NumberTheory
  import opened Strings
  import opened Numerals
  import opened TextForms

  datatype Failure =
    | UnknownIntent(name: string) | MissingParam(name: string) | BadParam(name: string)
    | Violated(c: Constraint, cause: Cause) | UnknownAfter(key: string) | NothingViolated

  /** `lower` is Unicode lowercasing and `render` the message text of a failure. */
  datatype Env = Env(lower: string -> string, render: Failure -> string)

  datatype Outcome = Pass | Fail(reason: Failure) | Skip(key: string)

  // --- First failure in a list --------------------------------------------------------

  function First<A, B>(f: A -> Option<B>, s: seq<A>): Option<B> {
    if s == [] then None else if f(s[0]).Some? then f(s[0]) else First(f, s[1..])
  }

  /** No failure exactly when no element fails; otherwise the failure of the first that does. */
  lemma {:induction false} FirstIff<A, B>(f: A -> Option<B>, s: seq<A>)
    ensures First(f, s).None? <==> forall i :: 0 <= i < |s| ==> f(s[i]).None?
    ensures First(f, s).Some? ==>
      exists i :: 0 <= i < |s| && f(s[i]) == First(f, s) && forall j :: 0 <= j < i ==> f(s[j]).None?
  {
    if s != [] {
      FirstIff(f, s[1..]);
      if f(s[0]).None? {
        assert forall i :: 1 <= i < |s| ==> s[i] == s[1..][i - 1];
        if First(f, s).Some? {
          var i :| 0 <= i < |s[1..]| && f(s[1..][i]) == First(f, s[1..])
            && forall j :: 0 <= j < i ==> f(s[1..][j]).None?;
          assert f(s[i + 1]) == First(f, s);
        }
      }
    }
  }

  /** The source's loop: stop at the first failure. */
  method FindFirst<A, B>(f: A -> Option<B>, s: seq<A>) returns (r: Option<B>)
    ensures r == First(f, s)
  {
    for i := 0 to |s|
      invariant First(f, s) == First(f, s[i..])
    {
      assert s[i..][0] == s[i] && s[i..][1..] == s[i + 1..];
      var one := f(s[i]);
      if one.Some? { return one; }
    }
    return None;
  }

  // --- Lookup maps ---------------------------------------------------------------------

  /** Names collected into a hash map keyed by lowercase name: later entries replace earlier ones. */
  function Lookup(lower: string -> string, names: seq<string>): (m: map<string, nat>)
    ensures forall k :: k in m ==> m[k] < |names|
  {
    if names == [] then map[]
    else Lookup(lower, names[..|names| - 1])[lower(names[|names| - 1]) := |names| - 1]
  }

  function LinearSearch(lower: string -> string, names: seq<string>, name: string, from: nat): Option<nat>
    requires from <= |names|
    decreases |names| - from
  {
    if from == |names| then None
    else if lower(names[from]) == lower(name) then Some(from)
    else LinearSearch(lower, names, name, from + 1)
  }

  predicate LookupsAgree(lower: string -> string, names: seq<string>, name: string) {
    var m := Lookup(lower, names);
    LinearSearch(lower, names, name, 0) == if lower(name) in m then Some(m[lower(name)]) else None
  }

  /** The map holds the last index of every name. */
  lemma {:induction false} LookupIsLast(lower: string -> string, names: seq<string>, key: string)
    ensures var m := Lookup(lower, names);
      && (key in m <==> exists i :: 0 <= i < |names| && lower(names[i]) == key)
      && (key in m ==> lower(names[m[key]]) == key && forall i :: m[key] < i < |names| ==> lower(names[i]) != key)
  {
    if names != [] {
      var less := names[..|names| - 1];
      LookupIsLast(lower, less, key);
      assert forall i :: 0 <= i < |less| ==> less[i] == names[i];
      if key == lower(names[|names| - 1]) { assert lower(names[|names| - 1]) == key; }
    }
  }

  /** Linear search finds the first index. */
  lemma {:induction false} LinearSearchIsFirst(lower: string -> string, names: seq<string>, name: string, from: nat)
    requires from <= |names|
    ensures var r := LinearSearch(lower, names, name, from);
      && (r.None? <==> forall i :: from <= i < |names| ==> lower(names[i]) != lower(name))
      && (r.Some? ==> (
            from <= r.value < |names| && lower(names[r.value]) == lower(name)
            && forall i :: from <= i < r.value ==> lower(names[i]) != lower(name)))
    decreases |names| - from
  {
    if from < |names| { LinearSearchIsFirst(lower, names, name, from + 1); }
  }

  /** The map agrees with linear search on every name exactly when no two names clash; so it does
      for the intents, parameters and state fields of every well-formed schema. */
  lemma LookupsAgreeIff(lower: string -> string, names: seq<string>)
    ensures (forall name: string :: LookupsAgree(lower, names, name)) <==> Distinct(lower, names)
  {
    if Distinct(lower, names) {
      forall name: string ensures LookupsAgree(lower, names, name) {
        LookupIsLast(lower, names, lower(name));
        LinearSearchIsFirst(lower, names, name, 0);
        hide Lookup, LinearSearch;
      }
    } else {
      var i, j :| 0 <= i < j < |names| && lower(names[i]) == lower(names[j]);
      LookupIsLast(lower, names, lower(names[i]));
      LinearSearchIsFirst(lower, names, names[i], 0);
      assert !LookupsAgree(lower, names, names[i]);
    }
  }

  lemma WellFormedLookupsAgree(lower: string -> string, s: Schema, name: string)
    requires WellFormed(lower, s)
    ensures LookupsAgree(lower, IntentNames(s.intents), name)
    ensures LookupsAgree(lower, FieldNames(s.stateFields), name)
    ensures forall i :: 0 <= i < |s.intents| ==> LookupsAgree(lower, ParamNames(s.intents[i].params), name)
  {
    LookupsAgreeIff(lower, IntentNames(s.intents));
    LookupsAgreeIff(lower, FieldNames(s.stateFields));
    forall i | 0 <= i < |s.intents| ensures LookupsAgree(lower, ParamNames(s.intents[i].params), name) {
      LookupsAgreeIff(lower, ParamNames(s.intents[i].params));
    }
  }

  // --- Applicable constraints ---------------------------------------------------------------

  predicate Applies(lower: string -> string, c: Constraint, intent: IntentSchema) {
    c.appliesTo == [] || exists k :: 0 <= k < |c.appliesTo| && lower(c.appliesTo[k]) == lower(intent.name)
  }

  function Violation(lower: string -> string, intent: IntentSchema, t: TestCase): Constraint -> Option<Failure> {
    (c: Constraint) => if !Applies(lower, c, intent) then None
         else match Evaluate(c, t) case None => None case Some(cause) => Some(Violated(c, cause))
  }

  /** The constraint names no intent, or this one up to case. */
  ghost predicate Concerns(lower: string -> string, c: Constraint, intent: IntentSchema) {
    c.appliesTo != [] ==> exists target :: target in c.appliesTo && lower(target) == lower(intent.name)
  }

  ghost predicate AllHold(lower: string -> string, intent: IntentSchema, t: TestCase, constraints: seq<Constraint>) {
    forall c :: c in constraints && Concerns(lower, c, intent) ==> Holds(c, t)
  }

  lemma ViolationIff(lower: string -> string, intent: IntentSchema, t: TestCase, c: Constraint)
    ensures Violation(lower, intent, t)(c).None? <==> (Concerns(lower, c, intent) ==> Holds(c, t))
    ensures Violation(lower, intent, t)(c).Some? ==>
      Evaluate(c, t).Some? && Violation(lower, intent, t)(c) == Some(Violated(c, Evaluate(c, t).value))
  {
    EvaluateIff(c, t);
    assert Applies(lower, c, intent) <==> Concerns(lower, c, intent);
    hide Evaluate, Holds;
  }

  /** None stands for Ok. It is Ok exactly when every applicable constraint holds, and otherwise
      reports one that does not. */
  method EvaluateConstraints(env: Env, intent: IntentSchema, t: TestCase, constraints: seq<Constraint>)
    returns (r: Option<Failure>)
    ensures r == First(Violation(env.lower, intent, t), constraints)
    ensures r.None? <==> AllHold(env.lower, intent, t, constraints)
  {
    hide Evaluate;
    ghost var violation := Violation(env.lower, intent, t);
    NoViolationIff(env.lower, intent, t, constraints);
    hide AllHold;
    for i := 0 to |constraints|
      invariant First(violation, constraints) == First(violation, constraints[i..])
    {
      var c := constraints[i];
      assert constraints[i..][0] == c && constraints[i..][1..] == constraints[i + 1..];
      if !Applies(env.lower, c, intent) { continue; }
      var cause := Evaluate(c, t);
      if cause.Some? { return Some(Violated(c, cause.value)); }
    }
    return None;
  }

  lemma NoViolationIff(lower: string -> string, intent: IntentSchema, t: TestCase, constraints: seq<Constraint>)
    ensures First(Violation(lower, intent, t), constraints).None? <==> AllHold(lower, intent, t, constraints)
  {
    forall c { ViolationIff(lower, intent, t, c); }
    hide Concerns, Evaluate, Holds, Violation;
    FirstIff(Violation(lower, intent, t), constraints);
    assert forall i :: 0 <= i < |constraints| ==> constraints[i] in constraints;
  }

  // --- Parameters and state keys ---------------------------------------------------------------

  function MissingFrom(given: Fields): ParamDef -> Option<string> {
    (p: ParamDef) => if p.required && !Has(given, p.name) then Some(p.name) else None
  }

  predicate ValueFits(v: Json, t: ParamType) {
    match t
    case Uint128 => (v.Num? && v.number.Integer?) || (v.Str? && ParseUnsigned(v.s, U128).Some?)
    case Address => v.Str? && (ByteLength(v.s) == 64 || v.s == "zero" || v.s == "sender" || "test_" <= v.s)
    case Bytes => v.Str? && ByteLength(v.s) % 2 == 0 && AllHex(v.s)
    case Text => true
    case Boolean => v.Bool? || (v.Str? && (v.s == "true" || v.s == "false"))
  }

  /** The texts and values of each parameter type. */
  lemma ValueFitsIff(v: Json, t: ParamType)
    ensures ValueFits(v, t) <==>
      match t
      case Uint128 =>
        || (v.Num? && exists n :: v.number == Integer(n))
        || (v.Str? && exists n: nat :: n < U128 && ParseUnsigned(v.s, U128) == Some(n))
      case Address =>
        v.Str? && (ByteLength(v.s) == 64 || v.s == "zero" || v.s == "sender" || OccursAt(v.s, "test_", 0))
      case Bytes => v.Str? && |v.s| % 2 == 0 && exists n: nat :: SpellsHex(v.s, n)
      case Text => true
      case Boolean => v.Bool? || v == Str("true") || v == Str("false")
  {
    if v.Str? {
      if AllHex(v.s) {
        HexByteLength(v.s);
        HexSpelling(v.s, HexValue(v.s));
      }
      if n: nat :| SpellsHex(v.s, n) { HexSpelling(v.s, n); }
    }
    hide ParseUnsigned, ByteLength, SpellsHex, HexValue, AllHex;
  }

  function Mistyped(lower: string -> string, defs: seq<ParamDef>): ((string, Json)) -> Option<string> {
    var m := Lookup(lower, ParamNames(defs));
    (p: (string, Json)) =>
      if lower(p.0) in m && !ValueFits(p.1, defs[m[lower(p.0)]].paramType) then Some(p.0) else None
  }

  function UnknownKey(lower: string -> string, fields: seq<StateField>): ((string, Json)) -> Option<string> {
    var m := Lookup(lower, FieldNames(fields));
    (p: (string, Json)) => if lower(p.0) in m then None else Some(p.0)
  }

  // --- Grading -----------------------------------------------------------------------------------

  predicate Expected(text: string, expectError: string) { expectError == "" || Contains(text, expectError) }

  function GradeUnknownIntent(env: Env, t: TestCase): Outcome {
    var f := UnknownIntent(t.intent);
    if !t.expectValid && t.expectError != "" && Contains(env.render(f), t.expectError) then Pass else Fail(f)
  }

  function GradeParameter(env: Env, t: TestCase, f: Failure): Outcome {
    if !t.expectValid && Expected(env.render(f), t.expectError) then Pass else Fail(f)
  }

  function GradeViolation(env: Env, t: TestCase, f: Failure): Outcome {
    if !t.expectValid && (t.expectError == "" || Contains(env.lower(env.render(f)), env.lower(t.expectError))) then Pass
    else Fail(f)
  }

  function GradeHolds(t: TestCase, unknownAfter: Option<string>): Outcome {
    if !t.expectValid then Fail(NothingViolated)
    else if unknownAfter.Some? then Fail(UnknownAfter(unknownAfter.value))
    else Pass
  }

  function Verdict(env: Env, s: Schema, t: TestCase): Outcome {
    var m := Lookup(env.lower, IntentNames(s.intents));
    if env.lower(t.intent) !in m then GradeUnknownIntent(env, t)
    else IntentVerdict(env, s, t, s.intents[m[env.lower(t.intent)]])
  }

  function IntentVerdict(env: Env, s: Schema, t: TestCase, intent: IntentSchema): Outcome {
    var missing := First(MissingFrom(t.params), intent.params);
    var mistyped := First(Mistyped(env.lower, intent.params), t.params);
    var unknown := First(UnknownKey(env.lower, s.stateFields), t.stateBefore);
    var violated := First(Violation(env.lower, intent, t), s.constraints);
    if missing.Some? then GradeParameter(env, t, MissingParam(missing.value))
    else if mistyped.Some? then GradeParameter(env, t, BadParam(mistyped.value))
    else if unknown.Some? then Skip(unknown.value)
    else if violated.Some? then GradeViolation(env, t, violated.value)
    else GradeHolds(t, First(UnknownKey(env.lower, s.stateFields), t.stateAfter))
  }

  method RunSingleTest(env: Env, s: Schema, intentMap: map<string, nat>, t: TestCase) returns (r: Outcome)
    requires intentMap == Lookup(env.lower, IntentNames(s.intents))
    ensures r == Verdict(env, s, t)
  {
    hide First, Lookup, GradeUnknownIntent, GradeParameter, GradeViolation, GradeHolds;
    if env.lower(t.intent) !in intentMap { return GradeUnknownIntent(env, t); }
    var intent := s.intents[intentMap[env.lower(t.intent)]];
    var missing := FindFirst(MissingFrom(t.params), intent.params);
    if missing.Some? { return GradeParameter(env, t, MissingParam(missing.value)); }
    var mistyped := FindFirst(Mistyped(env.lower, intent.params), t.params);
    if mistyped.Some? { return GradeParameter(env, t, BadParam(mistyped.value)); }
    var unknown := FindFirst(UnknownKey(env.lower, s.stateFields), t.stateBefore);
    if unknown.Some? { return Skip(unknown.value); }
    var violated := EvaluateConstraints(env, intent, t, s.constraints);
    if violated.Some? { return GradeViolation(env, t, violated.value); }
    var after := FindFirst(UnknownKey(env.lower, s.stateFields), t.stateAfter);
    return GradeHolds(t, after);
  }

  datatype Summary = Summary(total: nat, passed: nat, failed: nat, skipped: nat, results: seq<Outcome>)

  predicate IsPass(o: Outcome) { o.Pass? }

  predicate IsFail(o: Outcome) { o.Fail? }

  function Count(results: seq<Outcome>, kind: Outcome -> bool): nat {
    if results == [] then 0
    else Count(results[..|results| - 1], kind) + (if kind(results[|results| - 1]) then 1 else 0)
  }

  function Where(results: seq<Outcome>, kind: Outcome -> bool): set<nat> {
    set i: nat | i < |results| && kind(results[i])
  }

  /** The number of results of a kind. */
  lemma {:induction false} CountIs(results: seq<Outcome>, kind: Outcome -> bool)
    ensures Count(results, kind) == |Where(results, kind)|
  {
    if results == [] {
      assert Where(results, kind) == {};
    } else {
      var n, less := |results| - 1, results[..|results| - 1];
      CountIs(less, kind);
      assert Where(results, kind) == Where(less, kind) + if kind(results[n]) then {n} else {};
    }
  }

  /** Every test is graded once and counted in exactly one of the three counters. */
  method RunTests(env: Env, s: Schema, tests: seq<TestCase>) returns (r: Summary)
    ensures |r.results| == |tests| && forall i :: 0 <= i < |tests| ==> r.results[i] == Verdict(env, s, tests[i])
    ensures r.passed == Count(r.results, IsPass) && r.failed == Count(r.results, IsFail)
    ensures r.total == |tests| && r.passed + r.failed + r.skipped == r.total
    ensures r.failed == 0 <==> forall i :: 0 <= i < |tests| ==> !Verdict(env, s, tests[i]).Fail?
  {
    hide Verdict, Lookup;
    var results, passed, failed, skipped := [], 0, 0, 0;
    var intentMap := Lookup(env.lower, IntentNames(s.intents));
    for i := 0 to |tests|
      invariant |results| == i && forall k :: 0 <= k < i ==> results[k] == Verdict(env, s, tests[k])
      invariant passed == Count(results, IsPass) && failed == Count(results, IsFail)
      invariant passed + failed + skipped == i
      invariant failed == 0 <==> forall k :: 0 <= k < i ==> !results[k].Fail?
    {
      var outcome := RunSingleTest(env, s, intentMap, tests[i]);
      match outcome {
        case Pass => passed := passed + 1;
        case Fail(_) => failed := failed + 1;
        case Skip(_) => skipped := skipped + 1;
      }
      assert (results + [outcome])[..i] == results;
      results := results + [outcome];
    }
    return Summary(|results|, passed, failed, skipped, results);
  }

  // --- What a passing test means --------------------------------------------------------------------

  /** The value fits the last parameter of this name up to case. */
  ghost predicate Typed(lower: string -> string, defs: seq<ParamDef>, name: string, v: Json) {
    forall i :: 0 <= i < |defs| && lower(defs[i].name) == lower(name) ==>
      ValueFits(v, defs[i].paramType) || RepeatedBelow(lower, defs, i)
  }

  /** A later parameter has the same name up to case. */
  ghost predicate RepeatedBelow(lower: string -> string, defs: seq<ParamDef>, i: int) {
    exists j :: 0 <= i < j < |defs| && lower(defs[j].name) == lower(defs[i].name)
  }

  ghost predicate Given(params: seq<ParamDef>, given: Fields) {
    forall p :: p in params && p.required ==> Has(given, p.name)
  }

  ghost predicate Accepts(env: Env, s: Schema, t: TestCase, intent: IntentSchema) {
    Given(intent.params, t.params) && forall p :: p in t.params ==> Typed(env.lower, intent.params, p.0, p.1)
  }

  lemma MistypedIff(lower: string -> string, defs: seq<ParamDef>, p: (string, Json))
    ensures Mistyped(lower, defs)(p) == if Typed(lower, defs, p.0, p.1) then None else Some(p.0)
  {
    var names, key := ParamNames(defs), lower(p.0);
    LookupIsLast(lower, names, key);
    var m := Lookup(lower, names);
    hide Lookup, ValueFits;
    if key in m {
      assert lower(defs[m[key]].name) == lower(names[m[key]]) == key;
      assert !RepeatedBelow(lower, defs, m[key]);
      forall i | 0 <= i < |defs| && lower(defs[i].name) == key ensures i == m[key] || RepeatedBelow(lower, defs, i) {
        assert lower(names[i]) == key;
        assert i < m[key] ==> lower(defs[m[key]].name) == lower(defs[i].name);
      }
    } else {
      assert forall i :: 0 <= i < |defs| ==> lower(names[i]) != key;
    }
  }

  ghost predicate KnownKeys(lower: string -> string, state: Fields, fields: seq<StateField>) {
    forall p :: p in state ==> Names(lower, FieldNames(fields), p.0)
  }

  ghost predicate Resolves(env: Env, s: Schema, t: TestCase, i: nat) {
    i < |s.intents| && LinearSearch(env.lower, IntentNames(s.intents), t.intent, 0) == Some(i)
  }

  lemma NoUnknownIff(lower: string -> string, fields: seq<StateField>, state: Fields)
    ensures First(UnknownKey(lower, fields), state).None? <==> KnownKeys(lower, state, fields)
  {
    var names := FieldNames(fields);
    FirstIff(UnknownKey(lower, fields), state);
    forall i | 0 <= i < |state|
      ensures UnknownKey(lower, fields)(state[i]).None? <==> Names(lower, names, state[i].0)
    {
      LookupIsLast(lower, names, lower(state[i].0));
    }
    hide First, Lookup, Names;
    assert forall i :: 0 <= i < |state| ==> state[i] in state;
  }

  lemma NoBadParameterIff(env: Env, s: Schema, t: TestCase, intent: IntentSchema)
    ensures First(MissingFrom(t.params), intent.params).None? && First(Mistyped(env.lower, intent.params), t.params).None?
      <==> Accepts(env, s, t, intent)
  {
    forall p { MistypedIff(env.lower, intent.params, p); }
    NoMissingIff(t, intent);
    hide Typed, Mistyped, Given, MissingFrom;
    FirstIff(Mistyped(env.lower, intent.params), t.params);
    hide First;
    assert forall i :: 0 <= i < |t.params| ==> t.params[i] in t.params;
  }

  lemma NoMissingIff(t: TestCase, intent: IntentSchema)
    ensures First(MissingFrom(t.params), intent.params).None? <==> Given(intent.params, t.params)
  {
    FirstIff(MissingFrom(t.params), intent.params);
    hide First, Has;
    assert forall i :: 0 <= i < |intent.params| ==> intent.params[i] in intent.params;
  }

  /** A test that expects success passes exactly when the intent resolves, its parameters fit, the
      state keys are known before and after, and every applicable constraint holds. */
  lemma ExpectValidPassIff(env: Env, s: Schema, t: TestCase)
    requires WellFormed(env.lower, s) && t.expectValid
    ensures Verdict(env, s, t).Pass? <==> exists i: nat ::
      && Resolves(env, s, t, i) && Accepts(env, s, t, s.intents[i])
      && KnownKeys(env.lower, t.stateBefore, s.stateFields) && KnownKeys(env.lower, t.stateAfter, s.stateFields)
      && AllHold(env.lower, s.intents[i], t, s.constraints)
  {
    WellFormedLookupsAgree(env.lower, s, t.intent);
    hide WellFormed;
    var found := LinearSearch(env.lower, IntentNames(s.intents), t.intent, 0);
    if found.Some? {
      LinearSearchIsFirst(env.lower, IntentNames(s.intents), t.intent, 0);
      ExpectValidIntent(env, s, t, s.intents[found.value]);
      assert Resolves(env, s, t, found.value);
    }
    hide IntentVerdict, Accepts, KnownKeys, AllHold, Lookup, LinearSearch;
  }

  lemma ExpectValidIntent(env: Env, s: Schema, t: TestCase, intent: IntentSchema)
    requires t.expectValid
    ensures IntentVerdict(env, s, t, intent).Pass? <==>
      && Accepts(env, s, t, intent)
      && KnownKeys(env.lower, t.stateBefore, s.stateFields) && KnownKeys(env.lower, t.stateAfter, s.stateFields)
      && AllHold(env.lower, intent, t, s.constraints)
  {
    NoBadParameterIff(env, s, t, intent);
    NoUnknownIff(env.lower, s.stateFields, t.stateBefore);
    NoUnknownIff(env.lower, s.stateFields, t.stateAfter);
    NoViolationIff(env.lower, intent, t, s.constraints);
    hide First, Accepts, KnownKeys, AllHold, MissingFrom, Mistyped, UnknownKey, Violation;
  }

  /** The failure of the first element that has one. */
  ghost predicate FirstFailure<A, B>(f: A -> Option<B>, s: seq<A>, failure: B) {
    exists i :: 0 <= i < |s| && f(s[i]) == Some(failure) && forall j :: 0 <= j < i ==> f(s[j]).None?
  }

  lemma FirstFailureIff<A, B>(f: A -> Option<B>, s: seq<A>, failure: B)
    ensures First(f, s) == Some(failure) <==> FirstFailure(f, s, failure)
  {
    FirstIff(f, s);
    hide First;
    if FirstFailure(f, s, failure) {
      var i :| 0 <= i < |s| && f(s[i]) == Some(failure) && forall j :: 0 <= j < i ==> f(s[j]).None?;
      assert First(f, s).Some?;
      var k :| 0 <= k < |s| && f(s[k]) == First(f, s) && forall j :: 0 <= j < k ==> f(s[j]).None?;
      assert i == k;
    }
  }

  /** The first required parameter that is not given. */
  ghost predicate FirstMissing(params: seq<ParamDef>, given: Fields, name: string) {
    exists i :: 0 <= i < |params| && params[i].name == name && params[i].required && !Has(given, name)
      && Given(params[..i], given)
  }

  /** The first given value that does not fit. */
  ghost predicate FirstMistyped(lower: string -> string, defs: seq<ParamDef>, given: Fields, name: string) {
    exists i :: 0 <= i < |given| && given[i].0 == name && !Typed(lower, defs, name, given[i].1)
      && forall j :: 0 <= j < i ==> Typed(lower, defs, given[j].0, given[j].1)
  }

  /** The first constraint that concerns the intent and does not hold. */
  ghost predicate FirstViolated(
      lower: string -> string, intent: IntentSchema, t: TestCase, constraints: seq<Constraint>, c: Constraint) {
    exists i :: 0 <= i < |constraints| && constraints[i] == c && Concerns(lower, c, intent) && !Holds(c, t)
      && AllHold(lower, intent, t, constraints[..i])
  }

  /** The first key that is no state field. */
  ghost predicate FirstUnknown(lower: string -> string, fields: seq<StateField>, state: Fields, key: string) {
    exists i :: 0 <= i < |state| && state[i].0 == key && !Names(lower, FieldNames(fields), key)
      && KnownKeys(lower, state[..i], fields)
  }

  /** The failure that a test of the intent meets first: a missing parameter, a value that does not
      fit, or, with known keys before, a violated constraint. */
  ghost predicate Meets(env: Env, s: Schema, t: TestCase, intent: IntentSchema, f: Failure) {
    match f
    case MissingParam(name) => FirstMissing(intent.params, t.params, name)
    case BadParam(name) => Given(intent.params, t.params) && FirstMistyped(env.lower, intent.params, t.params, name)
    case Violated(c, cause) =>
      && Accepts(env, s, t, intent) && KnownKeys(env.lower, t.stateBefore, s.stateFields)
      && FirstViolated(env.lower, intent, t, s.constraints, c) && Evaluate(c, t) == Some(cause)
    case _ => false
  }

  lemma FirstMissingIff(params: seq<ParamDef>, given: Fields, name: string)
    ensures FirstFailure(MissingFrom(given), params, name) <==> FirstMissing(params, given, name)
  {
    hide Has;
    forall i | 0 <= i < |params|
      ensures Given(params[..i], given) <==> forall j :: 0 <= j < i ==> MissingFrom(given)(params[j]).None?
    {
      if forall j :: 0 <= j < i ==> MissingFrom(given)(params[j]).None? { PrefixGiven(params, given, i); }
      assert forall j :: 0 <= j < i ==> params[..i][j] == params[j] && params[j] in params[..i];
    }
    hide Given;
  }

  lemma PrefixGiven(params: seq<ParamDef>, given: Fields, i: nat)
    requires i <= |params| && forall j :: 0 <= j < i ==> MissingFrom(given)(params[j]).None?
    ensures Given(params[..i], given)
  {
    hide Has;
    forall p | p in params[..i] && p.required ensures Has(given, p.name) {
      var j :| 0 <= j < i && params[j] == p;
    }
  }

  lemma FirstMistypedIff(lower: string -> string, defs: seq<ParamDef>, given: Fields, name: string)
    ensures FirstFailure(Mistyped(lower, defs), given, name) <==> FirstMistyped(lower, defs, given, name)
  {
    forall p { MistypedIff(lower, defs, p); }
    hide Mistyped, Typed;
  }

  lemma FirstViolatedIff(lower: string -> string, intent: IntentSchema, t: TestCase, constraints: seq<Constraint>, c: Constraint, cause: Cause)
    ensures FirstFailure(Violation(lower, intent, t), constraints, Violated(c, cause))
       <==> FirstViolated(lower, intent, t, constraints, c) && Evaluate(c, t) == Some(cause)
  {
    forall d { ViolationIff(lower, intent, t, d); }
    forall i | 0 <= i < |constraints|
      ensures AllHold(lower, intent, t, constraints[..i]) <==> forall j :: 0 <= j < i ==> Violation(lower, intent, t)(constraints[j]).None?
    {
      NoViolationIff(lower, intent, t, constraints[..i]);
      FirstIff(Violation(lower, intent, t), constraints[..i]);
      assert forall j :: 0 <= j < i ==> constraints[..i][j] == constraints[j];
      hide First;
    }
    hide Violation, Concerns, Holds, Evaluate, AllHold;
  }

  lemma FirstUnknownIff(lower: string -> string, fields: seq<StateField>, state: Fields, key: string)
    ensures FirstFailure(UnknownKey(lower, fields), state, key) <==> FirstUnknown(lower, fields, state, key)
  {
    forall p: (string, Json) ensures UnknownKey(lower, fields)(p) == if Names(lower, FieldNames(fields), p.0) then None else Some(p.0) {
      LookupIsLast(lower, FieldNames(fields), lower(p.0));
      hide Lookup;
    }
    forall i | 0 <= i < |state|
      ensures KnownKeys(lower, state[..i], fields) <==> forall j :: 0 <= j < i ==> UnknownKey(lower, fields)(state[j]).None?
    {
      NoUnknownIff(lower, fields, state[..i]);
      FirstIff(UnknownKey(lower, fields), state[..i]);
      assert forall j :: 0 <= j < i ==> state[..i][j] == state[j];
      hide First;
    }
    hide UnknownKey, Names, KnownKeys;
  }

  /** Whether a failure carries the text asked for: letter case counts, except in a violated
      constraint, and an unknown intent has to be asked for by some text. */
  predicate AskedFor(env: Env, t: TestCase, f: Failure) {
    match f
    case UnknownIntent(_) => t.expectError != "" && Contains(env.render(f), t.expectError)
    case Violated(_, _) => t.expectError == "" || Contains(env.lower(env.render(f)), env.lower(t.expectError))
    case _ => t.expectError == "" || Contains(env.render(f), t.expectError)
  }

  /** The first failure a test meets: an unknown intent, or what the intent's own checks find. */
  ghost predicate Fails(env: Env, s: Schema, t: TestCase, f: Failure) {
    if forall i: nat :: !Resolves(env, s, t, i) then f == UnknownIntent(t.intent)
    else exists i: nat :: Resolves(env, s, t, i) && Meets(env, s, t, s.intents[i], f)
  }

  /** A test that expects a failure passes exactly when it meets one and the first that it meets
      carries the text asked for. */
  lemma ExpectInvalidPassIff(env: Env, s: Schema, t: TestCase)
    requires WellFormed(env.lower, s) && !t.expectValid
    ensures Verdict(env, s, t).Pass? <==> exists f :: Fails(env, s, t, f) && AskedFor(env, t, f)
  {
    ResolvedVerdict(env, s, t);
    hide Verdict, WellFormed, IntentVerdict, GradeUnknownIntent, Meets, AskedFor, Resolves;
    if i: nat :| Resolves(env, s, t, i) {
      ExpectInvalidIntent(env, s, t, s.intents[i]);
      forall f { FailsResolved(env, s, t, i, f); }
      hide Fails;
    } else {
      UnknownIntentPassIff(env, t);
      assert Fails(env, s, t, UnknownIntent(t.intent));
    }
  }

  /** The map finds the intent that a linear search does. */
  lemma ResolvedVerdict(env: Env, s: Schema, t: TestCase)
    requires WellFormed(env.lower, s)
    ensures forall i: nat :: Resolves(env, s, t, i) ==>
      i < |s.intents| && Verdict(env, s, t) == IntentVerdict(env, s, t, s.intents[i])
    ensures (forall i: nat :: !Resolves(env, s, t, i)) ==> Verdict(env, s, t) == GradeUnknownIntent(env, t)
  {
    WellFormedLookupsAgree(env.lower, s, t.intent);
    hide WellFormed;
    var found := LinearSearch(env.lower, IntentNames(s.intents), t.intent, 0);
    LinearSearchIsFirst(env.lower, IntentNames(s.intents), t.intent, 0);
    if found.Some? { assert Resolves(env, s, t, found.value); }
    hide IntentVerdict, GradeUnknownIntent, Lookup, LinearSearch;
  }

  lemma FailsResolved(env: Env, s: Schema, t: TestCase, i: nat, f: Failure)
    requires Resolves(env, s, t, i)
    ensures Fails(env, s, t, f) <==> Meets(env, s, t, s.intents[i], f)
  {
    hide Meets, LinearSearch, IntentNames;
  }

  lemma UnknownIntentPassIff(env: Env, t: TestCase)
    requires !t.expectValid
    ensures GradeUnknownIntent(env, t).Pass? <==> AskedFor(env, t, UnknownIntent(t.intent))
  {}

  lemma ExpectInvalidIntent(env: Env, s: Schema, t: TestCase, intent: IntentSchema)
    requires !t.expectValid
    ensures IntentVerdict(env, s, t, intent).Pass? <==> exists f :: Meets(env, s, t, intent, f) && AskedFor(env, t, f)
  {
    var found := FoundFirst(env, s, t, intent);
    GradedByFound(env, s, t, intent);
    forall f ensures Meets(env, s, t, intent, f) <==> found == Some(f) { MeetsIff(env, s, t, intent, f); }
    hide Meets, FoundFirst, IntentVerdict, AskedFor;
    if found.Some? { assert Meets(env, s, t, intent, found.value); }
  }

  lemma GradedByFound(env: Env, s: Schema, t: TestCase, intent: IntentSchema)
    requires !t.expectValid
    ensures var found := FoundFirst(env, s, t, intent);
      IntentVerdict(env, s, t, intent).Pass? <==> found.Some? && AskedFor(env, t, found.value)
  {
    OnlyViolations(env.lower, intent, t, s.constraints);
    hide First, MissingFrom, Mistyped, UnknownKey, Violation, Contains;
  }

  function FoundFirst(env: Env, s: Schema, t: TestCase, intent: IntentSchema): Option<Failure> {
    var missing := First(MissingFrom(t.params), intent.params);
    var mistyped := First(Mistyped(env.lower, intent.params), t.params);
    if missing.Some? then Some(MissingParam(missing.value))
    else if mistyped.Some? then Some(BadParam(mistyped.value))
    else if First(UnknownKey(env.lower, s.stateFields), t.stateBefore).Some? then None
    else First(Violation(env.lower, intent, t), s.constraints)
  }

  lemma MeetsIff(env: Env, s: Schema, t: TestCase, intent: IntentSchema, f: Failure)
    ensures Meets(env, s, t, intent, f) <==> FoundFirst(env, s, t, intent) == Some(f)
  {
    NoBadParameterIff(env, s, t, intent);
    NoMissingIff(t, intent);
    NoUnknownIff(env.lower, s.stateFields, t.stateBefore);
    OnlyViolations(env.lower, intent, t, s.constraints);
    if f.MissingParam? {
      FirstFailureIff(MissingFrom(t.params), intent.params, f.name);
      FirstMissingIff(intent.params, t.params, f.name);
    }
    if f.BadParam? {
      FirstFailureIff(Mistyped(env.lower, intent.params), t.params, f.name);
      FirstMistypedIff(env.lower, intent.params, t.params, f.name);
    }
    if f.Violated? {
      FirstFailureIff(Violation(env.lower, intent, t), s.constraints, f);
      FirstViolatedIff(env.lower, intent, t, s.constraints, f.c, f.cause);
    }
    hide First, FirstFailure, Accepts, KnownKeys, MissingFrom, Mistyped, UnknownKey, Violation, Given, Evaluate;
    hide FirstMissing, FirstMistyped, FirstViolated;
  }

  lemma OnlyViolations(lower: string -> string, intent: IntentSchema, t: TestCase, constraints: seq<Constraint>)
    ensures var r := First(Violation(lower, intent, t), constraints); r.Some? ==> r.value.Violated?
  {
    FirstIff(Violation(lower, intent, t), constraints);
    hide First, Applies, Evaluate;
  }

  /** A test is skipped exactly when its intent and parameters are fine and its state before has an
      unknown key, whatever it expects; the first such key is named. */
  lemma SkipIff(env: Env, s: Schema, t: TestCase, key: string)
    requires WellFormed(env.lower, s)
    ensures Verdict(env, s, t) == Skip(key) <==> exists i: nat ::
      && Resolves(env, s, t, i) && Accepts(env, s, t, s.intents[i])
      && FirstUnknown(env.lower, s.stateFields, t.stateBefore, key)
  {
    ResolvedVerdict(env, s, t);
    hide Verdict, WellFormed, GradeUnknownIntent, Resolves;
    forall intent: IntentSchema
      ensures IntentVerdict(env, s, t, intent) == Skip(key) <==>
        Accepts(env, s, t, intent) && FirstUnknown(env.lower, s.stateFields, t.stateBefore, key)
    {
      SkipIntent(env, s, t, intent, key);
    }
    GradeNeverSkips(env, t);
    hide Accepts, FirstUnknown, IntentVerdict;
  }

  lemma GradeNeverSkips(env: Env, t: TestCase)
    ensures !GradeUnknownIntent(env, t).Skip?
  {}

  lemma SkipIntent(env: Env, s: Schema, t: TestCase, intent: IntentSchema, key: string)
    ensures IntentVerdict(env, s, t, intent) == Skip(key) <==>
      Accepts(env, s, t, intent) && FirstUnknown(env.lower, s.stateFields, t.stateBefore, key)
  {
    NoBadParameterIff(env, s, t, intent);
    FirstFailureIff(UnknownKey(env.lower, s.stateFields), t.stateBefore, key);
    FirstUnknownIff(env.lower, s.stateFields, t.stateBefore, key);
    hide First, FirstFailure, FirstUnknown, Accepts, MissingFrom, Mistyped, UnknownKey, Violation, Contains;
  }

  /** The reason of a failed test: the first failure it meets, unless that was asked for; otherwise an
      unknown key after, or that nothing failed although a failure was expected. */
  ghost predicate FailsFor(env: Env, s: Schema, t: TestCase, f: Failure) {
    match f
    case UnknownAfter(key) =>
      && t.expectValid && (exists i: nat :: Resolves(env, s, t, i) && Undisturbed(env, s, t, s.intents[i]))
      && FirstUnknown(env.lower, s.stateFields, t.stateAfter, key)
    case NothingViolated => !t.expectValid && exists i: nat :: Resolves(env, s, t, i) && Undisturbed(env, s, t, s.intents[i])
    case _ => Fails(env, s, t, f) && (t.expectValid || !AskedFor(env, t, f))
  }

  /** Parameters, keys before and constraints are all fine. */
  ghost predicate Undisturbed(env: Env, s: Schema, t: TestCase, intent: IntentSchema) {
    && Accepts(env, s, t, intent) && KnownKeys(env.lower, t.stateBefore, s.stateFields)
    && AllHold(env.lower, intent, t, s.constraints)
  }

  lemma FailIff(env: Env, s: Schema, t: TestCase, f: Failure)
    requires WellFormed(env.lower, s)
    ensures Verdict(env, s, t) == Fail(f) <==> FailsFor(env, s, t, f)
  {
    ResolvedVerdict(env, s, t);
    if i: nat :| Resolves(env, s, t, i) {
      ResolvesOnce(env, s, t, i);
      FailIntent(env, s, t, s.intents[i], f);
      FailsResolved(env, s, t, i, f);
      hide Verdict, WellFormed, Resolves, IntentVerdict, Fails, AskedFor, FirstUnknown, Undisturbed, Meets;
    } else {
      UnresolvedFails(env, s, t, f);
      hide Verdict, WellFormed, Resolves, Fails, AskedFor, FirstUnknown, Undisturbed, GradeUnknownIntent;
    }
  }

  lemma ResolvesOnce(env: Env, s: Schema, t: TestCase, i: nat)
    requires Resolves(env, s, t, i)
    ensures forall j: nat :: Resolves(env, s, t, j) ==> j == i
  {}

  lemma UnresolvedFails(env: Env, s: Schema, t: TestCase, f: Failure)
    requires forall i: nat :: !Resolves(env, s, t, i)
    ensures Fails(env, s, t, f) <==> f == UnknownIntent(t.intent)
    ensures GradeUnknownIntent(env, t) == Fail(f) <==>
      f == UnknownIntent(t.intent) && (t.expectValid || !AskedFor(env, t, f))
  {
    hide Resolves, Contains;
  }

  lemma FailIntent(env: Env, s: Schema, t: TestCase, intent: IntentSchema, f: Failure)
    ensures IntentVerdict(env, s, t, intent) == Fail(f) <==>
      match f
      case UnknownAfter(key) =>
        t.expectValid && Undisturbed(env, s, t, intent) && FirstUnknown(env.lower, s.stateFields, t.stateAfter, key)
      case NothingViolated => !t.expectValid && Undisturbed(env, s, t, intent)
      case _ => Meets(env, s, t, intent, f) && (t.expectValid || !AskedFor(env, t, f))
  {
    MeetsIff(env, s, t, intent, f);
    NoBadParameterIff(env, s, t, intent);
    NoUnknownIff(env.lower, s.stateFields, t.stateBefore);
    NoViolationIff(env.lower, intent, t, s.constraints);
    OnlyViolations(env.lower, intent, t, s.constraints);
    if f.UnknownAfter? {
      FirstFailureIff(UnknownKey(env.lower, s.stateFields), t.stateAfter, f.key);
      FirstUnknownIff(env.lower, s.stateFields, t.stateAfter, f.key);
    }
    hide First, FirstFailure, Accepts, KnownKeys, AllHold, MissingFrom, Mistyped, UnknownKey, Violation, Contains, Meets;
    hide FirstUnknown;
  }

  /** When any failure will do: exactly when the intent resolves and either a parameter does not fit
      or, with known keys before, some applicable constraint fails. */
  lemma ExpectAnyFailurePassIff(env: Env, s: Schema, t: TestCase)
    requires WellFormed(env.lower, s) && !t.expectValid && t.expectError == ""
    ensures Verdict(env, s, t).Pass? <==> exists i: nat ::
      && Resolves(env, s, t, i)
      && (Accepts(env, s, t, s.intents[i]) ==>
            && KnownKeys(env.lower, t.stateBefore, s.stateFields)
            && !AllHold(env.lower, s.intents[i], t, s.constraints))
  {
    WellFormedLookupsAgree(env.lower, s, t.intent);
    hide WellFormed;
    var found := LinearSearch(env.lower, IntentNames(s.intents), t.intent, 0);
    if found.Some? {
      LinearSearchIsFirst(env.lower, IntentNames(s.intents), t.intent, 0);
      ExpectAnyFailureIntent(env, s, t, s.intents[found.value]);
      assert Resolves(env, s, t, found.value);
    }
    hide IntentVerdict, Accepts, KnownKeys, AllHold, Lookup, LinearSearch;
  }

  lemma ExpectAnyFailureIntent(env: Env, s: Schema, t: TestCase, intent: IntentSchema)
    requires !t.expectValid && t.expectError == ""
    ensures IntentVerdict(env, s, t, intent).Pass? <==>
      (Accepts(env, s, t, intent) ==>
         && KnownKeys(env.lower, t.stateBefore, s.stateFields)
         && !AllHold(env.lower, intent, t, s.constraints))
  {
    NoBadParameterIff(env, s, t, intent);
    NoUnknownIff(env.lower, s.stateFields, t.stateBefore);
    NoViolationIff(env.lower, intent, t, s.constraints);
    hide First, Accepts, KnownKeys, AllHold, MissingFrom, Mistyped, UnknownKey, Violation;
  }

  /** The order (and repetition) of the constraints does not change whether a test passes, fails or
      is skipped, unless the test asks for the text of one particular error. */
  lemma VerdictIgnoresOrder(env: Env, s: Schema, constraints: seq<Constraint>, t: TestCase)
    requires forall c :: c in constraints <==> c in s.constraints
    requires t.expectValid || t.expectError == ""
    ensures var a, b := Verdict(env, s, t), Verdict(env, s.(constraints := constraints), t);
      (a.Pass? <==> b.Pass?) && (a.Fail? <==> b.Fail?) && (a.Skip? <==> b.Skip?)
  {
    var m := Lookup(env.lower, IntentNames(s.intents));
    if env.lower(t.intent) in m {
      var intent := s.intents[m[env.lower(t.intent)]];
      NoViolationIff(env.lower, intent, t, s.constraints);
      NoViolationIff(env.lower, intent, t, constraints);
      hide Evaluate, Applies, Violation, First, MissingFrom, Mistyped, UnknownKey, Lookup;
    }
  }

  // --- When the order matters -------------------------------------------------------------------

  predicate Matches(env: Env, t: TestCase, f: Failure) {
    Contains(env.lower(env.render(f)), env.lower(t.expectError))
  }

  predicate SameKind(a: Outcome, b: Outcome) {
    (a.Pass? <==> b.Pass?) && (a.Fail? <==> b.Fail?) && (a.Skip? <==> b.Skip?)
  }

  ghost predicate SameUnder(env: Env, s: Schema, t: TestCase, constraints: seq<Constraint>) {
    multiset(constraints) == multiset(s.constraints) ==>
      SameKind(Verdict(env, s, t), Verdict(env, s.(constraints := constraints), t))
  }

  ghost predicate OrderIndependent(env: Env, s: Schema, t: TestCase) {
    forall constraints: seq<Constraint> :: SameUnder(env, s, t, constraints)
  }

  /** The intent resolves, its parameters fit and the state keys are known. */
  predicate ReachesConstraints(env: Env, s: Schema, t: TestCase) {
    var m := Lookup(env.lower, IntentNames(s.intents));
    env.lower(t.intent) in m &&
    (var intent := s.intents[m[env.lower(t.intent)]];
     && First(MissingFrom(t.params), intent.params).None?
     && First(Mistyped(env.lower, intent.params), t.params).None?
     && First(UnknownKey(env.lower, s.stateFields), t.stateBefore).None?)
  }

  function Violations(env: Env, s: Schema, t: TestCase): Constraint -> Option<Failure>
    requires ReachesConstraints(env, s, t)
  {
    Violation(env.lower, s.intents[Lookup(env.lower, IntentNames(s.intents))[env.lower(t.intent)]], t)
  }

  /** All or none of the violated constraints' messages contain the text asked for. */
  ghost predicate Uniform(env: Env, s: Schema, t: TestCase)
    requires ReachesConstraints(env, s, t)
  {
    var violation := Violations(env, s, t);
    forall c, d :: c in s.constraints && d in s.constraints && violation(c).Some? && violation(d).Some? ==>
      (Matches(env, t, violation(c).value) <==> Matches(env, t, violation(d).value))
  }

  lemma FirstIsViolation(env: Env, s: Schema, t: TestCase, constraints: seq<Constraint>) returns (c: Constraint)
    requires ReachesConstraints(env, s, t) && First(Violations(env, s, t), constraints).Some?
    ensures c in constraints && Violations(env, s, t)(c) == First(Violations(env, s, t), constraints)
  {
    hide Violations, ReachesConstraints;
    FirstIff(Violations(env, s, t), constraints);
    var i :| 0 <= i < |constraints| && Violations(env, s, t)(constraints[i]) == First(Violations(env, s, t), constraints);
    c := constraints[i];
  }

  /** The verdict once the constraints are reached. */
  lemma ReachedVerdict(env: Env, s: Schema, t: TestCase, constraints: seq<Constraint>)
    requires ReachesConstraints(env, s, t)
    ensures var violated, out := First(Violations(env, s, t), constraints), Verdict(env, s.(constraints := constraints), t);
      out == if violated.Some? then GradeViolation(env, t, violated.value)
             else GradeHolds(t, First(UnknownKey(env.lower, s.stateFields), t.stateAfter))
  {
    hide First, Lookup, GradeViolation, GradeHolds, MissingFrom, Mistyped, UnknownKey, Violation;
  }

  lemma UniformIgnoresOrder(env: Env, s: Schema, t: TestCase, constraints: seq<Constraint>)
    requires ReachesConstraints(env, s, t) && Uniform(env, s, t)
    requires forall c :: c in constraints <==> c in s.constraints
    ensures SameKind(Verdict(env, s, t), Verdict(env, s.(constraints := constraints), t))
  {
    ReachedVerdict(env, s, t, s.constraints);
    ReachedVerdict(env, s, t, constraints);
    assert s.(constraints := s.constraints) == s;
    var violation := Violations(env, s, t);
    hide Verdict, Violations, ReachesConstraints;
    FirstIff(violation, s.constraints);
    FirstIff(violation, constraints);
    hide First;
    if First(violation, s.constraints).Some? && First(violation, constraints).Some? {
      var c := FirstIsViolation(env, s, t, s.constraints);
      var d := FirstIsViolation(env, s, t, constraints);
    } else {
      SameViolated(violation, s.constraints, constraints);
    }
  }

  lemma SameViolated(violation: Constraint -> Option<Failure>, a: seq<Constraint>, b: seq<Constraint>)
    requires forall c :: c in a <==> c in b
    ensures First(violation, a).Some? <==> First(violation, b).Some?
  {
    FirstIff(violation, a);
    FirstIff(violation, b);
    hide First;
    forall i | 0 <= i < |a| ensures exists j :: 0 <= j < |b| && b[j] == a[i] { assert a[i] in b; }
    forall j | 0 <= j < |b| ensures exists i :: 0 <= i < |a| && a[i] == b[j] { assert b[j] in a; }
  }

  lemma MoveToFront(constraints: seq<Constraint>, c: Constraint) returns (moved: seq<Constraint>)
    requires c in constraints
    ensures multiset(moved) == multiset(constraints) && moved != [] && moved[0] == c
  {
    var i :| 0 <= i < |constraints| && constraints[i] == c;
    moved := [c] + constraints[..i] + constraints[i + 1..];
    assert constraints == constraints[..i] + [c] + constraints[i + 1..];
  }

  lemma FrontDecides(env: Env, s: Schema, t: TestCase, c: Constraint) returns (moved: seq<Constraint>)
    requires ReachesConstraints(env, s, t) && c in s.constraints && Violations(env, s, t)(c).Some?
    requires !t.expectValid && t.expectError != ""
    ensures multiset(moved) == multiset(s.constraints)
    ensures var out := Verdict(env, s.(constraints := moved), t);
      (out.Pass? <==> Matches(env, t, Violations(env, s, t)(c).value)) && (out.Fail? <==> !out.Pass?)
  {
    moved := MoveToFront(s.constraints, c);
    ReachedVerdict(env, s, t, moved);
    hide Verdict, Violations, ReachesConstraints;
    assert First(Violations(env, s, t), moved) == Violations(env, s, t)(c);
  }

  /** Exactly when the order of the constraints cannot change whether a test passes, fails or is
      skipped: it asks for no particular error text, the constraints are not reached, or all or none
      of the violated constraints' messages contain the text. */
  lemma OrderIndependentIff(env: Env, s: Schema, t: TestCase)
    ensures OrderIndependent(env, s, t) <==>
      t.expectValid || t.expectError == "" || !ReachesConstraints(env, s, t) || Uniform(env, s, t)
  {
    if t.expectValid || t.expectError == "" || !ReachesConstraints(env, s, t) || Uniform(env, s, t) {
      forall constraints: seq<Constraint> ensures SameUnder(env, s, t, constraints) {
        if multiset(constraints) == multiset(s.constraints) { OneReordering(env, s, t, constraints); }
      }
    } else {
      var violation := Violations(env, s, t);
      var c, d :| c in s.constraints && d in s.constraints && violation(c).Some? && violation(d).Some?
        && Matches(env, t, violation(c).value) && !Matches(env, t, violation(d).value);
      hide Verdict, Violations, ReachesConstraints, Matches, Uniform;
      var a := FrontDecides(env, s, t, c);
      var b := FrontDecides(env, s, t, d);
      assert !SameUnder(env, s, t, a) || !SameUnder(env, s, t, b);
    }
  }

  lemma OneReordering(env: Env, s: Schema, t: TestCase, constraints: seq<Constraint>)
    requires multiset(constraints) == multiset(s.constraints)
    requires t.expectValid || t.expectError == "" || !ReachesConstraints(env, s, t) || Uniform(env, s, t)
    ensures SameKind(Verdict(env, s, t), Verdict(env, s.(constraints := constraints), t))
  {
    hide Verdict, Uniform, ReachesConstraints;
    forall c ensures c in constraints <==> c in s.constraints {
      assert c in multiset(constraints) <==> c in multiset(s.constraints);
    }
    if t.expectValid || t.expectError == "" {
      VerdictIgnoresOrder(env, s, constraints, t);
    } else if ReachesConstraints(env, s, t) {
      UniformIgnoresOrder(env, s, t, constraints);
    } else {
      UnreachedIgnoresOrder(env, s, t, constraints);
    }
  }

  lemma UnreachedIgnoresOrder(env: Env, s: Schema, t: TestCase, constraints: seq<Constraint>)
    requires !ReachesConstraints(env, s, t)
    ensures Verdict(env, s, t) == Verdict(env, s.(constraints := constraints), t)
  {
    hide First, Lookup, GradeUnknownIntent, GradeParameter, GradeViolation, GradeHolds, MissingFrom, Mistyped, UnknownKey, Violation;
  }

  // --- A case in which it does ----------------------------------------------------------------------

  /** A constraint that no epoch satisfies. */
  function Never(name: string): Constraint {
    Constraint(name, TimeCheck, [("op", Str("lt")), ("value", Num(Integer(0)))], [])
  }

  const PLAIN_ENV := Env((x: string) => x, (f: Failure) => if f.Violated? then f.c.name else "")
  const TWO_CHECKS := Schema(
    "c", "1", "", [IntentSchema("go", "", [], [], [])], [], [Never("a"), Never("b")], 1, 1)
  const ASKS_FOR_A := TestCase("", "go", [], "", 1, [], [], false, "a")

  lemma NeverFails(name: string)
    ensures Evaluate(Never(name), ASKS_FOR_A) == Some(EpochFails(1, "lt", 0))
    ensures TextAt(Never(name).params, "op") == Some("lt") && Has(Never(name).params, "value")
  {
    var params := Never(name).params;
    assert params[1..] == [("value", Num(Integer(0)))];
    assert "op"[0] != "value"[0];
    assert "lt"[0] == 'l' && "gte"[0] == 'g' && "lte" != "lt" && "gt"[0] == 'g';
  }

  lemma TwoChecksWellFormed()
    ensures WellFormed(PLAIN_ENV.lower, TWO_CHECKS)
  {
    ChecksWellFormed();
    assert IntentNames(TWO_CHECKS.intents) == ["go"];
    hide ConstraintsOk, Never;
  }

  lemma ChecksWellFormed()
    ensures ConstraintsOk(PLAIN_ENV.lower, [Never("a"), Never("b")], [])
  {
    NeverFails("a");
    NeverFails("b");
    assert "a"[0] != "b"[0];
    assert ConstraintNames([Never("a"), Never("b")]) == ["a", "b"];
    hide Get, Evaluate;
  }

  lemma AskedForA(name: string, cause: Cause)
    ensures Matches(PLAIN_ENV, ASKS_FOR_A, Violated(Never(name), cause)) <==> Contains(name, "a")
  {
    hide Contains;
  }

  lemma ContainsA()
    ensures Contains("a", "a") && !Contains("b", "a")
  {
    assert "b"[1..] == "" && "b"[0] != "a"[0];
  }

  lemma TwoChecksReached()
    ensures ReachesConstraints(PLAIN_ENV, TWO_CHECKS, ASKS_FOR_A)
    ensures forall name: string ::
      (Violations(PLAIN_ENV, TWO_CHECKS, ASKS_FOR_A)(Never(name)) == Some(Violated(Never(name), EpochFails(1, "lt", 0))))
  {
    LookupIsLast(PLAIN_ENV.lower, ["go"], "go");
    assert IntentNames(TWO_CHECKS.intents) == ["go"];
    forall name: string ensures Evaluate(Never(name), ASKS_FOR_A) == Some(EpochFails(1, "lt", 0)) { NeverFails(name); }
    hide Evaluate, Lookup;
  }

  /** Two constraints of a well-formed schema whose order decides whether a test passes. */
  lemma OrderCanMatter()
    ensures WellFormed(PLAIN_ENV.lower, TWO_CHECKS) && !OrderIndependent(PLAIN_ENV, TWO_CHECKS, ASKS_FOR_A)
  {
    hide WellFormed, OrderIndependent, Violations, ReachesConstraints, Matches, Contains, Uniform, Never;
    TwoChecksWellFormed();
    TwoChecksReached();
    OrderIndependentIff(PLAIN_ENV, TWO_CHECKS, ASKS_FOR_A);
    ContainsA();
    AskedForA("a", EpochFails(1, "lt", 0));
    AskedForA("b", EpochFails(1, "lt", 0));
    NotUniform(PLAIN_ENV, TWO_CHECKS, ASKS_FOR_A, Never("a"), Never("b"));
  }

  lemma NotUniform(env: Env, s: Schema, t: TestCase, c: Constraint, d: Constraint)
    requires ReachesConstraints(env, s, t) && c in s.constraints && d in s.constraints
    requires Violations(env, s, t)(c).Some? && Violations(env, s, t)(d).Some?
    requires Matches(env, t, Violations(env, s, t)(c).value) && !Matches(env, t, Violations(env, s, t)(d).value)
    ensures !Uniform(env, s, t)
  {
    hide Violations, Matches, ReachesConstraints;
  }
}
