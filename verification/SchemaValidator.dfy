/** The validation passes: each pushes messages into a shared list and remembers the names seen. The
    messages are exactly the defects of the schema, and the defects decide well-formedness. */
module SchemaValidator {
  import opened ContractSchema
  import opened IntegerMath
  import opened NumberTheory
  import opened Strings

  datatype Severity = Error | Warning

  datatype Location = Contract | Intent(i: nat) | Param(i: nat, j: nat) | Field(i: nat) | ConstraintAt(i: nat)

  datatype Reason =
    | EmptyName | InvalidName(name: string) | DuplicateName(name: string)
    | EmptyVersion | NotSemver(version: string) | NoIntents | ZeroGasLimit | ZeroStateLimit
    | BadDefault(value: string) | OddHexLength
    | MissingParam(key: string) | BadOperator(op: string) | UnknownField(name: string) | UnknownIntent(name: string)
    | NoStateFields | BareIntent

  /** The message text is represented by its reason. */
  datatype ValidationMessage = ValidationMessage(severity: Severity, location: Location, reason: Reason)

  class MessageList {
    var list: seq<ValidationMessage>

    constructor ()
      ensures list == []
    {
      list := [];
    }

    method Push(severity: Severity, location: Location, reason: Reason)
      modifies this
      ensures list == old(list) + [ValidationMessage(severity, location, reason)]
    {
      list := list + [ValidationMessage(severity, location, reason)];
    }
  }

  // --- The defects of a schema ----------------------------------------------------------------

  /** A name before the k-th is the same up to case. */
  ghost predicate Repeats(lower: string -> string, names: seq<string>, k: nat)
    requires k < |names|
  {
    names[k] != "" && exists j :: 0 <= j < k && names[j] != "" && lower(names[j]) == lower(names[k])
  }

  ghost predicate NameDefect(lower: string -> string, names: seq<string>, k: nat, reason: Reason)
    requires k < |names|
  {
    match reason
    case EmptyName => names[k] == ""
    case InvalidName(n) => n == names[k] && n != "" && !IsIdentifier(n)
    case DuplicateName(n) => n == names[k] && Repeats(lower, names, k)
    case _ => false
  }

  predicate ContractNameDefect(s: Schema, reason: Reason) {
    match reason
    case EmptyName => s.name == ""
    case InvalidName(n) => n == s.name && n != "" && !IsContractName(n)
    case _ => false
  }

  predicate VersionDefect(s: Schema, severity: Severity, reason: Reason) {
    match reason
    case EmptyVersion => severity.Error? && s.version == ""
    case NotSemver(v) => severity.Warning? && v == s.version && v != "" && !IsVersion(v)
    case _ => false
  }

  predicate LimitDefect(s: Schema, reason: Reason) {
    match reason
    case NoIntents => s.intents == []
    case ZeroGasLimit => s.maxGasPerCall == 0
    case ZeroStateLimit => s.maxStateBytes == 0
    case _ => false
  }

  predicate MetadataDefect(s: Schema, m: ValidationMessage) {
    && m.location.Contract?
    && (|| (m.severity.Error? && ContractNameDefect(s, m.reason))
        || VersionDefect(s, m.severity, m.reason)
        || (m.severity.Error? && LimitDefect(s, m.reason)))
  }

  /** In the parameters of the intent at a position, up to some parameter. */
  ghost predicate ParamsDefect(lower: string -> string, params: seq<ParamDef>, at: nat, upTo: nat, m: ValidationMessage) {
    && m.severity.Error? && m.location.Param? && m.location.i == at && m.location.j < upTo <= |params|
    && NameDefect(lower, ParamNames(params), m.location.j, m.reason)
  }

  ghost predicate IntentsDefect(lower: string -> string, intents: seq<IntentSchema>, upTo: nat, m: ValidationMessage) {
    && upTo <= |intents|
    && (|| (m.severity.Error? && m.location.Intent? && m.location.i < upTo
            && NameDefect(lower, IntentNames(intents), m.location.i, m.reason))
        || (m.location.Param? && m.location.i < upTo
            && ParamsDefect(lower, intents[m.location.i].params, m.location.i, |intents[m.location.i].params|, m)))
  }

  predicate DefaultDefect(f: StateField, reason: Reason) {
    && f.defaultValue.Some?
    && var s := f.defaultValue.value;
    && (reason == BadDefault(s) || (reason.OddHexLength? && f.fieldType.Bytes?))
    && match f.fieldType
       case Uint128 => ParseUnsigned(s, U128).None?
       case Address => s != "zero" && s != "sender" && !(ByteLength(s) == 64 && AllHex(s))
       case Bytes => if reason.OddHexLength? then ByteLength(s) % 2 == 1 else !AllHex(s)
       case Boolean => s != "true" && s != "false"
       case Text => false
  }

  ghost predicate FieldsDefect(lower: string -> string, fields: seq<StateField>, upTo: nat, m: ValidationMessage) {
    && upTo <= |fields| && m.severity.Error? && m.location.Field? && m.location.i < upTo
    && (NameDefect(lower, FieldNames(fields), m.location.i, m.reason) || DefaultDefect(fields[m.location.i], m.reason))
  }

  /** A name that is no operator. */
  ghost predicate OperatorDefect(c: Constraint, operators: seq<string>, reason: Reason) {
    if reason.BadOperator? then Get(c.params, "op") == Some(Str(reason.op)) && reason.op !in operators
    else reason == MissingParam("op") && !Has(c.params, "op")
  }

  ghost predicate ConstraintParamsDefect(
      lower: string -> string, c: Constraint, fields: seq<StateField>, severity: Severity, reason: Reason)
  {
    match c.constraintType
    case BalanceCheck =>
      || (severity.Error? && reason == MissingParam("asset") && !Has(c.params, "asset"))
      || (severity.Warning? && reason == MissingParam("min_amount") && !Has(c.params, "min_amount"))
    case OwnershipCheck => severity.Error? && reason == MissingParam("object_field") && !Has(c.params, "object_field")
    case TimeCheck =>
      && severity.Error?
      && (OperatorDefect(c, ["gte", "lte", "gt", "lt"], reason) || (reason == MissingParam("value") && !Has(c.params, "value")))
    case StateCheck =>
      && severity.Error?
      && (|| OperatorDefect(c, ["gte", "lte", "gt", "lt", "eq", "neq"], reason)
          || (reason == MissingParam("value") && !Has(c.params, "value"))
          || (reason == MissingParam("field") && !(Has(c.params, "field") && Get(c.params, "field").value.Str?))
          || (reason.UnknownField? && Get(c.params, "field") == Some(Str(reason.name))
              && !Names(lower, FieldNames(fields), reason.name)))
    case Custom => severity.Warning? && reason == MissingParam("expression") && !Has(c.params, "expression")
  }

  ghost predicate ConstraintsDefect(
      lower: string -> string, constraints: seq<Constraint>, fields: seq<StateField>, upTo: nat, m: ValidationMessage)
  {
    && upTo <= |constraints| && m.location.ConstraintAt? && m.location.i < upTo
    && (|| (m.severity.Error? && !m.reason.InvalidName? && NameDefect(lower, ConstraintNames(constraints), m.location.i, m.reason))
        || ConstraintParamsDefect(lower, constraints[m.location.i], fields, m.severity, m.reason))
  }

  ghost predicate TargetsDefect(
      lower: string -> string, c: Constraint, at: nat, intents: seq<IntentSchema>, upTo: nat, m: ValidationMessage)
  {
    && m.severity.Error? && m.location == ConstraintAt(at) && m.reason.UnknownIntent?
    && !Names(lower, IntentNames(intents), m.reason.name)
    && exists j :: 0 <= j < upTo <= |c.appliesTo| && c.appliesTo[j] == m.reason.name
  }

  ghost predicate ReferencesDefect(lower: string -> string, constraints: seq<Constraint>, intents: seq<IntentSchema>, upTo: nat, m: ValidationMessage) {
    && m.location.ConstraintAt? && m.location.i < upTo <= |constraints|
    && TargetsDefect(lower, constraints[m.location.i], m.location.i, intents, |constraints[m.location.i].appliesTo|, m)
  }

  predicate StateDefect(s: Schema, m: ValidationMessage) {
    m == ValidationMessage(Warning, Contract, NoStateFields) && s.stateFields == [] && s.intents != []
  }

  /** An intent with no parameters and no conditions. */
  predicate Bare(i: IntentSchema) { i.params == [] && i.preconditions == [] && i.postconditions == [] }

  predicate BareDefect(intents: seq<IntentSchema>, upTo: nat, m: ValidationMessage) {
    && m.severity.Warning? && m.location.Intent? && m.location.i < upTo <= |intents|
    && m.reason.BareIntent? && Bare(intents[m.location.i])
  }

  ghost predicate Defect(lower: string -> string, s: Schema, m: ValidationMessage) {
    || MetadataDefect(s, m)
    || IntentsDefect(lower, s.intents, |s.intents|, m)
    || FieldsDefect(lower, s.stateFields, |s.stateFields|, m)
    || ConstraintsDefect(lower, s.constraints, s.stateFields, |s.constraints|, m)
    || ReferencesDefect(lower, s.constraints, s.intents, |s.constraints|, m)
    || StateDefect(s, m)
    || BareDefect(s.intents, |s.intents|, m)
  }

  // --- Names seen ------------------------------------------------------------------------------

  /** The lowercase forms of the non-empty names. */
  ghost function Seen(lower: string -> string, names: seq<string>): set<string> {
    set i | 0 <= i < |names| && names[i] != "" :: lower(names[i])
  }

  lemma SeenNext(lower: string -> string, names: seq<string>, n: nat)
    requires n < |names|
    ensures Seen(lower, names[..n + 1])
         == Seen(lower, names[..n]) + (if names[n] == "" then {} else {lower(names[n])})
  {
    var more, less := names[..n + 1], names[..n];
    assert more == less + [names[n]];
    forall x | x in Seen(lower, less) ensures x in Seen(lower, more) {
      var i :| 0 <= i < |less| && less[i] != "" && lower(less[i]) == x;
      assert more[i] == less[i];
    }
    if names[n] != "" { assert more[n] == names[n]; }
  }

  /** A name repeats exactly when its lowercase form was seen. */
  lemma RepeatsIff(lower: string -> string, names: seq<string>, n: nat)
    requires n < |names|
    ensures Repeats(lower, names, n) <==> names[n] != "" && lower(names[n]) in Seen(lower, names[..n])
  {
    assert forall i :: 0 <= i < n ==> names[..n][i] == names[i];
    if j :| 0 <= j < n && names[j] != "" && lower(names[j]) == lower(names[n]) {
      assert names[..n][j] == names[j];
    }
  }

  lemma NothingSeen(lower: string -> string, names: seq<string>)
    ensures Seen(lower, names[..0]) == {}
  {}

  /** What the name checks can find, given the names seen so far. */
  predicate NameFault(lower: string -> string, name: string, seen: set<string>, reason: Reason) {
    match reason
    case EmptyName => name == ""
    case InvalidName(n) => n == name && name != "" && !IsIdentifier(name)
    case DuplicateName(n) => n == name && name != "" && lower(name) in seen
    case _ => false
  }

  lemma NameFaultIff(lower: string -> string, names: seq<string>, k: nat, reason: Reason)
    requires k < |names|
    ensures NameFault(lower, names[k], Seen(lower, names[..k]), reason) <==> NameDefect(lower, names, k, reason)
  {
    RepeatsIff(lower, names, k);
    hide IsIdentifier, Seen, Repeats;
  }

  /** The name checks shared by intents, parameters and state fields. */
  method CheckName(
      lower: string -> string, name: string, location: Location, seen: set<string>, messages: MessageList)
    returns (next: set<string>)
    modifies messages
    ensures next == seen + (if name == "" then {} else {lower(name)})
    ensures forall m :: m in messages.list <==>
      m in old(messages.list) || (m.severity.Error? && m.location == location && NameFault(lower, name, seen, m.reason))
  {
    hide IsIdentifier;
    if name == "" {
      messages.Push(Error, location, EmptyName);
    } else if !IsIdentifier(name) {
      messages.Push(Error, location, InvalidName(name));
    }
    next := seen;
    if name != "" {
      if lower(name) in seen {
        messages.Push(Error, location, DuplicateName(name));
      }
      next := seen + {lower(name)};
    }
  }

  // --- The passes ----------------------------------------------------------------------------

  method ValidateContractName(s: Schema, messages: MessageList)
    modifies messages
    ensures forall m :: m in messages.list <==>
      m in old(messages.list) || (m.severity.Error? && m.location.Contract? && ContractNameDefect(s, m.reason))
  {
    hide IsContractName;
    if s.name == "" {
      messages.Push(Error, Contract, EmptyName);
    } else if !IsContractName(s.name) {
      messages.Push(Error, Contract, InvalidName(s.name));
    }
  }

  method ValidateVersion(s: Schema, messages: MessageList)
    modifies messages
    ensures forall m :: m in messages.list <==>
      m in old(messages.list) || (m.location.Contract? && VersionDefect(s, m.severity, m.reason))
  {
    hide IsVersion;
    if s.version == "" {
      messages.Push(Error, Contract, EmptyVersion);
    } else if !IsVersion(s.version) {
      messages.Push(Warning, Contract, NotSemver(s.version));
    }
  }

  method ValidateMetadata(s: Schema, messages: MessageList)
    modifies messages
    ensures forall m :: m in messages.list <==> m in old(messages.list) || MetadataDefect(s, m)
  {
    ValidateContractName(s, messages);
    ValidateVersion(s, messages);
    hide ContractNameDefect, VersionDefect;
    if s.intents == [] {
      messages.Push(Error, Contract, NoIntents);
    }
    if s.maxGasPerCall == 0 {
      messages.Push(Error, Contract, ZeroGasLimit);
    }
    if s.maxStateBytes == 0 {
      messages.Push(Error, Contract, ZeroStateLimit);
    }
  }

  method ValidateParams(lower: string -> string, params: seq<ParamDef>, at: nat, messages: MessageList)
    modifies messages
    ensures forall m :: m in messages.list <==>
      m in old(messages.list) || ParamsDefect(lower, params, at, |params|, m)
  {
    hide NameFault, NameDefect, Seen;
    ghost var names := ParamNames(params);
    var seen := {};
    NothingSeen(lower, names);
    for i := 0 to |params|
      invariant seen == Seen(lower, names[..i])
      invariant forall m :: m in messages.list <==> m in old(messages.list) || ParamsDefect(lower, params, at, i, m)
    {
      seen := CheckName(lower, params[i].name, Param(at, i), seen, messages);
      SeenNext(lower, names, i);
      forall reason { NameFaultIff(lower, names, i, reason); }
    }
  }

  method ValidateIntents(lower: string -> string, intents: seq<IntentSchema>, messages: MessageList)
    modifies messages
    ensures forall m :: m in messages.list <==> m in old(messages.list) || IntentsDefect(lower, intents, |intents|, m)
  {
    hide NameFault, NameDefect, Seen, ParamsDefect;
    ghost var names := IntentNames(intents);
    var seen := {};
    NothingSeen(lower, names);
    for i := 0 to |intents|
      invariant seen == Seen(lower, names[..i])
      invariant forall m :: m in messages.list <==> m in old(messages.list) || IntentsDefect(lower, intents, i, m)
    {
      seen := CheckName(lower, intents[i].name, Intent(i), seen, messages);
      SeenNext(lower, names, i);
      forall reason { NameFaultIff(lower, names, i, reason); }
      ValidateParams(lower, intents[i].params, i, messages);
      ParamsAt(lower, intents[i].params, i);
    }
  }

  lemma ParamsAt(lower: string -> string, params: seq<ParamDef>, at: nat)
    ensures forall m :: ParamsDefect(lower, params, at, |params|, m) ==> m.location.Param? && m.location.i == at
  {}

  method ValidateDefault(f: StateField, location: Location, messages: MessageList)
    modifies messages
    ensures forall m :: m in messages.list <==>
      m in old(messages.list) || (m.severity.Error? && m.location == location && DefaultDefect(f, m.reason))
  {
    hide ParseUnsigned, ByteLength;
    if f.defaultValue.None? { return; }
    var s := f.defaultValue.value;
    if s == "" { EmptyIsHex(); }
    hide AllHex;
    match f.fieldType {
      case Uint128 =>
        if ParseUnsigned(s, U128).None? {
          messages.Push(Error, location, BadDefault(s));
        }
      case Address =>
        if s != "zero" && s != "sender" {
          if ByteLength(s) != 64 || !AllHex(s) {
            messages.Push(Error, location, BadDefault(s));
          }
        }
      case Bytes =>
        if s != "" && !AllHex(s) {
          messages.Push(Error, location, BadDefault(s));
        }
        if ByteLength(s) % 2 != 0 {
          messages.Push(Error, location, OddHexLength);
        }
      case Boolean =>
        if s != "true" && s != "false" {
          messages.Push(Error, location, BadDefault(s));
        }
      case Text =>
    }
  }

  lemma EmptyIsHex()
    ensures AllHex("")
  {}

  method ValidateStateFields(lower: string -> string, fields: seq<StateField>, messages: MessageList)
    modifies messages
    ensures forall m :: m in messages.list <==> m in old(messages.list) || FieldsDefect(lower, fields, |fields|, m)
  {
    hide NameFault, NameDefect, Seen, DefaultDefect;
    ghost var names := FieldNames(fields);
    var seen := {};
    NothingSeen(lower, names);
    for i := 0 to |fields|
      invariant seen == Seen(lower, names[..i])
      invariant forall m :: m in messages.list <==> m in old(messages.list) || FieldsDefect(lower, fields, i, m)
    {
      seen := CheckName(lower, fields[i].name, Field(i), seen, messages);
      SeenNext(lower, names, i);
      forall reason { NameFaultIff(lower, names, i, reason); }
      ValidateDefault(fields[i], Field(i), messages);
    }
  }

  /** The set of lowercase names that the lookups build. */
  method LowerNames(lower: string -> string, names: seq<string>) returns (r: set<string>)
    ensures forall name: string :: lower(name) in r <==> Names(lower, names, name)
  {
    r := {};
    for i := 0 to |names|
      invariant r == set k | 0 <= k < i :: lower(names[k])
    {
      r := r + {lower(names[i])};
    }
  }

  method CheckOperator(c: Constraint, location: Location, operators: seq<string>, messages: MessageList)
    modifies messages
    ensures forall m :: m in messages.list <==>
      m in old(messages.list) || (m.severity.Error? && m.location == location && OperatorDefect(c, operators, m.reason))
  {
    hide Get;
    var op := Get(c.params, "op");
    if op.None? {
      messages.Push(Error, location, MissingParam("op"));
    } else if op.value.Str? && op.value.s !in operators {
      messages.Push(Error, location, BadOperator(op.value.s));
    }
  }

  method ValidateConstraintParams(
      lower: string -> string, c: Constraint, location: Location, fields: seq<StateField>, messages: MessageList)
    modifies messages
    ensures forall m :: m in messages.list <==>
      || m in old(messages.list)
      || (m.location == location && ConstraintParamsDefect(lower, c, fields, m.severity, m.reason))
  {
    hide Get, Names, FieldNames, OperatorDefect;
    var fieldNames := LowerNames(lower, FieldNames(fields));
    match c.constraintType {
      case BalanceCheck =>
        if !Has(c.params, "asset") { messages.Push(Error, location, MissingParam("asset")); }
        if !Has(c.params, "min_amount") {
          messages.Push(Warning, location, MissingParam("min_amount"));
        }
      case OwnershipCheck =>
        if !Has(c.params, "object_field") { messages.Push(Error, location, MissingParam("object_field")); }
      case TimeCheck =>
        CheckOperator(c, location, ["gte", "lte", "gt", "lt"], messages);
        if !Has(c.params, "value") { messages.Push(Error, location, MissingParam("value")); }
      case StateCheck =>
        var field := Get(c.params, "field");
        if field.Some? && field.value.Str? {
          if lower(field.value.s) !in fieldNames {
            messages.Push(Error, location, UnknownField(field.value.s));
          }
        } else {
          messages.Push(Error, location, MissingParam("field"));
        }
        CheckOperator(c, location, ["gte", "lte", "gt", "lt", "eq", "neq"], messages);
        if !Has(c.params, "value") { messages.Push(Error, location, MissingParam("value")); }
      case Custom =>
        if !Has(c.params, "expression") {
          messages.Push(Warning, location, MissingParam("expression"));
        }
    }
  }

  /** Constraint names are free text: only emptiness and repetition are checked. */
  method CheckLabel(lower: string -> string, name: string, location: Location, seen: set<string>, messages: MessageList)
    returns (next: set<string>)
    modifies messages
    ensures next == seen + (if name == "" then {} else {lower(name)})
    ensures forall m :: m in messages.list <==>
      || m in old(messages.list)
      || (m.severity.Error? && m.location == location && !m.reason.InvalidName? && NameFault(lower, name, seen, m.reason))
  {
    next := seen;
    if name == "" {
      messages.Push(Error, location, EmptyName);
    } else {
      if lower(name) in seen { messages.Push(Error, location, DuplicateName(name)); }
      next := seen + {lower(name)};
    }
  }

  method ValidateConstraints(
      lower: string -> string, constraints: seq<Constraint>, fields: seq<StateField>, messages: MessageList)
    modifies messages
    ensures forall m :: m in messages.list <==>
      m in old(messages.list) || ConstraintsDefect(lower, constraints, fields, |constraints|, m)
  {
    hide NameFault, NameDefect, Seen, ConstraintParamsDefect;
    ghost var names := ConstraintNames(constraints);
    var seen := {};
    NothingSeen(lower, names);
    for i := 0 to |constraints|
      invariant seen == Seen(lower, names[..i])
      invariant forall m :: m in messages.list <==>
        m in old(messages.list) || ConstraintsDefect(lower, constraints, fields, i, m)
    {
      seen := CheckLabel(lower, constraints[i].name, ConstraintAt(i), seen, messages);
      SeenNext(lower, names, i);
      forall reason { NameFaultIff(lower, names, i, reason); }
      ValidateConstraintParams(lower, constraints[i], ConstraintAt(i), fields, messages);
    }
  }

  method ValidateTargets(
      lower: string -> string, c: Constraint, at: nat, intents: seq<IntentSchema>, intentNames: set<string>, messages: MessageList)
    requires forall name: string :: lower(name) in intentNames <==> Names(lower, IntentNames(intents), name)
    modifies messages
    ensures forall m :: m in messages.list <==>
      m in old(messages.list) || TargetsDefect(lower, c, at, intents, |c.appliesTo|, m)
  {
    hide Names, IntentNames;
    for j := 0 to |c.appliesTo|
      invariant forall m :: m in messages.list <==>
        m in old(messages.list) || TargetsDefect(lower, c, at, intents, j, m)
    {
      if lower(c.appliesTo[j]) !in intentNames {
        messages.Push(Error, ConstraintAt(at), UnknownIntent(c.appliesTo[j]));
      }
    }
  }

  method ValidateReferences(lower: string -> string, s: Schema, messages: MessageList)
    modifies messages
    ensures forall m :: m in messages.list <==>
      m in old(messages.list) || ReferencesDefect(lower, s.constraints, s.intents, |s.constraints|, m)
  {
    hide Names, IntentNames, TargetsDefect;
    var intentNames := LowerNames(lower, IntentNames(s.intents));
    for i := 0 to |s.constraints|
      invariant forall m :: m in messages.list <==>
        m in old(messages.list) || ReferencesDefect(lower, s.constraints, s.intents, i, m)
    {
      ValidateTargets(lower, s.constraints[i], i, s.intents, intentNames, messages);
      TargetsAt(lower, s.constraints[i], i, s.intents);
    }
  }

  lemma TargetsAt(lower: string -> string, c: Constraint, at: nat, intents: seq<IntentSchema>)
    ensures forall m :: TargetsDefect(lower, c, at, intents, |c.appliesTo|, m) ==> m.location == ConstraintAt(at)
  {
    hide Names;
  }

  method ValidateCrossReferences(lower: string -> string, s: Schema, messages: MessageList)
    modifies messages
    ensures forall m :: m in messages.list <==>
      || m in old(messages.list)
      || ReferencesDefect(lower, s.constraints, s.intents, |s.constraints|, m)
      || StateDefect(s, m) || BareDefect(s.intents, |s.intents|, m)
  {
    hide ReferencesDefect, Bare;
    ValidateReferences(lower, s, messages);
    if s.stateFields == [] && s.intents != [] {
      messages.Push(Warning, Contract, NoStateFields);
    }
    ghost var before := messages.list;
    for i := 0 to |s.intents|
      invariant forall m :: m in messages.list <==> m in before || BareDefect(s.intents, i, m)
    {
      if Bare(s.intents[i]) {
        messages.Push(Warning, Intent(i), BareIntent);
      }
    }
  }

  // --- What the defects decide ------------------------------------------------------------------

  ghost predicate Includes(list: seq<ValidationMessage>, severity: Severity) {
    exists i :: 0 <= i < |list| && list[i].severity == severity
  }

  ghost predicate HasDefect(lower: string -> string, s: Schema, severity: Severity) {
    exists m :: Defect(lower, s, m) && m.severity == severity
  }

  /** The validator reports exactly the defects of the schema. So it reports an Error exactly when the
      schema is not well formed, and a Warning exactly when the schema is not clean. */
  method ValidateSchema(lower: string -> string, s: Schema) returns (messages: MessageList)
    ensures fresh(messages)
    ensures forall m :: m in messages.list <==> Defect(lower, s, m)
    ensures Includes(messages.list, Error) <==> !WellFormed(lower, s)
    ensures Includes(messages.list, Warning) <==> !Clean(s)
  {
    hide MetadataDefect, IntentsDefect, FieldsDefect, ConstraintsDefect, ReferencesDefect, StateDefect, BareDefect;
    messages := new MessageList();
    ValidateMetadata(s, messages);
    ValidateIntents(lower, s.intents, messages);
    ValidateStateFields(lower, s.stateFields, messages);
    ValidateConstraints(lower, s.constraints, s.stateFields, messages);
    ValidateCrossReferences(lower, s, messages);
    hide Clean, WellFormed;
    ErrorsIff(lower, s);
    WarningsIff(lower, s);
    assert forall m :: m in messages.list <==> Defect(lower, s, m);
    hide Defect;
    IncludesDefect(lower, s, messages.list);
  }

  lemma IncludesDefect(lower: string -> string, s: Schema, list: seq<ValidationMessage>)
    requires forall m :: m in list <==> Defect(lower, s, m)
    ensures forall severity :: Includes(list, severity) <==> HasDefect(lower, s, severity)
  {
    hide Defect;
    forall severity ensures Includes(list, severity) <==> HasDefect(lower, s, severity) {
      if i :| 0 <= i < |list| && list[i].severity == severity { assert list[i] in list; }
      if m :| Defect(lower, s, m) && m.severity == severity {
        assert m in list;
        var i :| 0 <= i < |list| && list[i] == m;
      }
    }
  }

  /** Some name of a list is defective exactly when they are not distinct identifiers. */
  lemma IdentifiersIff(lower: string -> string, names: seq<string>)
    ensures Identifiers(lower, names) <==>
      forall k, reason :: 0 <= k < |names| ==> !NameDefect(lower, names, k, reason)
  {
    EmptyIsNoIdentifier();
    hide IsIdentifier;
    if Identifiers(lower, names) {
      assert forall k, reason :: 0 <= k < |names| ==> !NameDefect(lower, names, k, reason);
    } else if i, j :| 0 <= i < j < |names| && lower(names[i]) == lower(names[j]) {
      FirstDefect(lower, names, i, j);
    } else {
      var k :| 0 <= k < |names| && !IsIdentifier(names[k]);
      assert NameDefect(lower, names, k, EmptyName) || NameDefect(lower, names, k, InvalidName(names[k]));
    }
  }

  lemma FirstDefect(lower: string -> string, names: seq<string>, i: nat, j: nat)
    requires i < j < |names| && lower(names[i]) == lower(names[j])
    ensures exists k, reason :: 0 <= k < |names| && NameDefect(lower, names, k, reason) && !reason.InvalidName?
  {
    hide IsIdentifier;
    assert NameDefect(lower, names, i, EmptyName) || NameDefect(lower, names, j, EmptyName)
      || NameDefect(lower, names, j, DuplicateName(names[j]));
  }

  lemma EmptyIsNoIdentifier()
    ensures !IsIdentifier("")
  {}

  lemma NamedIff(lower: string -> string, names: seq<string>)
    ensures Named(lower, names) <==>
      forall k, reason: Reason :: 0 <= k < |names| && !reason.InvalidName? ==> !NameDefect(lower, names, k, reason)
  {
    hide IsIdentifier;
    if Named(lower, names) {
      assert forall k, reason: Reason :: 0 <= k < |names| && !reason.InvalidName? ==> !NameDefect(lower, names, k, reason);
    } else if i, j :| 0 <= i < j < |names| && lower(names[i]) == lower(names[j]) {
      FirstDefect(lower, names, i, j);
    } else {
      var k :| 0 <= k < |names| && names[k] == "";
      assert NameDefect(lower, names, k, EmptyName);
    }
  }

  predicate OnlyOf(severity: Severity, m: ValidationMessage) { m.severity == severity }

  lemma MetadataIff(s: Schema)
    ensures MetadataOk(s) <==> forall m :: MetadataDefect(s, m) ==> OnlyOf(Warning, m)
    ensures MetadataClean(s) <==> forall m :: MetadataDefect(s, m) ==> OnlyOf(Error, m)
  {
    EmptyIsNoContractName();
    hide IsContractName, IsVersion;
    if !MetadataOk(s) {
      var reason := if s.name == "" then EmptyName else if !IsContractName(s.name) then InvalidName(s.name)
                    else if s.version == "" then EmptyVersion else if s.intents == [] then NoIntents
                    else if s.maxGasPerCall == 0 then ZeroGasLimit else ZeroStateLimit;
      assert MetadataDefect(s, ValidationMessage(Error, Contract, reason));
    }
    if !MetadataClean(s) { assert MetadataDefect(s, ValidationMessage(Warning, Contract, NotSemver(s.version))); }
  }

  lemma EmptyIsNoContractName()
    ensures !IsContractName("")
  {}

  lemma ParamsIff(lower: string -> string, params: seq<ParamDef>, at: nat)
    ensures Identifiers(lower, ParamNames(params)) <==> forall m :: !ParamsDefect(lower, params, at, |params|, m)
  {
    var names := ParamNames(params);
    IdentifiersIff(lower, names);
    hide Identifiers, NameDefect;
    if k, reason :| 0 <= k < |names| && NameDefect(lower, names, k, reason) {
      assert ParamsDefect(lower, params, at, |params|, ValidationMessage(Error, Param(at, k), reason));
    }
  }

  lemma IntentsIff(lower: string -> string, intents: seq<IntentSchema>)
    ensures IntentsOk(lower, intents) <==> forall m :: !IntentsDefect(lower, intents, |intents|, m)
  {
    var names := IntentNames(intents);
    IdentifiersIff(lower, names);
    forall i | 0 <= i < |intents| { ParamsIff(lower, intents[i].params, i); }
    hide Identifiers, NameDefect, ParamsDefect;
    if k, reason :| 0 <= k < |names| && NameDefect(lower, names, k, reason) {
      assert IntentsDefect(lower, intents, |intents|, ValidationMessage(Error, Intent(k), reason));
    }
    if i :| 0 <= i < |intents| && !Identifiers(lower, ParamNames(intents[i].params)) {
      var m :| ParamsDefect(lower, intents[i].params, i, |intents[i].params|, m);
      ParamsAt(lower, intents[i].params, i);
      assert IntentsDefect(lower, intents, |intents|, m);
    }
  }

  lemma DefaultIff(f: StateField)
    ensures DefaultOk(f) <==> forall reason :: !DefaultDefect(f, reason)
  {
    if f.defaultValue.Some? {
      var s := f.defaultValue.value;
      if AllHex(s) { HexByteLength(s); }
      hide ByteLength, ParseUnsigned, AllHex;
      assert DefaultDefect(f, BadDefault(s)) || DefaultDefect(f, OddHexLength) || DefaultOk(f);
    }
  }

  lemma FieldsIff(lower: string -> string, fields: seq<StateField>)
    ensures FieldsOk(lower, fields) <==> forall m :: !FieldsDefect(lower, fields, |fields|, m)
  {
    var names := FieldNames(fields);
    IdentifiersIff(lower, names);
    forall i | 0 <= i < |fields| { DefaultIff(fields[i]); }
    hide Identifiers, NameDefect, DefaultOk, DefaultDefect;
    if k, reason :| 0 <= k < |names| && NameDefect(lower, names, k, reason) {
      assert FieldsDefect(lower, fields, |fields|, ValidationMessage(Error, Field(k), reason));
    }
    if k, reason :| 0 <= k < |fields| && DefaultDefect(fields[k], reason) {
      assert FieldsDefect(lower, fields, |fields|, ValidationMessage(Error, Field(k), reason));
    }
  }

  lemma ConstraintParamsIff(lower: string -> string, c: Constraint, fields: seq<StateField>)
    ensures ParamsFit(lower, c, fields) <==> forall reason :: !ConstraintParamsDefect(lower, c, fields, Error, reason)
    ensures ParamsClean(c) <==> forall reason :: !ConstraintParamsDefect(lower, c, fields, Warning, reason)
  {
    hide Get, Names, FieldNames;
    var field, op := Get(c.params, "field"), Get(c.params, "op");
    if !ParamsFit(lower, c, fields) {
      var name := if field.Some? && field.value.Str? then field.value.s else "";
      var operator := if op.Some? && op.value.Str? then op.value.s else "";
      assert ConstraintParamsDefect(lower, c, fields, Error, MissingParam("asset"))
        || ConstraintParamsDefect(lower, c, fields, Error, MissingParam("object_field"))
        || ConstraintParamsDefect(lower, c, fields, Error, MissingParam("op"))
        || ConstraintParamsDefect(lower, c, fields, Error, MissingParam("value"))
        || ConstraintParamsDefect(lower, c, fields, Error, MissingParam("field"))
        || ConstraintParamsDefect(lower, c, fields, Error, UnknownField(name))
        || ConstraintParamsDefect(lower, c, fields, Error, BadOperator(operator));
    }
    if !ParamsClean(c) {
      assert ConstraintParamsDefect(lower, c, fields, Warning, MissingParam("min_amount"))
        || ConstraintParamsDefect(lower, c, fields, Warning, MissingParam("expression"));
    }
  }

  lemma ConstraintsIff(lower: string -> string, constraints: seq<Constraint>, fields: seq<StateField>)
    ensures ConstraintsOk(lower, constraints, fields)
       <==> forall m :: ConstraintsDefect(lower, constraints, fields, |constraints|, m) ==> OnlyOf(Warning, m)
    ensures ConstraintsClean(constraints)
       <==> forall m :: ConstraintsDefect(lower, constraints, fields, |constraints|, m) ==> OnlyOf(Error, m)
  {
    var names := ConstraintNames(constraints);
    NamedIff(lower, names);
    forall i | 0 <= i < |constraints| { ConstraintParamsIff(lower, constraints[i], fields); }
    hide Named, NameDefect, ParamsFit, ParamsClean, ConstraintParamsDefect;
    if k, reason: Reason :| 0 <= k < |names| && !reason.InvalidName? && NameDefect(lower, names, k, reason) {
      assert ConstraintsDefect(lower, constraints, fields, |constraints|, ValidationMessage(Error, ConstraintAt(k), reason));
    }
    forall k, severity, reason | 0 <= k < |constraints| && ConstraintParamsDefect(lower, constraints[k], fields, severity, reason)
      ensures ConstraintsDefect(lower, constraints, fields, |constraints|, ValidationMessage(severity, ConstraintAt(k), reason))
    {}
  }

  lemma ReferencesIff(lower: string -> string, constraints: seq<Constraint>, intents: seq<IntentSchema>)
    ensures ReferencesOk(lower, constraints, intents)
       <==> forall m :: !ReferencesDefect(lower, constraints, intents, |constraints|, m)
  {
    hide Names, IntentNames;
    if !ReferencesOk(lower, constraints, intents) {
      var i :| 0 <= i < |constraints| && !TargetsOk(lower, constraints[i].appliesTo, intents);
      var k :| 0 <= k < |constraints[i].appliesTo| && !Names(lower, IntentNames(intents), constraints[i].appliesTo[k]);
      var m := ValidationMessage(Error, ConstraintAt(i), UnknownIntent(constraints[i].appliesTo[k]));
      assert TargetsDefect(lower, constraints[i], i, intents, |constraints[i].appliesTo|, m);
      assert ReferencesDefect(lower, constraints, intents, |constraints|, m);
    }
  }

  lemma CleanReferencesIff(s: Schema)
    ensures ReferencesClean(s) <==> forall m :: !StateDefect(s, m) && !BareDefect(s.intents, |s.intents|, m)
  {
    if s.stateFields == [] && s.intents != [] { assert StateDefect(s, ValidationMessage(Warning, Contract, NoStateFields)); }
    if i :| 0 <= i < |s.intents| && Bare(s.intents[i]) {
      assert BareDefect(s.intents, |s.intents|, ValidationMessage(Warning, Intent(i), BareIntent));
    }
  }

  /** A schema is well formed exactly when no defect of it is an Error. */
  lemma ErrorsIff(lower: string -> string, s: Schema)
    ensures HasDefect(lower, s, Error) <==> !WellFormed(lower, s)
  {
    MetadataIff(s);
    IntentsIff(lower, s.intents);
    FieldsIff(lower, s.stateFields);
    ConstraintsIff(lower, s.constraints, s.stateFields);
    ReferencesIff(lower, s.constraints, s.intents);
    Severities(lower, s);
    hide MetadataDefect, IntentsDefect, FieldsDefect, ConstraintsDefect, ReferencesDefect, StateDefect, BareDefect;
    hide MetadataOk, IntentsOk, FieldsOk, ConstraintsOk, ReferencesOk;
    if !WellFormed(lower, s) {
      var m :| (MetadataDefect(s, m) && m.severity == Error) || IntentsDefect(lower, s.intents, |s.intents|, m)
        || FieldsDefect(lower, s.stateFields, |s.stateFields|, m)
        || (ConstraintsDefect(lower, s.constraints, s.stateFields, |s.constraints|, m) && m.severity == Error)
        || ReferencesDefect(lower, s.constraints, s.intents, |s.constraints|, m);
      assert Defect(lower, s, m);
    }
  }

  /** And clean exactly when none is a Warning. */
  lemma WarningsIff(lower: string -> string, s: Schema)
    ensures HasDefect(lower, s, Warning) <==> !Clean(s)
  {
    MetadataIff(s);
    ConstraintsIff(lower, s.constraints, s.stateFields);
    CleanReferencesIff(s);
    Severities(lower, s);
    hide MetadataDefect, IntentsDefect, FieldsDefect, ConstraintsDefect, ReferencesDefect, StateDefect, BareDefect;
    hide MetadataClean, ConstraintsClean, ReferencesClean;
    if !Clean(s) {
      var m :| (MetadataDefect(s, m) && m.severity == Warning)
        || (ConstraintsDefect(lower, s.constraints, s.stateFields, |s.constraints|, m) && m.severity == Warning)
        || StateDefect(s, m) || BareDefect(s.intents, |s.intents|, m);
      assert Defect(lower, s, m);
    }
  }

  lemma Severities(lower: string -> string, s: Schema)
    ensures forall m :: IntentsDefect(lower, s.intents, |s.intents|, m) ==> m.severity == Error
    ensures forall m :: FieldsDefect(lower, s.stateFields, |s.stateFields|, m) ==> m.severity == Error
    ensures forall m :: ReferencesDefect(lower, s.constraints, s.intents, |s.constraints|, m) ==> m.severity == Error
    ensures forall m :: StateDefect(s, m) || BareDefect(s.intents, |s.intents|, m) ==> m.severity == Warning
  {
    hide NameDefect, DefaultDefect, Names, Bare;
  }

  // --- What each reason says -----------------------------------------------------------------------

  /** The names that stand beside the one at a location, and its place among them. */
  ghost predicate NameAt(s: Schema, at: Location, names: seq<string>, k: nat) {
    && k < |names|
    && match at
       case Contract => names == [s.name]
       case Intent(i) => names == IntentNames(s.intents) && k == i
       case Param(i, j) => i < |s.intents| && names == ParamNames(s.intents[i].params) && k == j
       case Field(i) => names == FieldNames(s.stateFields) && k == i
       case ConstraintAt(i) => names == ConstraintNames(s.constraints) && k == i
  }

  ghost predicate NameTruth(lower: string -> string, s: Schema, at: Location, reason: Reason) {
    exists names: seq<string>, k: nat ::
      && NameAt(s, at, names, k)
      && match reason
         case EmptyName => names[k] == ""
         case InvalidName(n) => n == names[k] && !at.ConstraintAt? && if at.Contract? then !IsContractName(n) else !IsIdentifier(n)
         case DuplicateName(n) => n == names[k] && exists j :: 0 <= j < k && lower(names[j]) == lower(n)
         case _ => false
  }

  ghost predicate ConstraintTruth(lower: string -> string, s: Schema, c: Constraint, severity: Severity, reason: Reason) {
    match reason
    case MissingParam(key) =>
      && (severity.Warning? <==> key in ["min_amount", "expression"])
      && (!Has(c.params, key) || (key == "field" && c.constraintType.StateCheck? && !Get(c.params, key).value.Str?))
    case BadOperator(op) =>
      severity.Error? && Get(c.params, "op") == Some(Str(op)) && (c.constraintType.StateCheck? ==> !StateOperator(op)) && !TimeOperator(op)
    case UnknownField(name) =>
      severity.Error? && Get(c.params, "field") == Some(Str(name)) && !Names(lower, FieldNames(s.stateFields), name)
    case UnknownIntent(name) =>
      severity.Error? && name in c.appliesTo && !Names(lower, IntentNames(s.intents), name)
    case _ => false
  }

  /** What a message says about the schema, by its reason. */
  ghost predicate IsTrue(lower: string -> string, s: Schema, m: ValidationMessage) {
    match m.reason
    case EmptyName => m.severity.Error? && NameTruth(lower, s, m.location, m.reason)
    case InvalidName(_) => m.severity.Error? && NameTruth(lower, s, m.location, m.reason)
    case DuplicateName(_) => m.severity.Error? && NameTruth(lower, s, m.location, m.reason)
    case EmptyVersion => m.severity.Error? && m.location.Contract? && s.version == ""
    case NotSemver(v) => m.severity.Warning? && m.location.Contract? && v == s.version && !IsVersion(v)
    case NoIntents => m.severity.Error? && m.location.Contract? && s.intents == []
    case ZeroGasLimit => m.severity.Error? && m.location.Contract? && s.maxGasPerCall == 0
    case ZeroStateLimit => m.severity.Error? && m.location.Contract? && s.maxStateBytes == 0
    case BadDefault(v) =>
      && m.severity.Error? && m.location.Field? && m.location.i < |s.stateFields|
      && s.stateFields[m.location.i].defaultValue == Some(v) && !DefaultFits(s.stateFields[m.location.i].fieldType, v)
    case OddHexLength =>
      && m.severity.Error? && m.location.Field? && m.location.i < |s.stateFields|
      && var f := s.stateFields[m.location.i]; f.fieldType.Bytes? && f.defaultValue.Some? && ByteLength(f.defaultValue.value) % 2 == 1
    case NoStateFields => m.severity.Warning? && m.location.Contract? && s.stateFields == []
    case BareIntent => m.severity.Warning? && m.location.Intent? && m.location.i < |s.intents| && Bare(s.intents[m.location.i])
    case _ =>
      && m.location.ConstraintAt? && m.location.i < |s.constraints|
      && ConstraintTruth(lower, s, s.constraints[m.location.i], m.severity, m.reason)
  }

  lemma NameIsTrue(lower: string -> string, s: Schema, at: Location, names: seq<string>, k: nat, reason: Reason)
    requires NameAt(s, at, names, k) && NameDefect(lower, names, k, reason) && !at.Contract?
    requires at.ConstraintAt? ==> !reason.InvalidName?
    ensures NameTruth(lower, s, at, reason) && (reason.EmptyName? || reason.InvalidName? || reason.DuplicateName?)
  {
    hide IsIdentifier, IsContractName, NameAt;
  }

  lemma ConstraintIsTrue(lower: string -> string, s: Schema, c: Constraint, severity: Severity, reason: Reason)
    requires ConstraintParamsDefect(lower, c, s.stateFields, severity, reason)
    ensures ConstraintTruth(lower, s, c, severity, reason)
    ensures reason.MissingParam? || reason.BadOperator? || reason.UnknownField?
  {
    hide Get, Names, FieldNames;
    assert "asset"[0] == 'a' && "object_field"[0] == 'o' && "op"[0] == 'o' && "value"[0] == 'v' && "field"[0] == 'f';
    assert "min_amount"[0] == 'm' && "expression"[0] == 'e';
  }

  lemma DefaultIsTrue(f: StateField, reason: Reason)
    requires DefaultDefect(f, reason)
    ensures f.defaultValue.Some? && (reason == BadDefault(f.defaultValue.value) || reason.OddHexLength?)
    ensures reason.BadDefault? ==> !DefaultFits(f.fieldType, f.defaultValue.value)
    ensures reason.OddHexLength? ==> f.fieldType.Bytes? && ByteLength(f.defaultValue.value) % 2 == 1
  {
    if AllHex(f.defaultValue.value) { HexByteLength(f.defaultValue.value); }
    hide ByteLength, ParseUnsigned, AllHex;
  }

  /** Every message of the validator is true of the schema, by its reason and at its location. */
  lemma DefectsAreTrue(lower: string -> string, s: Schema, m: ValidationMessage)
    requires Defect(lower, s, m)
    ensures IsTrue(lower, s, m)
  {
    if MetadataDefect(s, m) {
      assert NameAt(s, Contract, [s.name], 0);
    } else if IntentsDefect(lower, s.intents, |s.intents|, m) {
      if m.location.Intent? {
        NameIsTrue(lower, s, m.location, IntentNames(s.intents), m.location.i, m.reason);
      } else {
        NameIsTrue(lower, s, m.location, ParamNames(s.intents[m.location.i].params), m.location.j, m.reason);
      }
    } else if FieldsDefect(lower, s.stateFields, |s.stateFields|, m) {
      if NameDefect(lower, FieldNames(s.stateFields), m.location.i, m.reason) {
        NameIsTrue(lower, s, m.location, FieldNames(s.stateFields), m.location.i, m.reason);
      } else {
        DefaultIsTrue(s.stateFields[m.location.i], m.reason);
      }
    } else if ConstraintsDefect(lower, s.constraints, s.stateFields, |s.constraints|, m) {
      if ConstraintParamsDefect(lower, s.constraints[m.location.i], s.stateFields, m.severity, m.reason) {
        ConstraintIsTrue(lower, s, s.constraints[m.location.i], m.severity, m.reason);
      } else {
        NameIsTrue(lower, s, m.location, ConstraintNames(s.constraints), m.location.i, m.reason);
      }
    }
    hide IsIdentifier, IsContractName, IsVersion, Names, DefaultFits, DefaultDefect, ConstraintParamsDefect, ByteLength;
  }
}
