/** The contract toolkit's schema, and the declarative well-formedness the validator should decide.
    `lower` is Unicode lowercasing, left abstract. */
module ContractSchema {
  import opened IntegerMath
  import opened NumberTheory
  import opened Strings

  datatype ParamType = Uint128 | Address | Bytes | Text | Boolean

  datatype ParamDef = ParamDef(name: string, paramType: ParamType, required: bool, description: string)

  /** An integer of 64 bits, signed or unsigned. */
  type jsonint = n: int | -0x8000_0000_0000_0000 <= n < 0x1_0000_0000_0000_0000 witness 0

  /** A float, an array and an object are kept as their JSON text. */
  datatype Number = Integer(n: jsonint) | Float(text: string)

  datatype Json = Null | Bool(b: bool) | Num(number: Number) | Str(s: string) | Array(text: string) | Object(text: string)

  /** A JSON object in its iteration order. */
  type Fields = seq<(string, Json)>

  function Get(o: Fields, key: string): Option<Json> {
    if o == [] then None else if o[0].0 == key then Some(o[0].1) else Get(o[1..], key)
  }

  predicate Has(o: Fields, key: string) { Get(o, key).Some? }

  datatype ConstraintType = BalanceCheck | OwnershipCheck | TimeCheck | StateCheck | Custom

  datatype Constraint = Constraint(
    name: string, constraintType: ConstraintType, params: Fields, appliesTo: seq<string>)

  datatype StateField = StateField(
    name: string, fieldType: ParamType, defaultValue: Option<string>, description: string)

  datatype IntentSchema = IntentSchema(
    name: string, description: string, params: seq<ParamDef>, preconditions: seq<string>, postconditions: seq<string>)

  datatype Schema = Schema(
    name: string, version: string, description: string, intents: seq<IntentSchema>,
    stateFields: seq<StateField>, constraints: seq<Constraint>, maxGasPerCall: nat, maxStateBytes: nat)

  function IntentNames(intents: seq<IntentSchema>): (r: seq<string>)
    ensures |r| == |intents| && forall i :: 0 <= i < |r| ==> r[i] == intents[i].name
  {
    seq(|intents|, i requires 0 <= i < |intents| => intents[i].name)
  }

  function ParamNames(params: seq<ParamDef>): (r: seq<string>)
    ensures |r| == |params| && forall i :: 0 <= i < |r| ==> r[i] == params[i].name
  {
    seq(|params|, i requires 0 <= i < |params| => params[i].name)
  }

  function FieldNames(fields: seq<StateField>): (r: seq<string>)
    ensures |r| == |fields| && forall i :: 0 <= i < |r| ==> r[i] == fields[i].name
  {
    seq(|fields|, i requires 0 <= i < |fields| => fields[i].name)
  }

  function ConstraintNames(constraints: seq<Constraint>): (r: seq<string>)
    ensures |r| == |constraints| && forall i :: 0 <= i < |r| ==> r[i] == constraints[i].name
  {
    seq(|constraints|, i requires 0 <= i < |constraints| => constraints[i].name)
  }

  // --- Well-formedness ----------------------------------------------------------------

  /** No two names are the same up to case. */
  ghost predicate Distinct(lower: string -> string, names: seq<string>) {
    forall i, j :: 0 <= i < j < |names| ==> lower(names[i]) != lower(names[j])
  }

  ghost predicate Identifiers(lower: string -> string, names: seq<string>) {
    (forall i :: 0 <= i < |names| ==> IsIdentifier(names[i])) && Distinct(lower, names)
  }

  ghost predicate Named(lower: string -> string, names: seq<string>) {
    (forall i :: 0 <= i < |names| ==> names[i] != "") && Distinct(lower, names)
  }

  /** Some name is the same as `name` up to case. */
  ghost predicate Names(lower: string -> string, names: seq<string>, name: string) {
    exists i :: 0 <= i < |names| && lower(names[i]) == lower(name)
  }

  predicate DefaultFits(t: ParamType, s: string) {
    match t
    case Uint128 => ParseUnsigned(s, U128).Some?
    case Address => s == "zero" || s == "sender" || (|s| == 64 && AllHex(s))
    case Bytes => AllHex(s) && |s| % 2 == 0
    case Boolean => s == "true" || s == "false"
    case Text => true
  }

  predicate DefaultOk(f: StateField) { f.defaultValue.Some? ==> DefaultFits(f.fieldType, f.defaultValue.value) }

  predicate TimeOperator(op: string) { op in ["gte", "lte", "gt", "lt"] }

  predicate StateOperator(op: string) { op in ["gte", "lte", "gt", "lt", "eq", "neq"] }

  ghost predicate ParamsFit(lower: string -> string, c: Constraint, fields: seq<StateField>) {
    match c.constraintType
    case BalanceCheck => Has(c.params, "asset")
    case OwnershipCheck => Has(c.params, "object_field")
    case TimeCheck =>
      && Has(c.params, "op") && Has(c.params, "value")
      && (Get(c.params, "op").value.Str? ==> TimeOperator(Get(c.params, "op").value.s))
    case StateCheck =>
      && Has(c.params, "field") && Get(c.params, "field").value.Str?
      && Names(lower, FieldNames(fields), Get(c.params, "field").value.s)
      && Has(c.params, "op") && Has(c.params, "value")
      && (Get(c.params, "op").value.Str? ==> StateOperator(Get(c.params, "op").value.s))
    case Custom => true
  }

  ghost predicate MetadataOk(s: Schema) {
    IsContractName(s.name) && s.version != "" && s.intents != [] && s.maxGasPerCall > 0 && s.maxStateBytes > 0
  }

  ghost predicate IntentsOk(lower: string -> string, intents: seq<IntentSchema>) {
    && Identifiers(lower, IntentNames(intents))
    && forall i :: 0 <= i < |intents| ==> Identifiers(lower, ParamNames(intents[i].params))
  }

  ghost predicate FieldsOk(lower: string -> string, fields: seq<StateField>) {
    && Identifiers(lower, FieldNames(fields))
    && forall i :: 0 <= i < |fields| ==> DefaultOk(fields[i])
  }

  ghost predicate ConstraintsOk(lower: string -> string, constraints: seq<Constraint>, fields: seq<StateField>) {
    && Named(lower, ConstraintNames(constraints))
    && forall i :: 0 <= i < |constraints| ==> ParamsFit(lower, constraints[i], fields)
  }

  ghost predicate TargetsOk(lower: string -> string, targets: seq<string>, intents: seq<IntentSchema>) {
    forall k :: 0 <= k < |targets| ==> Names(lower, IntentNames(intents), targets[k])
  }

  ghost predicate ReferencesOk(lower: string -> string, constraints: seq<Constraint>, intents: seq<IntentSchema>) {
    forall i :: 0 <= i < |constraints| ==> TargetsOk(lower, constraints[i].appliesTo, intents)
  }

  /** Valid names, case-insensitive uniqueness at every level, typed defaults, complete constraint
      parameters and resolved references. */
  ghost predicate WellFormed(lower: string -> string, s: Schema) {
    && MetadataOk(s)
    && IntentsOk(lower, s.intents)
    && FieldsOk(lower, s.stateFields)
    && ConstraintsOk(lower, s.constraints, s.stateFields)
    && ReferencesOk(lower, s.constraints, s.intents)
  }

  // --- What draws a warning only ---------------------------------------------------------

  predicate MetadataClean(s: Schema) { s.version == "" || IsVersion(s.version) }

  predicate ParamsClean(c: Constraint) {
    && (c.constraintType.BalanceCheck? ==> Has(c.params, "min_amount"))
    && (c.constraintType.Custom? ==> Has(c.params, "expression"))
  }

  predicate ConstraintsClean(constraints: seq<Constraint>) {
    forall i :: 0 <= i < |constraints| ==> ParamsClean(constraints[i])
  }

  predicate ReferencesClean(s: Schema) {
    && !(s.stateFields == [] && s.intents != [])
    && forall i :: 0 <= i < |s.intents| ==>
      s.intents[i].params != [] || s.intents[i].preconditions != [] || s.intents[i].postconditions != []
  }

  predicate Clean(s: Schema) { MetadataClean(s) && ConstraintsClean(s.constraints) && ReferencesClean(s) }
}
