/** Compilation: refuse a schema with validation errors, otherwise emit the runtime format and hand
    back the warnings. `hash` stands for the schema identifier's digest. */
module SchemaCompiler {
  import opened ContractSchema
  import opened NumberTheory
  import opened SchemaValidator

  datatype CompiledParam = CompiledParam(name: string, typeHint: string, required: bool)

  datatype CompiledIntent = CompiledIntent(
    selector: string, description: string, params: seq<CompiledParam>, capabilities: seq<string>,
    preconditions: seq<string>, postconditions: seq<string>)

  datatype CompiledField = CompiledField(name: string, fieldType: string, defaultValue: Option<string>)

  datatype CompiledConstraint = CompiledConstraint(
    name: string, constraintType: string, params: Fields, appliesTo: seq<string>)

  datatype CompiledSchema = CompiledSchema(
    schemaId: string, name: string, version: string, description: string, domainTag: string,
    intents: seq<CompiledIntent>, stateFields: seq<CompiledField>, constraints: seq<CompiledConstraint>,
    maxGasPerCall: nat, maxStateBytes: nat)

  function TypeHint(t: ParamType): string {
    match t
    case Uint128 => "uint128" case Address => "address" case Bytes => "bytes"
    case Text => "string" case Boolean => "bool"
  }

  function EmitParam(p: ParamDef): CompiledParam { CompiledParam(p.name, TypeHint(p.paramType), p.required) }

  function EmitIntent(i: IntentSchema): CompiledIntent {
    CompiledIntent(i.name, i.description, Map(EmitParam, i.params), ["ContractCall"], i.preconditions, i.postconditions)
  }

  function EmitField(f: StateField): CompiledField {
    CompiledField(f.name, TypeHint(f.fieldType), f.defaultValue)
  }

  function ConstraintTypeName(t: ConstraintType): string {
    match t
    case BalanceCheck => "BalanceCheck" case OwnershipCheck => "OwnershipCheck" case TimeCheck => "TimeCheck"
    case StateCheck => "StateCheck" case Custom => "Custom"
  }

  function EmitConstraint(c: Constraint): CompiledConstraint {
    CompiledConstraint(c.name, ConstraintTypeName(c.constraintType), c.params, c.appliesTo)
  }

  function Map<A, B>(f: A -> B, s: seq<A>): (r: seq<B>)
    ensures |r| == |s| && forall i :: 0 <= i < |s| ==> r[i] == f(s[i])
  {
    seq(|s|, i requires 0 <= i < |s| => f(s[i]))
  }

  function Underscored(s: string): string {
    if s == "" then "" else [if s[0] == ' ' then '_' else s[0]] + Underscored(s[1..])
  }

  /** The compiled schema before its identifier is filled in. */
  function Emit(lower: string -> string, s: Schema): CompiledSchema {
    CompiledSchema("", s.name, s.version, s.description, "contract." + Underscored(lower(s.name)),
                   Map(EmitIntent, s.intents), Map(EmitField, s.stateFields), Map(EmitConstraint, s.constraints),
                   s.maxGasPerCall, s.maxStateBytes)
  }

  function Select(list: seq<ValidationMessage>, severity: Severity): (r: seq<ValidationMessage>)
    ensures forall m :: m in r <==> m in list && m.severity == severity
  {
    if list == [] then []
    else (if list[0].severity == severity then [list[0]] else []) + Select(list[1..], severity)
  }

  datatype CompileResult =
    | Compiled(schema: CompiledSchema, warnings: seq<ValidationMessage>)
    | ValidationErrors(errors: seq<ValidationMessage>)

  /** The list holds exactly the defects of this severity. */
  ghost predicate Reports(lower: string -> string, s: Schema, severity: Severity, list: seq<ValidationMessage>) {
    forall m :: m in list <==> Defect(lower, s, m) && m.severity == severity
  }

  /** Compilation succeeds exactly for the well-formed schemas, and silently exactly for the clean
      ones; it hands back exactly the defects, and the identifier is the digest of everything else. */
  method Compile(lower: string -> string, hash: CompiledSchema -> string, s: Schema) returns (r: CompileResult)
    ensures r.Compiled? <==> WellFormed(lower, s)
    ensures r.Compiled? ==> r.schema == Emit(lower, s).(schemaId := hash(Emit(lower, s)))
    ensures r.Compiled? ==> (r.warnings == [] <==> Clean(s)) && Reports(lower, s, Warning, r.warnings)
    ensures r.ValidationErrors? ==> r.errors != [] && Reports(lower, s, Error, r.errors)
  {
    hide WellFormed, Clean, Emit, Select, Defect;
    var messages := ValidateSchema(lower, s);
    var list := messages.list;
    var errors := Select(list, Error);
    SelectEmptyIff(list, Error);
    SelectEmptyIff(list, Warning);
    hide Includes;
    if errors != [] { return ValidationErrors(errors); }
    var warnings := Select(list, Warning);
    var compiled := Emit(lower, s);
    compiled := compiled.(schemaId := hash(compiled));
    return Compiled(compiled, warnings);
  }

  lemma SelectEmptyIff(list: seq<ValidationMessage>, severity: Severity)
    ensures Select(list, severity) == [] <==> !Includes(list, severity)
  {
    var r := Select(list, severity);
    hide Select;
    if Includes(list, severity) {
      var i :| 0 <= i < |list| && list[i].severity == severity;
      assert list[i] in r;
    }
    if r != [] { assert r[0] in list && r[0].severity == severity; }
  }

  // --- What compilation loses --------------------------------------------------------

  function PlainParam(p: ParamDef): ParamDef { p.(description := "") }

  function PlainIntent(i: IntentSchema): IntentSchema { i.(params := Map(PlainParam, i.params)) }

  function PlainField(f: StateField): StateField { f.(description := "") }

  /** The schema without the descriptions of its parameters and state fields. */
  function Plain(s: Schema): Schema {
    s.(intents := Map(PlainIntent, s.intents), stateFields := Map(PlainField, s.stateFields))
  }

  // --- Reading the compiled schema back ------------------------------------------------

  /** `from_str_loose`: the type names and their aliases, in any letter case. */
  function TypeFromText(lower: string -> string, text: string): Option<ParamType> {
    var t := lower(text);
    if t in ["uint128", "u128"] then Some(Uint128)
    else if t in ["address", "addr"] then Some(Address)
    else if t in ["bytes", "binary"] then Some(Bytes)
    else if t in ["string", "str", "text"] then Some(Text)
    else if t in ["bool", "boolean"] then Some(Boolean)
    else None
  }

  /** The names that `serde` gives the constraint types. */
  function ConstraintTypeFromName(name: string): Option<ConstraintType> {
    if name == "BalanceCheck" then Some(BalanceCheck)
    else if name == "OwnershipCheck" then Some(OwnershipCheck)
    else if name == "TimeCheck" then Some(TimeCheck)
    else if name == "StateCheck" then Some(StateCheck)
    else if name == "Custom" then Some(Custom)
    else None
  }

  /** Lowercasing leaves lowercase letters and digits alone. */
  ghost predicate KeepsLowercase(lower: string -> string) {
    forall s: string :: (forall c <- s :: 'a' <= c <= 'z' || '0' <= c <= '9') ==> lower(s) == s
  }

  function ReadType(lower: string -> string, text: string): ParamType {
    TypeFromText(lower, text).GetOr(Text)
  }

  function ReadConstraintType(name: string): ConstraintType {
    ConstraintTypeFromName(name).GetOr(Custom)
  }

  function ReadParam(lower: string -> string): CompiledParam -> ParamDef {
    (p: CompiledParam) => ParamDef(p.name, ReadType(lower, p.typeHint), p.required, "")
  }

  function ReadIntent(lower: string -> string): CompiledIntent -> IntentSchema {
    (i: CompiledIntent) =>
      IntentSchema(i.selector, i.description, Map(ReadParam(lower), i.params), i.preconditions, i.postconditions)
  }

  function ReadField(lower: string -> string): CompiledField -> StateField {
    (f: CompiledField) => StateField(f.name, ReadType(lower, f.fieldType), f.defaultValue, "")
  }

  function ReadConstraint(c: CompiledConstraint): Constraint {
    Constraint(c.name, ReadConstraintType(c.constraintType), c.params, c.appliesTo)
  }

  /** The schema that a compiled schema describes. */
  function Read(lower: string -> string, c: CompiledSchema): Schema {
    Schema(c.name, c.version, c.description, Map(ReadIntent(lower), c.intents), Map(ReadField(lower), c.stateFields),
           Map(ReadConstraint, c.constraints), c.maxGasPerCall, c.maxStateBytes)
  }

  /** The names of the types, up to case. */
  lemma TypeNamesIff(lower: string -> string, text: string, t: ParamType)
    ensures TypeFromText(lower, text) == Some(t) <==>
      match t
      case Uint128 => lower(text) == "uint128" || lower(text) == "u128"
      case Address => lower(text) == "address" || lower(text) == "addr"
      case Bytes => lower(text) == "bytes" || lower(text) == "binary"
      case Text => lower(text) == "string" || lower(text) == "str" || lower(text) == "text"
      case Boolean => lower(text) == "bool" || lower(text) == "boolean"
  {
    assert "uint128"[0] == 'u' && "u128"[0] == 'u' && "address"[0] == 'a' && "addr"[0] == 'a';
    assert "bytes"[1] == 'y' && "binary"[1] == 'i' && "bytes"[0] == 'b' && "binary"[0] == 'b';
    assert "string"[0] == 's' && "str"[0] == 's' && "text"[0] == 't' && "bool"[1] == 'o' && "boolean"[1] == 'o';
    assert "bool"[0] == 'b' && "boolean"[0] == 'b';
  }

  /** A type hint is one of the names that the toolkit reads as the type, and constraint types too. */
  lemma TypesReadBack(lower: string -> string, t: ParamType, c: ConstraintType)
    requires KeepsLowercase(lower)
    ensures TypeFromText(lower, TypeHint(t)) == Some(t)
    ensures ConstraintTypeFromName(ConstraintTypeName(c)) == Some(c)
  {
    var hint, name := TypeHint(t), ConstraintTypeName(c);
    assert lower(hint) == hint;
    assert |hint| > 0 && |name| > 0 && name[0] in "BOTSC";
    assert "uint128"[0] == 'u' && "address"[0] == 'a' && "bytes"[0] == 'b' && "string"[0] == 's' && "bool"[0] == 'b';
    assert "u128"[0] == 'u' && "addr"[0] == 'a' && "binary"[1] == 'i' && "bool"[1] == 'o' && "bytes"[1] == 'y';
    assert "BalanceCheck"[0] == 'B' && "OwnershipCheck"[0] == 'O' && "TimeCheck"[0] == 'T' && "StateCheck"[0] == 'S';
    assert "Custom"[0] == 'C';
  }

  lemma MapTwice<A, B, C>(f: A -> B, g: B -> C, h: A -> C, s: seq<A>)
    requires forall a :: g(f(a)) == h(a)
    ensures Map(g, Map(f, s)) == Map(h, s)
  {}

  lemma ElementsReadBack(lower: string -> string)
    requires KeepsLowercase(lower)
    ensures forall p :: ReadParam(lower)(EmitParam(p)) == PlainParam(p)
    ensures forall f :: ReadField(lower)(EmitField(f)) == PlainField(f)
    ensures forall c :: ReadConstraint(EmitConstraint(c)) == c
  {
    hide TypeHint, ConstraintTypeName, ReadType, ReadConstraintType, KeepsLowercase;
    forall t: ParamType ensures ReadType(lower, TypeHint(t)) == t { TypesRead(lower, t, Custom); }
    forall c: ConstraintType ensures ReadConstraintType(ConstraintTypeName(c)) == c { TypesRead(lower, Text, c); }
  }

  lemma TypesRead(lower: string -> string, t: ParamType, c: ConstraintType)
    requires KeepsLowercase(lower)
    ensures ReadType(lower, TypeHint(t)) == t && ReadConstraintType(ConstraintTypeName(c)) == c
  {
    TypesReadBack(lower, t, c);
    hide TypeFromText, ConstraintTypeFromName, TypeHint, ConstraintTypeName, KeepsLowercase;
  }

  lemma IntentReadsBack(lower: string -> string, i: IntentSchema)
    requires KeepsLowercase(lower)
    ensures ReadIntent(lower)(EmitIntent(i)) == PlainIntent(i)
  {
    ElementsReadBack(lower);
    MapTwice(EmitParam, ReadParam(lower), PlainParam, i.params);
    hide Map, KeepsLowercase, ReadParam, EmitParam, PlainParam;
  }

  /** Round trip: a compiled schema describes the schema it was compiled from, except for the
      descriptions of parameters and state fields. */
  lemma CompiledReadsBack(lower: string -> string, s: Schema)
    requires KeepsLowercase(lower)
    ensures Read(lower, Emit(lower, s)) == Plain(s)
  {
    ElementsReadBack(lower);
    forall i ensures ReadIntent(lower)(EmitIntent(i)) == PlainIntent(i) { IntentReadsBack(lower, i); }
    hide KeepsLowercase, Underscored, ReadIntent, EmitIntent, PlainIntent, ReadField, EmitField, PlainField, ReadConstraint, EmitConstraint;
    MapTwice(EmitIntent, ReadIntent(lower), PlainIntent, s.intents);
    MapTwice(EmitField, ReadField(lower), PlainField, s.stateFields);
    MapTwice(EmitConstraint, ReadConstraint, (c: Constraint) => c, s.constraints);
    assert Map((c: Constraint) => c, s.constraints) == s.constraints;
    hide Map;
  }

  lemma {:induction false} UnderscoredAt(s: string)
    ensures |Underscored(s)| == |s| && forall i :: 0 <= i < |s| ==> Underscored(s)[i] == if s[i] == ' ' then '_' else s[i]
  {
    if s != "" {
      UnderscoredAt(s[1..]);
      assert forall i :: 1 <= i < |s| ==> Underscored(s)[i] == Underscored(s[1..])[i - 1];
    }
  }

  /** What compilation adds: no identifier yet, the capability to call contracts, and a domain tag of
      "contract." and the lowercase name with underscores for blanks. */
  lemma EmitAdds(lower: string -> string, s: Schema, i: nat)
    ensures var c, name := Emit(lower, s), lower(s.name);
      && c.schemaId == "" && (i < |s.intents| ==> c.intents[i].capabilities == ["ContractCall"])
      && |c.domainTag| == 9 + |name| && c.domainTag[..9] == "contract."
      && forall k :: 0 <= k < |name| ==> c.domainTag[9 + k] == if name[k] == ' ' then '_' else name[k]
  {
    UnderscoredAt(lower(s.name));
    hide Underscored;
  }

  /** The descriptions of parameters and state fields are all that is lost: two schemas compile to
      the same output exactly when they differ in nothing else. */
  lemma EmitEqualIff(lower: string -> string, a: Schema, b: Schema)
    ensures Emit(lower, a) == Emit(lower, b) <==> Plain(a) == Plain(b)
  {
    hide Underscored;
    IntentsEqualIff(a.intents, b.intents);
    FieldsEqualIff(a.stateFields, b.stateFields);
    ConstraintsEqualIff(a.constraints, b.constraints);
    hide Map;
  }

  lemma IntentsEqualIff(a: seq<IntentSchema>, b: seq<IntentSchema>)
    ensures Map(EmitIntent, a) == Map(EmitIntent, b) <==> Map(PlainIntent, a) == Map(PlainIntent, b)
  {
    if |a| == |b| {
      forall i | 0 <= i < |a| ensures EmitIntent(a[i]) == EmitIntent(b[i]) <==> PlainIntent(a[i]) == PlainIntent(b[i]) {
        ParamsEqualIff(a[i].params, b[i].params);
        hide Map;
      }
      MapEqualIff(EmitIntent, a, b);
      MapEqualIff(PlainIntent, a, b);
    } else {
      assert |Map(EmitIntent, a)| != |Map(EmitIntent, b)| && |Map(PlainIntent, a)| != |Map(PlainIntent, b)|;
    }
    hide EmitIntent, PlainIntent, Map;
  }

  lemma ParamsEqualIff(a: seq<ParamDef>, b: seq<ParamDef>)
    ensures Map(EmitParam, a) == Map(EmitParam, b) <==> Map(PlainParam, a) == Map(PlainParam, b)
  {
    if |a| == |b| {
      forall i | 0 <= i < |a| ensures EmitParam(a[i]) == EmitParam(b[i]) <==> PlainParam(a[i]) == PlainParam(b[i]) {
        TypeHintInjective(a[i].paramType, b[i].paramType);
        hide TypeHint;
      }
      MapEqualIff(EmitParam, a, b);
      MapEqualIff(PlainParam, a, b);
    } else {
      assert |Map(EmitParam, a)| != |Map(EmitParam, b)| && |Map(PlainParam, a)| != |Map(PlainParam, b)|;
    }
    hide EmitParam, PlainParam, Map;
  }

  lemma FieldsEqualIff(a: seq<StateField>, b: seq<StateField>)
    ensures Map(EmitField, a) == Map(EmitField, b) <==> Map(PlainField, a) == Map(PlainField, b)
  {
    if |a| == |b| {
      forall i | 0 <= i < |a| ensures EmitField(a[i]) == EmitField(b[i]) <==> PlainField(a[i]) == PlainField(b[i]) {
        TypeHintInjective(a[i].fieldType, b[i].fieldType);
        hide TypeHint;
      }
      MapEqualIff(EmitField, a, b);
      MapEqualIff(PlainField, a, b);
    } else {
      assert |Map(EmitField, a)| != |Map(EmitField, b)| && |Map(PlainField, a)| != |Map(PlainField, b)|;
    }
    hide EmitField, PlainField, Map;
  }

  lemma ConstraintsEqualIff(a: seq<Constraint>, b: seq<Constraint>)
    ensures Map(EmitConstraint, a) == Map(EmitConstraint, b) <==> a == b
  {
    if |a| == |b| {
      forall i | 0 <= i < |a| ensures EmitConstraint(a[i]) == EmitConstraint(b[i]) <==> a[i] == b[i] {
        ConstraintTypeNameInjective(a[i].constraintType, b[i].constraintType);
        hide ConstraintTypeName;
      }
      MapEqualIff(EmitConstraint, a, b);
    } else {
      assert |Map(EmitConstraint, a)| != |Map(EmitConstraint, b)|;
    }
    hide EmitConstraint, Map;
  }

  lemma ConstraintTypeNameInjective(t: ConstraintType, u: ConstraintType)
    ensures ConstraintTypeName(t) == ConstraintTypeName(u) <==> t == u
  {
    if ConstraintTypeName(t) == ConstraintTypeName(u) {
      assert ConstraintTypeName(t)[0] == ConstraintTypeName(u)[0];
    }
  }

  lemma MapEqualIff<A, B>(f: A -> B, a: seq<A>, b: seq<A>)
    requires |a| == |b|
    ensures Map(f, a) == Map(f, b) <==> forall i :: 0 <= i < |a| ==> f(a[i]) == f(b[i])
  {
    if Map(f, a) == Map(f, b) {
      forall i | 0 <= i < |a| ensures f(a[i]) == f(b[i]) {
        assert Map(f, a)[i] == Map(f, b)[i];
      }
    }
  }

  /** Any schema with a state field compiles like one with another description of that field. */
  lemma DescriptionsCollide(lower: string -> string, s: Schema, i: nat, description: string)
    requires i < |s.stateFields| && s.stateFields[i].description != description
    ensures var other := s.(stateFields := s.stateFields[i := s.stateFields[i].(description := description)]);
      other != s && Emit(lower, other) == Emit(lower, s)
  {
    var fields := s.stateFields[i := s.stateFields[i].(description := description)];
    assert fields[i] != s.stateFields[i];
    MapEqualIff(EmitField, fields, s.stateFields);
  }

  lemma TypeHintInjective(t: ParamType, u: ParamType)
    ensures TypeHint(t) == TypeHint(u) <==> t == u
  {
    if TypeHint(t) == TypeHint(u) {
      assert |TypeHint(t)| == |TypeHint(u)| && TypeHint(t)[0] == TypeHint(u)[0];
    }
  }
}
