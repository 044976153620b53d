/** The closed shapes of the protocol objects, and the canonical order of their sets. */
module Protocol {
  import opened Text
  import opened Values
  import opened Grammar
  import opened Utf8
  import opened ProtocolBytes

  /** The protocol's codes, and UNCAUGHT for an exception that has none: Python's own. */
  datatype ErrorCode =
    | OBJECT_NOT_FOUND | OBJECT_DIGEST_MISMATCH | UNSUPPORTED_MEDIA_TYPE | UNSUPPORTED_SEMANTICS
    | SCHEMA_INVALID | NON_CANONICAL_VALUE | INTEGRITY_CHAIN_INVALID | EFFECT_CLAIM_FALSE
    | UNCAUGHT

  datatype Result<+T> = Ok(value: T) | Err(code: ErrorCode) {
    predicate IsFailure() { Err? }
    function PropagateFailure<U>(): Result<U> requires Err? { Err(code) }
    function Extract(): T requires Ok? { value }
  }

  type Check = Result<()>

  function Need(condition: bool, code: ErrorCode): Check { if condition then Ok(()) else Err(code) }

  // ---------------------------------------------------------------- names

  function Ascii(s: string): Text { seq(|s|, i requires 0 <= i < |s| => AsciiUnit(s[i])) }

  function AsciiUnit(ch: char): CodeUnit { if (ch as int) < 0x80 then ch as int else 0x3F }

  const STATE_SCHEMA := Ascii("t3x/state/v1")
  const EFFECT_SCHEMA := Ascii("t3x/effect/v1")
  const STATEMENT_SCHEMA := Ascii("t3x/statement/v1")
  const COMMIT_SCHEMA := Ascii("t3x/commit/v2")
  const PROPOSAL := Ascii("t3x.proposal/v1")
  const DECISION := Ascii("t3x.decision/v1")

  lemma SchemasDistinct()
    ensures STATE_SCHEMA != EFFECT_SCHEMA && STATE_SCHEMA != STATEMENT_SCHEMA && STATE_SCHEMA != COMMIT_SCHEMA
    ensures EFFECT_SCHEMA != STATEMENT_SCHEMA && EFFECT_SCHEMA != COMMIT_SCHEMA && STATEMENT_SCHEMA != COMMIT_SCHEMA
    ensures PROPOSAL != DECISION
  {
    assert |STATE_SCHEMA| == 12 && |EFFECT_SCHEMA| == 13 && |STATEMENT_SCHEMA| == 16 && |COMMIT_SCHEMA| == 13;
    assert EFFECT_SCHEMA[4] == 'e' as int && COMMIT_SCHEMA[4] == 'c' as int;
    assert PROPOSAL[4] == 'p' as int && DECISION[4] == 'd' as int;
  }

  /** `record.name`; Null stands for the `undefined` of a value that has no such field. */
  function Field(v: Value, name: string): Value {
    if v.Obj? && Ascii(name) in v.m then v.m[Ascii(name)] else Null
  }

  function Elements(v: Value): seq<Value> { if v.Arr? then v.items else [] }

  function Content(v: Value): Text { if v.Str? then v.s else [] }

  // ---------------------------------------------------------------- value checks

  function Domain(c: NumberCodec, v: Value): Check { Need(InDomain(c, v), NON_CANONICAL_VALUE) }

  function Names(fields: seq<string>): set<Text> { set f <- fields :: Ascii(f) }

  /** `closedRecord`: every required field, and no field that is not allowed. */
  function ClosedRecord(v: Value, required: seq<string>, allowed: seq<string>): Check {
    Need(v.Obj? && Names(required) <= v.m.Keys <= Names(allowed), SCHEMA_INVALID)
  }

  function Record(v: Value, fields: seq<string>): Check { ClosedRecord(v, fields, fields) }

  function ArrayValue(v: Value): Check { Need(v.Arr?, SCHEMA_INVALID) }

  /** `stringValue`: lengths count code points. */
  function StringValue(v: Value, min: nat, max: nat): Check {
    Need(v.Str? && min <= |CodePoints(v.s)| <= max, SCHEMA_INVALID)
  }

  function Literal(v: Value, expected: Text): Check { Need(v == Str(expected), SCHEMA_INVALID) }

  predicate IsDecimal(u: int) { 0x30 <= u <= 0x39 }
  predicate IsLetter(u: int) { 0x41 <= u <= 0x5A || 0x61 <= u <= 0x7A }

  /** [A-Za-z0-9][A-Za-z0-9._:/-]* */
  predicate IsIdentifier(s: Text) {
    && s != [] && (IsLetter(s[0]) || IsDecimal(s[0]))
    && forall u <- s :: IsLetter(u) || IsDecimal(u) || u in Ascii("._:/-")
  }

  predicate IsHexDigest(s: Text) {
    |s| == 64 && forall u <- s :: IsDecimal(u) || 0x61 <= u <= 0x66
  }

  const SHA256 := Ascii("sha256:")

  /** sha256:[0-9a-f]{64} */
  predicate IsDigest(s: Text) { |s| == 71 && s[..7] == SHA256 && IsHexDigest(s[7..]) }

  function Pair2(s: Text, i: nat): int
    requires i + 1 < |s|
  {
    if IsDecimal(s[i]) && IsDecimal(s[i + 1]) then 10 * (s[i] - 0x30) + (s[i + 1] - 0x30) else 100
  }

  /** YYYY-MM-DDTHH:MM:SS.mmmZ with month 01-12, day 00-31, hour 00-23. */
  predicate IsTimestamp(s: Text) {
    && |s| == 24
    && s[4] == 0x2D && s[7] == 0x2D && s[10] == 0x54 && s[13] == 0x3A && s[16] == 0x3A && s[19] == 0x2E && s[23] == 0x5A
    && Pair2(s, 0) < 100 && Pair2(s, 2) < 100
    && 1 <= Pair2(s, 5) <= 12 && Pair2(s, 8) <= 31 && Pair2(s, 11) <= 23
    && Pair2(s, 14) <= 59 && Pair2(s, 17) <= 59 && Pair2(s, 20) < 100 && IsDecimal(s[22])
  }

  function Identifier(v: Value): Check {
    Need(v.Str? && |CodePoints(v.s)| <= 256 && IsIdentifier(v.s), SCHEMA_INVALID)
  }

  function DigestValue(v: Value): Check { Need(v.Str? && IsDigest(v.s), SCHEMA_INVALID) }

  function Each(values: seq<Value>, check: Value -> Check): Check
    decreases |values|
  {
    if values == [] then Ok(())
    else
      var _ :- check(values[0]);
      Each(values[1..], check)
  }

  lemma {:induction false} EachPasses(values: seq<Value>, check: Value -> Check)
    ensures Each(values, check).Ok? <==> forall i | 0 <= i < |values| :: check(values[i]).Ok?
    decreases |values|
  {
    if values != [] {
      EachPasses(values[1..], check);
      assert forall i | 0 < i < |values| :: values[i] == values[1..][i - 1];
    }
  }

  // ---------------------------------------------------------------- canonical sets

  /** `compareCanonicalValues` */
  function CompareCanonical(c: NumberCodec, a: Value, b: Value): int { Lex(CanonicalBytes(c, a), CanonicalBytes(c, b)) }

  predicate AdjacentAscending(c: NumberCodec, values: seq<Value>) {
    forall i | 0 < i < |values| :: CompareCanonical(c, values[i - 1], values[i]) < 0
  }

  /** The adjacent pass over a set's members. */
  method CanonicalSet(c: NumberCodec, values: seq<Value>) returns (r: Check)
    ensures r == Need(AdjacentAscending(c, values), NON_CANONICAL_VALUE)
  {
    var index := 1;
    while index < |values|
      invariant 1 <= index
      invariant forall i | 0 < i < index && i < |values| :: CompareCanonical(c, values[i - 1], values[i]) < 0
    {
      var comparison := CompareBytes(CanonicalBytes(c, values[index - 1]), CanonicalBytes(c, values[index]));
      if comparison == 0 {
        return Err(NON_CANONICAL_VALUE);
      }
      if comparison > 0 {
        return Err(NON_CANONICAL_VALUE);
      }
      index := index + 1;
    }
    r := Ok(());
  }

  predicate Ascending(c: NumberCodec, values: seq<Value>) {
    forall i, j | 0 <= i < j < |values| :: CompareCanonical(c, values[i], values[j]) < 0
  }

  lemma {:induction false} AdjacentReaches(c: NumberCodec, values: seq<Value>, i: nat, j: nat)
    requires AdjacentAscending(c, values) && i < j < |values|
    ensures CompareCanonical(c, values[i], values[j]) < 0
    decreases j
  {
    if i + 1 < j {
      AdjacentReaches(c, values, i, j - 1);
      LexTransitive(CanonicalBytes(c, values[i]), CanonicalBytes(c, values[j - 1]), CanonicalBytes(c, values[j]));
    }
  }

  /** Passing the adjacent pass is being globally sorted with no two equal members. */
  lemma AdjacentIsGlobal(c: NumberCodec, values: seq<Value>)
    requires Lawful(c) && forall v <- values :: InDomain(c, v)
    ensures AdjacentAscending(c, values) <==> Ascending(c, values)
    ensures AdjacentAscending(c, values) <==>
      && (forall i, j | 0 <= i < j < |values| :: values[i] != values[j])
      && (forall i, j | 0 <= i < j < |values| :: CompareCanonical(c, values[i], values[j]) <= 0)
  {
    if AdjacentAscending(c, values) {
      forall i, j | 0 <= i < j < |values| ensures CompareCanonical(c, values[i], values[j]) < 0 && values[i] != values[j] {
        AdjacentReaches(c, values, i, j);
        LexZero(CanonicalBytes(c, values[i]), CanonicalBytes(c, values[j]));
      }
    }
    if (forall i, j | 0 <= i < j < |values| :: values[i] != values[j])
      && (forall i, j | 0 <= i < j < |values| :: CompareCanonical(c, values[i], values[j]) <= 0) {
      forall i | 0 < i < |values| ensures CompareCanonical(c, values[i - 1], values[i]) < 0 {
        assert values[i - 1] in values && values[i] in values;
        CanonicalBytesIdentifyValue(c, values[i - 1], values[i]);
        LexZero(CanonicalBytes(c, values[i - 1]), CanonicalBytes(c, values[i]));
      }
    }
  }

  /** A set of members has exactly one accepted sequence. */
  lemma {:induction false} OneSequencePerSet(c: NumberCodec, a: seq<Value>, b: seq<Value>)
    requires Lawful(c) && (forall v <- a :: InDomain(c, v)) && (forall v <- b :: InDomain(c, v))
    requires AdjacentAscending(c, a) && AdjacentAscending(c, b)
    requires forall v :: v in a <==> v in b
    ensures a == b
    decreases |a|
  {
    AdjacentIsGlobal(c, a);
    AdjacentIsGlobal(c, b);
    if a != [] { assert a[0] in a; }
    if b != [] { assert b[0] in b; }
    if a != [] && b != [] {
      SameFirst(c, a, b);
      forall v ensures v in a[1..] <==> v in b[1..] {
        if v in a[1..] { assert v in a && v != a[0]; assert v in b; }
        if v in b[1..] { assert v in b && v != b[0]; assert v in a; }
      }
      OneSequencePerSet(c, a[1..], b[1..]);
    }
  }

  lemma SameFirst(c: NumberCodec, a: seq<Value>, b: seq<Value>)
    requires Ascending(c, a) && Ascending(c, b) && a != [] && b != []
    requires a[0] in b && b[0] in a
    ensures a[0] == b[0]
  {
    if a[0] != b[0] {
      assert CompareCanonical(c, b[0], a[0]) < 0;
      LexAntisymmetric(CanonicalBytes(c, a[0]), CanonicalBytes(c, b[0]));
    }
  }

  // ---------------------------------------------------------------- descriptors

  datatype Descriptor = Descriptor(kind: Text, schema: Text, digest: Text)

  function DescriptorOf(v: Value): Descriptor {
    Descriptor(Content(Field(v, "kind")), Content(Field(v, "schema")), Content(Field(v, "digest")))
  }

  /** `expectedSchema`, `descriptorSchema`: the schema of a kind. */
  function ExpectedSchema(kind: Text): Option<Text> {
    if kind == Ascii("state") then Some(STATE_SCHEMA)
    else if kind == Ascii("effect") then Some(EFFECT_SCHEMA)
    else if kind == Ascii("statement") then Some(STATEMENT_SCHEMA)
    else if kind == Ascii("commit") then Some(COMMIT_SCHEMA)
    else None
  }

  function ParseDescriptor(c: NumberCodec, v: Value): Check {
    var _ :- Domain(c, v);
    var _ :- Record(v, ["kind", "schema", "digest"]);
    var kind := Field(v, "kind");
    var _ :- Need(kind.Str? && ExpectedSchema(kind.s).Some?, SCHEMA_INVALID);
    var _ :- Literal(Field(v, "schema"), ExpectedSchema(kind.s).value);
    DigestValue(Field(v, "digest"))
  }

  function DescriptorOfKind(c: NumberCodec, v: Value, kind: string): Check {
    var _ :- ParseDescriptor(c, v);
    Need(DescriptorOf(v).kind == Ascii(kind), SCHEMA_INVALID)
  }

  // ---------------------------------------------------------------- State and Effect

  function DriverRef(v: Value): Check {
    var _ :- Record(v, ["protocol", "protocolVersion", "specDigest"]);
    var _ :- Identifier(Field(v, "protocol"));
    var _ :- Identifier(Field(v, "protocolVersion"));
    DigestValue(Field(v, "specDigest"))
  }

  function ParseState(c: NumberCodec, v: Value): Check {
    var _ :- Domain(c, v);
    var _ :- Record(v, ["schema", "codec", "value"]);
    var _ :- Literal(Field(v, "schema"), STATE_SCHEMA);
    var codec := Field(v, "codec");
    var _ :- Record(codec, ["mediaType", "version"]);
    var _ :- StringValue(Field(codec, "mediaType"), 1, 256);
    Identifier(Field(codec, "version"))
  }

  function InputShape(c: NumberCodec, input: Value): Check {
    var _ :- Record(input, ["role", "object"]);
    var _ :- Identifier(Field(input, "role"));
    ParseDescriptor(c, Field(input, "object"))
  }

  function RoleOf(input: Value): Text { Content(Field(input, "role")) }

  function ObjectOf(input: Value): Value { Field(input, "object") }

  /** Each input in turn, its role after the previous one by code unit. */
  function InputsFrom(c: NumberCodec, inputs: seq<Value>, previous: Option<Text>): Check
    decreases |inputs|
  {
    if inputs == [] then Ok(())
    else
      var _ :- InputShape(c, inputs[0]);
      var role := RoleOf(inputs[0]);
      var _ :- Need(previous.None? || Before(ByCodeUnit, previous.value, role), NON_CANONICAL_VALUE);
      InputsFrom(c, inputs[1..], Some(role))
  }

  method CheckInputs(c: NumberCodec, inputs: seq<Value>) returns (r: Check)
    ensures r == InputsFrom(c, inputs, None)
  {
    hide InputShape;
    var previousRole: Option<Text> := None;
    var index := 0;
    while index < |inputs|
      invariant 0 <= index <= |inputs|
      invariant InputsFrom(c, inputs, None) == InputsFrom(c, inputs[index..], previousRole)
    {
      var input := inputs[index];
      var shape := InputShape(c, input);
      if shape.Err? {
        return shape;
      }
      var role := RoleOf(input);
      if previousRole.Some? {
        if !Before(ByCodeUnit, previousRole.value, role) {
          return Err(NON_CANONICAL_VALUE);
        }
      }
      assert inputs[index..][1..] == inputs[index + 1..];
      previousRole := Some(role);
      index := index + 1;
    }
    r := Ok(());
  }

  function ParseDefinition(c: NumberCodec, v: Value): Check {
    var _ :- Domain(c, v);
    var _ :- Record(v, ["driver", "operations", "inputs"]);
    var _ :- DriverRef(Field(v, "driver"));
    var _ :- ArrayValue(Field(v, "operations"));
    var _ :- ArrayValue(Field(v, "inputs"));
    InputsFrom(c, Elements(Field(v, "inputs")), None)
  }

  /** The definition fields alone: the claimed Result cannot enter replay. */
  function DefinitionOf(effect: Value): Value {
    Obj(map[Ascii("driver") := Field(effect, "driver"),
            Ascii("operations") := Field(effect, "operations"),
            Ascii("inputs") := Field(effect, "inputs")])
  }

  function ParseEffect(c: NumberCodec, v: Value): Check {
    var _ :- Domain(c, v);
    var _ :- Record(v, ["schema", "base", "driver", "operations", "inputs", "result"]);
    var _ :- Literal(Field(v, "schema"), EFFECT_SCHEMA);
    var _ :- DescriptorOfKind(c, Field(v, "base"), "state");
    var _ :- ParseDefinition(c, DefinitionOf(v));
    DescriptorOfKind(c, Field(v, "result"), "state")
  }

  // ---------------------------------------------------------------- Statement

  function ResourceDescriptor(v: Value): Check {
    var _ :- Record(v, ["uri", "mediaType", "digest"]);
    var _ :- StringValue(Field(v, "uri"), 1, 2048);
    var _ :- StringValue(Field(v, "mediaType"), 1, 256);
    DigestValue(Field(v, "digest"))
  }

  function ActorRef(v: Value): Check {
    var _ :- Record(v, ["kind", "id"]);
    var _ :- Need(Field(v, "kind") in [Str(Ascii("human")), Str(Ascii("agent")), Str(Ascii("service"))], SCHEMA_INVALID);
    StringValue(Field(v, "id"), 1, 512)
  }

  function EvidenceRef(v: Value): Check {
    var _ :- Record(v, ["resource", "locator"]);
    var _ :- ResourceDescriptor(Field(v, "resource"));
    var locator := Field(v, "locator");
    var _ :- Record(locator, ["scheme", "value"]);
    Identifier(Field(locator, "scheme"))
  }

  function SetCheck(c: NumberCodec, values: seq<Value>): Check {
    Need(AdjacentAscending(c, values), NON_CANONICAL_VALUE)
  }

  function EvidenceSet(c: NumberCodec, v: Value, requireMember: bool): Check {
    var _ :- ArrayValue(v);
    var _ :- Need(!requireMember || Elements(v) != [], SCHEMA_INVALID);
    var _ :- Each(Elements(v), EvidenceRef);
    SetCheck(c, Elements(v))
  }

  function StringClaim(c: NumberCodec, v: Value): Check {
    var _ :- ClosedRecord(v, ["mode"], ["mode", "value", "evidence"]);
    var mode := Field(v, "mode");
    if mode == Str(Ascii("unspecified")) then Record(v, ["mode"])
    else
      var _ :- Need(mode in [Str(Ascii("stated")), Str(Ascii("inferred")), Str(Ascii("authored"))], SCHEMA_INVALID);
      var _ :- Record(v, ["mode", "value", "evidence"]);
      var value := Field(v, "value");
      var _ :- Need(value.Str? && value.s != [], SCHEMA_INVALID);
      EvidenceSet(c, Field(v, "evidence"), mode == Str(Ascii("stated")))
  }

  function ProposalPredicate(c: NumberCodec, v: Value): Check {
    var _ :- Record(v, ["intent", "rationale"]);
    var _ :- StringClaim(c, Field(v, "intent"));
    StringClaim(c, Field(v, "rationale"))
  }

  function DecisionPolicy(v: Value): Check {
    var _ :- ClosedRecord(v, ["mode"], ["mode", "resource"]);
    if Field(v, "mode") == Str(Ascii("not_evaluated")) then Record(v, ["mode"])
    else if Field(v, "mode") == Str(Ascii("evaluated")) then
      var _ :- Record(v, ["mode", "resource"]);
      ResourceDescriptor(Field(v, "resource"))
    else Err(SCHEMA_INVALID)
  }

  const REJECTED := Str(Ascii("rejected"))
  const OVERRIDDEN := Str(Ascii("overridden"))

  function DecisionPredicate(c: NumberCodec, v: Value): Check {
    var _ :- Record(v, ["policy", "considered", "outcome", "rationale", "decidedAt"]);
    var _ :- DecisionPolicy(Field(v, "policy"));
    var _ :- ArrayValue(Field(v, "considered"));
    var _ :- Each(Elements(Field(v, "considered")), d => DescriptorOfKind(c, d, "statement"));
    var _ :- SetCheck(c, Elements(Field(v, "considered")));
    var outcome := Field(v, "outcome");
    var _ :- Need(outcome in [Str(Ascii("accepted")), OVERRIDDEN, REJECTED], SCHEMA_INVALID);
    var _ :- StringClaim(c, Field(v, "rationale"));
    var _ :- Need(outcome == OVERRIDDEN ==> Field(Field(v, "rationale"), "mode") == Str(Ascii("authored")), SCHEMA_INVALID);
    Need(Field(v, "decidedAt").Str? && IsTimestamp(Field(v, "decidedAt").s), SCHEMA_INVALID)
  }

  function SubjectsOf(statement: Value): seq<Value> { Elements(Field(statement, "subjects")) }

  function OneSubject(statement: Value, kind: string): Check {
    var subjects := SubjectsOf(statement);
    Need(|subjects| == 1 && DescriptorOf(subjects[0]).kind == Ascii(kind), SCHEMA_INVALID)
  }

  function StatementPredicate(c: NumberCodec, v: Value): Check {
    var predicateType := Field(v, "predicateType");
    var _ :- Identifier(predicateType);
    if predicateType == Str(PROPOSAL) then
      var _ :- OneSubject(v, "effect");
      ProposalPredicate(c, Field(v, "predicate"))
    else if predicateType == Str(DECISION) then
      var _ :- OneSubject(v, "statement");
      DecisionPredicate(c, Field(v, "predicate"))
    else Ok(())
  }

  function SubjectsShape(c: NumberCodec, v: Value): Check {
    var _ :- ArrayValue(Field(v, "subjects"));
    var _ :- Need(SubjectsOf(v) != [], SCHEMA_INVALID);
    var _ :- Each(SubjectsOf(v), d => ParseDescriptor(c, d));
    SetCheck(c, SubjectsOf(v))
  }

  function ParseStatement(c: NumberCodec, v: Value): Check {
    var _ :- Domain(c, v);
    var _ :- Record(v, ["schema", "subjects", "actor", "predicateType", "predicate"]);
    var _ :- Literal(Field(v, "schema"), STATEMENT_SCHEMA);
    var _ :- SubjectsShape(c, v);
    var _ :- ActorRef(Field(v, "actor"));
    StatementPredicate(c, v)
  }

  function ParseProposal(c: NumberCodec, v: Value): Check {
    var _ :- ParseStatement(c, v);
    Literal(Field(v, "predicateType"), PROPOSAL)
  }

  function ParseDecision(c: NumberCodec, v: Value): Check {
    var _ :- ParseStatement(c, v);
    Literal(Field(v, "predicateType"), DECISION)
  }

  // ---------------------------------------------------------------- Commit and the union

  function ParentsOf(commit: Value): seq<Value> { Elements(Field(commit, "parents")) }

  function ParseCommit(c: NumberCodec, v: Value): Check {
    var _ :- Domain(c, v);
    var _ :- Record(v, ["schema", "parents", "decision", "result"]);
    var _ :- Literal(Field(v, "schema"), COMMIT_SCHEMA);
    var _ :- ArrayValue(Field(v, "parents"));
    var _ :- Each(ParentsOf(v), d => DescriptorOfKind(c, d, "commit"));
    var _ :- DescriptorOfKind(c, Field(v, "decision"), "statement");
    DescriptorOfKind(c, Field(v, "result"), "state")
  }

  function SchemaOf(v: Value): Text { Content(Field(v, "schema")) }

  const ALL_FIELDS := ["schema", "codec", "value", "base", "driver", "operations", "inputs", "result",
    "subjects", "actor", "predicateType", "predicate", "parents", "decision"]

  function BySchema(v: Value, state: Check, effect: Check, statement: Check, commit: Check): Check {
    var schema := Field(v, "schema");
    if schema == Str(STATE_SCHEMA) then state
    else if schema == Str(EFFECT_SCHEMA) then effect
    else if schema == Str(STATEMENT_SCHEMA) then statement
    else if schema == Str(COMMIT_SCHEMA) then commit
    else Err(SCHEMA_INVALID)
  }

  function ParseObject(c: NumberCodec, v: Value): Check {
    var _ :- Domain(c, v);
    var _ :- ClosedRecord(v, ["schema"], ALL_FIELDS);
    BySchema(v, ParseState(c, v), ParseEffect(c, v), ParseStatement(c, v), ParseCommit(c, v))
  }

  predicate IsState(v: Value) { Field(v, "schema") == Str(STATE_SCHEMA) }
  predicate IsEffect(v: Value) { Field(v, "schema") == Str(EFFECT_SCHEMA) }
  predicate IsStatement(v: Value) { Field(v, "schema") == Str(STATEMENT_SCHEMA) }
  predicate IsCommit(v: Value) { Field(v, "schema") == Str(COMMIT_SCHEMA) }

  lemma MoreAllowed(v: Value, fields: seq<string>)
    requires Record(v, fields).Ok? && "schema" in fields && forall f <- fields :: f in ALL_FIELDS
    ensures ClosedRecord(v, ["schema"], ALL_FIELDS).Ok?
  {}

  lemma ObjectFields(c: NumberCodec, v: Value)
    requires ParseState(c, v).Ok? || ParseEffect(c, v).Ok? || ParseStatement(c, v).Ok? || ParseCommit(c, v).Ok?
    ensures InDomain(c, v) && ClosedRecord(v, ["schema"], ALL_FIELDS).Ok?
  {
    if ParseState(c, v).Ok? {
      MoreAllowed(v, ["schema", "codec", "value"]);
    } else if ParseEffect(c, v).Ok? {
      MoreAllowed(v, ["schema", "base", "driver", "operations", "inputs", "result"]);
    } else if ParseStatement(c, v).Ok? {
      MoreAllowed(v, ["schema", "subjects", "actor", "predicateType", "predicate"]);
    } else {
      MoreAllowed(v, ["schema", "parents", "decision", "result"]);
    }
  }

  lemma ParsedSchemas(c: NumberCodec, v: Value)
    ensures ParseState(c, v).Ok? ==> IsState(v)
    ensures ParseEffect(c, v).Ok? ==> IsEffect(v)
    ensures ParseStatement(c, v).Ok? ==> IsStatement(v)
    ensures ParseCommit(c, v).Ok? ==> IsCommit(v)
  {}

  lemma BySchemaIsOneOfFour(v: Value, state: Check, effect: Check, statement: Check, commit: Check)
    requires state.Ok? ==> IsState(v)
    requires effect.Ok? ==> IsEffect(v)
    requires statement.Ok? ==> IsStatement(v)
    requires commit.Ok? ==> IsCommit(v)
    ensures var r := BySchema(v, state, effect, statement, commit);
      && (r.Ok? <==> state.Ok? || effect.Ok? || statement.Ok? || commit.Ok?)
      && (state.Ok? <==> r.Ok? && IsState(v)) && (effect.Ok? <==> r.Ok? && IsEffect(v))
      && (statement.Ok? <==> r.Ok? && IsStatement(v)) && (commit.Ok? <==> r.Ok? && IsCommit(v))
  {
    SchemasDistinct();
  }

  /** The union parser is the four parsers put together, told apart by `schema`. */
  lemma ParseObjectIsOneOfFour(c: NumberCodec, v: Value)
    ensures ParseObject(c, v).Ok? <==>
      ParseState(c, v).Ok? || ParseEffect(c, v).Ok? || ParseStatement(c, v).Ok? || ParseCommit(c, v).Ok?
    ensures ParseState(c, v).Ok? <==> ParseObject(c, v).Ok? && IsState(v)
    ensures ParseEffect(c, v).Ok? <==> ParseObject(c, v).Ok? && IsEffect(v)
    ensures ParseStatement(c, v).Ok? <==> ParseObject(c, v).Ok? && IsStatement(v)
    ensures ParseCommit(c, v).Ok? <==> ParseObject(c, v).Ok? && IsCommit(v)
  {
    ParsedSchemas(c, v);
    BySchemaIsOneOfFour(v, ParseState(c, v), ParseEffect(c, v), ParseStatement(c, v), ParseCommit(c, v));
    if ParseState(c, v).Ok? || ParseEffect(c, v).Ok? || ParseStatement(c, v).Ok? || ParseCommit(c, v).Ok? {
      ObjectFields(c, v);
    }
  }

  // ---------------------------------------------------------------- roles

  function Roles(inputs: seq<Value>): seq<Text> { seq(|inputs|, i requires 0 <= i < |inputs| => RoleOf(inputs[i])) }

  /** Accepted inputs have strictly ascending, hence distinct, roles, and parsed descriptors. */
  lemma {:induction false} InputsAscend(c: NumberCodec, inputs: seq<Value>, previous: Option<Text>)
    ensures InputsFrom(c, inputs, previous).Ok? <==>
      && (forall i | 0 <= i < |inputs| :: InputShape(c, inputs[i]).Ok?)
      && StrictlySorted(ByCodeUnit, Roles(inputs))
      && (previous.Some? && inputs != [] ==> Before(ByCodeUnit, previous.value, RoleOf(inputs[0])))
    decreases |inputs|
  {
    if inputs != [] {
      var rest := inputs[1..];
      InputsAscend(c, rest, Some(RoleOf(inputs[0])));
      assert forall i | 0 < i < |inputs| :: inputs[i] == rest[i - 1];
      RolesHead(inputs);
    }
  }

  lemma RolesHead(inputs: seq<Value>)
    requires inputs != []
    ensures StrictlySorted(ByCodeUnit, Roles(inputs)) <==>
      && StrictlySorted(ByCodeUnit, Roles(inputs[1..]))
      && (|inputs| > 1 ==> Before(ByCodeUnit, RoleOf(inputs[0]), RoleOf(inputs[1])))
  {
    var all, rest := Roles(inputs), Roles(inputs[1..]);
    assert forall i | 0 <= i < |rest| :: rest[i] == all[i + 1];
    if StrictlySorted(ByCodeUnit, rest) && (|inputs| > 1 ==> Before(ByCodeUnit, all[0], all[1])) {
      forall i, j | 0 <= i < j < |all| ensures Before(ByCodeUnit, all[i], all[j]) {
        if i > 0 {
          assert Before(ByCodeUnit, rest[i - 1], rest[j - 1]);
        } else if j > 1 {
          assert Before(ByCodeUnit, rest[0], rest[j - 1]);
          BeforeTransitive(ByCodeUnit, all[0], all[1], all[j]);
        }
      }
    }
    if StrictlySorted(ByCodeUnit, all) {
      forall i, j | 0 <= i < j < |rest| ensures Before(ByCodeUnit, rest[i], rest[j]) {
        assert Before(ByCodeUnit, all[i + 1], all[j + 1]);
      }
    }
  }
}
