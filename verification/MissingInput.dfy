/** A commit that one verifier accepts and the other rejects: the empty genesis, an Effect on
    it with an input that was never stored, its Proposal, its Decision and its Commit, each
    naming the one before it by its own descriptor. */
module MissingInput {
  import opened Text
  import opened Values
  import opened Grammar
  import opened Utf8
  import opened Decimal
  import opened ProtocolBytes
  import opened Protocol
  import opened Resolver
  import opened Integrity
  import opened Replay
  import opened PythonVerifier
  import opened VerifiersAgree

  // ---------------------------------------------------------------- records

  predicate IsAsciiName(s: string) { forall i | 0 <= i < |s| :: (s[i] as int) < 0x80 }

  predicate GoodNames(names: seq<string>) {
    && (forall i | 0 <= i < |names| :: IsAsciiName(names[i]))
    && (forall i, j | 0 <= i < j < |names| :: names[i] != names[j])
  }

  /** The record with these fields. */
  function Rec(names: seq<string>, values: seq<Value>): Value
    requires |names| == |values|
  {
    Obj(RecMap(names, values))
  }

  function RecMap(names: seq<string>, values: seq<Value>): map<Text, Value>
    requires |names| == |values|
  {
    if names == [] then map[] else RecMap(names[1..], values[1..])[Ascii(names[0]) := values[0]]
  }

  lemma AsciiInjective(s: string, t: string)
    requires IsAsciiName(s) && IsAsciiName(t) && Ascii(s) == Ascii(t)
    ensures s == t
  {
    assert |Ascii(s)| == |Ascii(t)|;
    forall i | 0 <= i < |s| ensures s[i] == t[i] {
      assert Ascii(s)[i] == Ascii(t)[i];
    }
  }

  lemma {:induction false} RecHolds(names: seq<string>, values: seq<Value>)
    requires |names| == |values| && GoodNames(names)
    ensures forall key :: key in RecMap(names, values) <==> exists i | 0 <= i < |names| :: key == Ascii(names[i])
    ensures forall i | 0 <= i < |names| :: RecMap(names, values)[Ascii(names[i])] == values[i]
    decreases |names|
  {
    if names != [] {
      var more, rest := names[1..], values[1..];
      assert forall i | 0 <= i < |more| :: more[i] == names[i + 1] && rest[i] == values[i + 1];
      RecHolds(more, rest);
      forall i | 0 < i < |names| ensures Ascii(names[i]) != Ascii(names[0]) && Ascii(names[i]) in RecMap(more, rest) {
        if Ascii(names[i]) == Ascii(names[0]) {
          AsciiInjective(names[i], names[0]);
        }
        assert more[i - 1] == names[i];
      }
    }
  }

  lemma RecFacts(c: NumberCodec, names: seq<string>, values: seq<Value>)
    requires |names| == |values| && GoodNames(names) && forall i | 0 <= i < |values| :: InDomain(c, values[i])
    ensures var v := Rec(names, values);
      && InDomain(c, v) && Record(v, names).Ok?
      && forall i | 0 <= i < |names| :: Field(v, names[i]) == values[i]
  {
    RecHolds(names, values);
    var m := RecMap(names, values);
    forall key | key in m ensures WellFormed(key) && InDomain(c, m[key]) {
      var i :| 0 <= i < |names| && key == Ascii(names[i]);
      AsciiIsPaired(names[i]);
    }
    MappingInDomain(c, m);
  }

  /** An ASCII string of the protocol. */
  function S(s: string): Value { Str(Ascii(s)) }

  lemma StringInDomain(c: NumberCodec, s: string)
    ensures InDomain(c, S(s))
  {
    AsciiIsPaired(s);
  }

  // ---------------------------------------------------------------- digests and descriptors

  function Repeat(u: CodeUnit, n: nat): (t: Text)
    ensures |t| == n && forall i | 0 <= i < n :: t[i] == u
  {
    if n == 0 then [] else [u] + Repeat(u, n - 1)
  }

  /** Sixty-four zeros, or sixty-four ones. */
  function Hex(one: bool): Text { Repeat(if one then 0x31 else 0x30, 64) }

  lemma HexFacts(one: bool)
    ensures IsHexDigest(Hex(one)) && IsDigest(SHA256 + Hex(one)) && NoSurrogates(SHA256 + Hex(one))
  {
    hide Repeat;
    assert |SHA256| == 7;
    assert (SHA256 + Hex(one))[..7] == SHA256 && (SHA256 + Hex(one))[7..] == Hex(one);
  }

  lemma HexDiffers()
    ensures Hex(false) != Hex(true) && SHA256 + Hex(false) != SHA256 + Hex(true)
  {
    hide Repeat;
    assert Hex(false)[0] == 0x30 && Hex(true)[0] == 0x31;
    if SHA256 + Hex(false) == SHA256 + Hex(true) {
      DigestIdentifiesHash(Hex(false), Hex(true));
    }
  }

  lemma RefFacts(c: NumberCodec, v: Value, kind: string)
    requires DescriptorOfKind(c, v, kind).Ok?
    ensures ParseDescriptor(c, v).Ok? && InDomain(c, v) && DescriptorOf(v).kind == Ascii(kind)
  {}

  // ---------------------------------------------------------------- the five objects

  const ONE_FIELD := ["mode"]
  const STATE_FIELDS := ["schema", "codec", "value"]
  const CODEC_FIELDS := ["mediaType", "version"]
  const EFFECT_FIELDS := ["schema", "base", "driver", "operations", "inputs", "result"]
  const DRIVER_FIELDS := ["protocol", "protocolVersion", "specDigest"]
  const INPUT_FIELDS := ["role", "object"]
  const STATEMENT_FIELDS := ["schema", "subjects", "actor", "predicateType", "predicate"]
  const ACTOR_FIELDS := ["kind", "id"]
  const PROPOSAL_FIELDS := ["intent", "rationale"]
  const DECISION_FIELDS := ["policy", "considered", "outcome", "rationale", "decidedAt"]
  const COMMIT_FIELDS := ["schema", "parents", "decision", "result"]

  lemma Names1()
    ensures GoodNames(ONE_FIELD) && GoodNames(CODEC_FIELDS) && GoodNames(INPUT_FIELDS) && GoodNames(ACTOR_FIELDS)
    ensures GoodNames(PROPOSAL_FIELDS)
  {}

  lemma Names2()
    ensures GoodNames(STATE_FIELDS) && GoodNames(DRIVER_FIELDS)
  {}

  lemma Names6()
    ensures GoodNames(COMMIT_FIELDS)
  {}

  lemma Names3()
    ensures GoodNames(EFFECT_FIELDS)
  {}

  lemma Names4()
    ensures GoodNames(STATEMENT_FIELDS)
  {}

  lemma Names5()
    ensures GoodNames(DECISION_FIELDS)
  {}

  function Codec(): Value { Rec(CODEC_FIELDS, [S("x"), S("1")]) }

  /** The State with the empty mapping. */
  function Genesis(): Value { Rec(STATE_FIELDS, [Str(STATE_SCHEMA), Codec(), Obj(map[])]) }

  function DriverName(): Value { Rec(DRIVER_FIELDS, [S("x"), S("1"), Str(SHA256 + Hex(false))]) }

  function InputOf(item: Value): Value { Rec(INPUT_FIELDS, [S("x"), item]) }

  /** No operations: the result is the base. */
  function EffectOn(base: Value, item: Value): Value {
    Rec(EFFECT_FIELDS, [Str(EFFECT_SCHEMA), base, DriverName(), Arr([]), Arr([InputOf(item)]), base])
  }

  function Actor(): Value { Rec(ACTOR_FIELDS, [S("human"), S("x")]) }

  function Mode(mode: string): Value { Rec(ONE_FIELD, [S(mode)]) }

  function Intent(): Value { Rec(PROPOSAL_FIELDS, [Mode("unspecified"), Mode("unspecified")]) }

  function About(subject: Value, predicateType: Text, content: Value): Value {
    Rec(STATEMENT_FIELDS, [Str(STATEMENT_SCHEMA), Arr([subject]), Actor(), Str(predicateType), content])
  }

  function ProposalOf(effect: Value): Value { About(effect, PROPOSAL, Intent()) }

  function Verdict(): Value {
    Rec(DECISION_FIELDS, [Mode("not_evaluated"), Arr([]), S("accepted"), Mode("unspecified"), S("2024-01-01T00:00:00.000Z")])
  }

  function DecisionOn(proposal: Value): Value { About(proposal, DECISION, Verdict()) }

  function CommitOf(decision: Value, result: Value): Value {
    Rec(COMMIT_FIELDS, [Str(COMMIT_SCHEMA), Arr([]), decision, result])
  }

  lemma Short(s: Text)
    ensures |CodePoints(s)| <= |s| && (s != [] ==> CodePoints(s) != [])
  {
    if s != [] {
      Short(s[if StartsWithPair(s) then 2 else 1..]);
    }
  }

  predicate IdentifierChar(ch: char) {
    var u := ch as int;
    IsLetter(u) || IsDecimal(u) || ch in "._:/-"
  }

  lemma IdentifierOk(c: NumberCodec, s: string)
    requires 0 < |s| <= 256 && (IsLetter(s[0] as int) || IsDecimal(s[0] as int))
    requires forall i | 0 <= i < |s| :: IdentifierChar(s[i])
    ensures Identifier(S(s)).Ok? && StringValue(S(s), 1, 256).Ok? && StringValue(S(s), 1, 512).Ok? && InDomain(c, S(s))
  {
    Short(Ascii(s));
    StringInDomain(c, s);
    forall u | u in Ascii(s) ensures IsLetter(u) || IsDecimal(u) || u in Ascii("._:/-") {
      var i :| 0 <= i < |s| && Ascii(s)[i] == u;
      if s[i] in "._:/-" {
        var k :| 0 <= k < 5 && "._:/-"[k] == s[i];
        assert Ascii("._:/-")[k] == u;
      }
    }
  }

  lemma SchemasInDomain(c: NumberCodec)
    ensures InDomain(c, Str(STATE_SCHEMA)) && InDomain(c, Str(EFFECT_SCHEMA))
    ensures InDomain(c, Str(STATEMENT_SCHEMA)) && InDomain(c, Str(COMMIT_SCHEMA))
    ensures InDomain(c, Arr([])) && InDomain(c, Obj(map[]))
  {
    StringInDomain(c, "t3x/state/v1");
    StringInDomain(c, "t3x/effect/v1");
    StringInDomain(c, "t3x/statement/v1");
    StringInDomain(c, "t3x/commit/v2");
  }

  lemma StateParses(c: NumberCodec, v: Value)
    requires InDomain(c, v) && Record(v, STATE_FIELDS).Ok? && Field(v, "schema") == Str(STATE_SCHEMA)
    requires Record(Field(v, "codec"), CODEC_FIELDS).Ok?
    requires StringValue(Field(Field(v, "codec"), "mediaType"), 1, 256).Ok? && Identifier(Field(Field(v, "codec"), "version")).Ok?
    ensures ParseState(c, v).Ok?
  {}

  lemma CodecFacts(c: NumberCodec)
    ensures var v := Codec();
      && InDomain(c, v) && Record(v, CODEC_FIELDS).Ok? && Field(v, "mediaType") == S("x") && Field(v, "version") == S("1")
  {
    Names1();
    IdentifierOk(c, "x");
    IdentifierOk(c, "1");
    RecFacts(c, CODEC_FIELDS, [S("x"), S("1")]);
    assert CODEC_FIELDS[0] == "mediaType" && CODEC_FIELDS[1] == "version";
  }

  lemma GenesisFacts(c: NumberCodec)
    ensures var v := Genesis();
      && InDomain(c, v) && Record(v, STATE_FIELDS).Ok?
      && Field(v, "schema") == Str(STATE_SCHEMA) && Field(v, "codec") == Codec() && Field(v, "value") == Obj(map[])
  {
    hide Codec, InDomain;
    Names2();
    CodecFacts(c);
    SchemasInDomain(c);
    RecFacts(c, STATE_FIELDS, [Str(STATE_SCHEMA), Codec(), Obj(map[])]);
    assert STATE_FIELDS[0] == "schema" && STATE_FIELDS[1] == "codec" && STATE_FIELDS[2] == "value";
  }

  lemma GenesisParses(c: NumberCodec)
    ensures ParseState(c, Genesis()).Ok?
  {
    hide Genesis, Codec, ParseState, Identifier, StringValue;
    GenesisFacts(c);
    CodecFacts(c);
    IdentifierOk(c, "x");
    IdentifierOk(c, "1");
    StateParses(c, Genesis());
  }

  // ---------------------------------------------------------------- the Effect

  lemma DriverFacts(c: NumberCodec)
    ensures InDomain(c, DriverName()) && DriverRef(DriverName()).Ok?
  {
    hide Identifier, InDomain;
    Names2();
    IdentifierOk(c, "x");
    IdentifierOk(c, "1");
    HexFacts(false);
    TextInDomain(c, SHA256 + Hex(false));
    RecFacts(c, DRIVER_FIELDS, [S("x"), S("1"), Str(SHA256 + Hex(false))]);
    assert DRIVER_FIELDS[0] == "protocol" && DRIVER_FIELDS[1] == "protocolVersion" && DRIVER_FIELDS[2] == "specDigest";
  }

  lemma TextInDomain(c: NumberCodec, s: Text)
    requires NoSurrogates(s)
    ensures InDomain(c, Str(s))
  {
    WithoutSurrogatesIsWellFormed(s);
  }

  lemma InputFacts(c: NumberCodec, item: Value)
    requires ParseDescriptor(c, item).Ok? && InDomain(c, item)
    ensures InDomain(c, InputOf(item)) && InputShape(c, InputOf(item)).Ok?
    ensures ObjectOf(InputOf(item)) == item
  {
    hide Identifier, InDomain, ParseDescriptor;
    Names1();
    IdentifierOk(c, "x");
    RecFacts(c, INPUT_FIELDS, [S("x"), item]);
    assert INPUT_FIELDS[0] == "role" && INPUT_FIELDS[1] == "object";
  }

  lemma EffectFacts(c: NumberCodec, base: Value, item: Value)
    requires DescriptorOfKind(c, base, "state").Ok? && DescriptorOfKind(c, item, "state").Ok?
    ensures var v := EffectOn(base, item);
      && InDomain(c, v) && Record(v, EFFECT_FIELDS).Ok? && Field(v, "schema") == Str(EFFECT_SCHEMA)
      && Field(v, "base") == base && Field(v, "driver") == DriverName() && Field(v, "operations") == Arr([])
      && Field(v, "inputs") == Arr([InputOf(item)]) && Field(v, "result") == base
  {
    hide InputOf, DriverName, InDomain, Field, Record, Rec, GoodNames, DescriptorOfKind;
    Names3();
    SchemasInDomain(c);
    RefFacts(c, base, "state");
    RefFacts(c, item, "state");
    DriverFacts(c);
    InputFacts(c, item);
    OneInDomain(c, InputOf(item));
    RecFacts(c, EFFECT_FIELDS, [Str(EFFECT_SCHEMA), base, DriverName(), Arr([]), Arr([InputOf(item)]), base]);
    assert EFFECT_FIELDS[0] == "schema" && EFFECT_FIELDS[1] == "base" && EFFECT_FIELDS[2] == "driver";
    assert EFFECT_FIELDS[3] == "operations" && EFFECT_FIELDS[4] == "inputs" && EFFECT_FIELDS[5] == "result";
  }

  lemma OneInDomain(c: NumberCodec, v: Value)
    requires InDomain(c, v)
    ensures InDomain(c, Arr([v]))
  {}

  lemma DefinitionParses(c: NumberCodec, v: Value)
    requires InDomain(c, Field(v, "driver")) && DriverRef(Field(v, "driver")).Ok?
    requires Field(v, "operations") == Arr([]) && InDomain(c, Field(v, "operations"))
    requires Field(v, "inputs").Arr? && InDomain(c, Field(v, "inputs"))
    requires InputsFrom(c, InputsOf(v), None).Ok?
    ensures ParseDefinition(c, DefinitionOf(v)).Ok?
  {
    hide DriverRef, InputsFrom, DefinitionOf, InDomain, Record, Field;
    DefinitionFields(v);
    DefinitionRecord(v);
    DefinitionInDomain(c, v);
  }

  lemma DefinitionRecord(v: Value)
    ensures Record(DefinitionOf(v), ["driver", "operations", "inputs"]).Ok?
  {}

  lemma DefinitionInDomain(c: NumberCodec, v: Value)
    requires InDomain(c, Field(v, "driver")) && InDomain(c, Field(v, "operations")) && InDomain(c, Field(v, "inputs"))
    ensures InDomain(c, DefinitionOf(v))
  {
    hide InDomain, Field;
    AsciiIsPaired("driver");
    AsciiIsPaired("operations");
    AsciiIsPaired("inputs");
    MappingInDomain(c, DefinitionOf(v).m);
  }

  lemma EffectParsesFrom(c: NumberCodec, v: Value)
    requires InDomain(c, v) && Record(v, EFFECT_FIELDS).Ok? && Field(v, "schema") == Str(EFFECT_SCHEMA)
    requires DescriptorOfKind(c, Field(v, "base"), "state").Ok? && DescriptorOfKind(c, Field(v, "result"), "state").Ok?
    requires ParseDefinition(c, DefinitionOf(v)).Ok?
    ensures ParseEffect(c, v).Ok?
  {
    hide DescriptorOfKind, ParseDefinition, DefinitionOf, InDomain;
  }

  lemma EffectParses(c: NumberCodec, base: Value, item: Value)
    requires DescriptorOfKind(c, base, "state").Ok? && DescriptorOfKind(c, item, "state").Ok?
    ensures ParseEffect(c, EffectOn(base, item)).Ok?
  {
    hide EffectOn, InputOf, DriverName, DriverRef, InputShape, ParseEffect, ParseDefinition, DefinitionOf, DescriptorOfKind, InDomain;
    EffectFacts(c, base, item);
    SchemasInDomain(c);
    DriverFacts(c);
    RefFacts(c, item, "state");
    InputFacts(c, item);
    OneInDomain(c, InputOf(item));
    OneInput(c, InputOf(item));
    DefinitionParses(c, EffectOn(base, item));
    EffectParsesFrom(c, EffectOn(base, item));
  }

  lemma OneInput(c: NumberCodec, input: Value)
    requires InputShape(c, input).Ok?
    ensures InputsFrom(c, [input], None).Ok?
  {
    hide InputShape;
    assert [input][1..] == [];
  }

  // ---------------------------------------------------------------- the Statements

  lemma ActorFacts(c: NumberCodec)
    ensures InDomain(c, Actor()) && ActorRef(Actor()).Ok?
  {
    hide StringValue, InDomain;
    Names1();
    IdentifierOk(c, "x");
    StringInDomain(c, "human");
    RecFacts(c, ACTOR_FIELDS, [S("human"), S("x")]);
    assert ACTOR_FIELDS[0] == "kind" && ACTOR_FIELDS[1] == "id";
  }

  lemma ModeFacts(c: NumberCodec, mode: string)
    ensures InDomain(c, Mode(mode)) && Record(Mode(mode), ["mode"]).Ok? && Field(Mode(mode), "mode") == S(mode)
  {
    hide InDomain;
    Names1();
    StringInDomain(c, mode);
    RecFacts(c, ONE_FIELD, [S(mode)]);
    assert ONE_FIELD[0] == "mode";
  }

  lemma UnspecifiedClaim(c: NumberCodec)
    ensures StringClaim(c, Mode("unspecified")).Ok?
  {
    ModeFacts(c, "unspecified");
    assert "mode" in ["mode", "value", "evidence"];
  }

  lemma NotEvaluated(c: NumberCodec)
    ensures DecisionPolicy(Mode("not_evaluated")).Ok?
  {
    ModeFacts(c, "not_evaluated");
    assert "mode" in ["mode", "resource"];
  }

  lemma IntentFacts(c: NumberCodec)
    ensures InDomain(c, Intent()) && ProposalPredicate(c, Intent()).Ok?
  {
    hide StringClaim, Mode, InDomain;
    Names1();
    ModeFacts(c, "unspecified");
    UnspecifiedClaim(c);
    RecFacts(c, PROPOSAL_FIELDS, [Mode("unspecified"), Mode("unspecified")]);
    assert PROPOSAL_FIELDS[0] == "intent" && PROPOSAL_FIELDS[1] == "rationale";
  }

  lemma TimestampOk()
    ensures IsTimestamp(Ascii("2024-01-01T00:00:00.000Z"))
  {}

  lemma OutcomesDiffer()
    ensures S("accepted") != OVERRIDDEN && S("accepted") != REJECTED
  {
    assert Ascii("accepted")[0] == 'a' as int && Ascii("rejected")[0] == 'r' as int && Ascii("overridden")[0] == 'o' as int;
  }

  lemma VerdictFields(c: NumberCodec)
    ensures var v := Verdict();
      && InDomain(c, v) && Record(v, DECISION_FIELDS).Ok?
      && Field(v, "policy") == Mode("not_evaluated") && Field(v, "considered") == Arr([]) && Field(v, "outcome") == S("accepted")
      && Field(v, "rationale") == Mode("unspecified") && Field(v, "decidedAt") == S("2024-01-01T00:00:00.000Z")
  {
    hide Mode, InDomain, S;
    Names5();
    SchemasInDomain(c);
    ModeFacts(c, "not_evaluated");
    ModeFacts(c, "unspecified");
    StringInDomain(c, "accepted");
    StringInDomain(c, "2024-01-01T00:00:00.000Z");
    RecFacts(c, DECISION_FIELDS,
      [Mode("not_evaluated"), Arr([]), S("accepted"), Mode("unspecified"), S("2024-01-01T00:00:00.000Z")]);
    assert DECISION_FIELDS[0] == "policy" && DECISION_FIELDS[1] == "considered" && DECISION_FIELDS[2] == "outcome";
    assert DECISION_FIELDS[3] == "rationale" && DECISION_FIELDS[4] == "decidedAt";
  }

  lemma VerdictFacts(c: NumberCodec)
    ensures DecisionPredicate(c, Verdict()).Ok? && Field(Verdict(), "outcome") != REJECTED
  {
    hide Mode, Verdict, StringClaim, DecisionPolicy, InDomain, IsTimestamp;
    VerdictFields(c);
    NotEvaluated(c);
    UnspecifiedClaim(c);
    TimestampOk();
    OutcomesDiffer();
  }

  lemma AboutFacts(c: NumberCodec, subject: Value, predicateType: Text, content: Value)
    requires InDomain(c, subject) && InDomain(c, Str(predicateType)) && InDomain(c, content)
    ensures var v := About(subject, predicateType, content);
      && InDomain(c, v) && Record(v, STATEMENT_FIELDS).Ok? && Field(v, "schema") == Str(STATEMENT_SCHEMA)
      && SubjectsOf(v) == [subject] && Field(v, "subjects") == Arr([subject]) && Field(v, "actor") == Actor()
      && Field(v, "predicateType") == Str(predicateType) && PredicateOf(v) == content
  {
    hide Actor, InDomain;
    Names4();
    SchemasInDomain(c);
    ActorFacts(c);
    OneInDomain(c, subject);
    RecFacts(c, STATEMENT_FIELDS, [Str(STATEMENT_SCHEMA), Arr([subject]), Actor(), Str(predicateType), content]);
    assert STATEMENT_FIELDS[0] == "schema" && STATEMENT_FIELDS[1] == "subjects" && STATEMENT_FIELDS[2] == "actor";
    assert STATEMENT_FIELDS[3] == "predicateType" && STATEMENT_FIELDS[4] == "predicate";
  }

  lemma OneSubjectShape(c: NumberCodec, v: Value, subject: Value)
    requires Field(v, "subjects") == Arr([subject]) && ParseDescriptor(c, subject).Ok?
    ensures SubjectsShape(c, v).Ok?
  {
    assert SubjectsOf(v) == [subject] && [subject][1..] == [];
    EachPasses([subject], d => ParseDescriptor(c, d));
  }

  lemma StatementParsesFrom(c: NumberCodec, v: Value)
    requires InDomain(c, v) && Record(v, STATEMENT_FIELDS).Ok? && Field(v, "schema") == Str(STATEMENT_SCHEMA)
    requires SubjectsShape(c, v).Ok? && ActorRef(Field(v, "actor")).Ok? && StatementPredicate(c, v).Ok?
    ensures ParseStatement(c, v).Ok?
  {
    hide SubjectsShape, ActorRef, StatementPredicate, InDomain;
  }

  lemma ProposalBranch(c: NumberCodec, v: Value)
    requires Field(v, "predicateType") == Str(PROPOSAL) && Identifier(Str(PROPOSAL)).Ok?
    requires OneSubject(v, "effect").Ok? && ProposalPredicate(c, PredicateOf(v)).Ok?
    ensures StatementPredicate(c, v).Ok?
  {
    hide OneSubject, ProposalPredicate;
  }

  lemma DecisionBranchOk(c: NumberCodec, v: Value)
    requires Field(v, "predicateType") == Str(DECISION) && Identifier(Str(DECISION)).Ok?
    requires OneSubject(v, "statement").Ok? && DecisionPredicate(c, PredicateOf(v)).Ok?
    ensures StatementPredicate(c, v).Ok?
  {
    hide OneSubject, DecisionPredicate;
    SchemasDistinct();
  }

  lemma ProposalParses(c: NumberCodec, effect: Value)
    requires DescriptorOfKind(c, effect, "effect").Ok?
    ensures var v := ProposalOf(effect);
      && ParseStatement(c, v).Ok? && IsProposal(v) && SubjectsOf(v) == [effect]
  {
    hide Intent, ProposalPredicate, StatementPredicate, SubjectsShape, ActorRef, InDomain, ParseDescriptor, Record, Field, Identifier, DescriptorOf;
    RefFacts(c, effect, "effect");
    IntentFacts(c);
    IdentifierOk(c, "t3x.proposal/v1");
    ActorFacts(c);
    AboutFacts(c, effect, PROPOSAL, Intent());
    OneSubjectShape(c, ProposalOf(effect), effect);
    ProposalBranch(c, ProposalOf(effect));
    StatementParsesFrom(c, ProposalOf(effect));
  }

  lemma DecisionParses(c: NumberCodec, proposal: Value)
    requires DescriptorOfKind(c, proposal, "statement").Ok?
    ensures var v := DecisionOn(proposal);
      && ParseStatement(c, v).Ok? && IsDecision(v) && SubjectsOf(v) == [proposal] && PredicateOf(v) == Verdict()
  {
    hide Verdict, DecisionPredicate, StatementPredicate, SubjectsShape, ActorRef, InDomain, ParseDescriptor, Record, Field, Identifier, DescriptorOf;
    RefFacts(c, proposal, "statement");
    VerdictFields(c);
    VerdictFacts(c);
    IdentifierOk(c, "t3x.decision/v1");
    ActorFacts(c);
    AboutFacts(c, proposal, DECISION, Verdict());
    OneSubjectShape(c, DecisionOn(proposal), proposal);
    DecisionBranchOk(c, DecisionOn(proposal));
    StatementParsesFrom(c, DecisionOn(proposal));
  }

  // ---------------------------------------------------------------- the commit

  lemma CommitFacts(c: NumberCodec, decision: Value, result: Value)
    requires DescriptorOfKind(c, decision, "statement").Ok? && DescriptorOfKind(c, result, "state").Ok?
    ensures var v := CommitOf(decision, result);
      && InDomain(c, v) && Record(v, COMMIT_FIELDS).Ok? && Field(v, "schema") == Str(COMMIT_SCHEMA) && Field(v, "parents") == Arr([])
      && Field(v, "decision") == decision && Field(v, "result") == result
  {
    hide InDomain, Field, Record, Rec, GoodNames, DescriptorOfKind;
    Names6();
    SchemasInDomain(c);
    RefFacts(c, decision, "statement");
    RefFacts(c, result, "state");
    RecFacts(c, COMMIT_FIELDS, [Str(COMMIT_SCHEMA), Arr([]), decision, result]);
    assert COMMIT_FIELDS[0] == "schema" && COMMIT_FIELDS[1] == "parents" && COMMIT_FIELDS[2] == "decision" && COMMIT_FIELDS[3] == "result";
  }

  lemma CommitParses(c: NumberCodec, decision: Value, result: Value)
    requires DescriptorOfKind(c, decision, "statement").Ok? && DescriptorOfKind(c, result, "state").Ok?
    ensures ParseCommit(c, CommitOf(decision, result)).Ok?
  {
    hide CommitOf, DescriptorOfKind, InDomain;
    CommitFacts(c, decision, result);
  }

  // ---------------------------------------------------------------- named by their descriptors

  /** The object's own descriptor, as the protocol writes it. */
  function Ref(k: Kernel, obj: Value): Value {
    match Describe(k, obj)
    case Ok(d) => DescriptorValue(d)
    case Err(_) => Null
  }

  /** A State's descriptor that is not that of the genesis. */
  function Absent(k: Kernel): Descriptor {
    Descriptor(Ascii("state"), STATE_SCHEMA, SHA256 + Hex(DescriptorOf(Ref(k, Genesis())).digest == SHA256 + Hex(false)))
  }

  function Effect(k: Kernel): Value { EffectOn(Ref(k, Genesis()), DescriptorValue(Absent(k))) }
  function Proposed(k: Kernel): Value { ProposalOf(Ref(k, Effect(k))) }
  function Decided(k: Kernel): Value { DecisionOn(Ref(k, Proposed(k))) }
  function Commit(k: Kernel): Value { CommitOf(Ref(k, Decided(k)), Ref(k, Genesis())) }

  /** Everything the commit needs is put into the store, and the Effect's input is not. */
  function Objects(k: Kernel): map<Text, Bytes> {
    AfterPut(k, AfterPut(k, AfterPut(k, AfterPut(k, map[], Genesis()), Effect(k)), Proposed(k)), Decided(k))
  }

  /** What Python finds. */
  function Found(k: Kernel): Verified { Verified(Decided(k), Proposed(k), Effect(k), []) }

  lemma KindsApart()
    ensures Ascii("state") != Ascii("effect") && Ascii("state") != Ascii("statement") && Ascii("effect") != Ascii("statement")
    ensures ExpectedSchema(Ascii("state")) == Some(STATE_SCHEMA) && ExpectedSchema(Ascii("effect")) == Some(EFFECT_SCHEMA)
    ensures ExpectedSchema(Ascii("statement")) == Some(STATEMENT_SCHEMA)
  {
    KindsDistinct();
    assert |Ascii("state")| == 5 && |Ascii("effect")| == 6 && |Ascii("statement")| == 9;
  }

  /** The object has a descriptor of this kind, and `Ref` names it. */
  ghost predicate Named(k: Kernel, obj: Value, kind: string) {
    && Describe(k, obj).Ok? && Describe(k, obj).value.kind == Ascii(kind)
    && ParseObject(k.c, obj).Ok? && InDomain(k.c, obj)
    && DescriptorOfKind(k.c, Ref(k, obj), kind).Ok? && DescriptorOf(Ref(k, obj)) == Describe(k, obj).value
  }

  lemma ParsedIsNamed(k: Kernel, obj: Value, kind: string)
    requires Hashing(k) && ParseObject(k.c, obj).Ok? && ExpectedSchema(Ascii(kind)) == Some(SchemaOf(obj))
    ensures Named(k, obj, kind)
  {
    hide ParseObject, Hashing, ExpectedSchema, ParseDescriptor, DescriptorOf, InDomain, Describe;
    DescribeParsed(k, obj);
    DescriptorParses(k, obj);
    KindsAndSchemas(Ascii(kind), SchemaOf(obj));
  }

  lemma GenesisNamed(k: Kernel)
    requires Hashing(k)
    ensures Named(k, Genesis(), "state") && IsState(Genesis())
  {
    hide ParseObject, ParseState, Genesis, ExpectedSchema, Named, Hashing;
    KindsApart();
    GenesisParses(k.c);
    ParseObjectIsOneOfFour(k.c, Genesis());
    ParsedIsNamed(k, Genesis(), "state");
  }

  lemma AbsentFacts(k: Kernel)
    requires Hashing(k)
    ensures var v := DescriptorValue(Absent(k));
      && DescriptorOfKind(k.c, v, "state").Ok? && DescriptorOf(v) == Absent(k) && Describe(k, Genesis()) != Ok(Absent(k))
  {
    hide Genesis, Describe, Hex;
    GenesisNamed(k);
    KindsApart();
    HexDiffers();
    HexFacts(false);
    HexFacts(true);
    FieldsOfDescriptor(Absent(k));
    DescriptorInDomain(k.c, Absent(k));
  }

  lemma EffectNamed(k: Kernel)
    requires Hashing(k)
    ensures Named(k, Effect(k), "effect") && IsEffect(Effect(k))
  {
    hide ParseObject, ParseEffect, Genesis, ExpectedSchema, Hashing, EffectOn, Absent, Describe;
    KindsApart();
    GenesisNamed(k);
    AbsentFacts(k);
    EffectParses(k.c, Ref(k, Genesis()), DescriptorValue(Absent(k)));
    ParseObjectIsOneOfFour(k.c, Effect(k));
    ParsedIsNamed(k, Effect(k), "effect");
  }

  lemma ProposedNamed(k: Kernel)
    requires Hashing(k)
    ensures Named(k, Proposed(k), "statement") && IsProposal(Proposed(k)) && SubjectOf(Proposed(k)) == Ref(k, Effect(k))
  {
    hide ParseObject, ParseStatement, ExpectedSchema, Hashing, ProposalOf, Effect, Describe;
    KindsApart();
    EffectNamed(k);
    ProposalParses(k.c, Ref(k, Effect(k)));
    ParseObjectIsOneOfFour(k.c, Proposed(k));
    ParsedIsNamed(k, Proposed(k), "statement");
  }

  lemma DecidedNamed(k: Kernel)
    requires Hashing(k)
    ensures Named(k, Decided(k), "statement") && IsDecision(Decided(k)) && SubjectOf(Decided(k)) == Ref(k, Proposed(k))
    ensures PredicateOf(Decided(k)) == Verdict()
  {
    hide ParseObject, ParseStatement, ExpectedSchema, Hashing, DecisionOn, Proposed, Verdict, Describe;
    KindsApart();
    ProposedNamed(k);
    DecisionParses(k.c, Ref(k, Proposed(k)));
    ParseObjectIsOneOfFour(k.c, Decided(k));
    ParsedIsNamed(k, Decided(k), "statement");
  }

  lemma CommitAccepted(k: Kernel)
    requires Hashing(k)
    ensures ParseCommit(k.c, Commit(k)).Ok? && ParseObject(k.c, Commit(k)).Ok? && ParentsOf(Commit(k)) == []
    ensures Field(Commit(k), "decision") == Ref(k, Decided(k)) && Field(Commit(k), "result") == Ref(k, Genesis())
  {
    hide ParseObject, ParseCommit, Genesis, Decided, CommitOf, Describe, Hashing, Ref, InDomain, Record;
    GenesisNamed(k);
    DecidedNamed(k);
    CommitParses(k.c, Ref(k, Decided(k)), Ref(k, Genesis()));
    CommitFacts(k.c, Ref(k, Decided(k)), Ref(k, Genesis()));
    ParseObjectIsOneOfFour(k.c, Commit(k));
  }

  // ---------------------------------------------------------------- the store

  lemma PutLookup(k: Kernel, objects: map<Text, Bytes>, obj: Value, d: Descriptor)
    requires Describe(k, obj).Ok? && ExpectedSchema(d.kind) == Some(d.schema)
    ensures Stored(AfterPut(k, objects, obj))(d) == if Describe(k, obj) == Ok(d) then Some(CanonicalBytes(k.c, obj)) else Stored(objects)(d)
  {
    hide Describe, ExpectedSchema, CanonicalBytes, DescriptorKey;
    DescribeParsed(k, obj);
    if DescriptorKey(d) == DescriptorKey(Describe(k, obj).value) {
      DescriptorKeyInjective(d, Describe(k, obj).value);
    }
  }

  /** The store's answer to every well-kinded descriptor. */
  lemma Lookup(k: Kernel, d: Descriptor)
    requires Hashing(k) && ExpectedSchema(d.kind) == Some(d.schema)
    ensures Stored(Objects(k))(d) ==
      if Describe(k, Decided(k)) == Ok(d) then Some(CanonicalBytes(k.c, Decided(k)))
      else if Describe(k, Proposed(k)) == Ok(d) then Some(CanonicalBytes(k.c, Proposed(k)))
      else if Describe(k, Effect(k)) == Ok(d) then Some(CanonicalBytes(k.c, Effect(k)))
      else if Describe(k, Genesis()) == Ok(d) then Some(CanonicalBytes(k.c, Genesis()))
      else None
  {
    hide Describe, ExpectedSchema, CanonicalBytes, AfterPut, Genesis, Effect, Proposed, Decided, Hashing;
    GenesisNamed(k);
    EffectNamed(k);
    ProposedNamed(k);
    DecidedNamed(k);
    var one := AfterPut(k, map[], Genesis());
    var two := AfterPut(k, one, Effect(k));
    var three := AfterPut(k, two, Proposed(k));
    PutLookup(k, map[], Genesis(), d);
    PutLookup(k, one, Effect(k), d);
    PutLookup(k, two, Proposed(k), d);
    PutLookup(k, three, Decided(k), d);
  }

  lemma StoredResolves(k: Kernel, obj: Value, kind: string)
    requires Lawful(k.c) && Named(k, obj, kind)
    requires Stored(Objects(k))(Describe(k, obj).value) == Some(CanonicalBytes(k.c, obj))
    ensures Resolve(k, Stored(Objects(k)), Ref(k, obj)) == Ok(obj)
  {
    hide Describe, Objects, CanonicalBytes, Ref, Resolve, ParseObject;
    RefFacts(k.c, Ref(k, obj), kind);
    ResolveExactly(k, Stored(Objects(k)), Ref(k, obj), obj);
  }

  /** The Proposal and the Decision do not collide. */
  predicate Apart(k: Kernel) { Describe(k, Proposed(k)) != Describe(k, Decided(k)) }

  lemma AllResolved(k: Kernel)
    requires Lawful(k.c) && Hashing(k) && Apart(k)
    ensures var get := Stored(Objects(k));
      && Resolve(k, get, Ref(k, Genesis())) == Ok(Genesis()) && Resolve(k, get, Ref(k, Effect(k))) == Ok(Effect(k))
      && Resolve(k, get, Ref(k, Proposed(k))) == Ok(Proposed(k)) && Resolve(k, get, Ref(k, Decided(k))) == Ok(Decided(k))
  {
    hide Describe, ExpectedSchema, CanonicalBytes, Objects, Genesis, Effect, Proposed, Decided, Hashing, Lawful, Resolve, Ref, ParseObject, DescriptorOfKind;
    KindsApart();
    GenesisNamed(k);
    EffectNamed(k);
    ProposedNamed(k);
    DecidedNamed(k);
    DescribeParsed(k, Genesis());
    DescribeParsed(k, Effect(k));
    DescribeParsed(k, Proposed(k));
    DescribeParsed(k, Decided(k));
    Lookup(k, Describe(k, Genesis()).value);
    Lookup(k, Describe(k, Effect(k)).value);
    Lookup(k, Describe(k, Proposed(k)).value);
    Lookup(k, Describe(k, Decided(k)).value);
    StoredResolves(k, Genesis(), "state");
    StoredResolves(k, Effect(k), "effect");
    StoredResolves(k, Proposed(k), "statement");
    StoredResolves(k, Decided(k), "statement");
  }

  lemma InputIsMissing(k: Kernel)
    requires Hashing(k)
    ensures InputsOf(Effect(k)) == [InputOf(DescriptorValue(Absent(k)))]
    ensures DescriptorOf(ObjectOf(InputOf(DescriptorValue(Absent(k))))) == Absent(k) && Stored(Objects(k))(Absent(k)) == None
  {
    hide Describe, CanonicalBytes, Objects, Genesis, Proposed, Decided, Hashing, Ref, InputOf, DescriptorValue, InDomain, Record, EffectOn;
    KindsApart();
    GenesisNamed(k);
    EffectNamed(k);
    ProposedNamed(k);
    DecidedNamed(k);
    AbsentFacts(k);
    Lookup(k, Absent(k));
    RefFacts(k.c, DescriptorValue(Absent(k)), "state");
    InputFacts(k.c, DescriptorValue(Absent(k)));
    EffectFacts(k.c, Ref(k, Genesis()), DescriptorValue(Absent(k)));
  }

  /** The parsers agree on whatever any stored bytes parse to. */
  ghost predicate AllAgree(py: PythonKernel, objects: map<Text, Bytes>) {
    forall key <- objects :: ParseBytes(py.k.c, objects[key]).Got? ==> AgreesOn(py, ParseBytes(py.k.c, objects[key]).value)
  }

  lemma PutAgrees(py: PythonKernel, objects: map<Text, Bytes>, obj: Value)
    requires Lawful(py.k.c) && AllAgree(py, objects) && InDomain(py.k.c, obj) && AgreesOn(py, obj)
    ensures AllAgree(py, AfterPut(py.k, objects, obj))
  {
    hide Describe, CanonicalBytes, InDomain, AgreesOn, ParseBytes, DescriptorKey;
    ParseOfCanonicalBytes(py.k.c, obj);
  }

  lemma StoredParses(py: PythonKernel)
    requires Lawful(py.k.c) && Hashing(py.k)
    requires AgreesOn(py, Genesis()) && AgreesOn(py, Effect(py.k)) && AgreesOn(py, Proposed(py.k)) && AgreesOn(py, Decided(py.k))
    ensures AgreesOnStored(py, Stored(Objects(py.k)))
  {
    hide Describe, CanonicalBytes, Genesis, Effect, Proposed, Decided, Hashing, Lawful, ParseObject, InDomain, AgreesOn, ParseBytes, DescriptorKey, Ref, AfterPut;
    var k := py.k;
    GenesisNamed(k);
    EffectNamed(k);
    ProposedNamed(k);
    DecidedNamed(k);
    var one := AfterPut(k, map[], Genesis());
    var two := AfterPut(k, one, Effect(k));
    var three := AfterPut(k, two, Proposed(k));
    PutAgrees(py, map[], Genesis());
    PutAgrees(py, one, Effect(k));
    PutAgrees(py, two, Proposed(k));
    PutAgrees(py, three, Decided(k));
  }

  // ---------------------------------------------------------------- the split

  lemma ChainIsThere(k: Kernel)
    requires Lawful(k.c) && Hashing(k) && Apart(k)
    ensures ChainStands(k, Stored(Objects(k)), Commit(k), Found(k))
  {
    hide Resolve, Genesis, Effect, Proposed, Decided, Commit, Ref, Objects, Verdict, DescriptorOf, Describe, Hashing, Lawful, ParseObject, DescriptorOfKind;
    AllResolved(k);
    CommitAccepted(k);
    EffectNamed(k);
    EffectFields(k);
    ProposedNamed(k);
    DecidedNamed(k);
    VerdictFields(k.c);
  }

  lemma EffectFields(k: Kernel)
    requires Hashing(k)
    ensures Field(Effect(k), "base") == Ref(k, Genesis()) && Field(Effect(k), "result") == Ref(k, Genesis())
  {
    hide Genesis, Ref, Describe, Hashing, EffectOn, InDomain, Record, DescriptorValue, Absent, Field;
    GenesisNamed(k);
    AbsentFacts(k);
    EffectFacts(k.c, Ref(k, Genesis()), DescriptorValue(Absent(k)));
  }

  lemma NothingElse(k: Kernel)
    requires Hashing(k)
    ensures ConsideredOf(Decided(k)) == [] && LinksHold(Genesis(), Effect(k), [])
  {
    hide Genesis, Effect, Decided, Verdict, Record, InDomain, Field, Rec, IsDeclared, Describe, Hashing;
    DecidedNamed(k);
    VerdictFields(k.c);
    GenesisFacts(k.c);
  }

  lemma ReferencesAreThere(k: Kernel)
    requires Lawful(k.c) && Hashing(k) && Apart(k)
    ensures ReferencesStand(k, Stored(Objects(k)), Commit(k), Found(k))
  {
    hide Resolve, Genesis, Effect, Proposed, Decided, Commit, Ref, Objects, LinksHold, ConsideredOf, ParentsOf, Field, IsConsidered, Lawful, Describe, Hashing, ParseCommit, ParseObject;
    AllResolved(k);
    NothingElse(k);
    CommitAccepted(k);
    EffectFields(k);
    assert ParentsAre(k, Stored(Objects(k)), ParentsOf(Commit(k)), []);
  }

  lemma StopsAtInputs(k: Kernel, get: Getter, commit: Value, decision: Value, effect: Value, code: ErrorCode)
    requires BaseStep(k, get, effect).Ok? && Resolve(k, get, Field(commit, "result")).Ok?
    requires InputsResolve(k, get, InputsOf(effect)) == Err(code)
    ensures ReferencesStep(k, get, commit, decision, effect) == Err(code)
  {
    hide BaseStep, Resolve, InputsResolve;
  }

  lemma StopsAtReferences(k: Kernel, get: Getter, commit: Value, x: Verified, code: ErrorCode)
    requires ParseCommit(k.c, commit).Ok? && DecisionStep(k, get, commit) == Ok(x.decision)
    requires ProposalStep(k, get, x.decision) == Ok(x.proposal) && EffectStep(k, get, commit, x.proposal) == Ok(x.effect)
    requires ReferencesStep(k, get, commit, x.decision, x.effect) == Err(code)
    ensures CommitIntegrity(k, get, commit) == Err(code)
  {
    hide ParseCommit, DecisionStep, ProposalStep, EffectStep, ReferencesStep;
  }

  lemma OneMissing(k: Kernel, get: Getter, input: Value)
    requires ParseDescriptor(k.c, ObjectOf(input)).Ok? && get(DescriptorOf(ObjectOf(input))) == None
    ensures InputsResolve(k, get, [input]) == Err(OBJECT_NOT_FOUND)
  {
    hide ParseDescriptor, DescriptorOf;
    assert [input][0] == input;
  }

  lemma InputNotFound(k: Kernel)
    requires Hashing(k)
    ensures InputsResolve(k, Stored(Objects(k)), InputsOf(Effect(k))) == Err(OBJECT_NOT_FOUND)
  {
    hide Effect, Objects, Absent, DescriptorValue, InputOf, DescriptorOf, ParseDescriptor, Hashing, Describe, InputsResolve;
    InputIsMissing(k);
    AbsentFacts(k);
    var d := DescriptorValue(Absent(k));
    RefFacts(k.c, d, "state");
    InputFacts(k.c, d);
    OneMissing(k, Stored(Objects(k)), InputOf(d));
  }

  lemma TypeScriptRejects(k: Kernel)
    requires Lawful(k.c) && Hashing(k) && Apart(k)
    ensures CommitIntegrity(k, Stored(Objects(k)), Commit(k)) == Err(OBJECT_NOT_FOUND)
  {
    hide Resolve, Genesis, Effect, Proposed, Decided, Commit, Ref, Objects, Describe, Hashing, Lawful, ParseCommit, ParseObject, ParseEffect,
      CommitIntegrity, DecisionStep, ProposalStep, EffectStep, ReferencesStep, BaseStep, InputsResolve, Apart, DescriptorOfKind;
    var get, x := Stored(Objects(k)), Found(k);
    CommitAccepted(k);
    EffectNamed(k);
    ParseObjectIsOneOfFour(k.c, Effect(k));
    ChainIsThere(k);
    DecisionStepExactly(k, get, Commit(k), x.decision);
    ProposalStepExactly(k, get, x.decision, x.proposal);
    EffectStepExactly(k, get, Commit(k), x.proposal, x.effect);
    AllResolved(k);
    EffectFields(k);
    BaseStepExactly(k, get, x.effect);
    InputNotFound(k);
    StopsAtInputs(k, get, Commit(k), x.decision, x.effect, OBJECT_NOT_FOUND);
    StopsAtReferences(k, get, Commit(k), x, OBJECT_NOT_FOUND);
  }

  /** The verifiers differ: whatever the hash, unless it makes the Proposal and the Decision
      collide, and whatever the schema, so long as it accepts these five objects, Python
      verifies the commit and TypeScript does not find the Effect's input. */
  lemma VerifiersSplit(py: PythonKernel)
    requires Lawful(py.k.c) && Hashing(py.k) && Apart(py.k)
    requires py.schema(Genesis()) && py.schema(Effect(py.k)) && py.schema(Proposed(py.k)) && py.schema(Decided(py.k)) && py.schema(Commit(py.k))
    ensures PyCommitIntegrity(py, Stored(Objects(py.k)), Commit(py.k)) == Ok(Found(py.k))
    ensures CommitIntegrity(py.k, Stored(Objects(py.k)), Commit(py.k)) == Err(OBJECT_NOT_FOUND)
  {
    hide Objects, Genesis, Effect, Proposed, Decided, Commit, ParseObject, ParseCommit, PyCommitIntegrity, CommitIntegrity, ChainStands,
      ReferencesStand, Apart, Hashing, Lawful, AgreesOn, Describe, DescriptorOfKind, Ref, Absent;
    var k := py.k;
    GenesisNamed(k);
    EffectNamed(k);
    ProposedNamed(k);
    DecidedNamed(k);
    CommitAccepted(k);
    SchemaCanAgree(py, Genesis());
    SchemaCanAgree(py, Effect(k));
    SchemaCanAgree(py, Proposed(k));
    SchemaCanAgree(py, Decided(k));
    SchemaCanAgree(py, Commit(k));
    StoredParses(py);
    ChainIsThere(k);
    ReferencesAreThere(k);
    PyIntegrityExactly(py, Stored(Objects(k)), Commit(k), Found(k));
    TypeScriptRejects(k);
  }

  // ---------------------------------------------------------------- an instance

  /** Every string but the one marked hashes to zeros. */
  function Marking(c: NumberCodec, marked: Bytes): Kernel { Kernel(c, (bytes: Bytes) => Hex(bytes == marked)) }

  /** The Decision of a kernel that marks nothing but it: its own mark does not enter it. */
  function Integers(): Kernel { Marking(IntegerCodec(), ObjectPreimage(Zeros(), Decided(Zeros()))) }

  /** Every string hashes to zeros. */
  function Zeros(): Kernel { Kernel(IntegerCodec(), (bytes: Bytes) => Hex(false)) }

  lemma HexKernels(marked: Bytes)
    ensures Hashing(Zeros()) && Hashing(Marking(IntegerCodec(), marked))
  {
    hide IntegerCodec;
    HexFacts(false);
    HexFacts(true);
  }

  /** What is hashed is another string, and so has the same descriptor as before. */
  lemma UnmarkedAlike(obj: Value, other: Value)
    requires Lawful(IntegerCodec()) && obj != other
    requires Describe(Zeros(), obj).Ok? && Describe(Zeros(), other).Ok?
    ensures Describe(Marking(IntegerCodec(), ObjectPreimage(Zeros(), other)), obj) == Describe(Zeros(), obj)
  {
    hide ParseObject, Hex, Prefix, CanonicalBytes, ExpectedSchema, IntegerCodec;
    var zeros, marking := Zeros(), Marking(IntegerCodec(), ObjectPreimage(Zeros(), other));
    DescribeParsed(zeros, obj);
    DescribeParsed(zeros, other);
    DescribeParsed(marking, obj);
    if ObjectPreimage(zeros, obj) == ObjectPreimage(zeros, other) {
      DomainsApart(KindForSchema(SchemaOf(obj)), SchemaOf(obj), CanonicalBytes(IntegerCodec(), obj),
        KindForSchema(SchemaOf(other)), SchemaOf(other), CanonicalBytes(IntegerCodec(), other));
      CanonicalBytesIdentifyValue(IntegerCodec(), obj, other);
    }
  }

  lemma SchemasApart(k: Kernel)
    requires Hashing(k)
    ensures Genesis() != Decided(k) && Effect(k) != Decided(k) && Proposed(k) != Decided(k)
  {
    hide Genesis, Effect, Proposed, Decided, Hashing, Describe;
    SchemasDistinct();
    GenesisNamed(k);
    EffectNamed(k);
    ProposedNamed(k);
    DecidedNamed(k);
  }

  /** The marked kernel builds the same five objects, and tells the Decision apart. */
  lemma IntegersApart()
    requires Lawful(IntegerCodec())
    ensures Apart(Integers()) && Hashing(Integers())
  {
    hide Genesis, EffectOn, Hashing, Describe, IntegerCodec, Hex, ObjectPreimage, Marking, Zeros;
    var zeros, marking := Zeros(), Integers();
    HexKernels(ObjectPreimage(zeros, Decided(zeros)));
    SchemasApart(zeros);
    GenesisNamed(zeros);
    EffectNamed(zeros);
    ProposedNamed(zeros);
    DecidedNamed(zeros);
    UnmarkedAlike(Genesis(), Decided(zeros));
    assert Effect(marking) == Effect(zeros);
    UnmarkedAlike(Effect(zeros), Decided(zeros));
    assert Proposed(marking) == Proposed(zeros);
    UnmarkedAlike(Proposed(zeros), Decided(zeros));
    assert Decided(marking) == Decided(zeros);
    MarkedDiffers(Proposed(zeros), Decided(zeros));
  }

  lemma MarkedDiffers(obj: Value, marked: Value)
    requires Describe(Zeros(), obj).Ok? && Describe(Zeros(), marked).Ok?
    ensures Describe(Marking(IntegerCodec(), ObjectPreimage(Zeros(), marked)), marked) != Describe(Zeros(), obj)
  {
    hide ParseObject, Hex, Prefix, CanonicalBytes, ExpectedSchema, IntegerCodec;
    var zeros, marking := Zeros(), Marking(IntegerCodec(), ObjectPreimage(Zeros(), marked));
    DescribeParsed(zeros, obj);
    DescribeParsed(zeros, marked);
    DescribeParsed(marking, marked);
    HexDiffers();
  }

  /** All the hypotheses can be met at once: with the numbers that are safe integers, a hash
      of two values and a schema that accepts what the TypeScript parser accepts. */
  lemma VerifiersSplitOnIntegers(number: real -> Text)
    ensures var py := PythonKernel(Integers(), v => ParseObject(IntegerCodec(), v).Ok?, number);
      && Lawful(py.k.c) && Hashing(py.k)
      && PyCommitIntegrity(py, Stored(Objects(py.k)), Commit(py.k)) == Ok(Found(py.k))
      && CommitIntegrity(py.k, Stored(Objects(py.k)), Commit(py.k)) == Err(OBJECT_NOT_FOUND)
  {
    hide Hashing, PyCommitIntegrity, CommitIntegrity, Lawful, IntegerCodec, ParseObject, Genesis, Effect, Proposed, Decided, Commit, Objects, Describe, Zeros, ObjectPreimage;
    var py := PythonKernel(Integers(), v => ParseObject(IntegerCodec(), v).Ok?, number);
    IntegerCodecIsLawful();
    IntegersApart();
    GenesisNamed(py.k);
    EffectNamed(py.k);
    ProposedNamed(py.k);
    DecidedNamed(py.k);
    CommitAccepted(py.k);
    VerifiersSplit(py);
  }
}
