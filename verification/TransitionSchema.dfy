/** The published JSON Schema of the protocol objects, and its agreement with the parser: an
    object parses exactly when it is in the domain, satisfies the schema and has its sets in
    order. Patterns are read as ECMAScript reads them. */
module TransitionSchema {
  import opened Text
  import opened Values
  import opened Grammar
  import opened Utf8
  import opened ProtocolBytes
  import opened Protocol
  import opened Resolver
  import opened Integrity
  import opened Replay
  import opened PythonVerifier
  import opened VerifiersAgree

  // ---------------------------------------------------------------- keywords

  /** `properties` with all of them `required` and `additionalProperties` false. */
  predicate HasExactly(v: Value, fields: seq<string>) { v.Obj? && v.m.Keys == Names(fields) }

  predicate IsConst(v: Value, text: string) { v == Str(Ascii(text)) }

  predicate HasLength(v: Value, min: nat, max: nat) { v.Str? && min <= |CodePoints(v.s)| <= max }

  predicate IsNonEmpty(v: Value) { v.Str? && |CodePoints(v.s)| >= 1 }

  /** `uniqueItems` */
  predicate AllDiffer(items: seq<Value>) { forall i, j | 0 <= i < j < |items| :: items[i] != items[j] }

  predicate AlphaNumeric(u: int) { 0x30 <= u <= 0x39 || 0x41 <= u <= 0x5A || 0x61 <= u <= 0x7A }

  /** ^[A-Za-z0-9][A-Za-z0-9._:/-]*$ */
  predicate IdentifierText(s: Text) {
    s != [] && AlphaNumeric(s[0]) && forall i | 0 <= i < |s| :: AlphaNumeric(s[i]) || s[i] in [0x2E, 0x5F, 0x3A, 0x2F, 0x2D]
  }

  /** ^sha256:[0-9a-f]{64}$ */
  predicate DigestText(s: Text) {
    && |s| == 71 && s[0] == 0x73 && s[1] == 0x68 && s[2] == 0x61 && s[3] == 0x32 && s[4] == 0x35 && s[5] == 0x36 && s[6] == 0x3A
    && forall i | 7 <= i < 71 :: 0x30 <= s[i] <= 0x39 || 0x61 <= s[i] <= 0x66
  }

  predicate Between(u: int, low: char, high: char) { low as int <= u <= high as int }

  /** ^[0-9]{4}-(0[1-9]|1[0-2])-([0-2][0-9]|3[0-1])T([0-1][0-9]|2[0-3]):[0-5][0-9]:[0-5][0-9]\.[0-9]{3}Z$ */
  predicate TimestampText(s: Text) {
    && |s| == 24
    && Between(s[0], '0', '9') && Between(s[1], '0', '9') && Between(s[2], '0', '9') && Between(s[3], '0', '9') && s[4] == '-' as int
    && ((Between(s[5], '0', '0') && Between(s[6], '1', '9')) || (Between(s[5], '1', '1') && Between(s[6], '0', '2'))) && s[7] == '-' as int
    && ((Between(s[8], '0', '2') && Between(s[9], '0', '9')) || (Between(s[8], '3', '3') && Between(s[9], '0', '1'))) && s[10] == 'T' as int
    && ((Between(s[11], '0', '1') && Between(s[12], '0', '9')) || (Between(s[11], '2', '2') && Between(s[12], '0', '3'))) && s[13] == ':' as int
    && Between(s[14], '0', '5') && Between(s[15], '0', '9') && s[16] == ':' as int
    && Between(s[17], '0', '5') && Between(s[18], '0', '9') && s[19] == '.' as int
    && Between(s[20], '0', '9') && Between(s[21], '0', '9') && Between(s[22], '0', '9') && s[23] == 'Z' as int
  }

  // ---------------------------------------------------------------- definitions

  predicate SIdentifier(v: Value) { HasLength(v, 1, 256) && IdentifierText(v.s) }
  predicate SDigest(v: Value) { v.Str? && DigestText(v.s) }
  predicate STimestamp(v: Value) { v.Str? && TimestampText(v.s) }

  predicate SDescriptor(v: Value, kind: string, schema: string) {
    HasExactly(v, ["kind", "schema", "digest"]) && IsConst(Field(v, "kind"), kind) && IsConst(Field(v, "schema"), schema) && SDigest(Field(v, "digest"))
  }

  predicate SStateDescriptor(v: Value) { SDescriptor(v, "state", "t3x/state/v1") }
  predicate SEffectDescriptor(v: Value) { SDescriptor(v, "effect", "t3x/effect/v1") }
  predicate SStatementDescriptor(v: Value) { SDescriptor(v, "statement", "t3x/statement/v1") }
  predicate SCommitDescriptor(v: Value) { SDescriptor(v, "commit", "t3x/commit/v2") }

  /** `oneOf`: the kinds differ, so that no two hold at once. */
  predicate SObjectDescriptor(v: Value) {
    SStateDescriptor(v) || SEffectDescriptor(v) || SStatementDescriptor(v) || SCommitDescriptor(v)
  }

  predicate SResource(v: Value) {
    && HasExactly(v, ["uri", "mediaType", "digest"])
    && HasLength(Field(v, "uri"), 1, 2048) && HasLength(Field(v, "mediaType"), 1, 256) && SDigest(Field(v, "digest"))
  }

  predicate SActor(v: Value) {
    && HasExactly(v, ["kind", "id"])
    && (IsConst(Field(v, "kind"), "human") || IsConst(Field(v, "kind"), "agent") || IsConst(Field(v, "kind"), "service"))
    && HasLength(Field(v, "id"), 1, 512)
  }

  predicate SEvidence(v: Value) {
    && HasExactly(v, ["resource", "locator"]) && SResource(Field(v, "resource"))
    && HasExactly(Field(v, "locator"), ["scheme", "value"]) && SIdentifier(Field(Field(v, "locator"), "scheme"))
  }

  predicate SCodec(v: Value) {
    HasExactly(v, ["mediaType", "version"]) && HasLength(Field(v, "mediaType"), 1, 256) && SIdentifier(Field(v, "version"))
  }

  predicate SDriver(v: Value) {
    && HasExactly(v, ["protocol", "protocolVersion", "specDigest"])
    && SIdentifier(Field(v, "protocol")) && SIdentifier(Field(v, "protocolVersion")) && SDigest(Field(v, "specDigest"))
  }

  predicate SState(v: Value) {
    HasExactly(v, ["schema", "codec", "value"]) && IsConst(Field(v, "schema"), "t3x/state/v1") && SCodec(Field(v, "codec"))
  }

  predicate SInput(v: Value) { HasExactly(v, ["role", "object"]) && SIdentifier(Field(v, "role")) && SObjectDescriptor(Field(v, "object")) }

  predicate SEffect(v: Value) {
    && HasExactly(v, ["schema", "base", "driver", "operations", "inputs", "result"])
    && IsConst(Field(v, "schema"), "t3x/effect/v1") && SStateDescriptor(Field(v, "base")) && SDriver(Field(v, "driver"))
    && Field(v, "operations").Arr? && Field(v, "inputs").Arr? && (forall x <- Field(v, "inputs").items :: SInput(x))
    && SStateDescriptor(Field(v, "result"))
  }

  predicate SEvidenceList(v: Value) { v.Arr? && (forall x <- v.items :: SEvidence(x)) && AllDiffer(v.items) }

  predicate SStated(v: Value) {
    && HasExactly(v, ["mode", "value", "evidence"]) && IsConst(Field(v, "mode"), "stated") && IsNonEmpty(Field(v, "value"))
    && SEvidenceList(Field(v, "evidence")) && |Field(v, "evidence").items| >= 1
  }

  predicate SInferred(v: Value) {
    && HasExactly(v, ["mode", "value", "evidence"]) && IsConst(Field(v, "mode"), "inferred") && IsNonEmpty(Field(v, "value"))
    && SEvidenceList(Field(v, "evidence"))
  }

  predicate SAuthored(v: Value) {
    && HasExactly(v, ["mode", "value", "evidence"]) && IsConst(Field(v, "mode"), "authored") && IsNonEmpty(Field(v, "value"))
    && SEvidenceList(Field(v, "evidence"))
  }

  predicate SUnspecified(v: Value) { HasExactly(v, ["mode"]) && IsConst(Field(v, "mode"), "unspecified") }

  predicate SClaim(v: Value) { SStated(v) || SInferred(v) || SAuthored(v) || SUnspecified(v) }

  predicate SProposal(v: Value) { HasExactly(v, ["intent", "rationale"]) && SClaim(Field(v, "intent")) && SClaim(Field(v, "rationale")) }

  predicate SPolicy(v: Value) {
    || (HasExactly(v, ["mode", "resource"]) && IsConst(Field(v, "mode"), "evaluated") && SResource(Field(v, "resource")))
    || (HasExactly(v, ["mode"]) && IsConst(Field(v, "mode"), "not_evaluated"))
  }

  predicate SDecision(v: Value) {
    && HasExactly(v, ["policy", "considered", "outcome", "rationale", "decidedAt"])
    && SPolicy(Field(v, "policy"))
    && Field(v, "considered").Arr? && (forall x <- Field(v, "considered").items :: SStatementDescriptor(x)) && AllDiffer(Field(v, "considered").items)
    && (IsConst(Field(v, "outcome"), "accepted") || IsConst(Field(v, "outcome"), "overridden") || IsConst(Field(v, "outcome"), "rejected"))
    && SClaim(Field(v, "rationale")) && STimestamp(Field(v, "decidedAt"))
    && (IsConst(Field(v, "outcome"), "overridden") ==> SAuthored(Field(v, "rationale")))
  }

  /** What the three kinds of Statement share. */
  predicate SAnyStatement(v: Value) {
    && HasExactly(v, ["schema", "subjects", "actor", "predicateType", "predicate"])
    && IsConst(Field(v, "schema"), "t3x/statement/v1") && Field(v, "subjects").Arr? && SActor(Field(v, "actor"))
  }

  predicate SProposalStatement(v: Value) {
    && SAnyStatement(v) && |Field(v, "subjects").items| == 1 && SEffectDescriptor(Field(v, "subjects").items[0])
    && IsConst(Field(v, "predicateType"), "t3x.proposal/v1") && SProposal(Field(v, "predicate"))
  }

  predicate SDecisionStatement(v: Value) {
    && SAnyStatement(v) && |Field(v, "subjects").items| == 1 && SStatementDescriptor(Field(v, "subjects").items[0])
    && IsConst(Field(v, "predicateType"), "t3x.decision/v1") && SDecision(Field(v, "predicate"))
  }

  predicate SExternalStatement(v: Value) {
    && SAnyStatement(v) && |Field(v, "subjects").items| >= 1
    && (forall x <- Field(v, "subjects").items :: SObjectDescriptor(x)) && AllDiffer(Field(v, "subjects").items)
    && SIdentifier(Field(v, "predicateType"))
    && !IsConst(Field(v, "predicateType"), "t3x.proposal/v1") && !IsConst(Field(v, "predicateType"), "t3x.decision/v1")
  }

  predicate SStatement(v: Value) { SProposalStatement(v) || SDecisionStatement(v) || SExternalStatement(v) }

  predicate SCommit(v: Value) {
    && HasExactly(v, ["schema", "parents", "decision", "result"]) && IsConst(Field(v, "schema"), "t3x/commit/v2")
    && Field(v, "parents").Arr? && (forall x <- Field(v, "parents").items :: SCommitDescriptor(x))
    && SStatementDescriptor(Field(v, "decision")) && SStateDescriptor(Field(v, "result"))
  }

  /** The schema: one of the four objects. */
  predicate SObject(v: Value) { SState(v) || SEffect(v) || SStatement(v) || SCommit(v) }

  // ---------------------------------------------------------------- texts

  lemma RecordExactly(v: Value, fields: seq<string>)
    ensures Record(v, fields).Ok? <==> HasExactly(v, fields)
  {}

  lemma IdentifierExactly(v: Value)
    ensures Identifier(v).Ok? <==> SIdentifier(v)
  {
    if v.Str? {
      IdentifierTextExactly(v.s);
      if v.s != [] {
        FirstCodePoint(v.s);
      }
    }
  }

  lemma FirstCodePoint(s: Text)
    ensures s != [] <==> |CodePoints(s)| >= 1
  {}

  lemma IdentifierTextExactly(s: Text)
    ensures IsIdentifier(s) <==> IdentifierText(s)
  {
    var marks := Ascii("._:/-");
    assert marks == [0x2E, 0x5F, 0x3A, 0x2F, 0x2D];
    if IsIdentifier(s) {
      forall i | 0 <= i < |s| ensures AlphaNumeric(s[i]) || s[i] in marks { assert s[i] in s; }
    }
    if IdentifierText(s) {
      forall u | u in s ensures IsLetter(u) || IsDecimal(u) || u in marks {
        var i :| 0 <= i < |s| && s[i] == u;
      }
    }
  }

  lemma DigestExactly(v: Value)
    ensures DigestValue(v).Ok? <==> SDigest(v)
  {
    if v.Str? && |v.s| == 71 {
      assert SHA256 == [0x73, 0x68, 0x61, 0x32, 0x35, 0x36, 0x3A];
      var s := v.s;
      assert s[..7] == [s[0], s[1], s[2], s[3], s[4], s[5], s[6]];
      if IsHexDigest(s[7..]) {
        forall i | 7 <= i < 71 ensures IsDecimal(s[i]) || 0x61 <= s[i] <= 0x66 {
          assert s[7..][i - 7] == s[i] && s[i] in s[7..];
        }
      }
      if DigestText(s) {
        forall u | u in s[7..] ensures IsDecimal(u) || 0x61 <= u <= 0x66 {
          var i :| 0 <= i < 64 && s[7..][i] == u;
          assert s[i + 7] == u;
        }
      }
    }
  }

  lemma TwoDigits(s: Text, i: nat)
    requires i + 1 < |s|
    ensures Pair2(s, i) < 100 <==> Between(s[i], '0', '9') && Between(s[i + 1], '0', '9')
    ensures 1 <= Pair2(s, i) <= 12 <==>
      (Between(s[i], '0', '0') && Between(s[i + 1], '1', '9')) || (Between(s[i], '1', '1') && Between(s[i + 1], '0', '2'))
    ensures Pair2(s, i) <= 31 <==>
      (Between(s[i], '0', '2') && Between(s[i + 1], '0', '9')) || (Between(s[i], '3', '3') && Between(s[i + 1], '0', '1'))
    ensures Pair2(s, i) <= 23 <==>
      (Between(s[i], '0', '1') && Between(s[i + 1], '0', '9')) || (Between(s[i], '2', '2') && Between(s[i + 1], '0', '3'))
    ensures Pair2(s, i) <= 59 <==> Between(s[i], '0', '5') && Between(s[i + 1], '0', '9')
  {}

  lemma TimestampExactly(s: Text)
    ensures IsTimestamp(s) <==> TimestampText(s)
  {
    hide Pair2, Between;
    if |s| == 24 {
      TwoDigits(s, 0);
      TwoDigits(s, 2);
      TwoDigits(s, 5);
      TwoDigits(s, 8);
      TwoDigits(s, 11);
      TwoDigits(s, 14);
      TwoDigits(s, 17);
      TwoDigits(s, 20);
      assert IsDecimal(s[22]) <==> Between(s[22], '0', '9') by { BetweenDigits(s[22]); }
    }
  }

  lemma BetweenDigits(u: int)
    ensures IsDecimal(u) <==> Between(u, '0', '9')
  {}

  // ---------------------------------------------------------------- descriptors

  lemma KindsKnown(v: Value)
    ensures v.Str? && ExpectedSchema(v.s).Some? <==>
      IsConst(v, "state") || IsConst(v, "effect") || IsConst(v, "statement") || IsConst(v, "commit")
    ensures !(IsConst(v, "state") && IsConst(v, "effect")) && !(IsConst(v, "state") && IsConst(v, "statement"))
    ensures !(IsConst(v, "state") && IsConst(v, "commit")) && !(IsConst(v, "effect") && IsConst(v, "statement"))
    ensures !(IsConst(v, "effect") && IsConst(v, "commit")) && !(IsConst(v, "statement") && IsConst(v, "commit"))
  {
    KindsDistinct();
    assert |Ascii("state")| == 5 && |Ascii("effect")| == 6 && |Ascii("statement")| == 9 && |Ascii("commit")| == 6;
    assert Ascii("effect")[0] == 'e' as int && Ascii("commit")[0] == 'c' as int;
  }

  lemma DescriptorExactly(c: NumberCodec, v: Value)
    ensures ParseDescriptor(c, v).Ok? <==> SObjectDescriptor(v)
    ensures DescriptorOfKind(c, v, "state").Ok? <==> SStateDescriptor(v)
    ensures DescriptorOfKind(c, v, "effect").Ok? <==> SEffectDescriptor(v)
    ensures DescriptorOfKind(c, v, "statement").Ok? <==> SStatementDescriptor(v)
    ensures DescriptorOfKind(c, v, "commit").Ok? <==> SCommitDescriptor(v)
  {
    hide ExpectedSchema, InDomain, SDigest, HasExactly;
    RecordExactly(v, ["kind", "schema", "digest"]);
    DigestExactly(Field(v, "digest"));
    KindsKnown(Field(v, "kind"));
    KindsDistinct();
    if SObjectDescriptor(v) {
      PlainDescriptorInDomain(c, v);
    }
  }

  // ---------------------------------------------------------------- State, Effect and Commit

  lemma StateExactly(c: NumberCodec, v: Value)
    ensures ParseState(c, v).Ok? <==> InDomain(c, v) && SState(v)
  {
    hide InDomain, HasExactly, SIdentifier, Identifier;
    RecordExactly(v, ["schema", "codec", "value"]);
    RecordExactly(Field(v, "codec"), ["mediaType", "version"]);
    IdentifierExactly(Field(Field(v, "codec"), "version"));
  }

  lemma DriverExactly(v: Value)
    ensures DriverRef(v).Ok? <==> SDriver(v)
  {
    hide HasExactly, SIdentifier, Identifier, SDigest;
    RecordExactly(v, ["protocol", "protocolVersion", "specDigest"]);
    IdentifierExactly(Field(v, "protocol"));
    IdentifierExactly(Field(v, "protocolVersion"));
    DigestExactly(Field(v, "specDigest"));
  }

  lemma InputExactly(c: NumberCodec, v: Value)
    ensures InputShape(c, v).Ok? <==> SInput(v)
  {
    hide HasExactly, SIdentifier, Identifier, ParseDescriptor, SObjectDescriptor;
    RecordExactly(v, ["role", "object"]);
    IdentifierExactly(Field(v, "role"));
    DescriptorExactly(c, Field(v, "object"));
  }

  /** The inputs are well shaped and in order exactly when the schema holds of each and
      Python's sorting accepts their roles. */
  lemma InputsExactly(c: NumberCodec, v: Value)
    requires InDomain(c, v) && Field(v, "inputs").Arr?
    ensures InputsFrom(c, InputsOf(v), None).Ok? <==>
      (forall x <- Field(v, "inputs").items :: SInput(x)) && RolesCheck(Roles(InputsOf(v))).Ok?
  {
    hide InDomain, InputShape, SInput, RolesOk, Field;
    var inputs := InputsOf(v);
    InputsAscend(c, inputs, None);
    RolesAreWellFormed(c, v);
    SortAndCompareIsAscending(Roles(inputs));
    forall i | 0 <= i < |inputs| ensures InputShape(c, inputs[i]).Ok? <==> SInput(inputs[i]) {
      InputExactly(c, inputs[i]);
    }
    AllOrEach(inputs);
  }

  lemma AllOrEach(inputs: seq<Value>)
    ensures (forall x <- inputs :: SInput(x)) <==> forall i | 0 <= i < |inputs| :: SInput(inputs[i])
  {
    hide SInput;
    if forall i | 0 <= i < |inputs| :: SInput(inputs[i]) {
      forall x | x in inputs ensures SInput(x) {
        var i :| 0 <= i < |inputs| && inputs[i] == x;
      }
    }
  }

  lemma DefinitionExactly(c: NumberCodec, v: Value)
    requires InDomain(c, v)
    ensures ParseDefinition(c, DefinitionOf(v)).Ok? <==>
      && SDriver(Field(v, "driver")) && Field(v, "operations").Arr? && Field(v, "inputs").Arr?
      && (forall x <- Field(v, "inputs").items :: SInput(x)) && RolesCheck(Roles(InputsOf(v))).Ok?
  {
    hide InDomain, DriverRef, SDriver, InputsFrom, RolesCheck, SInput, DefinitionOf, Field;
    DefinitionFields(v);
    DefinitionShape(v);
    DefinitionStaysInDomain(c, v);
    DriverExactly(Field(v, "driver"));
    if Field(v, "inputs").Arr? {
      InputsExactly(c, v);
    }
  }

  lemma DefinitionShape(v: Value)
    ensures Record(DefinitionOf(v), ["driver", "operations", "inputs"]).Ok?
  {}

  lemma DefinitionStaysInDomain(c: NumberCodec, v: Value)
    requires InDomain(c, v)
    ensures InDomain(c, DefinitionOf(v))
  {
    hide InDomain, Field;
    FieldStaysInDomain(c, v, "driver");
    FieldStaysInDomain(c, v, "operations");
    FieldStaysInDomain(c, v, "inputs");
    AsciiIsPaired("driver");
    AsciiIsPaired("operations");
    AsciiIsPaired("inputs");
    MappingInDomain(c, DefinitionOf(v).m);
  }

  lemma EffectExactlyBySchema(c: NumberCodec, v: Value)
    ensures ParseEffect(c, v).Ok? <==> InDomain(c, v) && SEffect(v) && RolesCheck(Roles(InputsOf(v))).Ok?
  {
    hide InDomain, HasExactly, ParseDefinition, DescriptorOfKind, SStateDescriptor, SDriver, SInput, RolesCheck, DefinitionOf;
    RecordExactly(v, ["schema", "base", "driver", "operations", "inputs", "result"]);
    DescriptorExactly(c, Field(v, "base"));
    DescriptorExactly(c, Field(v, "result"));
    if InDomain(c, v) {
      DefinitionExactly(c, v);
    }
  }

  lemma CommitExactlyBySchema(c: NumberCodec, v: Value)
    ensures ParseCommit(c, v).Ok? <==> InDomain(c, v) && SCommit(v)
  {
    hide InDomain, HasExactly, DescriptorOfKind, SStateDescriptor, SStatementDescriptor, SCommitDescriptor, Field;
    RecordExactly(v, ["schema", "parents", "decision", "result"]);
    DescriptorExactly(c, Field(v, "decision"));
    DescriptorExactly(c, Field(v, "result"));
    EachOfKind(c, ParentsOf(v), "commit");
  }

  lemma EachOfKind(c: NumberCodec, values: seq<Value>, kind: string)
    ensures Each(values, d => DescriptorOfKind(c, d, kind)).Ok? <==> forall x <- values :: DescriptorOfKind(c, x, kind).Ok?
    ensures kind == "commit" ==> (Each(values, d => DescriptorOfKind(c, d, "commit")).Ok? <==> forall x <- values :: SCommitDescriptor(x))
    ensures kind == "statement" ==> (Each(values, d => DescriptorOfKind(c, d, "statement")).Ok? <==> forall x <- values :: SStatementDescriptor(x))
  {
    hide DescriptorOfKind, SCommitDescriptor, SStatementDescriptor;
    EachPasses(values, d => DescriptorOfKind(c, d, kind));
    forall x | x in values ensures (DescriptorOfKind(c, x, "commit").Ok? <==> SCommitDescriptor(x)) && (DescriptorOfKind(c, x, "statement").Ok? <==> SStatementDescriptor(x)) {
      DescriptorExactly(c, x);
    }
    if forall i | 0 <= i < |values| :: DescriptorOfKind(c, values[i], kind).Ok? {
      forall x | x in values ensures DescriptorOfKind(c, x, kind).Ok? {
        var i :| 0 <= i < |values| && values[i] == x;
      }
    }
  }

  // ---------------------------------------------------------------- Statement

  lemma ResourceExactly(v: Value)
    ensures ResourceDescriptor(v).Ok? <==> SResource(v)
  {
    hide HasExactly, SDigest;
    RecordExactly(v, ["uri", "mediaType", "digest"]);
    DigestExactly(Field(v, "digest"));
  }

  lemma ActorExactly(v: Value)
    ensures ActorRef(v).Ok? <==> SActor(v)
  {
    hide HasExactly;
    RecordExactly(v, ["kind", "id"]);
  }

  lemma EvidenceExactly(v: Value)
    ensures EvidenceRef(v).Ok? <==> SEvidence(v)
  {
    hide HasExactly, SResource, ResourceDescriptor, SIdentifier, Identifier;
    RecordExactly(v, ["resource", "locator"]);
    RecordExactly(Field(v, "locator"), ["scheme", "value"]);
    ResourceExactly(Field(v, "resource"));
    IdentifierExactly(Field(Field(v, "locator"), "scheme"));
  }

  /** A set in canonical order has no two equal members. */
  lemma OrderedDiffer(c: NumberCodec, v: Value)
    requires Lawful(c) && InDomain(c, v) && SetCheck(c, Elements(v)).Ok?
    ensures AllDiffer(Elements(v)) && PySetCheck(c, Elements(v)).Ok?
  {
    hide InDomain, AdjacentAscending, Lawful;
    ElementsStayInDomain(c, v);
    AdjacentIsGlobal(c, Elements(v));
    SetsAgree(c, v);
  }

  lemma EachIs(values: seq<Value>)
    ensures Each(values, EvidenceRef).Ok? <==> forall x <- values :: SEvidence(x)
  {
    hide EvidenceRef, SEvidence;
    EachPasses(values, EvidenceRef);
    forall x | x in values ensures EvidenceRef(x).Ok? <==> SEvidence(x) {
      EvidenceExactly(x);
    }
    if forall i | 0 <= i < |values| :: EvidenceRef(values[i]).Ok? {
      forall x | x in values ensures EvidenceRef(x).Ok? {
        var i :| 0 <= i < |values| && values[i] == x;
      }
    }
  }

  lemma EvidenceSetExactly(c: NumberCodec, v: Value, requireMember: bool)
    requires Lawful(c) && InDomain(c, v)
    ensures EvidenceSet(c, v, requireMember).Ok? <==>
      SEvidenceList(v) && (requireMember ==> |v.items| >= 1) && PySetCheck(c, Elements(v)).Ok?
  {
    hide InDomain, Lawful, EvidenceRef, SEvidence, AdjacentAscending;
    EachIs(Elements(v));
    SetsAgree(c, v);
    if SetCheck(c, Elements(v)).Ok? {
      OrderedDiffer(c, v);
    }
  }

  lemma ModesApart(v: Value)
    ensures IsConst(v, "stated") ==> !IsConst(v, "inferred") && !IsConst(v, "authored") && !IsConst(v, "unspecified")
    ensures IsConst(v, "inferred") ==> !IsConst(v, "authored") && !IsConst(v, "unspecified")
    ensures IsConst(v, "authored") ==> !IsConst(v, "unspecified")
  {
    assert |Ascii("stated")| == 6 && |Ascii("inferred")| == 8 && |Ascii("authored")| == 8 && |Ascii("unspecified")| == 11;
    assert Ascii("inferred")[0] == 'i' as int && Ascii("authored")[0] == 'a' as int;
  }

  /** A claim passes exactly when one of its four forms holds and its evidence is in order. */
  lemma ClaimExactly(c: NumberCodec, v: Value)
    requires Lawful(c) && InDomain(c, v)
    ensures StringClaim(c, v).Ok? <==> SClaim(v) && ClaimEvidence(c, v).Ok?
    ensures SClaim(v) ==> (IsConst(Field(v, "mode"), "authored") <==> SAuthored(v))
  {
    hide InDomain, Lawful, EvidenceSet, SEvidenceList, PySetCheck, IsConst;
    var mode := Field(v, "mode");
    ClaimRecords(v);
    ModesApart(mode);
    FieldStaysInDomain(c, v, "evidence");
    EvidenceSetExactly(c, Field(v, "evidence"), true);
    EvidenceSetExactly(c, Field(v, "evidence"), false);
    FirstCodePoint(Content(Field(v, "value")));
    ModeConsts(mode);
  }

  lemma ModeConsts(mode: Value)
    ensures mode == Str(Ascii("unspecified")) <==> IsConst(mode, "unspecified")
    ensures mode == Str(Ascii("stated")) <==> IsConst(mode, "stated")
    ensures mode == Str(Ascii("inferred")) <==> IsConst(mode, "inferred")
    ensures mode == Str(Ascii("authored")) <==> IsConst(mode, "authored")
  {}

  lemma ClaimRecords(v: Value)
    ensures Record(v, ["mode"]).Ok? <==> HasExactly(v, ["mode"])
    ensures Record(v, ["mode", "value", "evidence"]).Ok? <==> HasExactly(v, ["mode", "value", "evidence"])
    ensures HasExactly(v, ["mode"]) || HasExactly(v, ["mode", "value", "evidence"]) ==>
      ClosedRecord(v, ["mode"], ["mode", "value", "evidence"]).Ok?
    ensures HasExactly(v, ["mode"]) ==> !HasExactly(v, ["mode", "value", "evidence"]) && Ascii("evidence") !in v.m
    ensures HasExactly(v, ["mode", "value", "evidence"]) ==> Ascii("evidence") in v.m
  {
    assert |Ascii("mode")| == 4 && |Ascii("value")| == 5 && |Ascii("evidence")| == 8;
    assert "mode" in ["mode", "value", "evidence"] && "evidence" in ["mode", "value", "evidence"];
    if HasExactly(v, ["mode"]) {
      assert Ascii("evidence") !in Names(["mode"]);
      assert Ascii("evidence") in Names(["mode", "value", "evidence"]);
    }
  }

  lemma ProposalExactly(c: NumberCodec, v: Value)
    requires Lawful(c) && InDomain(c, v)
    ensures ProposalPredicate(c, v).Ok? <==>
      SProposal(v) && ClaimEvidence(c, Field(v, "intent")).Ok? && ClaimEvidence(c, Field(v, "rationale")).Ok?
  {
    hide InDomain, Lawful, StringClaim, SClaim, ClaimEvidence, HasExactly;
    RecordExactly(v, ["intent", "rationale"]);
    FieldStaysInDomain(c, v, "intent");
    FieldStaysInDomain(c, v, "rationale");
    ClaimExactly(c, Field(v, "intent"));
    ClaimExactly(c, Field(v, "rationale"));
  }

  lemma PolicyExactly(v: Value)
    ensures DecisionPolicy(v).Ok? <==> SPolicy(v)
  {
    hide HasExactly, SResource, ResourceDescriptor;
    RecordExactly(v, ["mode"]);
    RecordExactly(v, ["mode", "resource"]);
    ResourceExactly(Field(v, "resource"));
    PolicyRecords(v);
  }

  lemma PolicyRecords(v: Value)
    ensures HasExactly(v, ["mode"]) || HasExactly(v, ["mode", "resource"]) ==> ClosedRecord(v, ["mode"], ["mode", "resource"]).Ok?
    ensures Ascii("evaluated") != Ascii("not_evaluated")
  {
    assert "mode" in ["mode", "resource"];
    assert |Ascii("evaluated")| == 9 && |Ascii("not_evaluated")| == 13;
  }

  /** The considered Statements. */
  lemma ConsideredExactlyBySchema(c: NumberCodec, v: Value)
    requires Lawful(c) && InDomain(c, v)
    ensures Each(Elements(v), d => DescriptorOfKind(c, d, "statement")).Ok? && SetCheck(c, Elements(v)).Ok? <==>
      (forall x <- Elements(v) :: SStatementDescriptor(x)) && AllDiffer(Elements(v)) && PySetCheck(c, Elements(v)).Ok?
  {
    hide InDomain, Lawful, DescriptorOfKind, SStatementDescriptor, AdjacentAscending;
    EachOfKind(c, Elements(v), "statement");
    SetsAgree(c, v);
    if SetCheck(c, Elements(v)).Ok? {
      OrderedDiffer(c, v);
    }
  }

  lemma DecisionExactly(c: NumberCodec, v: Value)
    requires Lawful(c) && InDomain(c, v)
    ensures DecisionPredicate(c, v).Ok? <==>
      SDecision(v) && PySetCheck(c, Elements(Field(v, "considered"))).Ok? && ClaimEvidence(c, Field(v, "rationale")).Ok?
  {
    hide InDomain, Lawful, StringClaim, SClaim, SAuthored, ClaimEvidence, HasExactly, DecisionPolicy, SPolicy, DescriptorOfKind, SStatementDescriptor,
      SetCheck, PySetCheck, AllDiffer, IsTimestamp, TimestampText, Field;
    RecordExactly(v, ["policy", "considered", "outcome", "rationale", "decidedAt"]);
    PolicyExactly(Field(v, "policy"));
    FieldStaysInDomain(c, v, "considered");
    FieldStaysInDomain(c, v, "rationale");
    ConsideredExactlyBySchema(c, Field(v, "considered"));
    ClaimExactly(c, Field(v, "rationale"));
    TimestampExactly(Content(Field(v, "decidedAt")));
  }

  lemma EachDescriptor(c: NumberCodec, values: seq<Value>)
    ensures Each(values, d => ParseDescriptor(c, d)).Ok? <==> forall x <- values :: SObjectDescriptor(x)
  {
    hide ParseDescriptor, SObjectDescriptor;
    EachPasses(values, d => ParseDescriptor(c, d));
    forall x | x in values ensures ParseDescriptor(c, x).Ok? <==> SObjectDescriptor(x) {
      DescriptorExactly(c, x);
    }
    if forall i | 0 <= i < |values| :: ParseDescriptor(c, values[i]).Ok? {
      forall x | x in values ensures ParseDescriptor(c, x).Ok? {
        var i :| 0 <= i < |values| && values[i] == x;
      }
    }
  }

  lemma SubjectsExactly(c: NumberCodec, v: Value)
    requires Lawful(c) && InDomain(c, v)
    ensures SubjectsShape(c, v).Ok? <==>
      && Field(v, "subjects").Arr? && |SubjectsOf(v)| >= 1 && (forall x <- SubjectsOf(v) :: SObjectDescriptor(x))
      && AllDiffer(SubjectsOf(v)) && PySetCheck(c, SubjectsOf(v)).Ok?
  {
    hide InDomain, Lawful, ParseDescriptor, SObjectDescriptor, AdjacentAscending, Field;
    FieldStaysInDomain(c, v, "subjects");
    EachDescriptor(c, SubjectsOf(v));
    SetsAgree(c, Field(v, "subjects"));
    if SetCheck(c, SubjectsOf(v)).Ok? {
      OrderedDiffer(c, Field(v, "subjects"));
    }
  }

  /** One subject of a kind. */
  lemma OneSubjectExactly(c: NumberCodec, v: Value)
    requires forall x <- SubjectsOf(v) :: SObjectDescriptor(x)
    ensures OneSubject(v, "effect").Ok? <==> |SubjectsOf(v)| == 1 && SEffectDescriptor(SubjectsOf(v)[0])
    ensures OneSubject(v, "statement").Ok? <==> |SubjectsOf(v)| == 1 && SStatementDescriptor(SubjectsOf(v)[0])
  {
    hide SObjectDescriptor, SEffectDescriptor, SStatementDescriptor, ParseDescriptor;
    if |SubjectsOf(v)| == 1 {
      var x := SubjectsOf(v)[0];
      assert x in SubjectsOf(v);
      DescriptorExactly(c, x);
    }
  }

  lemma OneDiffers(items: seq<Value>)
    requires |items| == 1
    ensures AllDiffer(items)
  {}

  lemma OneOfAKind(x: Value)
    ensures SEffectDescriptor(x) || SStatementDescriptor(x) ==> SObjectDescriptor(x)
  {}

  /** The predicate, by its type. */
  lemma PredicateExactly(c: NumberCodec, v: Value)
    requires Lawful(c) && InDomain(c, v) && forall x <- SubjectsOf(v) :: SObjectDescriptor(x)
    ensures StatementPredicate(c, v).Ok? <==>
      var t, p := Field(v, "predicateType"), Field(v, "predicate");
      if IsConst(t, "t3x.proposal/v1") then
        |SubjectsOf(v)| == 1 && SEffectDescriptor(SubjectsOf(v)[0]) && SProposal(p)
        && ClaimEvidence(c, Field(p, "intent")).Ok? && ClaimEvidence(c, Field(p, "rationale")).Ok?
      else if IsConst(t, "t3x.decision/v1") then
        |SubjectsOf(v)| == 1 && SStatementDescriptor(SubjectsOf(v)[0]) && SDecision(p)
        && PySetCheck(c, Elements(Field(p, "considered"))).Ok? && ClaimEvidence(c, Field(p, "rationale")).Ok?
      else SIdentifier(t)
  {
    hide InDomain, Lawful, Identifier, SIdentifier, OneSubject, ProposalPredicate, DecisionPredicate, SProposal, SDecision, SEffectDescriptor,
      SStatementDescriptor, SObjectDescriptor, ClaimEvidence, PySetCheck, Field, SubjectsOf;
    var t, p := Field(v, "predicateType"), Field(v, "predicate");
    IdentifierExactly(t);
    TypesAreIdentifiers();
    OneSubjectExactly(c, v);
    FieldStaysInDomain(c, v, "predicate");
    ProposalExactly(c, p);
    DecisionExactly(c, p);
    SchemasDistinct();
  }

  lemma TypesAreIdentifiers()
    ensures SIdentifier(Str(Ascii("t3x.proposal/v1"))) && SIdentifier(Str(Ascii("t3x.decision/v1")))
  {
    ShortIdentifier("t3x.proposal/v1");
    ShortIdentifier("t3x.decision/v1");
  }

  lemma ShortIdentifier(s: string)
    requires 0 < |s| <= 256 && IdentifierText(Ascii(s))
    ensures SIdentifier(Str(Ascii(s)))
  {
    FewCodePoints(Ascii(s));
    FirstCodePoint(Ascii(s));
  }

  lemma {:induction false} FewCodePoints(s: Text)
    ensures |CodePoints(s)| <= |s|
  {
    if s != [] {
      FewCodePoints(s[if StartsWithPair(s) then 2 else 1..]);
    }
  }

  lemma StatementExactly(c: NumberCodec, v: Value)
    requires Lawful(c)
    ensures ParseStatement(c, v).Ok? <==> InDomain(c, v) && SStatement(v) && StatementSets(c, v).Ok?
  {
    hide InDomain, Lawful, StatementPredicate, SubjectsShape, ActorRef, SActor, SProposal, SDecision, SEffectDescriptor, SStatementDescriptor, SObjectDescriptor,
      SIdentifier, ClaimEvidence, PySetCheck, AllDiffer, HasExactly, Field;
    RecordExactly(v, ["schema", "subjects", "actor", "predicateType", "predicate"]);
    ActorExactly(Field(v, "actor"));
    if InDomain(c, v) {
      SubjectsExactly(c, v);
      SubjectsByType(c, v);
      if forall x <- SubjectsOf(v) :: SObjectDescriptor(x) {
        PredicateExactly(c, v);
      }
      SchemasDistinct();
    }
  }

  /** A single subject of a kind is a list of different descriptors. */
  lemma SubjectsByType(c: NumberCodec, v: Value)
    ensures |SubjectsOf(v)| == 1 && (SEffectDescriptor(SubjectsOf(v)[0]) || SStatementDescriptor(SubjectsOf(v)[0])) ==>
      (forall x <- SubjectsOf(v) :: SObjectDescriptor(x)) && AllDiffer(SubjectsOf(v))
  {
    hide SEffectDescriptor, SStatementDescriptor, SObjectDescriptor, AllDiffer;
    if |SubjectsOf(v)| == 1 {
      OneDiffers(SubjectsOf(v));
      OneOfAKind(SubjectsOf(v)[0]);
    }
  }

  // ---------------------------------------------------------------- the objects

  lemma SchemaTells(v: Value)
    ensures SState(v) ==> IsState(v)
    ensures SEffect(v) ==> IsEffect(v)
    ensures SStatement(v) ==> IsStatement(v)
    ensures SCommit(v) ==> IsCommit(v)
  {}

  /** An object parses exactly when it is in the domain, satisfies the published schema and
      has its sets and roles in order. */
  lemma ObjectExactly(c: NumberCodec, v: Value)
    requires Lawful(c)
    ensures ParseObject(c, v).Ok? <==> InDomain(c, v) && SObject(v) && Collections(c, v).Ok?
  {
    hide InDomain, Lawful, ParseObject, ParseState, ParseEffect, ParseStatement, ParseCommit, SState, SEffect, SStatement, SCommit, StatementSets, RolesCheck;
    ParseObjectIsOneOfFour(c, v);
    ParsedSchemas(c, v);
    SchemasDistinct();
    SchemaTells(v);
    StateExactly(c, v);
    EffectExactlyBySchema(c, v);
    StatementExactly(c, v);
    CommitExactlyBySchema(c, v);
  }

  // ---------------------------------------------------------------- failures

  /** The check passes, or fails for want of order. */
  predicate Unordered(check: Check) { check.Ok? || check == Err(NON_CANONICAL_VALUE) }

  lemma {:induction false} InputsUnordered(c: NumberCodec, inputs: seq<Value>, previous: Option<Text>)
    requires forall i | 0 <= i < |inputs| :: InputShape(c, inputs[i]).Ok?
    ensures Unordered(InputsFrom(c, inputs, previous))
    decreases |inputs|
  {
    hide InputShape;
    if inputs != [] {
      assert forall i | 0 <= i < |inputs[1..]| :: inputs[1..][i] == inputs[i + 1];
      InputsUnordered(c, inputs[1..], Some(RoleOf(inputs[0])));
    }
  }

  lemma EffectUnordered(c: NumberCodec, v: Value)
    requires InDomain(c, v) && SEffect(v)
    ensures Unordered(ParseEffect(c, v))
  {
    hide InDomain, HasExactly, DescriptorOfKind, SStateDescriptor, DriverRef, SDriver, InputShape, SInput, InputsFrom, DefinitionOf, Field;
    RecordExactly(v, ["schema", "base", "driver", "operations", "inputs", "result"]);
    DescriptorExactly(c, Field(v, "base"));
    DescriptorExactly(c, Field(v, "result"));
    DefinitionFields(v);
    DefinitionShape(v);
    DefinitionStaysInDomain(c, v);
    DriverExactly(Field(v, "driver"));
    var inputs := InputsOf(v);
    forall i | 0 <= i < |inputs| ensures InputShape(c, inputs[i]).Ok? {
      assert inputs[i] in Field(v, "inputs").items;
      InputExactly(c, inputs[i]);
    }
    InputsUnordered(c, inputs, None);
  }

  lemma EvidenceUnordered(c: NumberCodec, v: Value, requireMember: bool)
    requires SEvidenceList(v) && (requireMember ==> |v.items| >= 1)
    ensures Unordered(EvidenceSet(c, v, requireMember))
  {
    hide EvidenceRef, SEvidence, AdjacentAscending;
    EachIs(Elements(v));
  }

  lemma ClaimUnordered(c: NumberCodec, v: Value)
    requires SClaim(v)
    ensures Unordered(StringClaim(c, v))
  {
    hide EvidenceSet, SEvidenceList, IsConst, EvidenceRef;
    var mode := Field(v, "mode");
    ClaimRecords(v);
    ModesApart(mode);
    ModeConsts(mode);
    FirstCodePoint(Content(Field(v, "value")));
    if !IsConst(mode, "unspecified") {
      EvidenceUnordered(c, Field(v, "evidence"), IsConst(mode, "stated"));
    }
  }

  lemma ProposalUnordered(c: NumberCodec, v: Value)
    requires SProposal(v)
    ensures Unordered(ProposalPredicate(c, v))
  {
    hide StringClaim, SClaim, HasExactly;
    RecordExactly(v, ["intent", "rationale"]);
    ClaimUnordered(c, Field(v, "intent"));
    ClaimUnordered(c, Field(v, "rationale"));
  }

  lemma DecisionUnordered(c: NumberCodec, v: Value)
    requires Lawful(c) && InDomain(c, v) && SDecision(v)
    ensures Unordered(DecisionPredicate(c, v))
  {
    hide InDomain, Lawful, StringClaim, SClaim, SAuthored, HasExactly, DecisionPolicy, SPolicy, DescriptorOfKind, SStatementDescriptor, AdjacentAscending,
      AllDiffer, IsTimestamp, TimestampText, Field;
    RecordExactly(v, ["policy", "considered", "outcome", "rationale", "decidedAt"]);
    PolicyExactly(Field(v, "policy"));
    EachOfKind(c, Elements(Field(v, "considered")), "statement");
    FieldStaysInDomain(c, v, "rationale");
    ClaimUnordered(c, Field(v, "rationale"));
    ClaimExactly(c, Field(v, "rationale"));
    TimestampExactly(Content(Field(v, "decidedAt")));
  }

  lemma PredicateUnordered(c: NumberCodec, v: Value)
    requires Lawful(c) && InDomain(c, v) && SStatement(v) && forall x <- SubjectsOf(v) :: SObjectDescriptor(x)
    ensures Unordered(StatementPredicate(c, v))
  {
    hide InDomain, Lawful, Identifier, SIdentifier, OneSubject, ProposalPredicate, DecisionPredicate, SProposal, SDecision, SEffectDescriptor,
      SStatementDescriptor, SObjectDescriptor, Field, HasExactly, SActor;
    var t, p := Field(v, "predicateType"), Field(v, "predicate");
    IdentifierExactly(t);
    TypesAreIdentifiers();
    OneSubjectExactly(c, v);
    FieldStaysInDomain(c, v, "predicate");
    if SProposal(p) {
      ProposalUnordered(c, p);
    }
    if SDecision(p) {
      DecisionUnordered(c, p);
    }
    SchemasDistinct();
  }

  lemma StatementUnordered(c: NumberCodec, v: Value)
    requires Lawful(c) && InDomain(c, v) && SStatement(v)
    ensures Unordered(ParseStatement(c, v))
  {
    hide InDomain, Lawful, StatementPredicate, ActorRef, SActor, SProposal, SDecision, SEffectDescriptor, SStatementDescriptor, SObjectDescriptor,
      SIdentifier, AllDiffer, HasExactly, Field, AdjacentAscending, ParseDescriptor;
    RecordExactly(v, ["schema", "subjects", "actor", "predicateType", "predicate"]);
    ActorExactly(Field(v, "actor"));
    SubjectsByType(c, v);
    EachDescriptor(c, SubjectsOf(v));
    PredicateUnordered(c, v);
  }

  /** What is outside the domain, and what satisfies the schema and is only out of order,
      is called not canonical; it is never called invalid. */
  lemma ObjectFailures(c: NumberCodec, v: Value)
    requires Lawful(c)
    ensures !InDomain(c, v) ==> ParseObject(c, v) == Err(NON_CANONICAL_VALUE)
    ensures InDomain(c, v) && SObject(v) ==> ParseObject(c, v).Ok? || ParseObject(c, v) == Err(NON_CANONICAL_VALUE)
    ensures InDomain(c, v) && !IsState(v) && !IsEffect(v) && !IsStatement(v) && !IsCommit(v) ==> ParseObject(c, v) == Err(SCHEMA_INVALID)
  {
    hide InDomain, Lawful, ParseState, ParseEffect, ParseStatement, ParseCommit, SState, SEffect, SStatement, SCommit;
    SchemasDistinct();
    SchemaTells(v);
    if InDomain(c, v) {
      StateExactly(c, v);
      CommitExactlyBySchema(c, v);
      if SEffect(v) {
        EffectUnordered(c, v);
      }
      if SStatement(v) {
        StatementUnordered(c, v);
      }
      if SObject(v) {
        SchemaFields(v);
      }
    }
  }

  lemma SchemaFields(v: Value)
    requires SObject(v)
    ensures ClosedRecord(v, ["schema"], ALL_FIELDS).Ok?
  {
    hide SCodec, SStateDescriptor, SDriver, SInput, SActor, SEffectDescriptor, SStatementDescriptor, SProposal, SDecision, SObjectDescriptor, SIdentifier,
      SCommitDescriptor, AllDiffer, IsConst;
    if SState(v) {
      MoreAllowed(v, ["schema", "codec", "value"]);
    } else if SEffect(v) {
      MoreAllowed(v, ["schema", "base", "driver", "operations", "inputs", "result"]);
    } else if SStatement(v) {
      MoreAllowed(v, ["schema", "subjects", "actor", "predicateType", "predicate"]);
    } else {
      MoreAllowed(v, ["schema", "parents", "decision", "result"]);
    }
  }

  // ---------------------------------------------------------------- the two verifiers

  /** The Python kernel is built with this schema. */
  ghost predicate WithSchema(py: PythonKernel) { forall v: Value :: py.schema(v) <==> SObject(v) }

  /** With it the parsers agree on an object exactly unless the object satisfies schema and
      collection checks outside the domain. */
  lemma SchemaAgreesExactly(py: PythonKernel, v: Value)
    requires Lawful(py.k.c) && WithSchema(py)
    ensures AgreesOn(py, v) <==> InDomain(py.k.c, v) || !SObject(v) || Collections(py.k.c, v).Err?
  {
    hide ParseObject, SObject, Collections, InDomain, Lawful;
    ObjectExactly(py.k.c, v);
    assert py.schema(v) <==> SObject(v);
    if SObject(v) {
      IsRecord(v);
    }
  }

  lemma IsRecord(v: Value)
    requires SObject(v)
    ensures v.Obj?
  {}

  /** On whatever is stored they agree. */
  lemma SchemaAgreesOnStored(py: PythonKernel, get: Getter)
    requires Lawful(py.k.c) && WithSchema(py)
    ensures AgreesOnStored(py, get)
  {
    hide AgreesOn, InDomain, Lawful, ParseBytes;
    forall d: Descriptor | get(d).Some? && ParseBytes(py.k.c, get(d).value).Got?
      ensures AgreesOn(py, ParseBytes(py.k.c, get(d).value).value)
    {
      ParsedBytesInDomain(py.k.c, get(d).value);
      SchemaAgreesExactly(py, ParseBytes(py.k.c, get(d).value).value);
    }
  }

  /** With the published schema the two verifiers agree on every store, every commit and
      every Effect in the domain, but for the Effect inputs that only one resolves. */
  lemma VerifiersAgreeWithSchema(py: PythonKernel, get: Getter, drivers: Drivers, commit: Value, x: Verified, effect: Value, state: Value)
    requires Lawful(py.k.c) && WithSchema(py) && KeyedByName(drivers)
    requires InDomain(py.k.c, commit) && InDomain(py.k.c, effect)
    ensures CommitIntegrity(py.k, get, commit) == Ok(x) <==>
      PyCommitIntegrity(py, get, commit) == Ok(x) && AllInputsResolve(py.k, get, x.effect)
    ensures EffectResult(py.k, get, drivers, effect) == Ok(state) <==> PyEffectResult(py, get, drivers, effect) == Ok(state)
  {
    hide AgreesOn, InDomain, Lawful, CommitIntegrity, PyCommitIntegrity, EffectResult, PyEffectResult, AgreesOnStored;
    SchemaAgreesOnStored(py, get);
    SchemaAgreesExactly(py, commit);
    SchemaAgreesExactly(py, effect);
    SchemaAgreesExactly(py, state);
    CommitVerifiersAgree(py, get, commit, x);
    EffectVerifiersAgree(py, get, drivers, effect, state);
  }
}
