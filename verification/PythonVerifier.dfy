/** The independent verifier written in Python, and its agreement with the TypeScript one. */
module PythonVerifier {
  import opened Text
  import opened Values
  import opened Grammar
  import opened JsonReader
  import opened Utf8
  import opened ProtocolBytes
  import opened Canonical
  import opened Protocol
  import opened Resolver
  import opened Integrity
  import opened Replay

  /** `schema` is the JSON Schema validator the kernel is built with; `number` is `str` of a float. */
  datatype PythonKernel = PythonKernel(k: Kernel, schema: Value -> bool, number: real -> Text)

  // ---------------------------------------------------------------- roles: sort and compare

  /** `value.encode("utf-16-be")` */
  function Utf16(s: Text): seq<int> {
    if s == [] then [] else [s[0] / 0x100, s[0] % 0x100] + Utf16(s[1..])
  }

  lemma {:induction false} Utf16KeepsOrder(a: Text, b: Text)
    ensures Lex(Utf16(a), Utf16(b)) == Lex(a, b)
  {
    if a != [] && b != [] {
      var x, y := Utf16(a[1..]), Utf16(b[1..]);
      assert [a[0] / 0x100, a[0] % 0x100] + x == [a[0] / 0x100] + ([a[0] % 0x100] + x);
      assert [b[0] / 0x100, b[0] % 0x100] + y == [b[0] / 0x100] + ([b[0] % 0x100] + y);
      LexHead(a[0] / 0x100, [a[0] % 0x100] + x, b[0] / 0x100, [b[0] % 0x100] + y);
      LexHead(a[0] % 0x100, x, b[0] % 0x100, y);
      Utf16KeepsOrder(a[1..], b[1..]);
    }
  }

  predicate NotAfter(a: Text, b: Text) { Lex(Utf16(a), Utf16(b)) <= 0 }

  function Insert(x: Text, sorted: seq<Text>): (r: seq<Text>)
    ensures |r| == |sorted| + 1
  {
    if sorted == [] || NotAfter(x, sorted[0]) then [x] + sorted else [sorted[0]] + Insert(x, sorted[1..])
  }

  /** `sorted(roles, key=_utf16_key)`: the stable ascending arrangement. */
  function Sorted(roles: seq<Text>): (r: seq<Text>)
    ensures |r| == |roles|
  {
    if roles == [] then [] else Insert(roles[0], Sorted(roles[1..]))
  }

  predicate InOrder(roles: seq<Text>) { forall i | 0 < i < |roles| :: NotAfter(roles[i - 1], roles[i]) }

  lemma InOrderHead(x: Text, rest: seq<Text>)
    ensures InOrder([x] + rest) <==> InOrder(rest) && (rest != [] ==> NotAfter(x, rest[0]))
  {
    var all := [x] + rest;
    assert forall i | 0 <= i < |rest| :: all[i + 1] == rest[i];
    if InOrder(all) {
      forall i | 0 < i < |rest| ensures NotAfter(rest[i - 1], rest[i]) {
        assert NotAfter(all[i], all[i + 1]);
      }
      assert rest != [] ==> NotAfter(all[0], all[1]);
    }
    if InOrder(rest) && (rest != [] ==> NotAfter(x, rest[0])) {
      forall i | 0 < i < |all| ensures NotAfter(all[i - 1], all[i]) {
        if i > 1 {
          assert NotAfter(rest[i - 2], rest[i - 1]);
        }
      }
    }
  }

  lemma {:induction false} InsertInOrder(x: Text, sorted: seq<Text>)
    requires InOrder(sorted)
    ensures InOrder(Insert(x, sorted))
  {
    if sorted == [] {
    } else if NotAfter(x, sorted[0]) {
      InOrderHead(x, sorted);
    } else {
      var rest := sorted[1..];
      assert sorted == [sorted[0]] + rest;
      InOrderHead(sorted[0], rest);
      InsertInOrder(x, rest);
      LexAntisymmetric(Utf16(x), Utf16(sorted[0]));
      InOrderHead(sorted[0], Insert(x, rest));
    }
  }

  lemma {:induction false} SortedInOrder(roles: seq<Text>)
    ensures InOrder(Sorted(roles))
  {
    if roles != [] {
      SortedInOrder(roles[1..]);
      InsertInOrder(roles[0], Sorted(roles[1..]));
    }
  }

  /** Sorting changes nothing exactly where the list is already in order. */
  lemma {:induction false} SortedIsSame(roles: seq<Text>)
    ensures roles == Sorted(roles) <==> InOrder(roles)
  {
    SortedInOrder(roles);
    if roles != [] && InOrder(roles) {
      assert roles == [roles[0]] + roles[1..];
      InOrderHead(roles[0], roles[1..]);
      SortedIsSame(roles[1..]);
    }
  }

  function Members(roles: seq<Text>): set<Text> { set r <- roles :: r }

  /** `roles != sorted(roles, …) or len(roles) != len(set(roles))`, negated. */
  predicate RolesOk(roles: seq<Text>) { roles == Sorted(roles) && |roles| == |Members(roles)| }

  lemma MembersHead(x: Text, rest: seq<Text>)
    ensures Members([x] + rest) == {x} + Members(rest)
    ensures |Members([x] + rest)| == |Members(rest)| + if x in rest then 0 else 1
  {
    forall r: Text ensures r in Members([x] + rest) <==> r in {x} + Members(rest) {
      assert r in [x] + rest <==> r == x || r in rest;
    }
    assert Members([x] + rest) == {x} + Members(rest);
    if x in rest {
      assert {x} + Members(rest) == Members(rest);
    }
  }

  lemma DistinctHead(x: Text, rest: seq<Text>)
    ensures Distinct([x] + rest) <==> x !in rest && Distinct(rest)
  {
    var all := [x] + rest;
    assert forall i | 0 <= i < |rest| :: all[i + 1] == rest[i];
    if Distinct(all) {
      forall i, j | 0 <= i < j < |rest| ensures rest[i] != rest[j] {
        assert all[i + 1] != all[j + 1];
      }
      forall i | 0 <= i < |rest| ensures rest[i] != x {
        assert all[0] != all[i + 1];
      }
    }
  }

  lemma {:induction false} NoDuplicates(roles: seq<Text>)
    ensures |roles| == |Members(roles)| <==> Distinct(roles)
    ensures |Members(roles)| <= |roles|
  {
    if roles != [] {
      var rest := roles[1..];
      assert roles == [roles[0]] + rest;
      NoDuplicates(rest);
      MembersHead(roles[0], rest);
      DistinctHead(roles[0], rest);
    }
  }

  lemma {:induction false} InOrderReaches(roles: seq<Text>, i: nat, j: nat)
    requires InOrder(roles) && i < j < |roles|
    ensures NotAfter(roles[i], roles[j])
    decreases j
  {
    if i + 1 < j {
      InOrderReaches(roles, i, j - 1);
      LexTransitive(Utf16(roles[i]), Utf16(roles[j - 1]), Utf16(roles[j]));
    }
  }

  /** The sort-and-compare check accepts exactly the strictly ascending lists, which is
      what the adjacent check of the TypeScript parser accepts. Roles with an unpaired
      surrogate, which have no UTF-16 bytes, are turned away before it (`RolesCheck`). */
  lemma SortAndCompareIsAscending(roles: seq<Text>)
    ensures RolesOk(roles) <==> StrictlySorted(ByCodeUnit, roles)
  {
    SortedIsSame(roles);
    NoDuplicates(roles);
    forall i, j | 0 <= i < j < |roles|
      ensures RolesOk(roles) ==> Before(ByCodeUnit, roles[i], roles[j])
    {
      Utf16KeepsOrder(roles[i], roles[j]);
      LexZero(roles[i], roles[j]);
      if RolesOk(roles) {
        InOrderReaches(roles, i, j);
      }
    }
    if StrictlySorted(ByCodeUnit, roles) {
      forall i, j | 0 <= i < j < |roles| ensures roles[i] != roles[j] && NotAfter(roles[i], roles[j]) {
        assert Before(ByCodeUnit, roles[i], roles[j]);
        Utf16KeepsOrder(roles[i], roles[j]);
        LexZero(roles[i], roles[j]);
      }
    }
  }

  // ---------------------------------------------------------------- validation

  /** `_strict_canonical_set`: every member is encoded before any two are compared. */
  function PySetCheck(c: NumberCodec, values: seq<Value>): Check {
    Need((forall v <- values :: InDomain(c, v)) && AdjacentAscending(c, values), NON_CANONICAL_VALUE)
  }

  function ClaimEvidence(c: NumberCodec, claim: Value): Check {
    if claim.Obj? && Ascii("evidence") in claim.m then PySetCheck(c, Elements(Field(claim, "evidence"))) else Ok(())
  }

  /** `encode("utf-16-be")` raises on an unpaired surrogate. */
  function RolesCheck(roles: seq<Text>): Check {
    var _ :- Need(forall role <- roles :: WellFormed(role), UNCAUGHT);
    Need(RolesOk(roles), NON_CANONICAL_VALUE)
  }

  function StatementSets(c: NumberCodec, v: Value): Check {
    var _ :- PySetCheck(c, SubjectsOf(v));
    var predicateType := Field(v, "predicateType");
    var p := PredicateOf(v);
    if predicateType == Str(PROPOSAL) then
      var _ :- ClaimEvidence(c, Field(p, "intent"));
      ClaimEvidence(c, Field(p, "rationale"))
    else if predicateType == Str(DECISION) then
      var _ :- PySetCheck(c, ConsideredOf(v));
      ClaimEvidence(c, Field(p, "rationale"))
    else Ok(())
  }

  /** `_validate_collections` */
  function Collections(c: NumberCodec, v: Value): Check {
    if IsEffect(v) then RolesCheck(Roles(InputsOf(v)))
    else if IsStatement(v) then StatementSets(c, v)
    else Ok(())
  }

  /** `validate_object` */
  function Validate(py: PythonKernel, v: Value): Check {
    var _ :- Need(py.schema(v) && v.Obj?, SCHEMA_INVALID);
    Collections(py.k.c, v)
  }

  /** The two parsers agree on this object. */
  predicate AgreesOn(py: PythonKernel, v: Value) { Validate(py, v).Ok? <==> ParseObject(py.k.c, v).Ok? }

  /** They agree on every value that stored bytes parse to. */
  ghost predicate AgreesOnStored(py: PythonKernel, get: Getter) {
    forall d: Descriptor | get(d).Some? && ParseBytes(py.k.c, get(d).value).Got? ::
      AgreesOn(py, ParseBytes(py.k.c, get(d).value).value)
  }

  lemma FieldStaysInDomain(c: NumberCodec, v: Value, name: string)
    requires InDomain(c, v)
    ensures InDomain(c, Field(v, name))
  {}

  lemma ElementsStayInDomain(c: NumberCodec, v: Value)
    requires InDomain(c, v)
    ensures forall x <- Elements(v) :: InDomain(c, x)
  {}

  lemma SetsAgree(c: NumberCodec, values: Value)
    requires InDomain(c, values)
    ensures PySetCheck(c, Elements(values)) == SetCheck(c, Elements(values))
  {
    hide InDomain;
    ElementsStayInDomain(c, values);
  }

  lemma ClaimsOk(c: NumberCodec, claim: Value)
    requires StringClaim(c, claim).Ok? && InDomain(c, claim)
    ensures ClaimEvidence(c, claim).Ok?
  {
    hide InDomain;
    assert |Ascii("mode")| == 4 && |Ascii("evidence")| == 8;
    FieldStaysInDomain(c, claim, "evidence");
    SetsAgree(c, Field(claim, "evidence"));
  }

  lemma EffectCollections(c: NumberCodec, v: Value)
    requires ParseEffect(c, v).Ok? && InDomain(c, v)
    ensures Collections(c, v).Ok?
  {
    hide ParseEffect, InDomain, RolesOk;
    SchemasDistinct();
    ParsedSchemas(c, v);
    ParsedEffectRoles(c, v);
    SortAndCompareIsAscending(Roles(InputsOf(v)));
    RolesAreWellFormed(c, v);
  }

  lemma RolesAreWellFormed(c: NumberCodec, v: Value)
    requires InDomain(c, v)
    ensures forall role <- Roles(InputsOf(v)) :: WellFormed(role)
  {
    hide InDomain;
    FieldStaysInDomain(c, v, "inputs");
    ElementsStayInDomain(c, Field(v, "inputs"));
    forall i | 0 <= i < |InputsOf(v)| ensures WellFormed(RoleOf(InputsOf(v)[i])) {
      assert InputsOf(v)[i] in InputsOf(v);
      FieldStaysInDomain(c, InputsOf(v)[i], "role");
      ContentIsPaired(c, Field(InputsOf(v)[i], "role"));
    }
  }

  lemma ContentIsPaired(c: NumberCodec, v: Value)
    requires InDomain(c, v)
    ensures WellFormed(Content(v))
  {}

  lemma ParsedEffectRoles(c: NumberCodec, v: Value)
    requires ParseEffect(c, v).Ok?
    ensures StrictlySorted(ByCodeUnit, Roles(InputsOf(v)))
  {
    EffectInputsDiffer(c, v);
    DefinitionInputs(c, DefinitionOf(v));
    InputsAscend(c, InputsOf(v), None);
  }

  lemma SubjectsAscend(c: NumberCodec, v: Value)
    requires ParseStatement(c, v).Ok?
    ensures SetCheck(c, SubjectsOf(v)).Ok? && IsStatement(v)
  {}

  lemma StatementCollections(c: NumberCodec, v: Value)
    requires InDomain(c, v) && StatementPredicate(c, v).Ok? && SetCheck(c, SubjectsOf(v)).Ok?
    ensures StatementSets(c, v).Ok?
  {
    hide InDomain, StringClaim, AdjacentAscending, ClaimEvidence, DecisionPredicate;
    SchemasDistinct();
    FieldStaysInDomain(c, v, "subjects");
    SetsAgree(c, Field(v, "subjects"));
    FieldStaysInDomain(c, v, "predicate");
    var p := PredicateOf(v);
    FieldStaysInDomain(c, p, "intent");
    FieldStaysInDomain(c, p, "rationale");
    FieldStaysInDomain(c, p, "considered");
    if Field(v, "predicateType") == Str(PROPOSAL) {
      ClaimsOk(c, Field(p, "intent"));
      ClaimsOk(c, Field(p, "rationale"));
    } else if Field(v, "predicateType") == Str(DECISION) {
      DecisionBranch(c, v);
      DecisionSets(c, p);
      SetsAgree(c, Field(p, "considered"));
      ClaimsOk(c, Field(p, "rationale"));
    }
  }

  lemma DecisionSets(c: NumberCodec, p: Value)
    requires DecisionPredicate(c, p).Ok?
    ensures SetCheck(c, Elements(Field(p, "considered"))).Ok? && StringClaim(c, Field(p, "rationale")).Ok?
  {}

  /** Whatever the TypeScript parser accepts passes Python's separate collection checks. */
  lemma CollectionsFollow(c: NumberCodec, v: Value)
    requires ParseObject(c, v).Ok?
    ensures Collections(c, v).Ok?
  {
    hide StatementSets, RolesCheck, ParseEffect, ParseState, ParseCommit;
    ParseObjectIsOneOfFour(c, v);
    SchemasDistinct();
    if ParseEffect(c, v).Ok? {
      ObjectFields(c, v);
      EffectCollections(c, v);
    } else if ParseStatement(c, v).Ok? {
      ObjectFields(c, v);
      SubjectsAscend(c, v);
      StatementHasPredicate(c, v);
      StatementCollections(c, v);
    } else {
      NeitherEffectNorStatement(c, v);
    }
  }

  lemma NeitherEffectNorStatement(c: NumberCodec, v: Value)
    requires !IsEffect(v) && !IsStatement(v)
    ensures Collections(c, v).Ok?
  {}

  // ---------------------------------------------------------------- descriptors

  predicate IsKnownSchema(schema: Text) { schema in [STATE_SCHEMA, EFFECT_SCHEMA, STATEMENT_SCHEMA, COMMIT_SCHEMA] }

  /** `SCHEMA_TO_KIND.get(schema)`: Null is Python's None; a list or a dict cannot be looked up. */
  function KindBySchema(schema: Value): Result<Value> {
    match schema
    case Str(s) => Ok(if IsKnownSchema(s) then Str(KindForSchema(s)) else Null)
    case Arr(_) => Err(UNCAUGHT)
    case Obj(_) => Err(UNCAUGHT)
    case _ => Ok(Null)
  }

  /** `parse_descriptor`: the kind need only be what the lookup gives. */
  function PyDescriptor(v: Value): Check {
    var _ :- Record(v, ["kind", "schema", "digest"]);
    var kind :- KindBySchema(Field(v, "schema"));
    var _ :- Need(kind == Field(v, "kind"), SCHEMA_INVALID);
    DigestValue(Field(v, "digest"))
  }

  lemma KnownKinds(kind: Text, schema: Value)
    ensures schema.Str? && ExpectedSchema(kind) == Some(schema.s) <==> KindBySchema(schema) == Ok(Str(kind))
  {
    if schema.Str? && IsKnownSchema(schema.s) {
      KnownSchema(schema.s);
    }
    if schema.Str? && ExpectedSchema(kind) == Some(schema.s) {
      KindsAndSchemas(kind, schema.s);
    }
  }

  /** Beside what the TypeScript parser accepts, Python accepts descriptors whose kind is
      null and whose schema is none of the four. */
  lemma DescriptorParsersDiffer(c: NumberCodec, v: Value)
    ensures ParseDescriptor(c, v).Ok? <==> PyDescriptor(v).Ok? && Field(v, "kind") != Null
    ensures PyDescriptor(v).Ok? && Field(v, "kind") == Null && Field(v, "schema").Str? ==> !IsKnownSchema(Field(v, "schema").s)
  {
    hide ExpectedSchema, KindBySchema;
    var kind, schema := Field(v, "kind"), Field(v, "schema");
    if kind.Str? {
      KnownKinds(kind.s, schema);
    }
    KindIsTextOrNull(schema);
    if PyDescriptor(v).Ok? && kind != Null {
      PlainDescriptorInDomain(c, v);
    }
  }

  lemma KindIsTextOrNull(schema: Value)
    ensures var kind := KindBySchema(schema); kind.Ok? ==> kind.value.Str? || kind.value == Null
    ensures KindBySchema(schema) == Ok(Null) && schema.Str? ==> !IsKnownSchema(schema.s)
  {}

  lemma DigestHasNoSurrogates(s: Text)
    requires IsDigest(s)
    ensures NoSurrogates(s)
  {
    assert s == s[..7] + s[7..];
  }

  lemma PlainDescriptorInDomain(c: NumberCodec, v: Value)
    requires Record(v, ["kind", "schema", "digest"]).Ok? && DigestValue(Field(v, "digest")).Ok?
    requires Field(v, "kind").Str? && Field(v, "schema").Str? && ExpectedSchema(Field(v, "kind").s) == Some(Field(v, "schema").s)
    ensures InDomain(c, v)
  {
    hide ExpectedSchema, InDomain;
    var d := DescriptorOf(v);
    OnlyDescriptorFields(v);
    FieldsOfDescriptor(d);
    DigestHasNoSurrogates(d.digest);
    DescriptorInDomain(c, d);
  }

  lemma OnlyDescriptorFields(v: Value)
    requires Record(v, ["kind", "schema", "digest"]).Ok?
    requires Field(v, "kind").Str? && Field(v, "schema").Str? && Field(v, "digest").Str?
    ensures v == DescriptorValue(DescriptorOf(v))
  {
    var w := DescriptorValue(DescriptorOf(v));
    FieldsOfDescriptor(DescriptorOf(v));
    forall key | key in v.m || key in w.m ensures key in v.m && key in w.m && v.m[key] == w.m[key] {
      assert key in Names(["kind", "schema", "digest"]);
      assert Field(v, "kind") == Field(w, "kind") && Field(v, "schema") == Field(w, "schema") && Field(v, "digest") == Field(w, "digest");
    }
    assert v.m == w.m;
  }

  /** A descriptor of no kind. */
  function NoKind(digest: Text): Value {
    Obj(map[Ascii("kind") := Null, Ascii("schema") := Str(Ascii("x")), Ascii("digest") := Str(digest)])
  }

  /** Python takes a descriptor that names no kind, and TypeScript does not. */
  lemma NoKindIsADescriptor(c: NumberCodec, digest: Text)
    requires IsDigest(digest)
    ensures PyDescriptor(NoKind(digest)).Ok? && ParseDescriptor(c, NoKind(digest)).Err?
  {
    var v := NoKind(digest);
    assert |Ascii("kind")| == 4 && |Ascii("schema")| == 6 && |Ascii("digest")| == 6 && |Ascii("x")| == 1;
    assert Ascii("schema")[0] == 's' as int && Ascii("digest")[0] == 'd' as int;
    assert Field(v, "kind") == Null && Field(v, "schema") == Str(Ascii("x")) && Field(v, "digest") == Str(digest);
    assert v.m.Keys == Names(["kind", "schema", "digest"]);
    assert |STATE_SCHEMA| == 12 && |EFFECT_SCHEMA| == 13 && |STATEMENT_SCHEMA| == 16 && |COMMIT_SCHEMA| == 13;
    DescriptorParsersDiffer(c, v);
  }

  /** `str` on what JSON parses to; a list or a dict never gets this far. */
  function PyText(py: PythonKernel, v: Value): Text {
    match v
    case Null => Ascii("None")
    case Bool(b) => Ascii(if b then "True" else "False")
    case Num(r) => py.number(r)
    case Str(s) => s
    case _ => []
  }

  /** The three texts that make a store key. */
  function PyDescriptorOf(py: PythonKernel, v: Value): Descriptor {
    Descriptor(PyText(py, Field(v, "kind")), PyText(py, Field(v, "schema")), PyText(py, Field(v, "digest")))
  }

  // ---------------------------------------------------------------- resolving

  function PyParseBytes(py: PythonKernel, bytes: Bytes): Result<Value> {
    match ParseBytes(py.k.c, bytes)
    case Failed(code) => Err(JsonCode(code))
    case Got(v, _) =>
      var _ :- Validate(py, v);
      Ok(v)
  }

  /** `digest_canonical_bytes` */
  function PyDigestBytes(py: PythonKernel, kind: Value, schema: Value, bytes: Bytes): Result<Text> {
    var known :- KindBySchema(schema);
    var _ :- Need(known == kind, UNSUPPORTED_MEDIA_TYPE);
    var prefix := DOMAIN + ZERO + PyText(py, kind) + ZERO + PyText(py, schema) + ZERO;
    var _ :- Need(WellFormed(prefix), UNCAUGHT);
    Ok(SHA256 + py.k.hash(Encode(prefix) + bytes))
  }

  /** `canonical_bytes` */
  function PyCanonicalBytes(py: PythonKernel, v: Value): Result<Bytes> {
    var _ :- Domain(py.k.c, v);
    Ok(CanonicalBytes(py.k.c, v))
  }

  /** `descriptor`; `SCHEMA_TO_KIND[schema]` raises on a schema that is none of the four. */
  function PyDescribe(py: PythonKernel, v: Value): Result<Descriptor> {
    var _ :- Validate(py, v);
    var schema := Field(v, "schema");
    var kind :- KindBySchema(schema);
    var _ :- Need(kind != Null, UNCAUGHT);
    var bytes :- PyCanonicalBytes(py, v);
    var digest :- PyDigestBytes(py, kind, schema, bytes);
    Ok(Descriptor(Content(kind), Content(schema), digest))
  }

  function PyIdentified(requested: Value, described: Result<Descriptor>, v: Value): Result<Value> {
    var actual :- described;
    var _ :- Need(Str(actual.kind) == Field(requested, "kind") && Str(actual.schema) == Field(requested, "schema"), UNSUPPORTED_MEDIA_TYPE);
    var _ :- Need(Str(actual.digest) == Field(requested, "digest"), OBJECT_DIGEST_MISMATCH);
    Ok(v)
  }

  function PyOpen(py: PythonKernel, requested: Value, bytes: Bytes): Result<Value> {
    var digest :- PyDigestBytes(py, Field(requested, "kind"), Field(requested, "schema"), bytes);
    var _ :- Need(Str(digest) == Field(requested, "digest"), OBJECT_DIGEST_MISMATCH);
    var v :- PyParseBytes(py, bytes);
    var same :- PyIdentified(requested, PyDescribe(py, v), v);
    var canonical :- PyCanonicalBytes(py, same);
    var _ :- Need(canonical == bytes, NON_CANONICAL_VALUE);
    Ok(same)
  }

  /** `Resolver.resolve` */
  function PyResolve(py: PythonKernel, get: Getter, requested: Value): Result<Value> {
    var _ :- PyDescriptor(requested);
    match get(PyDescriptorOf(py, requested))
    case None => Err(OBJECT_NOT_FOUND)
    case Some(bytes) => PyOpen(py, requested, bytes)
  }

  lemma DigestersAgree(py: PythonKernel, kind: Text, schema: Text, bytes: Bytes)
    requires ExpectedSchema(kind) == Some(schema)
    ensures PyDigestBytes(py, Str(kind), Str(schema), bytes) == DigestBytes(py.k, kind, schema, bytes)
    ensures DigestBytes(py.k, kind, schema, bytes).Ok?
  {
    hide ExpectedSchema, KindBySchema, WellFormed, Encode;
    KnownKinds(kind, Str(schema));
    PrefixIsPaired(kind, schema);
  }

  lemma PrefixIsPaired(kind: Text, schema: Text)
    requires ExpectedSchema(kind) == Some(schema)
    ensures WellFormed(DOMAIN + ZERO + kind + ZERO + schema + ZERO)
  {
    hide ExpectedSchema, IsAscii;
    KindIsAscii(kind);
    AsciiAround(DOMAIN, kind, schema);
    AsciiIsWellFormed(DOMAIN + ZERO + kind + ZERO + schema + ZERO);
  }

  lemma AsciiIsWellFormed(s: Text)
    requires IsAscii(s)
    ensures WellFormed(s)
  {
    WithoutSurrogatesIsWellFormed(s);
  }

  /** Where the parsers agree on an object, so do the two ways to describe it. */
  lemma DescribersAgree(py: PythonKernel, v: Value, d: Descriptor)
    requires InDomain(py.k.c, v) ==> AgreesOn(py, v)
    ensures PyDescribe(py, v) == Ok(d) <==> Describe(py.k, v) == Ok(d)
  {
    hide Validate, ParseObject, DigestBytes, PyDigestBytes, InDomain, ExpectedSchema, KindBySchema, CanonicalBytes;
    DescribeParsed(py.k, v);
    if ParseObject(py.k.c, v).Ok? {
      KnownKinds(KindForSchema(SchemaOf(v)), Field(v, "schema"));
      DigestersAgree(py, KindForSchema(SchemaOf(v)), SchemaOf(v), CanonicalBytes(py.k.c, v));
    }
  }

  lemma PyIdentifiedFacts(requested: Value, described: Result<Descriptor>, v: Value, w: Value)
    requires Field(requested, "kind").Str? && Field(requested, "schema").Str? && Field(requested, "digest").Str?
    ensures PyIdentified(requested, described, v) == Ok(w) <==> described == Ok(DescriptorOf(requested)) && v == w
  {}

  lemma ParsedFields(c: NumberCodec, requested: Value)
    requires ParseDescriptor(c, requested).Ok?
    ensures Field(requested, "kind").Str? && Field(requested, "schema").Str? && Field(requested, "digest").Str?
    ensures var d := DescriptorOf(requested);
      && Field(requested, "kind") == Str(d.kind) && Field(requested, "schema") == Str(d.schema) && Field(requested, "digest") == Str(d.digest)
      && ExpectedSchema(d.kind) == Some(d.schema)
  {}

  lemma PyOpened(py: PythonKernel, requested: Value, bytes: Bytes, v: Value)
    requires Lawful(py.k.c) && ParseDescriptor(py.k.c, requested).Ok?
    requires ParseBytes(py.k.c, bytes).Got? ==> AgreesOn(py, ParseBytes(py.k.c, bytes).value)
    requires PyOpen(py, requested, bytes) == Ok(v)
    ensures Describe(py.k, v) == Ok(DescriptorOf(requested)) && bytes == CanonicalBytes(py.k.c, v)
  {
    hide Validate, AgreesOn, ParseObject, Describe, PyDescribe, ParseDescriptor, PyDigestBytes, InDomain, ParseBytes;
    ParsedFields(py.k.c, requested);
    var w := PyParseBytes(py, bytes).value;
    PyIdentifiedFacts(requested, PyDescribe(py, w), w, v);
    DescribersAgree(py, v, DescriptorOf(requested));
  }

  lemma PyOpensCanonical(py: PythonKernel, requested: Value, v: Value)
    requires Lawful(py.k.c) && ParseDescriptor(py.k.c, requested).Ok? && AgreesOn(py, v)
    requires Describe(py.k, v) == Ok(DescriptorOf(requested))
    ensures PyOpen(py, requested, CanonicalBytes(py.k.c, v)) == Ok(v)
  {
    hide Validate, ParseObject, Describe, PyDescribe, ParseDescriptor, PyDigestBytes, DigestBytes, InDomain, ParseBytes, ExpectedSchema;
    var d, bytes := DescriptorOf(requested), CanonicalBytes(py.k.c, v);
    ParsedFields(py.k.c, requested);
    DescribeParsed(py.k, v);
    ParseOfCanonicalBytes(py.k.c, v);
    DigestersAgree(py, d.kind, d.schema, bytes);
    DigestOfDescribed(py.k, v, d);
    DescribersAgree(py, v, d);
    PyIdentifiedFacts(requested, PyDescribe(py, v), v, v);
  }

  lemma DigestOfDescribed(k: Kernel, v: Value, d: Descriptor)
    requires Describe(k, v) == Ok(d)
    ensures DigestBytes(k, d.kind, d.schema, CanonicalBytes(k.c, v)) == Ok(d.digest)
  {
    DescribeParsed(k, v);
  }

  lemma NullKindNeverOpens(py: PythonKernel, requested: Value, bytes: Bytes)
    requires Field(requested, "kind") == Null
    ensures PyOpen(py, requested, bytes).Err?
  {
    hide PyDescribe, PyDigestBytes, PyParseBytes, PyCanonicalBytes;
  }

  /** The two resolvers return the same objects from the same store, though the two
      descriptor parsers differ: what has no kind is no object. */
  lemma ResolversMatch(py: PythonKernel, get: Getter, requested: Value, v: Value)
    requires Lawful(py.k.c) && AgreesOnStored(py, get)
    ensures PyResolve(py, get, requested) == Ok(v) <==> Resolve(py.k, get, requested) == Ok(v)
  {
    hide PyOpen, Resolve, ParseDescriptor, PyDescriptor, Describe, AgreesOn, CanonicalBytes, ParseBytes;
    var d := DescriptorOf(requested);
    DescriptorParsersDiffer(py.k.c, requested);
    ResolveExactly(py.k, get, requested, v);
    if Field(requested, "kind") == Null {
      if get(PyDescriptorOf(py, requested)).Some? {
        NullKindNeverOpens(py, requested, get(PyDescriptorOf(py, requested)).value);
      }
    } else if ParseDescriptor(py.k.c, requested).Ok? {
      ParsedFields(py.k.c, requested);
      assert PyDescriptorOf(py, requested) == d;
      if get(d).Some? && PyOpen(py, requested, get(d).value) == Ok(v) {
        PyOpened(py, requested, get(d).value, v);
      }
      if Resolve(py.k, get, requested) == Ok(v) {
        DescribeParsed(py.k, v);
        ParseOfCanonicalBytes(py.k.c, v);
        PyOpensCanonical(py, requested, v);
      }
    }
  }

  // ---------------------------------------------------------------- the store

  /** A corpus entry: a descriptor and the text stored under it. */
  datatype Resource = Resource(descriptor: Value, text: Text)

  function KeyOf(py: PythonKernel, r: Resource): Text { DescriptorKey(PyDescriptorOf(py, r.descriptor)) }

  class Store {
    const py: PythonKernel
    var objects: map<Text, Bytes>

    constructor (py: PythonKernel)
      ensures this.py == py && objects == map[]
    {
      this.py := py;
      objects := map[];
    }

    /** The constructor's loop: every descriptor parses, every text encodes and no key
        comes twice. */
    method Load(resources: seq<Resource>) returns (r: Check)
      requires objects == map[]
      modifies this
      ensures r.Ok? <==> LoadsCleanly(py, resources)
      ensures r.Ok? ==> HoldsExactly(py, objects, resources)
    {
      hide KeyOf, PyDescriptor, WellFormed;
      var i := 0;
      while i < |resources|
        invariant 0 <= i <= |resources|
        invariant LoadsCleanly(py, resources[..i]) && HoldsExactly(py, objects, resources[..i])
      {
        var resource := resources[i];
        LoadOneMore(py, resources, i);
        HoldOneMore(py, objects, resources, i);
        var _ :- PyDescriptor(resource.descriptor);
        var _ :- Need(WellFormed(resource.text), UNCAUGHT);
        if KeyOf(py, resource) in objects {
          return Err(INTEGRITY_CHAIN_INVALID);
        }
        objects := objects[KeyOf(py, resource) := Encode(resource.text)];
        i := i + 1;
      }
      assert resources[..i] == resources;
      r := Ok(());
    }
  }

  /** Every text is stored under its key, and nothing else is stored. */
  predicate HoldsExactly(py: PythonKernel, objects: map<Text, Bytes>, resources: seq<Resource>) {
    && (forall i | 0 <= i < |resources| :: KeyOf(py, resources[i]) in objects && objects[KeyOf(py, resources[i])] == Encode(resources[i].text))
    && (forall key <- objects :: exists i | 0 <= i < |resources| :: KeyOf(py, resources[i]) == key)
  }

  lemma HoldOneMore(py: PythonKernel, objects: map<Text, Bytes>, resources: seq<Resource>, n: nat)
    requires n < |resources| && HoldsExactly(py, objects, resources[..n])
    ensures KeyOf(py, resources[n]) in objects <==> exists j | 0 <= j < n :: KeyOf(py, resources[j]) == KeyOf(py, resources[n])
    ensures KeyOf(py, resources[n]) !in objects ==>
      HoldsExactly(py, objects[KeyOf(py, resources[n]) := Encode(resources[n].text)], resources[..n + 1])
  {
    hide KeyOf;
    var front, all := resources[..n], resources[..n + 1];
    assert forall j | 0 <= j < n :: all[j] == front[j] && front[j] == resources[j];
    assert all[n] == resources[n];
    if KeyOf(py, resources[n]) !in objects {
      var more := objects[KeyOf(py, resources[n]) := Encode(resources[n].text)];
      forall key | key in more ensures exists i | 0 <= i < |all| :: KeyOf(py, all[i]) == key {
        if key == KeyOf(py, resources[n]) {
          assert KeyOf(py, all[n]) == key;
        } else {
          var i :| 0 <= i < n && KeyOf(py, front[i]) == key;
          assert KeyOf(py, all[i]) == key;
        }
      }
    }
  }

  predicate LoadsCleanly(py: PythonKernel, resources: seq<Resource>) {
    && (forall i | 0 <= i < |resources| :: PyDescriptor(resources[i].descriptor).Ok? && WellFormed(resources[i].text))
    && (forall i, j | 0 <= i < j < |resources| :: KeyOf(py, resources[i]) != KeyOf(py, resources[j]))
  }

  lemma LoadOneMore(py: PythonKernel, resources: seq<Resource>, n: nat)
    requires n < |resources| && LoadsCleanly(py, resources[..n])
    ensures LoadsCleanly(py, resources[..n + 1]) <==>
      PyDescriptor(resources[n].descriptor).Ok? && WellFormed(resources[n].text) && forall j | 0 <= j < n :: KeyOf(py, resources[j]) != KeyOf(py, resources[n])
    ensures LoadsCleanly(py, resources) ==> LoadsCleanly(py, resources[..n + 1])
  {
    hide PyDescriptor, KeyOf, WellFormed;
    var all, front := resources[..n + 1], resources[..n];
    assert forall j | 0 <= j < n :: all[j] == front[j] && front[j] == resources[j];
    assert all[n] == resources[n];
  }

  // ---------------------------------------------------------------- verifying a commit

  function PyDecisionStep(py: PythonKernel, get: Getter, commit: Value): Result<Value> {
    var decision :- PyResolve(py, get, Field(commit, "decision"));
    var _ :- Need(IsDecision(decision), INTEGRITY_CHAIN_INVALID);
    var _ :- Need(!IsRejected(decision), INTEGRITY_CHAIN_INVALID);
    Ok(decision)
  }

  function PyProposalStep(py: PythonKernel, get: Getter, decision: Value): Result<Value> {
    var proposal :- PyResolve(py, get, SubjectOf(decision));
    var _ :- Need(IsProposal(proposal), INTEGRITY_CHAIN_INVALID);
    Ok(proposal)
  }

  function PyEffectStep(py: PythonKernel, get: Getter, commit: Value, proposal: Value): Result<Value> {
    var effect :- PyResolve(py, get, SubjectOf(proposal));
    var _ :- Need(IsEffect(effect), INTEGRITY_CHAIN_INVALID);
    var _ :- Need(SameField(commit, effect, "result"), INTEGRITY_CHAIN_INVALID);
    Ok(effect)
  }

  function PyResolveAll(py: PythonKernel, get: Getter, requested: seq<Value>): Result<seq<Value>>
    decreases |requested|
  {
    if requested == [] then Ok([])
    else
      var first :- PyResolve(py, get, requested[0]);
      var rest :- PyResolveAll(py, get, requested[1..]);
      Ok([first] + rest)
  }

  function PyConsidered(py: PythonKernel, get: Getter, considered: seq<Value>): Check
    decreases |considered|
  {
    if considered == [] then Ok(())
    else
      var statement :- PyResolve(py, get, considered[0]);
      var _ :- PyResolveAll(py, get, SubjectsOf(statement));
      PyConsidered(py, get, considered[1..])
  }

  /** The steps after the Effect; the Effect's inputs are not resolved. */
  function PyReferences(py: PythonKernel, get: Getter, commit: Value, decision: Value, effect: Value): Result<seq<Value>> {
    var base :- PyResolve(py, get, Field(effect, "base"));
    var _ :- PyResolve(py, get, Field(commit, "result"));
    var _ :- PyConsidered(py, get, ConsideredOf(decision));
    var parents :- PyResolveAll(py, get, ParentsOf(commit));
    var _ :- Need(LinksHold(base, effect, parents), INTEGRITY_CHAIN_INVALID);
    Ok(parents)
  }

  /** `verify_commit` */
  function PyCommitIntegrity(py: PythonKernel, get: Getter, commit: Value): Result<Verified> {
    var _ :- Validate(py, commit);
    var _ :- Need(IsCommit(commit), SCHEMA_INVALID);
    var decision :- PyDecisionStep(py, get, commit);
    var proposal :- PyProposalStep(py, get, decision);
    var effect :- PyEffectStep(py, get, commit, proposal);
    var parents :- PyReferences(py, get, commit, decision, effect);
    Ok(Verified(decision, proposal, effect, parents))
  }

  // ---------------------------------------------------------------- verifying an Effect

  function PyInputMap(py: PythonKernel, get: Getter, inputs: seq<Value>, sofar: map<Text, Value>): Result<map<Text, Value>>
    decreases |inputs|
  {
    if inputs == [] then Ok(sofar)
    else
      var found :- PyResolve(py, get, ObjectOf(inputs[0]));
      PyInputMap(py, get, inputs[1..], sofar[RoleOf(inputs[0]) := found])
  }

  function PySupplied(py: PythonKernel, supplied: map<Text, Value>, inputs: seq<Value>): Check
    decreases |inputs|
  {
    if inputs == [] then Ok(())
    else if RoleOf(inputs[0]) !in supplied then Err(INTEGRITY_CHAIN_INVALID)
    else
      var actual :- PyDescribe(py, supplied[RoleOf(inputs[0])]);
      var _ :- Need(actual == DescriptorOf(ObjectOf(inputs[0])), INTEGRITY_CHAIN_INVALID);
      PySupplied(py, supplied, inputs[1..])
  }

  function PyReplayChecks(py: PythonKernel, effect: Value, supplied: map<Text, Value>, drivers: Drivers): Result<Driver> {
    var _ :- Need(supplied.Keys == RoleSet(InputsOf(effect)), INTEGRITY_CHAIN_INVALID);
    var _ :- PySupplied(py, supplied, InputsOf(effect));
    var name := DriverNameOf(Field(effect, "driver"));
    var _ :- Need(DriverKey(name) in drivers, UNSUPPORTED_SEMANTICS);
    Ok(drivers[DriverKey(name)])
  }

  /** `replay`: any valid object passes for a State here. */
  function PyReplay(py: PythonKernel, base: Value, effect: Value, supplied: map<Text, Value>, drivers: Drivers): Executed {
    match PyReplayChecks(py, effect, supplied, drivers)
    case Err(code) => Threw(code)
    case Ok(driver) =>
      match driver.execute(base, DefinitionOf(effect), supplied)
      case Produced(state) =>
        (match Validate(py, state)
        case Err(code) => Threw(code)
        case Ok(_) => Produced(state))
      case other => other
  }

  function PyJudge(py: PythonKernel, effect: Value, replayed: Executed): Result<Value> {
    match replayed
    case Unmet => Err(EFFECT_CLAIM_FALSE)
    case Threw(code) => Err(code)
    case Produced(state) =>
      var described :- PyDescribe(py, state);
      var _ :- Need(described == DescriptorOf(Field(effect, "result")), EFFECT_CLAIM_FALSE);
      Ok(state)
  }

  /** `verify_effect`, with the State whose descriptor it returns. */
  function PyEffectResult(py: PythonKernel, get: Getter, drivers: Drivers, effect: Value): Result<Value> {
    var _ :- Validate(py, effect);
    var _ :- Need(IsEffect(effect), SCHEMA_INVALID);
    var base :- PyResolve(py, get, Field(effect, "base"));
    var supplied :- PyInputMap(py, get, InputsOf(effect), map[]);
    PyJudge(py, effect, PyReplay(py, base, effect, supplied, drivers))
  }
}
