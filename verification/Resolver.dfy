/** Content identity, the resolver that re-hashes and re-parses what it is given, and the
    in-memory object store. */
module Resolver {
  import opened Text
  import opened Values
  import opened Grammar
  import opened JsonReader
  import opened Utf8
  import opened ProtocolBytes
  import opened Protocol

  /** The number codec, and SHA-256 with its result in hexadecimal. */
  datatype Kernel = Kernel(c: NumberCodec, hash: Bytes -> Text)

  /** What is known of every hash value. */
  ghost predicate Hashing(k: Kernel) { forall bs: Bytes :: IsHexDigest(k.hash(bs)) }

  /** No two of the known byte strings collide. */
  ghost predicate CollisionFree(k: Kernel, known: iset<Bytes>) {
    forall a: Bytes, b: Bytes | a in known && b in known && k.hash(a) == k.hash(b) :: a == b
  }

  // ---------------------------------------------------------------- identity

  const ZERO: Text := [0]
  const DOMAIN: Text := Ascii("t3x-object-v1")

  /** t3x-object-v1 \0 kind \0 schema \0 */
  function Prefix(kind: Text, schema: Text): Bytes {
    Encode(DOMAIN + ZERO + kind + ZERO + schema + ZERO)
  }

  function Preimage(kind: Text, schema: Text, bytes: Bytes): Bytes { Prefix(kind, schema) + bytes }

  /** `digestCanonicalProtocolBytes` */
  function DigestBytes(k: Kernel, kind: Text, schema: Text, bytes: Bytes): Result<Text> {
    var _ :- Need(ExpectedSchema(kind) == Some(schema), UNSUPPORTED_MEDIA_TYPE);
    Ok(SHA256 + k.hash(Preimage(kind, schema, bytes)))
  }

  /** `kindForSchema` on the schema of a parsed object. */
  function KindForSchema(schema: Text): Text {
    if schema == STATE_SCHEMA then Ascii("state")
    else if schema == EFFECT_SCHEMA then Ascii("effect")
    else if schema == STATEMENT_SCHEMA then Ascii("statement")
    else Ascii("commit")
  }

  /** `canonicalProtocolObjectBytes` */
  function ObjectBytes(k: Kernel, obj: Value): Result<Bytes> {
    var _ :- ParseObject(k.c, obj);
    Ok(CanonicalBytes(k.c, obj))
  }

  /** `describeProtocolObject` */
  function Describe(k: Kernel, obj: Value): Result<Descriptor> {
    var bytes :- ObjectBytes(k, obj);
    var schema := SchemaOf(obj);
    var kind := KindForSchema(schema);
    var digest :- DigestBytes(k, kind, schema, bytes);
    Ok(Descriptor(kind, schema, digest))
  }

  /** The bytes an object's digest is taken over. */
  function ObjectPreimage(k: Kernel, obj: Value): Bytes {
    Preimage(KindForSchema(SchemaOf(obj)), SchemaOf(obj), CanonicalBytes(k.c, obj))
  }

  lemma KindsAndSchemas(kind: Text, schema: Text)
    requires ExpectedSchema(kind) == Some(schema)
    ensures KindForSchema(schema) == kind
  {
    SchemasDistinct();
  }

  lemma KnownSchema(schema: Text)
    requires schema == STATE_SCHEMA || schema == EFFECT_SCHEMA || schema == STATEMENT_SCHEMA || schema == COMMIT_SCHEMA
    ensures ExpectedSchema(KindForSchema(schema)) == Some(schema)
  {
    assert |Ascii("state")| == 5 && |Ascii("effect")| == 6 && |Ascii("statement")| == 9 && |Ascii("commit")| == 6;
    assert Ascii("effect")[0] == 'e' as int && Ascii("commit")[0] == 'c' as int;
  }

  /** Exactly the parsed objects have a descriptor; it names their schema and the digest
      of their canonical bytes. */
  lemma DescribeParsed(k: Kernel, obj: Value)
    ensures Describe(k, obj).Ok? <==> ParseObject(k.c, obj).Ok?
    ensures Describe(k, obj).Ok? ==>
      var d := Describe(k, obj).value;
      && ExpectedSchema(d.kind) == Some(d.schema) && Field(obj, "schema") == Str(d.schema)
      && d.kind == KindForSchema(SchemaOf(obj)) && d.schema == SchemaOf(obj)
      && d.digest == SHA256 + k.hash(ObjectPreimage(k, obj))
      && InDomain(k.c, obj)
  {
    if ParseObject(k.c, obj).Ok? {
      ParseObjectIsOneOfFour(k.c, obj);
      ParsedSchemas(k.c, obj);
      KnownSchema(SchemaOf(obj));
    }
  }

  /** Objects with one descriptor are one object, unless the two hashed strings collide. */
  lemma DescriptorIdentifiesObject(k: Kernel, known: iset<Bytes>, v: Value, w: Value)
    requires Lawful(k.c) && CollisionFree(k, known)
    requires Describe(k, v).Ok? && Describe(k, v) == Describe(k, w)
    requires ObjectPreimage(k, v) in known && ObjectPreimage(k, w) in known
    ensures v == w
  {
    DescribeParsed(k, v);
    DescribeParsed(k, w);
    DigestIdentifiesHash(k.hash(ObjectPreimage(k, v)), k.hash(ObjectPreimage(k, w)));
    SamePrefix(Prefix(KindForSchema(SchemaOf(v)), SchemaOf(v)), CanonicalBytes(k.c, v), CanonicalBytes(k.c, w));
    CanonicalBytesIdentifyValue(k.c, v, w);
  }

  lemma DigestIdentifiesHash(a: Text, b: Text)
    requires SHA256 + a == SHA256 + b
    ensures a == b
  {
    assert (SHA256 + a)[|SHA256|..] == a && (SHA256 + b)[|SHA256|..] == b;
  }

  lemma SamePrefix(p: Bytes, a: Bytes, b: Bytes)
    requires p + a == p + b
    ensures a == b
  {
    assert (p + a)[|p|..] == a && (p + b)[|p|..] == b;
  }

  // ---------------------------------------------------------------- domain separation

  predicate IsAscii(s: Text) { forall i | 0 <= i < |s| :: s[i] < 0x80 }

  lemma {:induction false} AsciiEncodes(s: Text)
    requires IsAscii(s)
    ensures Encode(s) == s
  {
    if s != [] {
      var rest := s[1..];
      AsciiEncodes(rest);
      assert CodePoints(s) == [s[0]] + CodePoints(rest);
      assert Replaced(CodePoints(s)) == [s[0]] + Replaced(CodePoints(rest));
      assert ([s[0]] + Replaced(CodePoints(rest)))[1..] == Replaced(CodePoints(rest));
      assert s == [s[0]] + rest;
    }
  }

  lemma PrefixText(kind: Text, schema: Text)
    requires ExpectedSchema(kind) == Some(schema)
    ensures Prefix(kind, schema) == DOMAIN + ZERO + kind + ZERO + schema + ZERO
  {
    hide IsAscii;
    KindIsAscii(kind);
    AsciiAround(DOMAIN, kind, schema);
    AsciiEncodes(DOMAIN + ZERO + kind + ZERO + schema + ZERO);
  }

  lemma KindIsAscii(kind: Text)
    requires ExpectedSchema(kind).Some?
    ensures IsAscii(kind) && IsAscii(ExpectedSchema(kind).value) && IsAscii(DOMAIN)
  {}

  lemma AsciiAround(a: Text, b: Text, d: Text)
    requires IsAscii(a) && IsAscii(b) && IsAscii(d)
    ensures IsAscii(a + ZERO + b + ZERO + d + ZERO)
  {}

  lemma Nested(a: Text, b: Text, d: Text, rest: Text)
    ensures (a + ZERO + b + ZERO + d + ZERO) + rest == a + (ZERO + (b + (ZERO + (d + (ZERO + rest)))))
  {}

  lemma NoZeroInDomain()
    ensures 0 !in DOMAIN
  {}

  /** The hashed strings of two kinds of objects are never the same, whatever the bytes. */
  lemma DomainsApart(kind: Text, schema: Text, bytes: Bytes, kind': Text, schema': Text, bytes': Bytes)
    requires ExpectedSchema(kind) == Some(schema) && ExpectedSchema(kind') == Some(schema')
    requires Preimage(kind, schema, bytes) == Preimage(kind', schema', bytes')
    ensures kind == kind' && schema == schema' && bytes == bytes'
  {
    hide Prefix, ExpectedSchema;
    PrefixText(kind, schema);
    PrefixText(kind', schema');
    Nested(DOMAIN, kind, schema, bytes);
    Nested(DOMAIN, kind', schema', bytes');
    NoZeroInDomain();
    NoZeros(kind);
    NoZeros(kind');
    var x, y := kind + (ZERO + (schema + (ZERO + bytes))), kind' + (ZERO + (schema' + (ZERO + bytes')));
    SplitAtZero(DOMAIN, x, DOMAIN, y);
    SplitAtZero(kind, schema + (ZERO + bytes), kind', schema' + (ZERO + bytes'));
    SplitAtZero(schema, bytes, schema', bytes');
  }

  // ---------------------------------------------------------------- resolving

  /** An `ObjectResolver`: it may answer anything. */
  type Getter = Descriptor -> Option<Bytes>

  function JsonCode(code: JsonReader.ErrorCode): Protocol.ErrorCode {
    if code == SchemaInvalid then SCHEMA_INVALID else NON_CANONICAL_VALUE
  }

  /** `parseProtocolBytes` */
  function ParseObjectBytes(k: Kernel, bytes: Bytes): Result<Value> {
    match ParseBytes(k.c, bytes)
    case Failed(code) => Err(JsonCode(code))
    case Got(v, _) =>
      var _ :- ParseObject(k.c, v);
      Ok(v)
  }

  /** The checks before the last one: re-hash, strict-parse, describe again. */
  function Reopen(k: Kernel, d: Descriptor, bytes: Bytes): Result<Value> {
    var digest :- DigestBytes(k, d.kind, d.schema, bytes);
    var _ :- Need(digest == d.digest, OBJECT_DIGEST_MISMATCH);
    var obj :- ParseObjectBytes(k, bytes);
    Identified(d, Describe(k, obj), obj)
  }

  function Identified(d: Descriptor, described: Result<Descriptor>, obj: Value): Result<Value> {
    var actual :- described;
    var _ :- Need(actual.kind == d.kind && actual.schema == d.schema, UNSUPPORTED_MEDIA_TYPE);
    var _ :- Need(actual.digest == d.digest, OBJECT_DIGEST_MISMATCH);
    Ok(obj)
  }

  function Open(k: Kernel, d: Descriptor, bytes: Bytes): Result<Value> {
    var obj :- Reopen(k, d, bytes);
    var canonical :- ObjectBytes(k, obj);
    var _ :- Need(bytes == canonical, NON_CANONICAL_VALUE);
    Ok(obj)
  }

  function ResolveParsed(k: Kernel, get: Getter, d: Descriptor): Result<Value> {
    match get(d)
    case None => Err(OBJECT_NOT_FOUND)
    case Some(bytes) => Open(k, d, bytes)
  }

  /** `resolveProtocolObject` */
  function Resolve(k: Kernel, get: Getter, requested: Value): Result<Value> {
    var _ :- ParseDescriptor(k.c, requested);
    ResolveParsed(k, get, DescriptorOf(requested))
  }

  lemma ParsesBack(k: Kernel, v: Value)
    requires Lawful(k.c) && ParseObject(k.c, v).Ok? && InDomain(k.c, v)
    ensures ParseObjectBytes(k, CanonicalBytes(k.c, v)) == Ok(v)
  {
    ParseOfCanonicalBytes(k.c, v);
  }

  lemma IdentifiedFacts(d: Descriptor, described: Result<Descriptor>, obj: Value, v: Value)
    ensures Identified(d, described, obj) == Ok(v) <==> described == Ok(d) && obj == v
  {}

  lemma ReopenFacts(k: Kernel, d: Descriptor, bytes: Bytes, v: Value)
    requires Reopen(k, d, bytes) == Ok(v)
    ensures Describe(k, v) == Ok(d)
    ensures d.digest == SHA256 + k.hash(Preimage(d.kind, d.schema, bytes))
  {
    var obj := ParseObjectBytes(k, bytes).value;
    IdentifiedFacts(d, Describe(k, obj), obj, v);
  }

  lemma ReopenCanonical(k: Kernel, d: Descriptor, v: Value)
    requires Lawful(k.c) && Describe(k, v) == Ok(d)
    ensures Reopen(k, d, CanonicalBytes(k.c, v)) == Ok(v)
  {
    DescribeParsed(k, v);
    ParsesBack(k, v);
    IdentifiedFacts(d, Describe(k, v), v, v);
  }

  /** Opened are exactly the canonical bytes of the object the descriptor describes. */
  lemma OpenExactly(k: Kernel, d: Descriptor, bytes: Bytes, v: Value)
    requires Lawful(k.c)
    ensures Open(k, d, bytes) == Ok(v) <==> Describe(k, v) == Ok(d) && bytes == CanonicalBytes(k.c, v)
  {
    if Open(k, d, bytes) == Ok(v) {
      ReopenFacts(k, d, bytes, v);
    }
    if Describe(k, v) == Ok(d) && bytes == CanonicalBytes(k.c, v) {
      ReopenCanonical(k, d, v);
    }
  }

  /** Whatever the resolver answers, an object is resolved exactly when it is one the
      descriptor describes and the answer is its canonical bytes. */
  lemma ResolveExactly(k: Kernel, get: Getter, requested: Value, v: Value)
    requires Lawful(k.c)
    ensures Resolve(k, get, requested) == Ok(v) <==>
      && ParseDescriptor(k.c, requested).Ok?
      && Describe(k, v) == Ok(DescriptorOf(requested))
      && get(DescriptorOf(requested)) == Some(CanonicalBytes(k.c, v))
  {
    var d := DescriptorOf(requested);
    if get(d).Some? {
      OpenExactly(k, d, get(d).value, v);
    }
  }

  /** Where the stored bytes and the parsed object's canonical bytes do not collide, the
      two digest checks imply the final byte comparison: it never rejects. */
  lemma FinalCheckIsImplied(k: Kernel, known: iset<Bytes>, d: Descriptor, bytes: Bytes)
    requires Lawful(k.c) && CollisionFree(k, known)
    requires Preimage(d.kind, d.schema, bytes) in known
    requires Reopen(k, d, bytes).Ok? ==> ObjectPreimage(k, Reopen(k, d, bytes).value) in known
    ensures Open(k, d, bytes) == Reopen(k, d, bytes)
  {
    if Reopen(k, d, bytes).Ok? {
      var v := Reopen(k, d, bytes).value;
      ReopenFacts(k, d, bytes, v);
      DescribeParsed(k, v);
      DigestIdentifiesHash(k.hash(Preimage(d.kind, d.schema, bytes)), k.hash(ObjectPreimage(k, v)));
      SamePrefix(Prefix(d.kind, d.schema), bytes, CanonicalBytes(k.c, v));
      OpenExactly(k, d, bytes, v);
    }
  }

  /** Two resolvers that both succeed on one descriptor return the same object. */
  lemma ResolversAgree(k: Kernel, known: iset<Bytes>, first: Getter, second: Getter, requested: Value)
    requires Lawful(k.c) && CollisionFree(k, known)
    requires Resolve(k, first, requested).Ok? && Resolve(k, second, requested).Ok?
    requires ObjectPreimage(k, Resolve(k, first, requested).value) in known
    requires ObjectPreimage(k, Resolve(k, second, requested).value) in known
    ensures Resolve(k, first, requested) == Resolve(k, second, requested)
  {
    var v, w := Resolve(k, first, requested).value, Resolve(k, second, requested).value;
    ResolveExactly(k, first, requested, v);
    ResolveExactly(k, second, requested, w);
    DescriptorIdentifiesObject(k, known, v, w);
  }

  lemma ResolvedHasKind(k: Kernel, get: Getter, requested: Value)
    requires Lawful(k.c) && Resolve(k, get, requested).Ok?
    ensures ParseDescriptor(k.c, requested).Ok?
    ensures var v := Resolve(k, get, requested).value;
      && Describe(k, v) == Ok(DescriptorOf(requested)) && ParseObject(k.c, v).Ok? && InDomain(k.c, v)
      && Some(SchemaOf(v)) == ExpectedSchema(DescriptorOf(requested).kind)
      && Field(v, "schema") == Str(SchemaOf(v))
  {
    ResolveExactly(k, get, requested, Resolve(k, get, requested).value);
    DescribeParsed(k, Resolve(k, get, requested).value);
  }

  // ---------------------------------------------------------------- the store

  function DescriptorKey(d: Descriptor): Text { d.kind + (ZERO + (d.schema + (ZERO + d.digest))) }

  function Stored(objects: map<Text, Bytes>): Getter {
    d => if DescriptorKey(d) in objects then Some(objects[DescriptorKey(d)]) else None
  }

  lemma SplitAtZero(a: Text, x: Text, b: Text, y: Text)
    requires a + (ZERO + x) == b + (ZERO + y) && 0 !in a && 0 !in b
    ensures a == b && x == y
  {
    var s, t := a + (ZERO + x), b + (ZERO + y);
    assert s[|a|] == 0 && t[|b|] == 0;
    assert forall i | 0 <= i < |a| :: s[i] == a[i] && a[i] in a;
    assert forall i | 0 <= i < |b| :: t[i] == b[i] && b[i] in b;
    assert s[..|a|] == a && t[..|b|] == b;
    assert s[|a| + 1..] == x && t[|b| + 1..] == y;
  }

  lemma NoZeros(kind: Text)
    requires ExpectedSchema(kind).Some?
    ensures 0 !in kind && 0 !in ExpectedSchema(kind).value
  {}

  /** Two well-kinded descriptors never share a key. */
  lemma DescriptorKeyInjective(d: Descriptor, e: Descriptor)
    requires ExpectedSchema(d.kind) == Some(d.schema) && ExpectedSchema(e.kind) == Some(e.schema)
    requires DescriptorKey(d) == DescriptorKey(e)
    ensures d == e
  {
    NoZeros(d.kind);
    NoZeros(e.kind);
    SplitAtZero(d.kind, d.schema + (ZERO + d.digest), e.kind, e.schema + (ZERO + e.digest));
    SplitAtZero(d.schema, d.digest, e.schema, e.digest);
  }

  class InMemoryObjectResolver {
    const k: Kernel
    var objects: map<Text, Bytes>

    constructor (k: Kernel)
      ensures this.k == k && objects == map[]
    {
      this.k := k;
      objects := map[];
    }

    /** The constructor's loop over the given objects; it stops where `Put` throws. */
    method PutEach(list: seq<Value>) returns (r: Check)
      modifies this
      ensures (objects, r) == AfterPuts(k, old(objects), list)
    {
      var i := 0;
      while i < |list|
        invariant 0 <= i <= |list|
        invariant AfterPuts(k, old(objects), list) == AfterPuts(k, objects, list[i..])
      {
        assert list[i..][0] == list[i] && list[i..][1..] == list[i + 1..];
        var put := Put(list[i]);
        if put.Err? {
          return Err(put.code);
        }
        i := i + 1;
      }
      r := Ok(());
    }

    method Put(obj: Value) returns (r: Result<Descriptor>)
      modifies this
      ensures r == Describe(k, obj)
      ensures objects == if r.Ok? then old(objects)[DescriptorKey(r.value) := CanonicalBytes(k.c, obj)] else old(objects)
    {
      r := Describe(k, obj);
      if r.Ok? {
        DescribeParsed(k, obj);
        objects := objects[DescriptorKey(r.value) := ObjectBytes(k, obj).value];
      }
    }

    method Get(d: Descriptor) returns (r: Option<Bytes>)
      ensures r == Stored(objects)(d)
    {
      r := if DescriptorKey(d) in objects then Some(objects[DescriptorKey(d)]) else None;
    }
  }

  function AfterPut(k: Kernel, objects: map<Text, Bytes>, obj: Value): map<Text, Bytes> {
    match Describe(k, obj)
    case Err(_) => objects
    case Ok(d) => objects[DescriptorKey(d) := CanonicalBytes(k.c, obj)]
  }

  function AfterPuts(k: Kernel, objects: map<Text, Bytes>, list: seq<Value>): (map<Text, Bytes>, Check)
    decreases |list|
  {
    if list == [] then (objects, Ok(()))
    else if Describe(k, list[0]).Err? then (objects, Err(Describe(k, list[0]).code))
    else AfterPuts(k, AfterPut(k, objects, list[0]), list[1..])
  }

  /** Put then resolve returns the object put. */
  lemma PutThenResolve(k: Kernel, objects: map<Text, Bytes>, obj: Value, requested: Value)
    requires Lawful(k.c) && ParseDescriptor(k.c, requested).Ok?
    requires Describe(k, obj) == Ok(DescriptorOf(requested))
    ensures Resolve(k, Stored(AfterPut(k, objects, obj)), requested) == Ok(obj)
  {
    ResolveExactly(k, Stored(AfterPut(k, objects, obj)), requested, obj);
  }

  /** A descriptor as the protocol writes it. */
  function DescriptorValue(d: Descriptor): Value {
    Obj(map[Ascii("kind") := Str(d.kind), Ascii("schema") := Str(d.schema), Ascii("digest") := Str(d.digest)])
  }

  /** Every object's descriptor parses, and asking for it reads the same descriptor. */
  lemma DescriptorParses(k: Kernel, obj: Value)
    requires Hashing(k) && Describe(k, obj).Ok?
    ensures var d := Describe(k, obj).value;
      ParseDescriptor(k.c, DescriptorValue(d)).Ok? && DescriptorOf(DescriptorValue(d)) == d
  {
    var d := Describe(k, obj).value;
    DescribeParsed(k, obj);
    FieldsOfDescriptor(d);
    DigestsAreDigests(k, ObjectPreimage(k, obj));
    DescriptorInDomain(k.c, d);
  }

  lemma FieldsOfDescriptor(d: Descriptor)
    ensures var v := DescriptorValue(d);
      && Record(v, ["kind", "schema", "digest"]).Ok? && DescriptorOf(v) == d
      && Field(v, "kind") == Str(d.kind) && Field(v, "schema") == Str(d.schema) && Field(v, "digest") == Str(d.digest)
  {
    assert |Ascii("kind")| == 4 && |Ascii("schema")| == 6 && |Ascii("digest")| == 6;
    assert Ascii("schema")[0] == 's' as int && Ascii("digest")[0] == 'd' as int;
  }

  lemma DigestsAreDigests(k: Kernel, bytes: Bytes)
    requires Hashing(k)
    ensures IsDigest(SHA256 + k.hash(bytes)) && NoSurrogates(SHA256 + k.hash(bytes))
  {
    var hex := k.hash(bytes);
    assert IsHexDigest(hex);
    assert |SHA256| == 7;
    assert (SHA256 + hex)[..7] == SHA256 && (SHA256 + hex)[7..] == hex;
  }

  lemma AsciiIsPaired(s: string)
    ensures WellFormed(Ascii(s))
  {
    WithoutSurrogatesIsWellFormed(Ascii(s));
  }

  lemma KindIsWellFormed(kind: Text)
    requires ExpectedSchema(kind).Some?
    ensures WellFormed(kind) && WellFormed(ExpectedSchema(kind).value)
  {
    AsciiIsPaired("state");
    AsciiIsPaired("effect");
    AsciiIsPaired("statement");
    AsciiIsPaired("commit");
    AsciiIsPaired("t3x/state/v1");
    AsciiIsPaired("t3x/effect/v1");
    AsciiIsPaired("t3x/statement/v1");
    AsciiIsPaired("t3x/commit/v2");
  }

  lemma DescriptorInDomain(c: NumberCodec, d: Descriptor)
    requires ExpectedSchema(d.kind) == Some(d.schema) && NoSurrogates(d.digest)
    ensures InDomain(c, DescriptorValue(d))
  {
    AsciiIsPaired("kind");
    AsciiIsPaired("schema");
    AsciiIsPaired("digest");
    KindIsWellFormed(d.kind);
    WithoutSurrogatesIsWellFormed(d.digest);
    var m := DescriptorValue(d).m;
    forall k | k in m ensures WellFormed(k) && InDomain(c, m[k]) {
      FieldInDomain(c, d, k);
    }
    MappingInDomain(c, m);
  }

  lemma FieldInDomain(c: NumberCodec, d: Descriptor, k: Text)
    requires WellFormed(d.kind) && WellFormed(d.schema) && WellFormed(d.digest) && k in DescriptorValue(d).m
    ensures InDomain(c, DescriptorValue(d).m[k])
    ensures k == Ascii("kind") || k == Ascii("schema") || k == Ascii("digest")
  {
    hide WellFormed;
  }

  lemma MappingInDomain(c: NumberCodec, m: map<Text, Value>)
    requires forall k | k in m :: WellFormed(k) && InDomain(c, m[k])
    ensures InDomain(c, Obj(m))
  {
    hide WellFormed;
  }

  // ---------------------------------------------------------------- growing stores

  /** Everything the first resolver resolves, the second resolves to the same object. */
  ghost predicate Extends(k: Kernel, first: Getter, second: Getter) {
    forall requested: Value | Resolve(k, first, requested).Ok? ::
      Resolve(k, second, requested) == Resolve(k, first, requested)
  }

  /** Every object the resolver resolves is among those known not to collide. */
  ghost predicate ResolvesWithin(k: Kernel, get: Getter, known: iset<Bytes>) {
    forall requested: Value | Resolve(k, get, requested).Ok? ::
      ObjectPreimage(k, Resolve(k, get, requested).value) in known
  }

  lemma SameKeySameObject(k: Kernel, known: iset<Bytes>, v: Value, w: Value)
    requires Lawful(k.c) && CollisionFree(k, known) && Describe(k, v).Ok?
    requires ObjectPreimage(k, v) in known && ObjectPreimage(k, w) in known
    ensures Describe(k, w).Ok? && DescriptorKey(Describe(k, w).value) == DescriptorKey(Describe(k, v).value) ==> v == w
  {
    DescribeParsed(k, v);
    DescribeParsed(k, w);
    if Describe(k, w).Ok? && DescriptorKey(Describe(k, w).value) == DescriptorKey(Describe(k, v).value) {
      DescriptorKeyInjective(Describe(k, w).value, Describe(k, v).value);
      DescriptorIdentifiesObject(k, known, v, w);
    }
  }

  /** Adding an object changes nothing that resolved before. */
  lemma PutExtends(k: Kernel, known: iset<Bytes>, objects: map<Text, Bytes>, obj: Value)
    requires Lawful(k.c) && CollisionFree(k, known)
    requires ResolvesWithin(k, Stored(objects), known) && ObjectPreimage(k, obj) in known
    ensures Extends(k, Stored(objects), Stored(AfterPut(k, objects, obj)))
  {
    var before, after := Stored(objects), Stored(AfterPut(k, objects, obj));
    forall requested: Value | Resolve(k, before, requested).Ok?
      ensures Resolve(k, after, requested) == Resolve(k, before, requested)
    {
      var v := Resolve(k, before, requested).value;
      ResolveExactly(k, before, requested, v);
      SameKeySameObject(k, known, v, obj);
      ResolveExactly(k, after, requested, v);
    }
  }
}
