/** What resolving an object comes to, case by case, and the bytes an identity is taken of. */
module ResolveRules {
  import opened Text
  import opened Values
  import opened Grammar
  import opened JsonReader
  import opened Utf8
  import opened ProtocolBytes
  import opened Protocol
  import opened Resolver

  // ---------------------------------------------------------------- identity spelled out

  /** The four kinds and their schemas, and no other. */
  predicate IsKind(kind: Text, schema: Text) {
    || (kind == Ascii("state") && schema == Ascii("t3x/state/v1"))
    || (kind == Ascii("effect") && schema == Ascii("t3x/effect/v1"))
    || (kind == Ascii("statement") && schema == Ascii("t3x/statement/v1"))
    || (kind == Ascii("commit") && schema == Ascii("t3x/commit/v2"))
  }

  lemma KindsExactly(kind: Text, schema: Text)
    ensures ExpectedSchema(kind) == Some(schema) <==> IsKind(kind, schema)
  {
    assert |Ascii("state")| == 5 && |Ascii("effect")| == 6 && |Ascii("statement")| == 9 && |Ascii("commit")| == 6;
    assert Ascii("effect")[0] == 'e' as int && Ascii("commit")[0] == 'c' as int;
  }

  /** What is hashed: the domain, the kind and the schema, each closed by a zero, and the
      canonical bytes. */
  function Hashed(kind: Text, schema: Text, bytes: Bytes): seq<int> {
    Ascii("t3x-object-v1") + [0] + kind + [0] + schema + [0] + bytes
  }

  lemma PreimageIsHashed(kind: Text, schema: Text, bytes: Bytes)
    requires IsKind(kind, schema)
    ensures Preimage(kind, schema, bytes) == Hashed(kind, schema, bytes)
  {
    hide IsKind;
    KindsExactly(kind, schema);
    PrefixText(kind, schema);
  }

  /** An object is described exactly when it parses: by one of the four kinds, the schema it
      states and `sha256:` with the hash of its prefixed canonical bytes. */
  lemma DescribeExactly(k: Kernel, obj: Value, d: Descriptor)
    ensures Describe(k, obj) == Ok(d) <==>
      && ParseObject(k.c, obj).Ok? && IsKind(d.kind, d.schema) && Field(obj, "schema") == Str(d.schema)
      && d.digest == Ascii("sha256:") + k.hash(Preimage(d.kind, d.schema, CanonicalBytes(k.c, obj)))
  {
    hide ParseObject, ExpectedSchema, Preimage, IsKind, CanonicalBytes;
    DescribeParsed(k, obj);
    KindsExactly(d.kind, d.schema);
    if Describe(k, obj).Ok? && IsKind(d.kind, d.schema) {
      KindsAndSchemas(d.kind, d.schema);
    }
  }

  // ---------------------------------------------------------------- resolving

  /** The bytes are those the descriptor names. */
  predicate HashesTo(k: Kernel, d: Descriptor, bytes: Bytes) {
    d.digest == Ascii("sha256:") + k.hash(Preimage(d.kind, d.schema, bytes))
  }

  /** Which failure it is when a descriptor that parses does not resolve: nothing stored,
      other bytes, no JSON, JSON outside the domain, no object, an object of another kind,
      bytes that are not canonical. */
  function Outcome(k: Kernel, get: Getter, d: Descriptor): Result<Value> {
    if get(d).None? then Err(OBJECT_NOT_FOUND)
    else
      var bytes := get(d).value;
      if !HashesTo(k, d, bytes) then Err(OBJECT_DIGEST_MISMATCH)
      else
        match ParseBytes(k.c, bytes)
        case Failed(code) => Err(if code == SchemaInvalid then SCHEMA_INVALID else NON_CANONICAL_VALUE)
        case Got(v, _) =>
          if ParseObject(k.c, v).Err? then Err(ParseObject(k.c, v).code)
          else if Field(v, "schema") != Str(d.schema) then Err(UNSUPPORTED_MEDIA_TYPE)
          else if !HashesTo(k, d, CanonicalBytes(k.c, v)) then Err(OBJECT_DIGEST_MISMATCH)
          else if CanonicalBytes(k.c, v) != bytes then Err(NON_CANONICAL_VALUE)
          else Ok(v)
  }

  lemma ResolveOutcome(k: Kernel, get: Getter, requested: Value)
    ensures ParseDescriptor(k.c, requested).Err? ==> Resolve(k, get, requested) == Err(ParseDescriptor(k.c, requested).code)
    ensures ParseDescriptor(k.c, requested).Ok? ==>
      var d := DescriptorOf(requested);
      IsKind(d.kind, d.schema) && Resolve(k, get, requested) == Outcome(k, get, d)
  {
    hide ParseDescriptor, ParseObject, ParseBytes, Open, DescriptorOf, IsKind, Outcome;
    if ParseDescriptor(k.c, requested).Ok? {
      var d := DescriptorOf(requested);
      ParsedKind(k.c, requested);
      KindsExactly(d.kind, d.schema);
      if get(d).Some? {
        OpenOutcome(k, get, d);
      } else {
        NothingStored(k, get, d);
      }
    }
  }

  lemma ParsedKind(c: NumberCodec, requested: Value)
    requires ParseDescriptor(c, requested).Ok?
    ensures ExpectedSchema(DescriptorOf(requested).kind) == Some(DescriptorOf(requested).schema)
  {}

  lemma NothingStored(k: Kernel, get: Getter, d: Descriptor)
    requires get(d).None?
    ensures Outcome(k, get, d) == Err(OBJECT_NOT_FOUND)
  {}

  lemma OpenOutcome(k: Kernel, get: Getter, d: Descriptor)
    requires ExpectedSchema(d.kind) == Some(d.schema) && get(d).Some?
    ensures Open(k, d, get(d).value) == Outcome(k, get, d)
  {
    hide ParseObject, ParseBytes, Preimage, ExpectedSchema, CanonicalBytes, IsKind;
    var bytes := get(d).value;
    DigestKnown(k, d, bytes);
    if HashesTo(k, d, bytes) && ParseBytes(k.c, bytes).Got? {
      var v := ParseBytes(k.c, bytes).value;
      if ParseObject(k.c, v).Ok? {
        DescribeParsed(k, v);
        var actual := Describe(k, v).value;
        KindsExactly(d.kind, d.schema);
        KindsAndSchemas(d.kind, d.schema);
      }
    }
  }

  lemma DigestKnown(k: Kernel, d: Descriptor, bytes: Bytes)
    requires ExpectedSchema(d.kind) == Some(d.schema)
    ensures DigestBytes(k, d.kind, d.schema, bytes) == Ok(Ascii("sha256:") + k.hash(Preimage(d.kind, d.schema, bytes)))
  {}

  /** A store key is the three texts of a descriptor with zeros between them. */
  lemma KeySpelled(d: Descriptor)
    ensures DescriptorKey(d) == d.kind + [0] + d.schema + [0] + d.digest
  {}
}
