/** Two States on which the two parsers differ: the schema of the Python verifier lets them
    through, and the TypeScript parser refuses them. */
module ParsersDiffer {
  import opened Text
  import opened Values
  import opened Grammar
  import opened Utf8
  import opened ProtocolBytes
  import opened Protocol
  import opened Resolver
  import opened Replay
  import opened PythonVerifier
  import opened MissingInput

  // ---------------------------------------------------------------- text outside the domain

  /** A State whose value is one unpaired surrogate. */
  function UnpairedState(): Value { Rec(STATE_FIELDS, [Str(STATE_SCHEMA), Codec(), Str([0xD800])]) }

  /** Here the parsers differ: a schema that puts no condition on the value, as the shipped
      one, lets the State through the validator, and only its bytes are refused. */
  lemma UnpairedStateSplitsTheParsers(py: PythonKernel)
    requires py.schema(UnpairedState())
    ensures Validate(py, UnpairedState()).Ok? && ParseObject(py.k.c, UnpairedState()) == Err(NON_CANONICAL_VALUE)
    ensures !AgreesOn(py, UnpairedState()) && PyDescribe(py, UnpairedState()) == Err(NON_CANONICAL_VALUE)
  {
    hide Codec;
    Names2();
    RecHolds(STATE_FIELDS, [Str(STATE_SCHEMA), Codec(), Str([0xD800])]);
    assert STATE_FIELDS[0] == "schema" && STATE_FIELDS[1] == "codec" && STATE_FIELDS[2] == "value";
    SchemasDistinct();
    assert Field(UnpairedState(), "value") == Str([0xD800]);
    UnpairedOutside(py.k.c, UnpairedState());
    assert IsState(UnpairedState());
  }

  lemma UnpairedOutside(c: NumberCodec, v: Value)
    requires Field(v, "value") == Str([0xD800])
    ensures !InDomain(c, v)
  {
    assert !WellFormed([0xD800]);
    assert !InDomain(c, Str([0xD800]));
    if InDomain(c, v) {
      FieldStaysInDomain(c, v, "value");
    }
  }

  // ---------------------------------------------------------------- an identifier with a line end

  /** A State whose codec version ends in a line feed. */
  function LineFeedState(): Value {
    Rec(STATE_FIELDS, [Str(STATE_SCHEMA), Rec(CODEC_FIELDS, [S("x"), S("1\n")]), Obj(map[])])
  }

  lemma LineFeedFacts(c: NumberCodec)
    ensures var v := LineFeedState();
      && InDomain(c, v) && Record(v, STATE_FIELDS).Ok? && Field(v, "schema") == Str(STATE_SCHEMA)
      && Field(Field(v, "codec"), "version") == S("1\n")
  {
    hide InDomain, Record;
    Names1();
    Names2();
    IdentifierOk(c, "x");
    StringInDomain(c, "1\n");
    SchemasInDomain(c);
    RecFacts(c, CODEC_FIELDS, [S("x"), S("1\n")]);
    RecFacts(c, STATE_FIELDS, [Str(STATE_SCHEMA), Rec(CODEC_FIELDS, [S("x"), S("1\n")]), Obj(map[])]);
    assert CODEC_FIELDS[1] == "version";
    assert STATE_FIELDS[0] == "schema" && STATE_FIELDS[1] == "codec" && STATE_FIELDS[2] == "value";
  }

  lemma LineFeedRefused(c: NumberCodec, v: Value)
    requires Field(Field(v, "codec"), "version") == S("1\n")
    ensures ParseState(c, v).Err?
  {
    assert Ascii("1\n")[1] == 0x0A;
    assert 0x0A in Ascii("1\n") && !IsLetter(0x0A) && !IsDecimal(0x0A) && 0x0A !in Ascii("._:/-");
  }

  /** Python's `$` also matches before a final line feed: a schema that lets this State
      through gives it a descriptor, where TypeScript refuses it. */
  lemma LineFeedSplitsTheParsers(py: PythonKernel)
    requires py.schema(LineFeedState())
    ensures PyDescribe(py, LineFeedState()).Ok? && ParseObject(py.k.c, LineFeedState()).Err?
    ensures !AgreesOn(py, LineFeedState())
  {
    hide LineFeedState, InDomain, ParseState, ExpectedSchema;
    var v := LineFeedState();
    LineFeedFacts(py.k.c);
    LineFeedRefused(py.k.c, v);
    SchemasDistinct();
    ParseObjectIsOneOfFour(py.k.c, v);
    KindsApart();
    KindsAndSchemas(Ascii("state"), STATE_SCHEMA);
    DigestersAgree(py, Ascii("state"), STATE_SCHEMA, CanonicalBytes(py.k.c, v));
  }
}
