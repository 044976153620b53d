/** Canonical protocol bytes: the UTF-8 of the canonical text, and their parser. */
module ProtocolBytes {
  import opened Text
  import opened Values
  import opened Grammar
  import opened JsonReader
  import opened JsonTheorems
  import opened Canonical
  import opened Utf8

  function CanonicalText(c: NumberCodec, v: Value): Text { Canon(c, ByCodeUnit, v) }

  function CanonicalBytes(c: NumberCodec, v: Value): Bytes { Encode(CanonicalText(c, v)) }

  /** `parseProtocolJson`: strict UTF-8, then the strict parser. */
  function ParseBytes(c: NumberCodec, bs: Bytes): Read<Value> {
    match Decode(bs)
    case None => Failed(SchemaInvalid)
    case Some(s) => ReadDocument(Reader(c, true), s)
  }

  // ---------------------------------------------------------------- canonical text is well formed

  lemma WellFormedAround(a: Text, b: Text, d: Text)
    requires WellFormed(a) && WellFormed(b) && WellFormed(d)
    ensures WellFormed(a + (b + d))
  {
    WellFormedConcat(b, d);
    WellFormedConcat(a, b + d);
  }

  lemma AsciiIsWellFormed(u: CodeUnit)
    requires !IsHigh(u) && !IsLow(u)
    ensures WellFormed([u])
  {
    WithoutSurrogatesIsWellFormed([u]);
  }

  lemma {:induction false} DigitsHaveNoSurrogates(d: Text)
    requires AllDigits(d)
    ensures NoSurrogates(d)
  {}

  lemma NumberTextIsWellFormed(n: Number)
    requires NumberOk(n)
    ensures WellFormed(NumberText(n))
  {
    DigitsHaveNoSurrogates(n.whole);
    DigitsHaveNoSurrogates(n.frac);
    if n.exp.Exponent? {
      DigitsHaveNoSurrogates(n.exp.digits);
      assert NoSurrogates(n.exp.sign);
      assert NoSurrogates([n.exp.e] + n.exp.sign);
    }
    assert NoSurrogates(FracText(n)) && NoSurrogates(ExpText(n));
    assert NoSurrogates(TailText(n));
    assert NoSurrogates(UnsignedText(n));
    assert NoSurrogates(SignText(n));
    WithoutSurrogatesIsWellFormed(NumberText(n));
  }

  lemma {:induction false} QuoteBodyIsWellFormed(s: Text)
    ensures WellFormed(QuoteBody(s))
  {
    if s == [] {
    } else if StartsWithPair(s) {
      QuoteBodyIsWellFormed(s[2..]);
      assert [s[0], s[1]][2..] == [];
      WellFormedConcat([s[0], s[1]], QuoteBody(s[2..]));
    } else {
      QuoteBodyIsWellFormed(s[1..]);
      assert NoSurrogates(QuoteUnit(s[0]));
      WithoutSurrogatesIsWellFormed(QuoteUnit(s[0]));
      WellFormedConcat(QuoteUnit(s[0]), QuoteBody(s[1..]));
    }
  }

  /** Even an ill-formed string is quoted into well-formed text. */
  lemma QuoteIsWellFormed(s: Text)
    ensures WellFormed(Quote(s))
  {
    QuoteBodyIsWellFormed(s);
    AsciiIsWellFormed(0x22);
    WellFormedAround([0x22], QuoteBody(s), [0x22]);
  }

  lemma {:induction false} JoinIsWellFormed(parts: seq<Text>)
    requires forall p <- parts :: WellFormed(p)
    ensures WellFormed(Join(parts))
  {
    if |parts| > 1 {
      JoinIsWellFormed(parts[1..]);
      AsciiIsWellFormed(0x2C);
      WellFormedAround(parts[0], [0x2C], Join(parts[1..]));
    }
  }

  lemma {:induction false} CanonIsWellFormed(c: NumberCodec, o: KeyOrder, v: Value)
    requires Lawful(c) && Finite(c, v)
    ensures WellFormed(Canon(c, o, v))
    decreases v
  {
    match v {
      case Null => WithoutSurrogatesIsWellFormed(Canon(c, o, v));
      case Bool(b) => WithoutSurrogatesIsWellFormed(Canon(c, o, v));
      case Num(r) =>
        var n :| NumberOk(n) && NumberText(n) == c.show(r);
        NumberTextIsWellFormed(n);
      case Str(s) => QuoteIsWellFormed(s);
      case Arr(items) =>
        ItemsAreWellFormed(c, o, items);
        JoinIsWellFormed(CanonItems(c, o, items));
        AsciiIsWellFormed(0x5B);
        AsciiIsWellFormed(0x5D);
        WellFormedAround([0x5B], Join(CanonItems(c, o, items)), [0x5D]);
      case Obj(m) =>
        var ks := SortedKeys(o, m.Keys);
        EntriesAreWellFormed(c, o, v, ks);
        JoinIsWellFormed(CanonEntries(c, o, v, ks));
        AsciiIsWellFormed(0x7B);
        AsciiIsWellFormed(0x7D);
        WellFormedAround([0x7B], Join(CanonEntries(c, o, v, ks)), [0x7D]);
    }
  }

  lemma {:induction false} ItemsAreWellFormed(c: NumberCodec, o: KeyOrder, items: seq<Value>)
    requires Lawful(c) && forall x <- items :: Finite(c, x)
    ensures forall p <- CanonItems(c, o, items) :: WellFormed(p)
    decreases items
  {
    if items != [] {
      CanonIsWellFormed(c, o, items[0]);
      ItemsAreWellFormed(c, o, items[1..]);
    }
  }

  lemma {:induction false} EntriesAreWellFormed(c: NumberCodec, o: KeyOrder, v: Value, ks: seq<Text>)
    requires Lawful(c) && v.Obj? && Finite(c, v) && forall k <- ks :: k in v.m
    ensures forall p <- CanonEntries(c, o, v, ks) :: WellFormed(p)
    decreases v, |ks|
  {
    if ks != [] {
      QuoteIsWellFormed(ks[0]);
      CanonIsWellFormed(c, o, v.m[ks[0]]);
      AsciiIsWellFormed(0x3A);
      WellFormedAround(Quote(ks[0]), [0x3A], Canon(c, o, v.m[ks[0]]));
      EntriesAreWellFormed(c, o, v, ks[1..]);
    }
  }

  // ---------------------------------------------------------------- bytes

  /** Strictly parsing the canonical bytes of a protocol value gives back the value. */
  lemma ParseOfCanonicalBytes(c: NumberCodec, v: Value)
    requires Lawful(c) && InDomain(c, v)
    ensures ParseBytes(c, CanonicalBytes(c, v)) == Got(v, [])
  {
    var rd := Reader(c, true);
    var s := CanonicalText(c, v);
    CanonIsWellFormed(c, ByCodeUnit, v);
    ParseOfCanonical(rd, ByCodeUnit, v);
    ByteOrderMarkRefused(rd, s);
    DecodeOfEncode(s);
  }

  lemma ByteOrderMarkRefused(rd: Reader, s: Text)
    ensures s != [] && s[0] == 0xFEFF ==> ReadDocument(rd, s).Failed?
  {}

  /** Two protocol values have the same canonical bytes only if they are the same value. */
  lemma CanonicalBytesIdentifyValue(c: NumberCodec, v: Value, w: Value)
    requires Lawful(c) && InDomain(c, v) && InDomain(c, w)
    ensures CanonicalBytes(c, v) == CanonicalBytes(c, w) <==> v == w
  {
    ParseOfCanonicalBytes(c, v);
    ParseOfCanonicalBytes(c, w);
  }

  /** A value parsed from bytes lies in the protocol domain. */
  lemma ParsedBytesInDomain(c: NumberCodec, bs: Bytes)
    requires Lawful(c) && ParseBytes(c, bs).Got?
    ensures InDomain(c, ParseBytes(c, bs).value)
  {
    AcceptedValuesAreCanonicalizable(c, ByCodeUnit, Decode(bs).value);
  }
}
