/** The YOps canonical text, which sorts keys by code point, against the RFC 8785 text,
    which sorts them by code unit: exactly when a value has one text. */
module TwoTexts {
  import opened Text
  import opened Values
  import opened Grammar
  import opened JsonReader
  import opened JsonTheorems
  import opened Canonical

  /** In every mapping in `v`, the two orders list the keys alike. */
  predicate ListedAlike(v: Value) {
    match v
    case Arr(items) => forall x <- items :: ListedAlike(x)
    case Obj(m) =>
      && SortedKeys(ByCodePoint, m.Keys) == SortedKeys(ByCodeUnit, m.Keys)
      && forall k <- m :: ListedAlike(m[k])
    case _ => true
  }

  // ---------------------------------------------------------------- alike, so the same text

  lemma {:induction false} ListedAlikeAgree(c: NumberCodec, v: Value)
    requires ListedAlike(v)
    ensures Canon(c, ByCodePoint, v) == Canon(c, ByCodeUnit, v)
    decreases v
  {
    match v {
      case Arr(items) => ItemsAgree(c, items);
      case Obj(m) => EntriesAgree(c, v, SortedKeys(ByCodeUnit, m.Keys));
      case _ =>
    }
  }

  lemma {:induction false} ItemsAgree(c: NumberCodec, items: seq<Value>)
    requires forall x <- items :: ListedAlike(x)
    ensures CanonItems(c, ByCodePoint, items) == CanonItems(c, ByCodeUnit, items)
    decreases items
  {
    if items != [] {
      ListedAlikeAgree(c, items[0]);
      ItemsAgree(c, items[1..]);
    }
  }

  lemma {:induction false} EntriesAgree(c: NumberCodec, v: Value, ks: seq<Text>)
    requires v.Obj? && ListedAlike(v) && forall k <- ks :: k in v.m
    ensures CanonEntries(c, ByCodePoint, v, ks) == CanonEntries(c, ByCodeUnit, v, ks)
    decreases v, |ks|
  {
    if ks != [] {
      ListedAlikeAgree(c, v.m[ks[0]]);
      EntriesAgree(c, v, ks[1..]);
    }
  }

  // ---------------------------------------------------------------- the same text, so alike

  lemma ReadCanon(rd: Reader, o: KeyOrder, v: Value, rest: Text)
    requires Lawful(rd.num) && !rd.unicode && Finite(rd.num, v) && EndsNumber(rest)
    ensures ReadValue(rd, Canon(rd.num, o, v) + rest) == Got(v, rest)
  {
    var t := CanonDerives(rd, o, v, rest);
    ValueComplete(rd, t, rest);
  }

  lemma SameTail(a: Text, x: Text, b: Text, y: Text)
    requires a + x == b + y && x == y
    ensures a == b
  {
    assert |a| == |b|;
    assert a == (a + x)[..|a|] && b == (b + y)[..|b|];
  }

  /** Two texts of one value, each followed by something, end at the same place. */
  lemma SameValueSameRest(c: NumberCodec, v: Value, x: Text, y: Text)
    requires Lawful(c) && Finite(c, v) && EndsNumber(x) && EndsNumber(y)
    requires Canon(c, ByCodePoint, v) + x == Canon(c, ByCodeUnit, v) + y
    ensures x == y && Canon(c, ByCodePoint, v) == Canon(c, ByCodeUnit, v)
  {
    var rd := Reader(c, false);
    ReadCanon(rd, ByCodePoint, v, x);
    ReadCanon(rd, ByCodeUnit, v, y);
    SameTail(Canon(c, ByCodePoint, v), x, Canon(c, ByCodeUnit, v), y);
  }

  /** Two quoted strings, each followed by something, that read the same are the same. */
  lemma SameQuoteSameRest(j: Text, k: Text, x: Text, y: Text)
    requires Quote(j) + x == Quote(k) + y
    ensures j == k && x == y
  {
    var rd := Reader(NumberCodec(r => false, r => [], s => None), false);
    var cs := QuoteDerives(j, x);
    var ds := QuoteDerives(k, y);
    ReadStringComplete(rd, cs, x);
    ReadStringComplete(rd, ds, y);
  }

  /** The text of one or more parts, split after the first; `tail` is what follows it. */
  lemma JoinTail(part: Text, more: seq<Text>, close: Text) returns (tail: Text)
    ensures Join([part] + more) + close == part + tail
    ensures if more == [] then tail == close else tail == [0x2C] + (Join(more) + close)
  {
    if more == [] {
      assert [part] + more == [part];
      tail := close;
    } else {
      JoinMore(part, more, close);
      tail := [0x2C] + (Join(more) + close);
    }
  }

  lemma {:induction false} SameItemsAlike(c: NumberCodec, items: seq<Value>, close: Text)
    requires Lawful(c) && (forall x <- items :: Finite(c, x)) && close != [] && close[0] == 0x5D
    requires Join(CanonItems(c, ByCodePoint, items)) + close == Join(CanonItems(c, ByCodeUnit, items)) + close
    ensures forall x <- items :: Canon(c, ByCodePoint, x) == Canon(c, ByCodeUnit, x)
    decreases |items|
  {
    if items != [] {
      var v, rest := items[0], items[1..];
      var x := JoinTail(Canon(c, ByCodePoint, v), CanonItems(c, ByCodePoint, rest), close);
      var y := JoinTail(Canon(c, ByCodeUnit, v), CanonItems(c, ByCodeUnit, rest), close);
      SameValueSameRest(c, v, x, y);
      if rest != [] {
        DropComma(Join(CanonItems(c, ByCodePoint, rest)) + close, Join(CanonItems(c, ByCodeUnit, rest)) + close);
        SameItemsAlike(c, rest, close);
      }
    }
  }

  lemma DropComma(a: Text, b: Text)
    requires [0x2C] + a == [0x2C] + b
    ensures a == b
  {
    DropPrefix([0x2C], a);
    DropPrefix([0x2C], b);
  }

  lemma EntryAndTail(c: NumberCodec, o: KeyOrder, v: Value, k: Text, tail: Text)
    requires v.Obj? && k in v.m
    ensures CanonEntry(c, o, v, k) + tail == Quote(k) + ([0x3A] + (Canon(c, o, v.m[k]) + tail))
  {
    Regroup([0x3A], Canon(c, o, v.m[k]), tail);
    Regroup(Quote(k), [0x3A] + Canon(c, o, v.m[k]), tail);
  }

  lemma {:induction false} SameEntriesAlike(c: NumberCodec, v: Value, js: seq<Text>, ks: seq<Text>, close: Text)
    requires Lawful(c) && v.Obj? && Finite(c, v) && close != [] && close[0] == 0x7D
    requires (forall k <- js :: k in v.m) && (forall k <- ks :: k in v.m) && |js| == |ks|
    requires Join(CanonEntries(c, ByCodePoint, v, js)) + close == Join(CanonEntries(c, ByCodeUnit, v, ks)) + close
    ensures js == ks && forall k <- ks :: Canon(c, ByCodePoint, v.m[k]) == Canon(c, ByCodeUnit, v.m[k])
    decreases |js|
  {
    if js != [] {
      var j, k, js', ks' := js[0], ks[0], js[1..], ks[1..];
      var x := JoinTail(CanonEntry(c, ByCodePoint, v, j), CanonEntries(c, ByCodePoint, v, js'), close);
      var y := JoinTail(CanonEntry(c, ByCodeUnit, v, k), CanonEntries(c, ByCodeUnit, v, ks'), close);
      FirstEntrySame(c, v, j, k, x, y);
      if js' != [] {
        DropComma(Join(CanonEntries(c, ByCodePoint, v, js')) + close, Join(CanonEntries(c, ByCodeUnit, v, ks')) + close);
        SameEntriesAlike(c, v, js', ks', close);
      }
      assert js == [j] + js' && ks == [k] + ks';
    }
  }

  lemma FirstEntrySame(c: NumberCodec, v: Value, j: Text, k: Text, x: Text, y: Text)
    requires Lawful(c) && v.Obj? && Finite(c, v) && j in v.m && k in v.m && EndsNumber(x) && EndsNumber(y)
    requires CanonEntry(c, ByCodePoint, v, j) + x == CanonEntry(c, ByCodeUnit, v, k) + y
    ensures j == k && x == y && Canon(c, ByCodePoint, v.m[k]) == Canon(c, ByCodeUnit, v.m[k])
  {
    EntryAndTail(c, ByCodePoint, v, j, x);
    EntryAndTail(c, ByCodeUnit, v, k, y);
    SameQuoteSameRest(j, k, [0x3A] + (Canon(c, ByCodePoint, v.m[j]) + x), [0x3A] + (Canon(c, ByCodeUnit, v.m[k]) + y));
    DropPrefix([0x3A], Canon(c, ByCodePoint, v.m[j]) + x);
    DropPrefix([0x3A], Canon(c, ByCodeUnit, v.m[k]) + y);
    SameValueSameRest(c, v.m[k], x, y);
  }

  lemma Inner(left: CodeUnit, a: Text, b: Text, right: CodeUnit)
    requires [left] + (a + [right]) == [left] + (b + [right])
    ensures a + [right] == b + [right]
  {
    DropPrefix([left], a + [right]);
    DropPrefix([left], b + [right]);
  }

  /** The two canonical texts of a value are the same exactly when, in every mapping it
      contains, the keys are listed alike by code point and by code unit. */
  lemma {:induction false} CanonicalTextsAgreeExactly(c: NumberCodec, v: Value)
    requires Lawful(c) && Finite(c, v)
    ensures Canon(c, ByCodePoint, v) == Canon(c, ByCodeUnit, v) <==> ListedAlike(v)
    decreases v
  {
    if ListedAlike(v) {
      ListedAlikeAgree(c, v);
    }
    if Canon(c, ByCodePoint, v) == Canon(c, ByCodeUnit, v) {
      match v {
        case Arr(items) =>
          Inner(0x5B, Join(CanonItems(c, ByCodePoint, items)), Join(CanonItems(c, ByCodeUnit, items)), 0x5D);
          SameItemsAlike(c, items, [0x5D]);
          forall x | x in items ensures ListedAlike(x) { CanonicalTextsAgreeExactly(c, x); }
        case Obj(m) =>
          var js, ks := SortedKeys(ByCodePoint, m.Keys), SortedKeys(ByCodeUnit, m.Keys);
          Inner(0x7B, Join(CanonEntries(c, ByCodePoint, v, js)), Join(CanonEntries(c, ByCodeUnit, v, ks)), 0x7D);
          SameEntriesAlike(c, v, js, ks, [0x7D]);
          forall k | k in m ensures ListedAlike(m[k]) { CanonicalTextsAgreeExactly(c, m[k]); }
        case _ =>
      }
    }
  }

  // ---------------------------------------------------------------- without surrogates, and with them

  lemma SameOrderWithoutSurrogates(s: set<Text>)
    requires forall k <- s :: NoSurrogates(k)
    ensures SortedKeys(ByCodePoint, s) == SortedKeys(ByCodeUnit, s)
  {
    var a, b := SortedKeys(ByCodeUnit, s), SortedKeys(ByCodePoint, s);
    forall i, j | 0 <= i < j < |b| ensures Before(ByCodeUnit, b[i], b[j]) {
      assert b[i] in s && b[j] in s;
      CodePointsWithoutSurrogates(b[i]);
      CodePointsWithoutSurrogates(b[j]);
    }
    SortedListingUnique(ByCodeUnit, a, b);
  }

  lemma {:induction false} PlainIsListedAlike(v: Value)
    requires PlainKeys(v)
    ensures ListedAlike(v)
    decreases v
  {
    match v {
      case Arr(items) => forall x | x in items ensures ListedAlike(x) { PlainIsListedAlike(x); }
      case Obj(m) =>
        SameOrderWithoutSurrogates(m.Keys);
        forall k | k in m ensures ListedAlike(m[k]) { PlainIsListedAlike(m[k]); }
      case _ =>
    }
  }

  /** Where no key has a surrogate the two texts are the same, lawful numbers or not. */
  lemma CanonicalTextsAgree(c: NumberCodec, v: Value)
    requires PlainKeys(v)
    ensures Canon(c, ByCodePoint, v) == Canon(c, ByCodeUnit, v)
  {
    PlainIsListedAlike(v);
    ListedAlikeAgree(c, v);
  }

  const BMP_KEY: Text := [0xE000]
  const PAIR_KEY: Text := [0xD800, 0xDC00]

  /** U+10000 sorts after U+E000 by code point and before it by unit. */
  lemma PairsSortApart()
    ensures Before(ByCodePoint, BMP_KEY, PAIR_KEY) && Before(ByCodeUnit, PAIR_KEY, BMP_KEY)
  {
    assert CodePoints(PAIR_KEY) == [0x10000] + CodePoints(PAIR_KEY[2..]);
    assert PAIR_KEY[2..] == [];
    assert CodePoints(BMP_KEY) == [0xE000] + CodePoints(BMP_KEY[1..]);
  }

  /** A mapping with those two keys has two different canonical texts. */
  lemma CanonicalTextsCanDiffer(c: NumberCodec)
    requires Lawful(c)
    ensures var v := Obj(map[BMP_KEY := Null, PAIR_KEY := Null]);
      Canon(c, ByCodePoint, v) != Canon(c, ByCodeUnit, v)
  {
    var v := Obj(map[BMP_KEY := Null, PAIR_KEY := Null]);
    var s := v.m.Keys;
    PairsSortApart();
    assert s == {BMP_KEY, PAIR_KEY};
    assert |s| == 2;
    var js, ks := SortedKeys(ByCodePoint, s), SortedKeys(ByCodeUnit, s);
    assert js[0] in s && js[1] in s && ks[0] in s && ks[1] in s;
    assert Before(ByCodePoint, js[0], js[1]) && Before(ByCodeUnit, ks[0], ks[1]);
    BothWays(js[0], js[1]);
    CanonicalTextsAgreeExactly(c, v);
  }

  lemma BothWays(a: Text, b: Text)
    requires a in {BMP_KEY, PAIR_KEY} && b in {BMP_KEY, PAIR_KEY}
    ensures !(Before(ByCodePoint, a, b) && Before(ByCodeUnit, a, b))
  {
    PairsSortApart();
    BeforeTotal(ByCodePoint, a, b);
    BeforeTotal(ByCodeUnit, a, b);
  }
}
