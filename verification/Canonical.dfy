/** Canonical JSON text, for both key orders in the repository, and its round trip
    through the strict parser. */
module Canonical {
  import opened Text
  import opened Values
  import opened Grammar
  import opened JsonReader
  import opened JsonTheorems

  // ---------------------------------------------------------------- strings

  function LowerHex(n: int): (u: CodeUnit)
    requires 0 <= n < 16
    ensures IsHex(u) && HexValue(u) == n
  {
    if n < 10 then 0x30 + n else 0x57 + n
  }

  function UnicodeEscape(u: CodeUnit): Text {
    [0x5C, 0x75, LowerHex(u / 0x10 / 0x10 / 0x10), LowerHex(u / 0x10 / 0x10 % 0x10), LowerHex(u / 0x10 % 0x10), LowerHex(u % 0x10)]
  }

  /** How `JSON.stringify` writes one unit that is not half of a surrogate pair. */
  function QuoteUnit(u: CodeUnit): Text {
    if u == 0x22 || u == 0x5C then [0x5C, u]
    else if u == 0x08 then [0x5C, 0x62]
    else if u == 0x09 then [0x5C, 0x74]
    else if u == 0x0A then [0x5C, 0x6E]
    else if u == 0x0C then [0x5C, 0x66]
    else if u == 0x0D then [0x5C, 0x72]
    else if u < 0x20 || IsHigh(u) || IsLow(u) then UnicodeEscape(u)
    else [u]
  }

  function QuoteBody(s: Text): Text {
    if s == [] then []
    else if StartsWithPair(s) then [s[0], s[1]] + QuoteBody(s[2..])
    else QuoteUnit(s[0]) + QuoteBody(s[1..])
  }

  /** `JSON.stringify` on a string. */
  function Quote(s: Text): Text { [0x22] + (QuoteBody(s) + [0x22]) }

  // ---------------------------------------------------------------- values

  /** `parts.join(',')` */
  function Join(parts: seq<Text>): Text {
    if parts == [] then []
    else if |parts| == 1 then parts[0]
    else parts[0] + ([0x2C] + Join(parts[1..]))
  }

  /** Canonical text: no white space, keys in the given order. With `ByCodeUnit` this is
      RFC 8785 text, with `ByCodePoint` the YOps `canonicalKey`. */
  function Canon(c: NumberCodec, o: KeyOrder, v: Value): Text
    decreases v
  {
    match v
    case Null => [0x6E, 0x75, 0x6C, 0x6C]
    case Bool(b) => if b then [0x74, 0x72, 0x75, 0x65] else [0x66, 0x61, 0x6C, 0x73, 0x65]
    case Num(r) => c.show(r)
    case Str(s) => Quote(s)
    case Arr(items) => [0x5B] + (Join(CanonItems(c, o, items)) + [0x5D])
    case Obj(m) => [0x7B] + (Join(CanonEntries(c, o, v, SortedKeys(o, m.Keys))) + [0x7D])
  }

  function CanonItems(c: NumberCodec, o: KeyOrder, items: seq<Value>): (parts: seq<Text>)
    ensures |parts| == |items|
    decreases items
  {
    if items == [] then [] else [Canon(c, o, items[0])] + CanonItems(c, o, items[1..])
  }

  function CanonEntry(c: NumberCodec, o: KeyOrder, v: Value, k: Text): Text
    requires v.Obj? && k in v.m
    decreases v, 0
  {
    Quote(k) + ([0x3A] + Canon(c, o, v.m[k]))
  }

  function CanonEntries(c: NumberCodec, o: KeyOrder, v: Value, ks: seq<Text>): (parts: seq<Text>)
    requires v.Obj? && forall k <- ks :: k in v.m
    ensures |parts| == |ks|
    decreases v, |ks| + 1
  {
    if ks == [] then [] else [CanonEntry(c, o, v, ks[0])] + CanonEntries(c, o, v, ks[1..])
  }

  // ---------------------------------------------------------------- strings read back

  lemma HexDigitsOf(u: CodeUnit)
    ensures HexUnit(LowerHex(u / 0x10 / 0x10 / 0x10), LowerHex(u / 0x10 / 0x10 % 0x10), LowerHex(u / 0x10 % 0x10), LowerHex(u % 0x10)) == u
  {}

  function QuoteChar(u: CodeUnit): (ch: Char)
    ensures CharOk(ch) && CharText(ch) == QuoteUnit(u)
  {
    if u == 0x22 || u == 0x5C then Escape(u)
    else if u == 0x08 then Escape(0x62)
    else if u == 0x09 then Escape(0x74)
    else if u == 0x0A then Escape(0x6E)
    else if u == 0x0C then Escape(0x66)
    else if u == 0x0D then Escape(0x72)
    else if u < 0x20 || IsHigh(u) || IsLow(u) then
      Unicode(LowerHex(u / 0x10 / 0x10 / 0x10), LowerHex(u / 0x10 / 0x10 % 0x10), LowerHex(u / 0x10 % 0x10), LowerHex(u % 0x10))
    else Plain(u)
  }

  lemma QuoteCharMeaning(u: CodeUnit)
    ensures CharMeaning(QuoteChar(u)) == u
  {
    HexDigitsOf(u);
  }

  lemma CharsPush(c: Char, cs: seq<Char>, rest: Text)
    requires CharOk(c) && CharsOk(cs)
    ensures CharsOk([c] + cs)
    ensures CharsText([c] + cs, rest) == CharText(c) + CharsText(cs, rest)
    ensures CharsMeaning([c] + cs) == [CharMeaning(c)] + CharsMeaning(cs)
  {
    assert ([c] + cs)[1..] == cs;
  }

  lemma {:induction false} QuoteBodyDerives(s: Text, rest: Text) returns (cs: seq<Char>)
    ensures CharsOk(cs) && CharsText(cs, rest) == QuoteBody(s) + rest && CharsMeaning(cs) == s
  {
    if s == [] {
      cs := [];
    } else if StartsWithPair(s) {
      var more := QuoteBodyDerives(s[2..], rest);
      CharsPush(Plain(s[1]), more, rest);
      CharsPush(Plain(s[0]), [Plain(s[1])] + more, rest);
      cs := [Plain(s[0])] + ([Plain(s[1])] + more);
      assert [s[0], s[1]] + QuoteBody(s[2..]) == [s[0]] + ([s[1]] + QuoteBody(s[2..]));
      Regroup([s[1]], QuoteBody(s[2..]), rest);
      Regroup([s[0]], [s[1]] + QuoteBody(s[2..]), rest);
      assert s == [s[0]] + ([s[1]] + s[2..]);
    } else {
      var more := QuoteBodyDerives(s[1..], rest);
      QuoteCharMeaning(s[0]);
      CharsPush(QuoteChar(s[0]), more, rest);
      cs := [QuoteChar(s[0])] + more;
      Regroup(QuoteUnit(s[0]), QuoteBody(s[1..]), rest);
      HeadAndTail(s);
    }
  }

  lemma QuoteDerives(s: Text, rest: Text) returns (cs: seq<Char>)
    ensures CharsOk(cs) && StringText(cs, rest) == Quote(s) + rest && CharsMeaning(cs) == s
  {
    cs := QuoteBodyDerives(s, [0x22] + rest);
    Regroup(QuoteBody(s), [0x22], rest);
    Regroup([0x22], QuoteBody(s) + [0x22], rest);
  }

  // ---------------------------------------------------------------- values read back

  lemma Bracket(left: CodeUnit, body: Text, right: CodeUnit, rest: Text)
    ensures ([left] + (body + [right])) + rest == [left] + ([] + (body + ([right] + rest)))
  {
    Regroup([left], body + [right], rest);
    Regroup(body, [right], rest);
    NoSpace(body + ([right] + rest));
  }

  /** The canonical text of a value is derivable, and derives that value. */
  lemma {:induction false} CanonDerives(rd: Reader, o: KeyOrder, v: Value, rest: Text) returns (t: Tree)
    requires Lawful(rd.num) && Finite(rd.num, v) && (rd.unicode ==> Paired(v))
    ensures Derivable(t) && Allowed(rd, t) && Meaning(rd, t) == v
    ensures TreeText(t, rest) == Canon(rd.num, o, v) + rest
    ensures t.TNumber? ==> v.Num?
    decreases v, 2
  {
    match v {
      case Null => t := TNull;
      case Bool(b) => t := if b then TTrue else TFalse;
      case Num(r) =>
        var n :| NumberOk(n) && NumberText(n) == rd.num.show(r);
        t := TNumber(n);
      case Str(s) =>
        var cs := QuoteDerives(s, rest);
        t := TString(cs);
      case Arr(items) => t := ArrayDerives(rd, o, items, rest);
      case Obj(m) => t := ObjectDerives(rd, o, v, rest);
    }
  }

  lemma {:induction false} ArrayDerives(rd: Reader, o: KeyOrder, items: seq<Value>, rest: Text) returns (t: Tree)
    requires Lawful(rd.num)
    requires forall x <- items :: Finite(rd.num, x) && (rd.unicode ==> Paired(x))
    ensures Derivable(t) && Allowed(rd, t) && Meaning(rd, t) == Arr(items) && !t.TNumber?
    ensures TreeText(t, rest) == Canon(rd.num, o, Arr(items)) + rest
    decreases items, 1
  {
    Bracket(0x5B, Join(CanonItems(rd.num, o, items)), 0x5D, rest);
    if items == [] {
      NoSpace([0x5D] + rest);
      t := TNoItems([]);
    } else {
      var its := ItemsDerive(rd, o, items, rest);
      t := TItems([], its);
    }
  }

  lemma {:induction false} ObjectDerives(rd: Reader, o: KeyOrder, v: Value, rest: Text) returns (t: Tree)
    requires Lawful(rd.num) && v.Obj? && Finite(rd.num, v) && (rd.unicode ==> Paired(v))
    ensures Derivable(t) && Allowed(rd, t) && Meaning(rd, t) == v && !t.TNumber?
    ensures TreeText(t, rest) == Canon(rd.num, o, v) + rest
    decreases v, 1, 0
  {
    hide Derivable, Allowed, Meaning, TreeText, SortedKeys;
    var ks := SortedKeys(o, v.m.Keys);
    var body := Join(CanonEntries(rd.num, o, v, ks));
    Bracket(0x7B, body, 0x7D, rest);
    NoSpace(body + ([0x7D] + rest));
    if ks == [] {
      assert CanonEntries(rd.num, o, v, ks) == [];
      t := EmptyDerives(rd, v, rest);
    } else {
      t := NonEmptyDerives(rd, o, v, ks, rest);
    }
  }

  lemma EmptyDerives(rd: Reader, v: Value, rest: Text) returns (t: Tree)
    requires v.Obj? && |v.m| == 0
    ensures Derivable(t) && Allowed(rd, t) && Meaning(rd, t) == v && !t.TNumber?
    ensures TreeText(t, rest) == [0x7B] + ([] + ([0x7D] + rest))
  {
    assert v.m == map[];
    NoSpace([0x7D] + rest);
    t := TNoMembers([]);
  }

  lemma {:induction false} NonEmptyDerives(rd: Reader, o: KeyOrder, v: Value, ks: seq<Text>, rest: Text) returns (t: Tree)
    requires Lawful(rd.num) && v.Obj? && Finite(rd.num, v) && (rd.unicode ==> Paired(v))
    requires ks == SortedKeys(o, v.m.Keys) && ks != []
    ensures Derivable(t) && Allowed(rd, t) && Meaning(rd, t) == v && !t.TNumber?
    ensures TreeText(t, rest) == [0x7B] + (Join(CanonEntries(rd.num, o, v, ks)) + ([0x7D] + rest))
    decreases v, 0, |ks| + 1
  {
    KeysDistinct(o, ks);
    var none: map<Text, Value> := map[];
    assert none.Keys == {};
    var ms := MembersDerive(rd, o, v, ks, none, rest);
    assert none + Restrict(v.m, ks) == v.m;
    NoSpace(MembersText(ms, rest));
    t := TMembers([], ms);
    assert Meaning(rd, t) == Obj(MembersMeaning(rd, ms, none));
  }

  predicate Distinct(ks: seq<Text>) { forall i, j | 0 <= i < j < |ks| :: ks[i] != ks[j] }

  lemma KeysDistinct(o: KeyOrder, ks: seq<Text>)
    requires StrictlySorted(o, ks)
    ensures Distinct(ks)
  {
    forall i, j | 0 <= i < j < |ks| ensures ks[i] != ks[j] {
      BeforeTotal(o, ks[i], ks[j]);
    }
  }

  lemma NoSpace(t: Text)
    ensures [] + t == t
  {}

  lemma JoinMore(part: Text, parts: seq<Text>, close: Text)
    requires parts != []
    ensures Join([part] + parts) + close == part + ([0x2C] + (Join(parts) + close))
  {
    assert ([part] + parts)[1..] == parts;
    Regroup([0x2C], Join(parts), close);
    Regroup(part, [0x2C] + Join(parts), close);
  }

  lemma {:induction false} ItemsDerive(rd: Reader, o: KeyOrder, items: seq<Value>, rest: Text) returns (its: Items)
    requires Lawful(rd.num) && items != []
    requires forall x <- items :: Finite(rd.num, x) && (rd.unicode ==> Paired(x))
    ensures DerivableItems(its) && AllowedItems(rd, its) && ItemsMeaning(rd, its) == items
    ensures ItemsText(its, rest) == Join(CanonItems(rd.num, o, items)) + ([0x5D] + rest)
    decreases items, 0
  {
    var close := [0x5D] + rest;
    if |items| == 1 {
      var v := CanonDerives(rd, o, items[0], close);
      NoSpace(close);
      its := LastItem(v, []);
      assert CanonItems(rd.num, o, items) == [Canon(rd.num, o, items[0])];
    } else {
      var more := ItemsDerive(rd, o, items[1..], rest);
      var next := [0x2C] + ItemsText(more, rest);
      var v := CanonDerives(rd, o, items[0], next);
      NoSpace(ItemsText(more, rest));
      NoSpace(next);
      its := MoreItems(v, [], [], more);
      JoinMore(Canon(rd.num, o, items[0]), CanonItems(rd.num, o, items[1..]), close);
    }
  }

  lemma {:induction false} MemberDerives(rd: Reader, o: KeyOrder, v: Value, k: Text, next: Text)
    returns (cs: seq<Char>, t: Tree)
    requires Lawful(rd.num) && v.Obj? && Finite(rd.num, v) && (rd.unicode ==> Paired(v)) && k in v.m
    ensures CharsOk(cs) && CharsMeaning(cs) == k && StringAllowed(rd, k)
    ensures Derivable(t) && Allowed(rd, t) && Meaning(rd, t) == v.m[k]
    ensures StringText(cs, [] + ([0x3A] + ([] + TreeText(t, [] + next)))) == CanonEntry(rd.num, o, v, k) + next
    decreases v, 0, 0
  {
    t := CanonDerives(rd, o, v.m[k], next);
    NoSpace(next);
    NoSpace(TreeText(t, next));
    NoSpace([0x3A] + TreeText(t, next));
    cs := QuoteDerives(k, [0x3A] + TreeText(t, next));
    Regroup([0x3A], Canon(rd.num, o, v.m[k]), next);
    Regroup(Quote(k), [0x3A] + Canon(rd.num, o, v.m[k]), next);
  }

  lemma {:induction false} MembersDerive(rd: Reader, o: KeyOrder, v: Value, ks: seq<Text>, sofar: map<Text, Value>, rest: Text)
    returns (ms: Members)
    requires Lawful(rd.num) && v.Obj? && Finite(rd.num, v) && (rd.unicode ==> Paired(v))
    requires ks != [] && Distinct(ks) && forall k <- ks :: k in v.m && k !in sofar
    ensures DerivableMembers(ms) && AllowedMembers(rd, ms, sofar.Keys)
    ensures MembersMeaning(rd, ms, sofar) == sofar + Restrict(v.m, ks)
    ensures MembersText(ms, rest) == Join(CanonEntries(rd.num, o, v, ks)) + ([0x7D] + rest)
    decreases v, 0, |ks|
  {
    var k := ks[0];
    var now := sofar[k := v.m[k]];
    var close := [0x7D] + rest;
    if |ks| == 1 {
      var cs, t := MemberDerives(rd, o, v, k, close);
      ms := LastMember(cs, [], [], t, []);
      LastMemberFits(rd, ms, sofar, rest);
      assert CanonEntries(rd.num, o, v, ks) == [CanonEntry(rd.num, o, v, k)];
      assert sofar + Restrict(v.m, ks) == now;
    } else {
      DistinctTail(ks);
      var more := MembersDerive(rd, o, v, ks[1..], now, rest);
      var next := [0x2C] + MembersText(more, rest);
      NoSpace(MembersText(more, rest));
      var cs, t := MemberDerives(rd, o, v, k, next);
      ms := MoreMembers(cs, [], [], t, [], [], more);
      MoreMembersFit(rd, ms, sofar, rest);
      JoinMore(CanonEntry(rd.num, o, v, k), CanonEntries(rd.num, o, v, ks[1..]), close);
      RestrictHead(v.m, ks, sofar);
    }
  }

  function Restrict(m: map<Text, Value>, ks: seq<Text>): map<Text, Value> {
    map k | k in m && k in ks :: m[k]
  }

  lemma DistinctTail(ks: seq<Text>)
    requires ks != [] && Distinct(ks)
    ensures Distinct(ks[1..]) && forall j <- ks[1..] :: j in ks && j != ks[0]
  {}

  lemma RestrictHead(m: map<Text, Value>, ks: seq<Text>, sofar: map<Text, Value>)
    requires ks != [] && ks[0] in m && ks[0] !in sofar && forall j <- ks[1..] :: j !in sofar && j != ks[0]
    ensures sofar[ks[0] := m[ks[0]]] + Restrict(m, ks[1..]) == sofar + Restrict(m, ks)
  {
    HeadAndTailOf(ks);
  }

  lemma HeadAndTailOf(ks: seq<Text>)
    requires ks != []
    ensures forall k :: k in ks <==> k == ks[0] || k in ks[1..]
  {
    assert ks == [ks[0]] + ks[1..];
  }

  // ---------------------------------------------------------------- the round trip

  /** Parsing the canonical text of a value gives back that value. */
  lemma ParseOfCanonical(rd: Reader, o: KeyOrder, v: Value)
    requires Lawful(rd.num) && Finite(rd.num, v) && (rd.unicode ==> Paired(v))
    ensures ReadDocument(rd, Canon(rd.num, o, v)) == Got(v, [])
  {
    var t := CanonDerives(rd, o, v, []);
    var d := Document([], t, []);
    assert DocumentText(d) == Canon(rd.num, o, v);
    DocumentComplete(rd, d);
  }

  /** Canonical texts are equal exactly when the values are, whatever surrogates the
      strings contain. */
  lemma CanonicalTextIdentifiesValue(c: NumberCodec, o: KeyOrder, v: Value, w: Value)
    requires Lawful(c) && Finite(c, v) && Finite(c, w)
    ensures Canon(c, o, v) == Canon(c, o, w) <==> v == w
  {
    ParseOfCanonical(Reader(c, false), o, v);
    ParseOfCanonical(Reader(c, false), o, w);
  }

  // ---------------------------------------------------------------- what the parser answers

  lemma {:induction false} MeaningInDomain(rd: Reader, t: Tree)
    requires Lawful(rd.num) && Derivable(t) && Allowed(rd, t)
    ensures Finite(rd.num, Meaning(rd, t)) && (rd.unicode ==> Paired(Meaning(rd, t)))
    decreases t
  {
    match t {
      case TItems(_, items) => ItemsInDomain(rd, items);
      case TMembers(_, ms) =>
        var none: map<Text, Value> := map[];
        assert none.Keys == {};
        MembersInDomain(rd, ms, none);
        assert Meaning(rd, t) == Obj(MembersMeaning(rd, ms, none));
      case _ =>
    }
  }

  lemma {:induction false} ItemsInDomain(rd: Reader, it: Items)
    requires Lawful(rd.num) && DerivableItems(it) && AllowedItems(rd, it)
    ensures forall x <- ItemsMeaning(rd, it) :: Finite(rd.num, x) && (rd.unicode ==> Paired(x))
    decreases it
  {
    MeaningInDomain(rd, it.v);
    if it.MoreItems? {
      ItemsInDomain(rd, it.rest);
    }
  }

  predicate EntriesInDomain(rd: Reader, m: map<Text, Value>) {
    forall k <- m :: Finite(rd.num, m[k]) && (rd.unicode ==> WellFormed(k) && Paired(m[k]))
  }

  lemma EntriesPush(rd: Reader, m: map<Text, Value>, k: Text, v: Value)
    requires EntriesInDomain(rd, m) && Finite(rd.num, v) && (rd.unicode ==> WellFormed(k) && Paired(v))
    ensures EntriesInDomain(rd, m[k := v]) && m[k := v].Keys == m.Keys + {k}
  {}

  lemma {:induction false} MembersInDomain(rd: Reader, ms: Members, sofar: map<Text, Value>)
    requires Lawful(rd.num) && DerivableMembers(ms) && AllowedMembers(rd, ms, sofar.Keys)
    requires EntriesInDomain(rd, sofar)
    ensures EntriesInDomain(rd, MembersMeaning(rd, ms, sofar))
    decreases ms
  {
    MeaningInDomain(rd, ms.v);
    EntriesPush(rd, sofar, CharsMeaning(ms.key), Meaning(rd, ms.v));
    var now := sofar[CharsMeaning(ms.key) := Meaning(rd, ms.v)];
    if ms.MoreMembers? {
      MembersInDomain(rd, ms.rest, now);
      assert MembersMeaning(rd, ms, sofar) == MembersMeaning(rd, ms.rest, now);
    } else {
      assert MembersMeaning(rd, ms, sofar) == now;
    }
  }

  /** Whatever the strict parser accepts lies in the I-JSON domain, so it has a canonical
      text, and parsing that text again gives the same value. */
  lemma AcceptedValuesAreCanonicalizable(c: NumberCodec, o: KeyOrder, s: Text)
    requires Lawful(c) && ReadDocument(Reader(c, true), s).Got?
    ensures var v := ReadDocument(Reader(c, true), s).value;
      InDomain(c, v) && ReadDocument(Reader(c, true), Canon(c, o, v)) == Got(v, [])
  {
    var rd := Reader(c, true);
    var d := DocumentSound(rd, s);
    MeaningInDomain(rd, d.t);
    ParseOfCanonical(rd, o, Meaning(rd, d.t));
  }

  /** Canonicalizing after parsing is the identity on canonical texts, and only on them. */
  lemma CanonicalizeAfterParse(c: NumberCodec, o: KeyOrder, s: Text)
    requires Lawful(c) && ReadDocument(Reader(c, true), s).Got?
    ensures Canon(c, o, ReadDocument(Reader(c, true), s).value) == s
      <==> exists v :: InDomain(c, v) && Canon(c, o, v) == s
  {
    AcceptedValuesAreCanonicalizable(c, o, s);
    var v := ReadDocument(Reader(c, true), s).value;
    assert Canon(c, o, v) == s ==> InDomain(c, v) && Canon(c, o, v) == s;
    forall w | InDomain(c, w) && Canon(c, o, w) == s ensures w == v {
      ParseOfCanonical(Reader(c, true), o, w);
    }
  }
}
