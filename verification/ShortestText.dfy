/** Canonical text is the shortest way to write a value: no derivation of the value is
    shorter, and one as short that lists keys in order and writes hexadecimal digits in
    lower case is the same text (RFC 8785, section 3.2). */
module ShortestText {
  import opened Text
  import opened Values
  import opened Grammar
  import opened JsonTheorems
  import opened Canonical
  import opened OrderedJson

  // ---------------------------------------------------------------- one character

  predicate IsLowerDigit(u: int) { 0x30 <= u <= 0x39 || 0x61 <= u <= 0x66 }

  predicate LowerChar(ch: Char) {
    ch.Unicode? ==> IsLowerDigit(ch.h0) && IsLowerDigit(ch.h1) && IsLowerDigit(ch.h2) && IsLowerDigit(ch.h3)
  }

  predicate LowerChars(cs: seq<Char>) { forall i | 0 <= i < |cs| :: LowerChar(cs[i]) }

  /** No way to write a unit is shorter than the canonical one, and with digits in lower case
      none that is as short is another. Half of a surrogate pair is never written raw. */
  lemma UnitIsShortest(ch: Char)
    requires CharOk(ch) && (ch.Plain? ==> !IsHigh(ch.u) && !IsLow(ch.u))
    ensures |QuoteUnit(CharMeaning(ch))| <= |CharText(ch)|
    ensures |QuoteUnit(CharMeaning(ch))| == |CharText(ch)| && LowerChar(ch) ==> CharText(ch) == QuoteUnit(CharMeaning(ch))
  {
    if ch.Unicode? && LowerChar(ch) {
      var u := CharMeaning(ch);
      HexDigitsOf(u);
      LowerDigits(ch.h0, ch.h1, ch.h2, ch.h3);
    }
  }

  lemma LowerDigit(a: CodeUnit)
    requires IsLowerDigit(a)
    ensures IsHex(a) && LowerHex(HexValue(a)) == a
  {}

  lemma Digits(w: int, x: int, y: int, z: int)
    requires 0 <= w < 0x10 && 0 <= x < 0x10 && 0 <= y < 0x10 && 0 <= z < 0x10
    ensures var u := w * 0x1000 + x * 0x100 + y * 0x10 + z;
      u / 0x10 / 0x10 / 0x10 == w && u / 0x10 / 0x10 % 0x10 == x && u / 0x10 % 0x10 == y && u % 0x10 == z
  {}

  lemma LowerDigits(a: CodeUnit, b: CodeUnit, c: CodeUnit, d: CodeUnit)
    requires IsLowerDigit(a) && IsLowerDigit(b) && IsLowerDigit(c) && IsLowerDigit(d)
    ensures UnicodeEscape(HexUnit(a, b, c, d)) == [0x5C, 0x75, a, b, c, d]
  {
    hide LowerHex, HexValue;
    LowerDigit(a);
    LowerDigit(b);
    LowerDigit(c);
    LowerDigit(d);
    Digits(HexValue(a), HexValue(b), HexValue(c), HexValue(d));
  }

  // ---------------------------------------------------------------- strings

  /** No half of a surrogate pair stands alone, in the text or at least in what it means. */
  predicate HalvesPaired(cs: seq<Char>)
    requires CharsOk(cs)
  {
    WellFormed(CharsText(cs, [])) || WellFormed(CharsMeaning(cs))
  }

  lemma {:induction false} WellFormedAfter(p: Text, t: Text)
    requires NoSurrogates(p) && WellFormed(p + t)
    ensures WellFormed(t)
  {
    if p == [] {
      assert p + t == t;
    } else {
      assert (p + t)[0] == p[0] && p[0] in p && (p + t)[1..] == p[1..] + t;
      WellFormedAfter(p[1..], t);
    }
  }

  lemma CharNoSurrogates(ch: Char)
    requires CharOk(ch) && (ch.Plain? ==> !IsHigh(ch.u) && !IsLow(ch.u))
    ensures NoSurrogates(CharText(ch))
  {}

  /** Half of a pair written raw and not followed by the other half is alone in the text as
      well as in the meaning. */
  lemma RawHalfIsAlone(cs: seq<Char>)
    requires CharsOk(cs) && cs != [] && cs[0].Plain? && (IsHigh(cs[0].u) || IsLow(cs[0].u))
    requires !StartsWithPair(CharsMeaning(cs))
    ensures !HalvesPaired(cs)
  {
    var s, text, more := CharsMeaning(cs), CharsText(cs, []), CharsText(cs[1..], []);
    assert text == [cs[0].u] + more && text[0] == cs[0].u && text[1..] == more;
    assert s[0] == cs[0].u && s[1..] == CharsMeaning(cs[1..]);
    if more != [] && IsLow(more[0]) {
      RawLow(cs[1..]);
    }
  }

  /** Where the meaning does not start with a pair, its first unit is not written raw if it
      is half of one. */
  lemma FirstNotRaw(cs: seq<Char>)
    requires CharsOk(cs) && cs != [] && HalvesPaired(cs) && !StartsWithPair(CharsMeaning(cs))
    ensures cs[0].Plain? ==> !IsHigh(cs[0].u) && !IsLow(cs[0].u)
    ensures HalvesPaired(cs[1..])
  {
    var s := CharsMeaning(cs);
    assert s[1..] == CharsMeaning(cs[1..]);
    if cs[0].Plain? && (IsHigh(cs[0].u) || IsLow(cs[0].u)) {
      RawHalfIsAlone(cs);
      assert false;
    }
    CharNoSurrogates(cs[0]);
    if WellFormed(CharsText(cs, [])) {
      WellFormedAfter(CharText(cs[0]), CharsText(cs[1..], []));
    }
  }

  lemma RawLow(cs: seq<Char>)
    requires CharsOk(cs) && cs != [] && IsLow(CharsText(cs, [])[0])
    ensures cs[0].Plain? && IsLow(CharsMeaning(cs)[0])
  {
    assert CharsText(cs, [])[0] == CharText(cs[0])[0];
  }

  lemma TwoChars(cs: seq<Char>)
    requires |cs| > 1
    ensures forall rest :: CharsText(cs, rest) == CharText(cs[0]) + (CharText(cs[1]) + CharsText(cs[2..], rest))
  {
    var one := cs[1..];
    assert one[0] == cs[1] && one[1..] == cs[2..];
    forall rest ensures CharsText(cs, rest) == CharText(cs[0]) + (CharText(cs[1]) + CharsText(cs[2..], rest)) {
      assert CharsText(one, rest) == CharText(cs[1]) + CharsText(cs[2..], rest);
    }
  }

  lemma TwoMeant(cs: seq<Char>)
    requires CharsOk(cs) && |CharsMeaning(cs)| > 1
    ensures |cs| > 1 && CharsMeaning(cs)[0] == CharMeaning(cs[0]) && CharsMeaning(cs)[1] == CharMeaning(cs[1])
    ensures CharsMeaning(cs)[2..] == CharsMeaning(cs[2..])
  {
    hide CharMeaning, CharOk;
    var one := cs[1..];
    assert CharsMeaning(cs)[1..] == CharsMeaning(one);
    assert one != [] && one[0] == cs[1] && one[1..] == cs[2..];
    assert CharsMeaning(one)[1..] == CharsMeaning(one[1..]);
  }

  lemma AfterPair(cs: seq<Char>)
    requires CharsOk(cs) && HalvesPaired(cs) && StartsWithPair(CharsMeaning(cs))
    ensures |cs| > 1 && HalvesPaired(cs[2..]) && CharsMeaning(cs)[2..] == CharsMeaning(cs[2..])
    ensures forall rest :: CharsText(cs, rest) == CharText(cs[0]) + (CharText(cs[1]) + CharsText(cs[2..], rest))
  {
    hide CharsText, CharText, CharMeaning, CharOk, CharsMeaning;
    TwoMeant(cs);
    TwoChars(cs);
    if WellFormed(CharsText(cs, [])) {
      hide WellFormed;
      TextAfterPair(cs[0], cs[1], CharsText(cs[2..], []));
    }
  }

  lemma TextAfterPair(a: Char, b: Char, t: Text)
    requires CharOk(a) && CharOk(b) && IsHigh(CharMeaning(a)) && IsLow(CharMeaning(b))
    requires WellFormed(CharText(a) + (CharText(b) + t))
    ensures WellFormed(t)
  {
    var text := CharText(a) + (CharText(b) + t);
    if a.Plain? {
      assert text[0] == a.u && text[1] == CharText(b)[0];
      assert b.Plain?;
      assert text[2..] == t;
    } else {
      CharNoSurrogates(a);
      WellFormedAfter(CharText(a), CharText(b) + t);
      assert (CharText(b) + t)[0] == CharText(b)[0];
      if !b.Plain? {
        CharNoSurrogates(b);
        WellFormedAfter(CharText(b), t);
      }
    }
  }

  /** No way to write a string is shorter than the canonical one, and one that is as short
      is the same, up to the case of hexadecimal digits. */
  lemma {:induction false} BodyIsShortest(cs: seq<Char>, rest: Text)
    requires CharsOk(cs) && HalvesPaired(cs)
    ensures |QuoteBody(CharsMeaning(cs))| + |rest| <= |CharsText(cs, rest)|
    ensures |QuoteBody(CharsMeaning(cs))| + |rest| == |CharsText(cs, rest)| && LowerChars(cs)
      ==> CharsText(cs, rest) == QuoteBody(CharsMeaning(cs)) + rest
    decreases |cs|
  {
    hide QuoteUnit, HalvesPaired;
    var s := CharsMeaning(cs);
    if cs != [] {
      if StartsWithPair(s) {
        AfterPair(cs);
        BodyIsShortest(cs[2..], rest);
        assert CharMeaning(cs[0]) == s[0] && CharMeaning(cs[1]) == s[1] by { assert s[1..] == CharsMeaning(cs[1..]); }
        PairText(cs[0], cs[1], QuoteBody(s[2..]), rest);
      } else {
        FirstNotRaw(cs);
        assert s[1..] == CharsMeaning(cs[1..]) && s[0] == CharMeaning(cs[0]);
        UnitIsShortest(cs[0]);
        BodyIsShortest(cs[1..], rest);
        Regroup(QuoteUnit(s[0]), QuoteBody(s[1..]), rest);
      }
    }
  }

  lemma PairText(a: Char, b: Char, body: Text, rest: Text)
    requires CharOk(a) && CharOk(b)
    ensures |CharText(a)| + |CharText(b)| == 2 ==>
      CharText(a) + (CharText(b) + (body + rest)) == ([CharMeaning(a), CharMeaning(b)] + body) + rest
    ensures |CharText(a)| + |CharText(b)| >= 2
  {}

  // ---------------------------------------------------------------- trees

  predicate FairChars(cs: seq<Char>) { CharsOk(cs) && HalvesPaired(cs) }

  /** Numbers are written as they are printed, and no half of a surrogate pair is written
      raw. */
  predicate Fair(rd: Reader, t: Tree)
    requires Derivable(t)
  {
    match t
    case TNumber(n) => var r := rd.num.read(NumberText(n)); r.Some? && NumberText(n) == rd.num.show(r.value)
    case TString(cs) => FairChars(cs)
    case TItems(_, items) => FairItems(rd, items)
    case TMembers(_, ms) => FairMembers(rd, ms)
    case _ => true
  }

  predicate FairItems(rd: Reader, it: Items)
    requires DerivableItems(it)
  {
    Fair(rd, it.v) && (it.MoreItems? ==> FairItems(rd, it.rest))
  }

  predicate FairMembers(rd: Reader, ms: Members)
    requires DerivableMembers(ms)
  {
    FairChars(ms.key) && Fair(rd, ms.v) && (ms.MoreMembers? ==> FairMembers(rd, ms.rest))
  }

  function MemberKeys(ms: Members): seq<Text>
    requires DerivableMembers(ms)
  {
    [CharsMeaning(ms.key)] + if ms.LastMember? then [] else MemberKeys(ms.rest)
  }

  /** Each key comes before every later one, by code units or by code points. */
  predicate Ascend(o: KeyOrder, ks: seq<Text>) {
    forall i, j | 0 <= i < j < |ks| ::
      if o == ByCodeUnit then ComesBefore(ks[i], ks[j]) else ComesBefore(CodePoints(ks[i]), CodePoints(ks[j]))
  }

  /** Keys stand in order and hexadecimal digits are in lower case. */
  predicate Neat(o: KeyOrder, t: Tree)
    requires Derivable(t)
  {
    match t
    case TString(cs) => LowerChars(cs)
    case TItems(_, items) => NeatItems(o, items)
    case TMembers(_, ms) => Ascend(o, MemberKeys(ms)) && NeatMembers(o, ms)
    case _ => true
  }

  predicate NeatItems(o: KeyOrder, it: Items)
    requires DerivableItems(it)
  {
    Neat(o, it.v) && (it.MoreItems? ==> NeatItems(o, it.rest))
  }

  predicate NeatMembers(o: KeyOrder, ms: Members)
    requires DerivableMembers(ms)
  {
    LowerChars(ms.key) && Neat(o, ms.v) && (ms.MoreMembers? ==> NeatMembers(o, ms.rest))
  }

  lemma AscendIsSorted(o: KeyOrder, ks: seq<Text>)
    ensures Ascend(o, ks) <==> StrictlySorted(o, ks)
  {
    hide ComesBefore;
    forall i, j | 0 <= i < j < |ks|
      ensures Before(o, ks[i], ks[j]) <==>
        if o == ByCodeUnit then ComesBefore(ks[i], ks[j]) else ComesBefore(CodePoints(ks[i]), CodePoints(ks[j]))
    {
      LexExactly(SortKey(o, ks[i]), SortKey(o, ks[j]));
    }
  }

  // ---------------------------------------------------------------- values

  /** Nothing shorter, and nothing else as short: `told` is the text of a tree, `text` the
      canonical one, both followed by `rest`. */
  predicate AtLeast(told: Text, text: Text, rest: Text, neat: bool) {
    |text| + |rest| <= |told| && (neat && |text| + |rest| == |told| ==> told == text + rest)
  }

  lemma StringIsShortest(cs: seq<Char>, rest: Text)
    requires FairChars(cs)
    ensures AtLeast(StringText(cs, rest), Quote(CharsMeaning(cs)), rest, LowerChars(cs))
  {
    var s := CharsMeaning(cs);
    BodyIsShortest(cs, [0x22] + rest);
    Regroup(QuoteBody(s), [0x22], rest);
    Regroup([0x22], QuoteBody(s) + [0x22], rest);
  }

  lemma AtLeastSpace(w: Text, told: Text, text: Text, rest: Text, neat: bool)
    requires AtLeast(told, text, rest, neat)
    ensures AtLeast(w + told, text, rest, neat)
  {}

  /** A piece followed by another. */
  lemma AtLeastBoth(told: Text, text: Text, next: Text, more: Text, rest: Text, neat: bool, neat': bool)
    requires AtLeast(told, text, next, neat) && AtLeast(next, more, rest, neat')
    ensures AtLeast(told, text + more, rest, neat && neat')
  {
    Regroup(text, more, rest);
  }

  lemma AtLeastUnit(u: CodeUnit, w: Text, told: Text, text: Text, rest: Text, neat: bool)
    requires AtLeast(told, text, rest, neat)
    ensures AtLeast([u] + (w + told), [u] + text, rest, neat)
  {
    Regroup([u], text, rest);
  }

  /** No derivation of a value is shorter than its canonical text, and a neat one that is as
      short is that text. */
  lemma {:induction false} TreeIsShortest(rd: Reader, o: KeyOrder, t: Tree, rest: Text)
    requires Derivable(t) && Allowed(rd, t) && Fair(rd, t)
    ensures AtLeast(TreeText(t, rest), Canon(rd.num, o, Meaning(rd, t)), rest, Neat(o, t))
    decreases t, 1
  {
    hide AtLeast;
    match t {
      case TNull => Itself(Canon(rd.num, o, Null), rest, true);
      case TTrue => Itself(Canon(rd.num, o, Bool(true)), rest, true);
      case TFalse => Itself(Canon(rd.num, o, Bool(false)), rest, true);
      case TNumber(n) => Itself(NumberText(n), rest, true);
      case TString(cs) => StringIsShortest(cs, rest);
      case TNoItems(w) => EmptyIsShortest(0x5B, w, 0x5D, rest);
      case TNoMembers(w) => EmptyIsShortest(0x7B, w, 0x7D, rest);
      case TItems(w, items) =>
        ItemsAreShortest(rd, o, items, rest);
        AtLeastUnit(0x5B, w, ItemsText(items, rest), Join(CanonItems(rd.num, o, ItemsMeaning(rd, items))) + [0x5D], rest, NeatItems(o, items));
      case TMembers(w, ms) => ObjectIsShortest(rd, o, w, ms, rest);
    }
  }

  lemma Itself(text: Text, rest: Text, neat: bool)
    ensures AtLeast(text + rest, text, rest, neat)
  {}

  lemma EmptyIsShortest(left: CodeUnit, w: Text, right: CodeUnit, rest: Text)
    ensures AtLeast([left] + (w + ([right] + rest)), [left] + ([] + [right]), rest, true)
  {}

  lemma {:induction false} ItemsAreShortest(rd: Reader, o: KeyOrder, it: Items, rest: Text)
    requires DerivableItems(it) && AllowedItems(rd, it) && FairItems(rd, it)
    ensures AtLeast(ItemsText(it, rest), Join(CanonItems(rd.num, o, ItemsMeaning(rd, it))) + [0x5D], rest, NeatItems(o, it))
    decreases it, 0
  {
    hide AtLeast;
    var text := Canon(rd.num, o, Meaning(rd, it.v));
    if it.LastItem? {
      var next := [0x5D] + rest;
      TreeIsShortest(rd, o, it.v, it.w + next);
      AtLeastAfter(TreeText(it.v, it.w + next), text, it.w, [0x5D], rest, Neat(o, it.v));
      assert CanonItems(rd.num, o, [Meaning(rd, it.v)]) == [text];
    } else {
      var more := Join(CanonItems(rd.num, o, ItemsMeaning(rd, it.rest))) + [0x5D];
      var next := [0x2C] + (it.w' + ItemsText(it.rest, rest));
      ItemsAreShortest(rd, o, it.rest, rest);
      AtLeastUnit(0x2C, it.w', ItemsText(it.rest, rest), more, rest, NeatItems(o, it.rest));
      TreeIsShortest(rd, o, it.v, it.w + next);
      AtLeastSpace(it.w, next, [0x2C] + more, rest, NeatItems(o, it.rest));
      AtLeastBoth(TreeText(it.v, it.w + next), text, it.w + next, [0x2C] + more, rest, Neat(o, it.v), NeatItems(o, it.rest));
      assert ItemsMeaning(rd, it)[1..] == ItemsMeaning(rd, it.rest);
      JoinMore(text, CanonItems(rd.num, o, ItemsMeaning(rd, it.rest)), [0x5D]);
    }
  }

  lemma AtLeastAfter(told: Text, text: Text, w: Text, close: Text, rest: Text, neat: bool)
    requires AtLeast(told, text, w + (close + rest), neat)
    ensures AtLeast(told, text + close, rest, neat)
  {
    Itself(close, rest, true);
    AtLeastSpace(w, close + rest, close, rest, true);
    AtLeastBoth(told, text, w + (close + rest), close, rest, neat, true);
  }

  /** What the members of an object give, beside what was there. */
  lemma {:induction false} MembersGive(rd: Reader, ms: Members, sofar: map<Text, Value>)
    requires DerivableMembers(ms) && AllowedMembers(rd, ms, sofar.Keys)
    ensures var m, ks := MembersMeaning(rd, ms, sofar), MemberKeys(ms);
      && Distinct(ks) && (forall k :: k in m <==> k in sofar || k in ks) && (forall k <- ks :: k !in sofar)
      && (forall k <- sofar :: m[k] == sofar[k]) && m[ks[0]] == Meaning(rd, ms.v)
    decreases ms
  {
    var k := CharsMeaning(ms.key);
    var now := sofar[k := Meaning(rd, ms.v)];
    if ms.MoreMembers? {
      assert now.Keys == sofar.Keys + {k};
      MembersGive(rd, ms.rest, now);
      var ks, rest := MemberKeys(ms), MemberKeys(ms.rest);
      assert ks == [k] + rest;
      assert k in now && k !in rest;
      assert forall i | 0 <= i < |rest| :: ks[i + 1] == rest[i];
    }
  }

  lemma EntryIsShortest(rd: Reader, o: KeyOrder, ms: Members, m: map<Text, Value>, next: Text)
    requires DerivableMembers(ms) && Allowed(rd, ms.v) && FairChars(ms.key)
    requires CharsMeaning(ms.key) in m && m[CharsMeaning(ms.key)] == Meaning(rd, ms.v)
    requires AtLeast(TreeText(ms.v, ms.w + next), Canon(rd.num, o, Meaning(rd, ms.v)), ms.w + next, Neat(o, ms.v))
    ensures AtLeast(StringText(ms.key, ms.wk + ([0x3A] + (ms.wc + TreeText(ms.v, ms.w + next)))),
      CanonEntry(rd.num, o, Obj(m), CharsMeaning(ms.key)), ms.w + next, LowerChars(ms.key) && Neat(o, ms.v))
  {
    hide AtLeast;
    var told, text := TreeText(ms.v, ms.w + next), Canon(rd.num, o, Meaning(rd, ms.v));
    AtLeastUnit(0x3A, ms.wc, told, text, ms.w + next, Neat(o, ms.v));
    AtLeastSpace(ms.wk, [0x3A] + (ms.wc + told), [0x3A] + text, ms.w + next, Neat(o, ms.v));
    StringIsShortest(ms.key, ms.wk + ([0x3A] + (ms.wc + told)));
    AtLeastBoth(StringText(ms.key, ms.wk + ([0x3A] + (ms.wc + told))), Quote(CharsMeaning(ms.key)), ms.wk + ([0x3A] + (ms.wc + told)),
      [0x3A] + text, ms.w + next, LowerChars(ms.key), Neat(o, ms.v));
  }

  lemma {:induction false} MembersAreShortest(rd: Reader, o: KeyOrder, ms: Members, sofar: map<Text, Value>, rest: Text)
    requires DerivableMembers(ms) && AllowedMembers(rd, ms, sofar.Keys) && FairMembers(rd, ms)
    ensures var m, ks := MembersMeaning(rd, ms, sofar), MemberKeys(ms);
      && (forall k <- ks :: k in m)
      && AtLeast(MembersText(ms, rest), Join(CanonEntries(rd.num, o, Obj(m), ks)) + [0x7D], rest, NeatMembers(o, ms))
    decreases ms, 0
  {
    hide AtLeast, Canon, Meaning;
    var m, k := MembersMeaning(rd, ms, sofar), CharsMeaning(ms.key);
    var entry := CanonEntry(rd.num, o, Obj(m), k) by { MembersGive(rd, ms, sofar); }
    MembersGive(rd, ms, sofar);
    if ms.LastMember? {
      var next := [0x7D] + rest;
      TreeIsShortest(rd, o, ms.v, ms.w + next);
      EntryIsShortest(rd, o, ms, m, next);
      AtLeastAfter(MembersText(ms, rest), entry, ms.w, [0x7D], rest, NeatMembers(o, ms));
      assert CanonEntries(rd.num, o, Obj(m), [k]) == [entry];
    } else {
      var now := sofar[k := Meaning(rd, ms.v)];
      assert now.Keys == sofar.Keys + {k};
      MembersAreShortest(rd, o, ms.rest, now, rest);
      var others := CanonEntries(rd.num, o, Obj(m), MemberKeys(ms.rest));
      var more := Join(others) + [0x7D];
      var next := [0x2C] + (ms.w' + MembersText(ms.rest, rest));
      AtLeastUnit(0x2C, ms.w', MembersText(ms.rest, rest), more, rest, NeatMembers(o, ms.rest));
      AtLeastSpace(ms.w, next, [0x2C] + more, rest, NeatMembers(o, ms.rest));
      TreeIsShortest(rd, o, ms.v, ms.w + next);
      EntryIsShortest(rd, o, ms, m, next);
      AtLeastBoth(MembersText(ms, rest), entry, ms.w + next, [0x2C] + more, rest,
        LowerChars(ms.key) && Neat(o, ms.v), NeatMembers(o, ms.rest));
      assert MemberKeys(ms)[1..] == MemberKeys(ms.rest);
      JoinMore(entry, others, [0x7D]);
    }
  }

  // ---------------------------------------------------------------- the order of keys

  function SumLengths(parts: seq<Text>): nat { if parts == [] then 0 else |parts[0]| + SumLengths(parts[1..]) }

  lemma {:induction false} LengthOfJoin(parts: seq<Text>)
    ensures |Join(parts)| == SumLengths(parts) + if parts == [] then 0 else |parts| - 1
    decreases |parts|
  {
    if |parts| > 1 {
      LengthOfJoin(parts[1..]);
    } else if |parts| == 1 {
      assert parts[1..] == [];
    }
  }

  function EntryLength(c: NumberCodec, o: KeyOrder, v: Value): Text -> nat
    requires v.Obj?
  {
    (k: Text) => if k in v.m then |CanonEntry(c, o, v, k)| else 0
  }

  lemma {:induction false} LengthOfEntries(c: NumberCodec, o: KeyOrder, v: Value, ks: seq<Text>)
    requires v.Obj? && forall k <- ks :: k in v.m
    ensures SumLengths(CanonEntries(c, o, v, ks)) == SumOver(EntryLength(c, o, v), ks)
    decreases |ks|
  {
    if ks != [] {
      LengthOfEntries(c, o, v, ks[1..]);
    }
  }

  /** Listing the keys otherwise does not change the length. */
  lemma SameLengthInAnyOrder(c: NumberCodec, o: KeyOrder, v: Value, ks: seq<Text>)
    requires v.Obj? && Distinct(ks) && forall k :: k in ks <==> k in v.m
    ensures |Join(CanonEntries(c, o, v, ks))| == |Join(CanonEntries(c, o, v, SortedKeys(o, v.m.Keys)))|
    ensures Ascend(o, ks) ==> ks == SortedKeys(o, v.m.Keys)
  {
    var sorted := SortedKeys(o, v.m.Keys);
    KeysDistinct(o, sorted);
    LengthOfEntries(c, o, v, ks);
    LengthOfEntries(c, o, v, sorted);
    SumInAnyOrder(EntryLength(c, o, v), ks, sorted);
    SameLength(ks, sorted);
    LengthOfJoin(CanonEntries(c, o, v, ks));
    LengthOfJoin(CanonEntries(c, o, v, sorted));
    AscendIsSorted(o, ks);
    if Ascend(o, ks) {
      SortedListingUnique(o, ks, sorted);
    }
  }

  lemma AtLeastOrdered(told: Text, text: Text, rest: Text, neat: bool, text': Text, ordered: bool)
    requires AtLeast(told, text, rest, neat) && |text'| == |text| && (ordered ==> text' == text)
    ensures AtLeast(told, text', rest, ordered && neat)
  {}

  lemma ListedInOrder(c: NumberCodec, o: KeyOrder, v: Value, ks: seq<Text>, w: Text, told: Text, rest: Text, neat: bool)
    requires v.Obj? && Distinct(ks) && forall k :: k in ks <==> k in v.m
    requires AtLeast(told, Join(CanonEntries(c, o, v, ks)) + [0x7D], rest, neat)
    ensures AtLeast([0x7B] + (w + told), Canon(c, o, v), rest, Ascend(o, ks) && neat)
  {
    hide AtLeast, CanonEntries, Ascend, Join, SortedKeys;
    var body, sorted := Join(CanonEntries(c, o, v, ks)), Join(CanonEntries(c, o, v, SortedKeys(o, v.m.Keys)));
    AtLeastUnit(0x7B, w, told, body + [0x7D], rest, neat);
    SameLengthInAnyOrder(c, o, v, ks);
    AtLeastOrdered([0x7B] + (w + told), [0x7B] + (body + [0x7D]), rest, neat, [0x7B] + (sorted + [0x7D]), Ascend(o, ks));
  }

  lemma {:induction false} ObjectIsShortest(rd: Reader, o: KeyOrder, w: Text, ms: Members, rest: Text)
    requires Derivable(TMembers(w, ms)) && Allowed(rd, TMembers(w, ms)) && Fair(rd, TMembers(w, ms))
    ensures AtLeast(TreeText(TMembers(w, ms), rest), Canon(rd.num, o, Meaning(rd, TMembers(w, ms))), rest, Neat(o, TMembers(w, ms)))
    decreases ms, 1
  {
    hide AtLeast, MembersText, Canon, CanonEntries, Ascend, NeatMembers, FairMembers, MembersMeaning, MemberKeys, Join;
    var none: map<Text, Value> := map[];
    assert none.Keys == {};
    MembersGive(rd, ms, none);
    MembersAreShortest(rd, o, ms, none, rest);
    ListedInOrder(rd.num, o, Obj(MembersMeaning(rd, ms, none)), MemberKeys(ms), w, MembersText(ms, rest), rest, NeatMembers(o, ms));
  }

  // ---------------------------------------------------------------- the canonical text

  /** No fair derivation of a value is shorter than its canonical text, in whatever order it
      lists keys and whatever its white space; and if it is as short, lists keys in order and
      writes hexadecimal digits in lower case, it is the canonical text. */
  lemma CanonicalTextIsShortest(rd: Reader, o: KeyOrder, t: Tree)
    requires Derivable(t) && Allowed(rd, t) && Fair(rd, t)
    ensures var text := Canon(rd.num, o, Meaning(rd, t));
      && |text| <= |TreeText(t, [])|
      && (Neat(o, t) && |TreeText(t, [])| == |text| ==> TreeText(t, []) == text)
  {
    TreeIsShortest(rd, o, t, []);
    assert Canon(rd.num, o, Meaning(rd, t)) + [] == Canon(rd.num, o, Meaning(rd, t));
  }
}
