/** The strict parser accepts exactly the derivable texts that meet the I-JSON
    conditions, and answers with their meaning. */
module JsonTheorems {
  import opened Text
  import opened Values
  import opened Grammar
  import opened JsonReader

  lemma DropPrefix(a: Text, b: Text)
    ensures (a + b)[..|a|] == a && (a + b)[|a|..] == b
  {}

  lemma TakeSplit(s: Text, a: nat, n: nat)
    requires a + n <= |s|
    ensures s[..a + n] == s[..a] + s[a..][..n]
  {}

  lemma Regroup(a: Text, b: Text, c: Text)
    ensures (a + b) + c == a + (b + c)
  {}

  // ---------------------------------------------------------------- white space

  lemma {:induction false} SkipSpaceSplits(s: Text) returns (w: Text)
    ensures AllSpace(w) && s == w + SkipSpace(s)
    ensures SkipSpace(s) != [] ==> !IsSpace(SkipSpace(s)[0])
  {
    if s != [] && IsSpace(s[0]) {
      var w' := SkipSpaceSplits(s[1..]);
      w := [s[0]] + w';
    } else {
      w := [];
    }
  }

  lemma {:induction false} SkipSpaceOver(w: Text, s: Text)
    requires AllSpace(w) && (s != [] ==> !IsSpace(s[0]))
    ensures SkipSpace(w + s) == s
  {
    if w == [] {
      assert w + s == s;
    } else {
      assert (w + s)[1..] == w[1..] + s;
      SkipSpaceOver(w[1..], s);
    }
  }

  // ---------------------------------------------------------------- numbers

  lemma {:induction false} DigitRunOver(d: Text, s: Text)
    requires AllDigits(d) && (s != [] ==> !IsDigit(s[0]))
    ensures DigitRun(d + s) == |d|
  {
    if d == [] {
      assert d + s == s;
    } else {
      assert (d + s)[1..] == d[1..] + s;
      DigitRunOver(d[1..], s);
    }
  }

  /** What may follow a number without lengthening the match. */
  predicate EndsNumber(s: Text) {
    s != [] ==> !IsDigit(s[0]) && s[0] != 0x2E && s[0] != 0x65 && s[0] != 0x45
  }

  lemma MatchWholeSound(s: Text)
    requires MatchWhole(s) > 0
    ensures var d := s[..MatchWhole(s)];
      d != [] && AllDigits(d) && (d[0] == 0x30 ==> |d| == 1)
  {}

  lemma MatchFracSound(s: Text) returns (frac: Text)
    ensures AllDigits(frac)
    ensures s[..MatchFrac(s)] == if frac == [] then [] else [0x2E] + frac
  {
    if MatchFrac(s) == 0 {
      frac := [];
    } else {
      frac := s[1..MatchFrac(s)];
      assert frac == s[1..][..DigitRun(s[1..])];
    }
  }

  lemma MatchExpSound(s: Text) returns (exp: Exponent)
    ensures NumberOk(Number(false, [0x30], [], exp))
    ensures s[..MatchExp(s)] == ExpText(Number(false, [0x30], [], exp))
  {
    if MatchExp(s) == 0 {
      exp := NoExponent;
    } else {
      var sign := if |s| > 1 && (s[1] == 0x2B || s[1] == 0x2D) then 1 else 0;
      var digits := s[1 + sign..][..DigitRun(s[1 + sign..])];
      exp := Exponent(s[0], s[1..1 + sign], digits);
      assert s[..MatchExp(s)] == [s[0]] + s[1..1 + sign] + digits;
    }
  }

  lemma MatchTailSound(s: Text) returns (frac: Text, exp: Exponent)
    ensures var n := Number(false, [0x30], frac, exp);
      NumberOk(n) && TailText(n) == s[..MatchTail(s)]
  {
    var f := MatchFrac(s);
    frac := MatchFracSound(s);
    exp := MatchExpSound(s[f..]);
    TakeSplit(s, f, MatchExp(s[f..]));
  }

  lemma MatchUnsignedSound(s: Text, neg: bool) returns (n: Number)
    requires MatchUnsigned(s) > 0
    ensures n.neg == neg && NumberOk(n) && UnsignedText(n) == s[..MatchUnsigned(s)]
  {
    var w := MatchWhole(s);
    MatchWholeSound(s);
    var frac, exp := MatchTailSound(s[w..]);
    n := Number(neg, s[..w], frac, exp);
    TakeSplit(s, w, MatchTail(s[w..]));
    assert TailText(n) == TailText(Number(false, [0x30], frac, exp));
  }

  /** A match is a number of the grammar. */
  lemma MatchNumberSound(s: Text) returns (n: Number)
    requires MatchNumber(s) > 0
    ensures NumberOk(n) && NumberText(n) == s[..MatchNumber(s)]
  {
    var a := if s[0] == 0x2D then 1 else 0;
    n := MatchUnsignedSound(s[a..], a == 1);
    TakeSplit(s, a, MatchUnsigned(s[a..]));
    assert SignText(n) == s[..a];
    assert s[0..] == s;
  }

  lemma MatchExpComplete(n: Number, s: Text)
    requires NumberOk(n) && EndsNumber(s)
    ensures MatchExp(ExpText(n) + s) == |ExpText(n)|
  {
    if n.exp.NoExponent? {
      assert ExpText(n) + s == s;
    } else {
      var tail := n.exp.digits + s;
      DigitRunOver(n.exp.digits, s);
      Regroup([n.exp.e] + n.exp.sign, n.exp.digits, s);
      DropPrefix([n.exp.e] + n.exp.sign, tail);
      assert tail[0] == n.exp.digits[0];
    }
  }

  lemma MatchFracComplete(n: Number, s: Text)
    requires NumberOk(n) && (s != [] ==> !IsDigit(s[0]) && s[0] != 0x2E)
    ensures MatchFrac(FracText(n) + s) == |FracText(n)|
  {
    if n.frac == [] {
      assert FracText(n) + s == s;
    } else {
      assert FracText(n) + s == [0x2E] + (n.frac + s);
      DigitRunOver(n.frac, s);
    }
  }

  lemma MatchWholeComplete(n: Number, s: Text)
    requires NumberOk(n) && (s != [] ==> !IsDigit(s[0]))
    ensures MatchWhole(n.whole + s) == |n.whole|
  {
    if n.whole[0] != 0x30 {
      DigitRunOver(n.whole, s);
    }
  }

  lemma MatchTailComplete(n: Number, s: Text)
    requires NumberOk(n) && EndsNumber(s)
    ensures MatchTail(TailText(n) + s) == |TailText(n)|
  {
    var s' := ExpText(n) + s;
    MatchExpComplete(n, s);
    ExpHead(n, s);
    MatchFracComplete(n, s');
    Regroup(FracText(n), ExpText(n), s);
    DropPrefix(FracText(n), s');
  }

  lemma MatchUnsignedComplete(n: Number, s: Text)
    requires NumberOk(n) && EndsNumber(s)
    ensures MatchUnsigned(UnsignedText(n) + s) == |UnsignedText(n)| > 0
  {
    var s' := TailText(n) + s;
    MatchTailComplete(n, s);
    TailHead(n, s);
    MatchWholeComplete(n, s');
    Regroup(n.whole, TailText(n), s);
    DropPrefix(n.whole, s');
  }

  /** Maximal munch: a number of the grammar is matched whole. */
  lemma MatchNumberComplete(n: Number, s: Text)
    requires NumberOk(n) && EndsNumber(s)
    ensures MatchNumber(NumberText(n) + s) == |NumberText(n)| > 0
  {
    MatchUnsignedComplete(n, s);
    Regroup(SignText(n), UnsignedText(n), s);
    DropPrefix(SignText(n), UnsignedText(n) + s);
    if n.neg {
      assert NumberText(n) + s == [0x2D] + (UnsignedText(n) + s);
    } else {
      assert NumberText(n) == UnsignedText(n);
      assert UnsignedText(n)[0] == n.whole[0];
    }
  }

  lemma TailHead(n: Number, s: Text)
    requires NumberOk(n) && EndsNumber(s)
    ensures var t := TailText(n) + s; t != [] ==> !IsDigit(t[0])
  {
    ExpHead(n, s);
    FracHead(n, ExpText(n) + s);
    Regroup(FracText(n), ExpText(n), s);
  }

  lemma ExpHead(n: Number, s: Text)
    requires NumberOk(n) && EndsNumber(s)
    ensures var t := ExpText(n) + s; t != [] ==> !IsDigit(t[0]) && t[0] != 0x2E
  {}

  lemma FracHead(n: Number, s: Text)
    requires s != [] ==> !IsDigit(s[0])
    ensures var t := FracText(n) + s; t != [] ==> !IsDigit(t[0])
  {}

  // ---------------------------------------------------------------- strings

  /** The character at the head of a body the scan loop accepts. */
  function HeadChar(s: Text): (c: Char)
    requires Scan(s).Some? && s[0] != 0x22
    ensures CharOk(c) && |CharText(c)| <= |s| && CharText(c) == s[..|CharText(c)|]
  {
    if s[0] != 0x5C then Plain(s[0])
    else if s[1] == 0x75 then Unicode(s[2], s[3], s[4], s[5])
    else Escape(s[1])
  }

  lemma HeadCharStep(s: Text)
    requires Scan(s).Some? && s[0] != 0x22
    ensures var k := |CharText(HeadChar(s))|;
      Scan(s[k..]).Some? && Scan(s).value == k + Scan(s[k..]).value
  {}

  lemma DecodeStep(c: Char, tail: Text)
    requires CharOk(c)
    ensures DecodeBody(CharText(c) + tail) == Prepend(CharMeaning(c), DecodeBody(tail))
    ensures Scan(CharText(c) + tail) == Shift(|CharText(c)|, Scan(tail))
  {
    var t := CharText(c) + tail;
    DropPrefix(CharText(c), tail);
    match c {
      case Plain(u) => assert t[0] == u;
      case Escape(l) => assert t[0] == 0x5C && t[1] == l;
      case Unicode(h0, h1, h2, h3) =>
        assert t[0] == 0x5C && t[1] == 0x75 && t[2] == h0 && t[3] == h1 && t[4] == h2 && t[5] == h3;
    }
  }

  /** Every slice the scan loop accepts is a sequence of grammar characters and a quote,
      and the decoder accepts it with their meaning. */
  lemma {:induction false} ScanSound(s: Text) returns (cs: seq<Char>)
    requires Scan(s).Some?
    ensures CharsOk(cs) && s == CharsText(cs, [0x22] + s[Scan(s).value..])
    ensures DecodeBody(s[..Scan(s).value]) == Some(CharsMeaning(cs))
  {
    if s[0] == 0x22 {
      cs := [];
    } else {
      var c := HeadChar(s);
      var k := |CharText(c)|;
      HeadCharStep(s);
      var more := ScanSound(s[k..]);
      cs := [c] + more;
      assert cs[1..] == more;
      var n := Scan(s).value;
      assert s[k..][n - k..] == s[n..];
      assert s == CharText(c) + s[k..];
      TakeSplit(s, k, n - k);
      DecodeStep(c, s[k..][..n - k]);
    }
  }

  lemma {:induction false} CharsTextAppend(cs: seq<Char>, a: Text, b: Text)
    ensures CharsText(cs, a + b) == CharsText(cs, a) + b
  {
    if cs != [] {
      CharsTextAppend(cs[1..], a, b);
      Regroup(CharText(cs[0]), CharsText(cs[1..], a), b);
    }
  }

  lemma {:induction false} ScanComplete(cs: seq<Char>, rest: Text)
    requires CharsOk(cs)
    ensures Scan(CharsText(cs, [0x22] + rest)) == Some(|CharsText(cs, [0x22])|)
  {
    if cs != [] {
      ScanComplete(cs[1..], rest);
      DecodeStep(cs[0], CharsText(cs[1..], [0x22] + rest));
    }
  }

  lemma {:induction false} DecodeComplete(cs: seq<Char>)
    requires CharsOk(cs)
    ensures DecodeBody(CharsText(cs, [0x22])) == Some(CharsMeaning(cs))
  {
    if cs != [] {
      DecodeComplete(cs[1..]);
      DecodeStep(cs[0], CharsText(cs[1..], [0x22]));
    }
  }

  /** `JSON.parse` never throws on a slice the scan loop has accepted, so the
      'Invalid JSON string' branch of `parseString` cannot be taken. */
  lemma DecoderAcceptsScannedSlices(s: Text)
    requires s != [] && s[0] == 0x22 && Scan(s[1..]).Some?
    ensures DecodeLiteral(s[..Scan(s[1..]).value + 1]).Some?
  {
    var cs := ScanSound(s[1..]);
    var n := Scan(s[1..]).value;
    assert s[..n + 1][1..] == s[1..][..n];
  }

  lemma ReadStringSound(rd: Reader, s: Text) returns (cs: seq<Char>)
    requires s != [] && s[0] == 0x22 && ReadString(rd, s).Got?
    ensures CharsOk(cs) && s == StringText(cs, ReadString(rd, s).rest)
    ensures ReadString(rd, s).value == CharsMeaning(cs) && StringAllowed(rd, CharsMeaning(cs))
  {
    cs := ScanSound(s[1..]);
    var n := Scan(s[1..]).value;
    assert s[..n + 1][1..] == s[1..][..n];
    assert s[1..][n..] == s[n + 1..];
    assert s == [0x22] + s[1..];
  }

  lemma ReadStringComplete(rd: Reader, cs: seq<Char>, rest: Text)
    requires CharsOk(cs)
    ensures ReadString(rd, StringText(cs, rest)) ==
      if StringAllowed(rd, CharsMeaning(cs)) then Got(CharsMeaning(cs), rest) else Failed(NonCanonical)
  {
    var body := CharsText(cs, [0x22]);
    ScanComplete(cs, rest);
    DecodeComplete(cs);
    CharsTextAppend(cs, [0x22], rest);
    DropPrefix([0x22], body + rest);
    Regroup([0x22], body, rest);
    DropPrefix([0x22] + body, rest);
    DropPrefix([0x22], body);
  }

  // ---------------------------------------------------------------- soundness

  lemma {:induction false} ValueSound(rd: Reader, s: Text) returns (t: Tree)
    requires ReadValue(rd, s).Got?
    ensures Derivable(t) && Allowed(rd, t)
    ensures s == TreeText(t, ReadValue(rd, s).rest)
    ensures ReadValue(rd, s).value == Meaning(rd, t)
    decreases |s|, 0
  {
    if s[0] == 0x22 {
      var cs := ReadStringSound(rd, s);
      t := TString(cs);
    } else if s[0] == 0x7B {
      var w := SkipSpaceSplits(s[1..]);
      var after := SkipSpace(s[1..]);
      assert s == [0x7B] + s[1..];
      if after[0] == 0x7D {
        t := TNoMembers(w);
        assert after == [0x7D] + after[1..];
      } else {
        var none: map<Text, Value> := map[];
        assert none.Keys == {};
        var ms := MembersSound(rd, after, none);
        t := TMembers(w, ms);
      }
    } else if s[0] == 0x5B {
      var w := SkipSpaceSplits(s[1..]);
      var after := SkipSpace(s[1..]);
      assert s == [0x5B] + s[1..];
      if after[0] == 0x5D {
        t := TNoItems(w);
        assert after == [0x5D] + after[1..];
      } else {
        var items := ItemsSound(rd, after, []);
        t := TItems(w, items);
        assert [] + ItemsMeaning(rd, items) == ItemsMeaning(rd, items);
      }
    } else {
      t := ScalarSound(rd, s);
    }
  }

  lemma ScalarSound(rd: Reader, s: Text) returns (t: Tree)
    requires s != [] && s[0] != 0x22 && s[0] != 0x7B && s[0] != 0x5B && ReadValue(rd, s).Got?
    ensures Derivable(t) && Allowed(rd, t)
    ensures s == TreeText(t, ReadValue(rd, s).rest)
    ensures ReadValue(rd, s).value == Meaning(rd, t)
  {
    if s[0] == 0x74 {
      t := TTrue;
      assert s == s[..4] + s[4..];
    } else if s[0] == 0x66 {
      t := TFalse;
      assert s == s[..5] + s[5..];
    } else if s[0] == 0x6E {
      t := TNull;
      assert s == s[..4] + s[4..];
    } else {
      var n := MatchNumberSound(s);
      t := TNumber(n);
      assert s == s[..MatchNumber(s)] + s[MatchNumber(s)..];
    }
  }

  lemma LastItemFits(rd: Reader, it: Items, rest: Text)
    requires it.LastItem? && Derivable(it.v) && AllSpace(it.w) && Allowed(rd, it.v)
    ensures DerivableItems(it) && AllowedItems(rd, it) && ItemsMeaning(rd, it) == [Meaning(rd, it.v)]
    ensures ItemsText(it, rest) == TreeText(it.v, it.w + ([0x5D] + rest))
  {}

  lemma MoreItemsFit(rd: Reader, it: Items, rest: Text)
    requires it.MoreItems? && Derivable(it.v) && AllSpace(it.w) && Allowed(rd, it.v)
    requires AllSpace(it.w') && DerivableItems(it.rest) && AllowedItems(rd, it.rest)
    ensures DerivableItems(it) && AllowedItems(rd, it)
    ensures ItemsMeaning(rd, it) == [Meaning(rd, it.v)] + ItemsMeaning(rd, it.rest)
    ensures ItemsText(it, rest) == TreeText(it.v, it.w + ([0x2C] + (it.w' + ItemsText(it.rest, rest))))
  {}

  lemma {:induction false} ItemsSound(rd: Reader, s: Text, sofar: seq<Value>) returns (items: Items)
    requires ReadItems(rd, s, sofar).Got?
    ensures DerivableItems(items) && AllowedItems(rd, items)
    ensures s == ItemsText(items, ReadItems(rd, s, sofar).rest)
    ensures ReadItems(rd, s, sofar).value == Arr(sofar + ItemsMeaning(rd, items))
    decreases |s|, 1
  {
    var out := ReadItems(rd, s, sofar);
    var v := ValueSound(rd, s);
    var Got(x, rest) := ReadValue(rd, s);
    var w := SkipSpaceSplits(rest);
    var s1 := SkipSpace(rest);
    HeadAndTail(s1);
    if s1[0] == 0x5D {
      items := LastItem(v, w);
      LastItemFits(rd, items, out.rest);
    } else {
      var w' := SkipSpaceSplits(s1[1..]);
      var more := ItemsSound(rd, SkipSpace(s1[1..]), sofar + [x]);
      items := MoreItems(v, w, w', more);
      MoreItemsFit(rd, items, out.rest);
      assert sofar + [x] + ItemsMeaning(rd, more) == sofar + ItemsMeaning(rd, items);
    }
  }

  lemma KeySound(rd: Reader, s: Text, known: set<Text>) returns (cs: seq<Char>, wk: Text, wc: Text)
    requires ReadKey(rd, s, known).Got?
    ensures CharsOk(cs) && AllSpace(wk) && AllSpace(wc)
    ensures s == StringText(cs, wk + ([0x3A] + (wc + ReadKey(rd, s, known).rest)))
    ensures ReadKey(rd, s, known).value == CharsMeaning(cs) && CharsMeaning(cs) !in known
    ensures StringAllowed(rd, CharsMeaning(cs))
  {
    cs := ReadStringSound(rd, s);
    wk := SkipSpaceSplits(ReadString(rd, s).rest);
    var s1 := SkipSpace(ReadString(rd, s).rest);
    assert s1 == [s1[0]] + s1[1..];
    wc := SkipSpaceSplits(s1[1..]);
  }

  lemma LastMemberFits(rd: Reader, ms: Members, sofar: map<Text, Value>, rest: Text)
    requires ms.LastMember?
    requires CharsOk(ms.key) && AllSpace(ms.wk) && AllSpace(ms.wc) && Derivable(ms.v) && AllSpace(ms.w)
    requires StringAllowed(rd, CharsMeaning(ms.key)) && CharsMeaning(ms.key) !in sofar && Allowed(rd, ms.v)
    ensures DerivableMembers(ms) && AllowedMembers(rd, ms, sofar.Keys)
    ensures MembersMeaning(rd, ms, sofar) == sofar[CharsMeaning(ms.key) := Meaning(rd, ms.v)]
    ensures MembersText(ms, rest) ==
      StringText(ms.key, ms.wk + ([0x3A] + (ms.wc + TreeText(ms.v, ms.w + ([0x7D] + rest)))))
  {}

  lemma MoreMembersFit(rd: Reader, ms: Members, sofar: map<Text, Value>, rest: Text)
    requires ms.MoreMembers?
    requires CharsOk(ms.key) && AllSpace(ms.wk) && AllSpace(ms.wc) && Derivable(ms.v) && AllSpace(ms.w)
    requires StringAllowed(rd, CharsMeaning(ms.key)) && CharsMeaning(ms.key) !in sofar && Allowed(rd, ms.v)
    requires AllSpace(ms.w') && DerivableMembers(ms.rest)
    requires AllowedMembers(rd, ms.rest, sofar[CharsMeaning(ms.key) := Meaning(rd, ms.v)].Keys)
    ensures DerivableMembers(ms) && AllowedMembers(rd, ms, sofar.Keys)
    ensures MembersMeaning(rd, ms, sofar) ==
      MembersMeaning(rd, ms.rest, sofar[CharsMeaning(ms.key) := Meaning(rd, ms.v)])
    ensures MembersText(ms, rest) ==
      StringText(ms.key, ms.wk + ([0x3A] + (ms.wc + TreeText(ms.v,
        ms.w + ([0x2C] + (ms.w' + MembersText(ms.rest, rest)))))))
  {
    var key := CharsMeaning(ms.key);
    assert sofar[key := Meaning(rd, ms.v)].Keys == sofar.Keys + {key};
  }

  lemma {:induction false} MembersSound(rd: Reader, s: Text, sofar: map<Text, Value>) returns (ms: Members)
    requires ReadMembers(rd, s, sofar).Got?
    ensures DerivableMembers(ms) && AllowedMembers(rd, ms, sofar.Keys)
    ensures s == MembersText(ms, ReadMembers(rd, s, sofar).rest)
    ensures ReadMembers(rd, s, sofar).value == Obj(MembersMeaning(rd, ms, sofar))
    decreases |s|, 1
  {
    var out := ReadMembers(rd, s, sofar);
    var cs, wk, wc := KeySound(rd, s, sofar.Keys);
    var Got(key, rest) := ReadKey(rd, s, sofar.Keys);
    var v := ValueSound(rd, rest);
    var Got(x, rest') := ReadValue(rd, rest);
    var w := SkipSpaceSplits(rest');
    var s3 := SkipSpace(rest');
    HeadAndTail(s3);
    if s3[0] == 0x7D {
      ms := LastMember(cs, wk, wc, v, w);
      LastMemberFits(rd, ms, sofar, out.rest);
    } else {
      var w' := SkipSpaceSplits(s3[1..]);
      var more := MembersSound(rd, SkipSpace(s3[1..]), sofar[key := x]);
      ms := MoreMembers(cs, wk, wc, v, w, w', more);
      MoreMembersFit(rd, ms, sofar, out.rest);
    }
  }

  lemma HeadAndTail(s: Text)
    requires s != []
    ensures s == [s[0]] + s[1..]
  {}

  // ---------------------------------------------------------------- completeness

  lemma TreeTextHead(t: Tree, rest: Text)
    requires Derivable(t)
    ensures TreeText(t, rest) != []
    ensures var u := TreeText(t, rest)[0]; !IsSpace(u) && u != 0x5D && u != 0x7D
  {
    if t.TNumber? {
      NumberTextHead(t.n);
      assert TreeText(t, rest)[0] == NumberText(t.n)[0];
    }
  }

  lemma NumberTextHead(n: Number)
    requires NumberOk(n)
    ensures NumberText(n) != [] && (NumberText(n)[0] == 0x2D || IsDigit(NumberText(n)[0]))
  {}

  lemma NumberDispatch(rd: Reader, s: Text)
    requires s != [] && (s[0] == 0x2D || IsDigit(s[0]))
    ensures ReadValue(rd, s) == ReadNumber(rd, s)
  {
    assert s[0] != 0x22 && s[0] != 0x7B && s[0] != 0x5B && s[0] != 0x74 && s[0] != 0x66 && s[0] != 0x6E;
  }

  lemma NumberComplete(rd: Reader, n: Number, rest: Text)
    requires NumberOk(n) && Allowed(rd, TNumber(n)) && EndsNumber(rest)
    ensures ReadValue(rd, TreeText(TNumber(n), rest)) == Got(Meaning(rd, TNumber(n)), rest)
  {
    var t := NumberText(n);
    NumberTextHead(n);
    assert (t + rest)[0] == t[0];
    NumberDispatch(rd, t + rest);
    MatchNumberComplete(n, rest);
    DropPrefix(t, rest);
  }

  lemma LiteralComplete(rd: Reader, t: Tree, rest: Text)
    requires t.TNull? || t.TTrue? || t.TFalse?
    ensures ReadValue(rd, TreeText(t, rest)) == Got(Meaning(rd, t), rest)
  {
    DropPrefix([0x6E, 0x75, 0x6C, 0x6C], rest);
    DropPrefix([0x74, 0x72, 0x75, 0x65], rest);
    DropPrefix([0x66, 0x61, 0x6C, 0x73, 0x65], rest);
  }

  lemma {:induction false} ValueComplete(rd: Reader, t: Tree, rest: Text)
    requires Derivable(t) && Allowed(rd, t)
    requires t.TNumber? ==> EndsNumber(rest)
    ensures ReadValue(rd, TreeText(t, rest)) == Got(Meaning(rd, t), rest)
    decreases t, 0
  {
    match t {
      case TNoItems(w) =>
        DropPrefix([0x5B], w + ([0x5D] + rest));
        SkipSpaceOver(w, [0x5D] + rest);
        DropPrefix([0x5D], rest);
      case TItems(w, items) =>
        DropPrefix([0x5B], w + ItemsText(items, rest));
        ItemsTextHead(items, rest);
        SkipSpaceOver(w, ItemsText(items, rest));
        ItemsComplete(rd, items, rest, []);
        assert [] + ItemsMeaning(rd, items) == ItemsMeaning(rd, items);
      case TNoMembers(w) =>
        DropPrefix([0x7B], w + ([0x7D] + rest));
        SkipSpaceOver(w, [0x7D] + rest);
        DropPrefix([0x7D], rest);
      case TMembers(w, ms) =>
        DropPrefix([0x7B], w + MembersText(ms, rest));
        SkipSpaceOver(w, MembersText(ms, rest));
        var none: map<Text, Value> := map[];
        assert none.Keys == {};
        MembersComplete(rd, ms, rest, none);
      case TNumber(n) => NumberComplete(rd, n, rest);
      case TString(cs) => ReadStringComplete(rd, cs, rest);
      case _ => LiteralComplete(rd, t, rest);
    }
  }

  lemma ItemsTextHead(it: Items, rest: Text)
    requires DerivableItems(it)
    ensures ItemsText(it, rest) != []
    ensures var u := ItemsText(it, rest)[0]; !IsSpace(u) && u != 0x5D
  {
    var next := if it.LastItem? then [0x5D] + rest else [0x2C] + (it.w' + ItemsText(it.rest, rest));
    TreeTextHead(it.v, it.w + next);
  }

  lemma SpaceEndsNumber(w: Text, s: Text)
    requires AllSpace(w) && EndsNumber(s)
    ensures EndsNumber(w + s)
  {
    if w == [] {
      assert w + s == s;
    } else {
      assert (w + s)[0] == w[0] && IsSpace(w[0]);
    }
  }

  lemma {:induction false} ItemsComplete(rd: Reader, it: Items, rest: Text, sofar: seq<Value>)
    requires DerivableItems(it) && AllowedItems(rd, it)
    ensures ReadItems(rd, ItemsText(it, rest), sofar) == Got(Arr(sofar + ItemsMeaning(rd, it)), rest)
    decreases it, 1
  {
    var next := if it.LastItem? then [0x5D] + rest else [0x2C] + (it.w' + ItemsText(it.rest, rest));
    SpaceEndsNumber(it.w, next);
    ValueComplete(rd, it.v, it.w + next);
    SkipSpaceOver(it.w, next);
    var now := sofar + [Meaning(rd, it.v)];
    if it.LastItem? {
      DropPrefix([0x5D], rest);
      assert now == sofar + ItemsMeaning(rd, it);
    } else {
      DropPrefix([0x2C], it.w' + ItemsText(it.rest, rest));
      ItemsTextHead(it.rest, rest);
      SkipSpaceOver(it.w', ItemsText(it.rest, rest));
      ItemsComplete(rd, it.rest, rest, now);
      assert now + ItemsMeaning(rd, it.rest) == sofar + ItemsMeaning(rd, it);
    }
  }

  lemma KeyComplete(rd: Reader, cs: seq<Char>, wk: Text, wc: Text, rest: Text, known: set<Text>)
    requires CharsOk(cs) && AllSpace(wk) && AllSpace(wc) && (rest != [] ==> !IsSpace(rest[0]))
    requires StringAllowed(rd, CharsMeaning(cs)) && CharsMeaning(cs) !in known
    ensures ReadKey(rd, StringText(cs, wk + ([0x3A] + (wc + rest))), known) == Got(CharsMeaning(cs), rest)
  {
    var colon := [0x3A] + (wc + rest);
    ReadStringComplete(rd, cs, wk + colon);
    SkipSpaceOver(wk, colon);
    DropPrefix([0x3A], wc + rest);
    SkipSpaceOver(wc, rest);
  }

  lemma {:induction false} MembersComplete(rd: Reader, ms: Members, rest: Text, sofar: map<Text, Value>)
    requires DerivableMembers(ms) && AllowedMembers(rd, ms, sofar.Keys)
    ensures ReadMembers(rd, MembersText(ms, rest), sofar) == Got(Obj(MembersMeaning(rd, ms, sofar)), rest)
    decreases ms, 1
  {
    var next := if ms.LastMember? then [0x7D] + rest else [0x2C] + (ms.w' + MembersText(ms.rest, rest));
    TreeTextHead(ms.v, ms.w + next);
    KeyComplete(rd, ms.key, ms.wk, ms.wc, TreeText(ms.v, ms.w + next), sofar.Keys);
    SpaceEndsNumber(ms.w, next);
    ValueComplete(rd, ms.v, ms.w + next);
    SkipSpaceOver(ms.w, next);
    var key := CharsMeaning(ms.key);
    var now := sofar[key := Meaning(rd, ms.v)];
    assert now.Keys == sofar.Keys + {key};
    if ms.LastMember? {
      DropPrefix([0x7D], rest);
    } else {
      DropPrefix([0x2C], ms.w' + MembersText(ms.rest, rest));
      SkipSpaceOver(ms.w', MembersText(ms.rest, rest));
      MembersComplete(rd, ms.rest, rest, now);
    }
  }

  // ---------------------------------------------------------------- the parser's contract

  lemma DocumentSound(rd: Reader, s: Text) returns (d: Document)
    requires ReadDocument(rd, s).Got?
    ensures DocumentOk(rd, d) && DocumentText(d) == s
    ensures ReadDocument(rd, s).value == Meaning(rd, d.t)
  {
    var before := SkipSpaceSplits(s);
    var t := ValueSound(rd, SkipSpace(s));
    var after := SkipSpaceSplits(ReadValue(rd, SkipSpace(s)).rest);
    assert after + [] == after;
    d := Document(before, t, after);
  }

  lemma DocumentComplete(rd: Reader, d: Document)
    requires DocumentOk(rd, d)
    ensures ReadDocument(rd, DocumentText(d)) == Got(Meaning(rd, d.t), [])
  {
    TreeTextHead(d.t, d.after);
    SkipSpaceOver(d.before, TreeText(d.t, d.after));
    SpaceEndsNumber(d.after, []);
    SkipSpaceOver(d.after, []);
    assert d.after + [] == d.after;
    ValueComplete(rd, d.t, d.after);
    assert SkipSpace(DocumentText(d)) == TreeText(d.t, d.after);
    assert SkipSpace(d.after) == [];
  }

  /** A text is accepted if and only if it derives from the grammar, with finite numbers,
      paired surrogates and no repeated key. */
  lemma AcceptsExactlyTheGrammar(rd: Reader, s: Text)
    ensures ReadDocument(rd, s).Got? <==> exists d :: DocumentOk(rd, d) && DocumentText(d) == s
  {
    if ReadDocument(rd, s).Got? {
      var d := DocumentSound(rd, s);
    }
    forall d | DocumentOk(rd, d) && DocumentText(d) == s ensures ReadDocument(rd, s).Got? {
      DocumentComplete(rd, d);
    }
  }

  /** Every derivation of an accepted text has the meaning the parser answers: the
      grammar is unambiguous in what it says. */
  lemma EveryDerivationMeansTheParsedValue(rd: Reader, d: Document)
    requires DocumentOk(rd, d)
    ensures ReadDocument(rd, DocumentText(d)) == Got(Meaning(rd, d.t), [])
    ensures forall d' :: DocumentOk(rd, d') && DocumentText(d') == DocumentText(d) ==> Meaning(rd, d'.t) == Meaning(rd, d.t)
  {
    DocumentComplete(rd, d);
    forall d' | DocumentOk(rd, d') && DocumentText(d') == DocumentText(d)
      ensures Meaning(rd, d'.t) == Meaning(rd, d.t)
    {
      DocumentComplete(rd, d');
    }
  }
}
