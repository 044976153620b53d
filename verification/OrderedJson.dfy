/** JSON values with their key order, and `JSON.stringify`, which reveals it. */
module OrderedJson {
  import opened Text
  import opened Values
  import opened Grammar
  import opened Canonical
  import opened Utf8
  import opened ProtocolBytes

  datatype Json =
    | JNull | JBool(b: bool) | JNum(r: real) | JStr(s: Text)
    | JList(items: seq<Json>) | JRecord(keys: seq<Text>, fields: map<Text, Json>)

  function Stringify(c: NumberCodec, j: Json): Text
    decreases j, 1, 0
  {
    match j
    case JNull => [0x6E, 0x75, 0x6C, 0x6C]
    case JBool(b) => if b then [0x74, 0x72, 0x75, 0x65] else [0x66, 0x61, 0x6C, 0x73, 0x65]
    case JNum(r) => c.show(r)
    case JStr(s) => Quote(s)
    case JList(items) => [0x5B] + (Join(ItemTexts(c, items)) + [0x5D])
    case JRecord(keys, fields) => [0x7B] + (Join(FieldTexts(c, j, keys)) + [0x7D])
  }

  function ItemTexts(c: NumberCodec, items: seq<Json>): seq<Text>
    decreases items
  {
    if items == [] then [] else [Stringify(c, items[0])] + ItemTexts(c, items[1..])
  }

  function FieldTexts(c: NumberCodec, j: Json, keys: seq<Text>): seq<Text>
    requires j.JRecord?
    decreases j, 0, |keys|
  {
    if keys == [] then []
    else if keys[0] !in j.fields then FieldTexts(c, j, keys[1..])
    else [Quote(keys[0]) + ([0x3A] + Stringify(c, j.fields[keys[0]]))] + FieldTexts(c, j, keys[1..])
  }

  predicate NumbersFinite(c: NumberCodec, j: Json) {
    match j
    case JNum(r) => c.dom(r)
    case JList(items) => forall x <- items :: NumbersFinite(c, x)
    case JRecord(_, fields) => forall k <- fields :: NumbersFinite(c, fields[k])
    case _ => true
  }

  /** The value, its key order forgotten. */
  function Unordered(j: Json): Value {
    match j
    case JNull => Null
    case JBool(b) => Bool(b)
    case JNum(r) => Num(r)
    case JStr(s) => Str(s)
    case JList(items) => Arr(UnorderedAll(items))
    case JRecord(_, fields) => Obj(map k | k in fields :: Unordered(fields[k]))
  }

  function UnorderedAll(items: seq<Json>): (r: seq<Value>)
    ensures |r| == |items|
    ensures forall i | 0 <= i < |items| :: r[i] == Unordered(items[i])
  {
    if items == [] then [] else [Unordered(items[0])] + UnorderedAll(items[1..])
  }

  /** Every record lists each of its keys once. */
  predicate Listed(j: Json) {
    match j
    case JList(items) => forall x <- items :: Listed(x)
    case JRecord(keys, fields) =>
      && Distinct(keys) && (forall k <- keys :: k in fields) && (forall k <- fields :: k in keys)
      && forall k <- fields :: Listed(fields[k])
    case _ => true
  }

  lemma {:induction false} UnorderedIsFinite(c: NumberCodec, j: Json)
    requires NumbersFinite(c, j)
    ensures Finite(c, Unordered(j))
    decreases j
  {
    match j {
      case JList(items) =>
        forall x | x in UnorderedAll(items) ensures Finite(c, x) {
          var i :| 0 <= i < |items| && UnorderedAll(items)[i] == x;
          UnorderedIsFinite(c, items[i]);
        }
      case JRecord(_, fields) => forall k | k in fields ensures Finite(c, Unordered(fields[k])) { UnorderedIsFinite(c, fields[k]); }
      case _ =>
    }
  }

  // ---------------------------------------------------------------- sums in any order

  function SumOver(f: Text -> nat, ks: seq<Text>): nat {
    if ks == [] then 0 else f(ks[0]) + SumOver(f, ks[1..])
  }

  lemma {:induction false} SumWithout(f: Text -> nat, ks: seq<Text>, j: nat)
    requires j < |ks|
    ensures SumOver(f, ks) == f(ks[j]) + SumOver(f, ks[..j] + ks[j + 1..])
    decreases |ks|
  {
    var rest := ks[..j] + ks[j + 1..];
    if j == 0 {
      assert rest == ks[1..];
    } else {
      SumWithout(f, ks[1..], j - 1);
      assert rest[1..] == ks[1..][..j - 1] + ks[1..][j..];
    }
  }

  /** Two listings of the same keys sum up alike. */
  lemma {:induction false} SumInAnyOrder(f: Text -> nat, a: seq<Text>, b: seq<Text>)
    requires Distinct(a) && Distinct(b) && forall k :: k in a <==> k in b
    ensures SumOver(f, a) == SumOver(f, b)
    decreases |a|
  {
    if a == [] {
      assert forall i | 0 <= i < |b| :: b[i] in b;
    } else {
      assert a[0] in a;
      var j :| 0 <= j < |b| && b[j] == a[0];
      SumWithout(f, b, j);
      OthersListed(a, b, j);
      SumInAnyOrder(f, a[1..], b[..j] + b[j + 1..]);
    }
  }

  lemma {:induction false} SumOfOnes(ks: seq<Text>)
    ensures SumOver(k => 1, ks) == |ks|
  {
    if ks != [] {
      SumOfOnes(ks[1..]);
    }
  }

  /** Two listings of the same keys are equally long. */
  lemma SameLength(a: seq<Text>, b: seq<Text>)
    requires Distinct(a) && Distinct(b) && forall k :: k in a <==> k in b
    ensures |a| == |b|
  {
    SumInAnyOrder(k => 1, a, b);
    SumOfOnes(a);
    SumOfOnes(b);
  }

  lemma OthersListed(a: seq<Text>, b: seq<Text>, j: nat)
    requires Distinct(a) && Distinct(b) && a != [] && j < |b| && b[j] == a[0]
    requires forall k :: k in a <==> k in b
    ensures var rest := b[..j] + b[j + 1..]; Distinct(a[1..]) && Distinct(rest) && forall k :: k in a[1..] <==> k in rest
  {
    var rest := b[..j] + b[j + 1..];
    assert forall i | 0 <= i < |rest| :: rest[i] == if i < j then b[i] else b[i + 1];
    HeadAndTailOf(a);
    DistinctTail(a);
    forall k ensures k in a[1..] <==> k in rest {
      if k in a[1..] {
        assert k in b;
        var i :| 0 <= i < |b| && b[i] == k;
        assert rest[if i < j then i else i - 1] == k;
      }
      if k in rest {
        var i :| 0 <= i < |rest| && rest[i] == k;
        assert b[if i < j then i else i + 1] == k && k in b && k in a;
        assert k != b[j];
      }
    }
  }

  // ---------------------------------------------------------------- widths

  lemma {:induction false} CodePointsConcat(a: Text, b: Text)
    requires WellFormed(a)
    ensures CodePoints(a + b) == CodePoints(a) + CodePoints(b)
    decreases |a|
  {
    if a == [] {
      assert a + b == b;
    } else {
      var step := if IsHigh(a[0]) then 2 else 1;
      assert (a + b)[step..] == a[step..] + b;
      CodePointsConcat(a[step..], b);
    }
  }

  lemma Push(c: CodePoint, x: seq<CodePoint>, y: seq<CodePoint>)
    ensures ([c] + x) + y == [c] + (x + y) && ([c] + (x + y))[1..] == x + y && ([c] + x)[1..] == x
  {}

  lemma {:induction false} ReplacedConcat(x: seq<CodePoint>, y: seq<CodePoint>)
    ensures Replaced(x + y) == Replaced(x) + Replaced(y)
    decreases |x|
  {
    if x == [] {
      assert x + y == y;
    } else {
      assert x == [x[0]] + x[1..];
      Push(x[0], x[1..], y);
      ReplacedConcat(x[1..], y);
      var c: CodePoint := if IsScalar(x[0]) then x[0] else 0xFFFD;
      Push(c, Replaced(x[1..]), Replaced(y));
    }
  }

  lemma PushBytes(a: Bytes, b: Bytes, d: Bytes)
    ensures a + (b + d) == (a + b) + d
  {}

  lemma {:induction false} EncodePointsConcat(x: seq<CodePoint>, y: seq<CodePoint>)
    ensures EncodePoints(x + y) == EncodePoints(x) + EncodePoints(y)
    decreases |x|
  {
    if x == [] {
      assert x + y == y;
    } else {
      assert x == [x[0]] + x[1..];
      Push(x[0], x[1..], y);
      EncodePointsConcat(x[1..], y);
      PushBytes(EncodePoint(x[0]), EncodePoints(x[1..]), EncodePoints(y));
    }
  }

  /** The number of bytes of a text in UTF-8. */
  function Width(s: Text): nat { |Encode(s)| }

  lemma WidthConcat(a: Text, b: Text)
    requires WellFormed(a)
    ensures Width(a + b) == Width(a) + Width(b)
  {
    CodePointsConcat(a, b);
    ReplacedConcat(CodePoints(a), CodePoints(b));
    EncodePointsConcat(Replaced(CodePoints(a)), Replaced(CodePoints(b)));
  }

  lemma WidthOfUnit(u: CodeUnit)
    requires u < 0x80
    ensures WellFormed([u]) && Width([u]) == 1
  {
    AsciiIsWellFormed(u);
    assert [u][1..] == [];
    assert CodePoints([u]) == [u];
    assert Replaced([u]) == [u];
    assert EncodePoints([u]) == EncodePoint(u) + EncodePoints([]);
  }

  lemma WidthAround(left: CodeUnit, body: Text, right: CodeUnit)
    requires left < 0x80 && right < 0x80 && WellFormed(body)
    ensures WellFormed([left] + (body + [right])) && Width([left] + (body + [right])) == Width(body) + 2
  {
    WidthOfUnit(left);
    WidthOfUnit(right);
    WidthConcat(body, [right]);
    WidthConcat([left], body + [right]);
    WellFormedAround([left], body, [right]);
  }

  predicate AllWellFormed(parts: seq<Text>) { forall i | 0 <= i < |parts| :: WellFormed(parts[i]) }

  function SumWidths(parts: seq<Text>): nat {
    if parts == [] then 0 else Width(parts[0]) + SumWidths(parts[1..])
  }

  lemma {:induction false} WidthOfJoin(parts: seq<Text>)
    requires AllWellFormed(parts)
    ensures WellFormed(Join(parts))
    ensures Width(Join(parts)) == SumWidths(parts) + if parts == [] then 0 else |parts| - 1
    decreases |parts|
  {
    JoinIsWellFormed(parts);
    if parts == [] {
      assert CodePoints([]) == [] && Replaced([]) == [] && EncodePoints([]) == [];
    } else if |parts| > 1 {
      var rest := parts[1..];
      assert forall i | 0 <= i < |rest| :: rest[i] == parts[i + 1];
      WidthOfJoin(rest);
      WidthOfUnit(0x2C);
      WidthConcat([0x2C], Join(rest));
      WidthConcat(parts[0], [0x2C] + Join(rest));
    } else {
      assert parts[1..] == [];
    }
  }

  // ---------------------------------------------------------------- the same width in any order

  /** Key order does not change the number of bytes `JSON.stringify` writes: it is that of
      the canonical text. */
  lemma {:induction false} StringifiedWidth(c: NumberCodec, j: Json)
    requires Lawful(c) && NumbersFinite(c, j) && Listed(j)
    ensures WellFormed(Stringify(c, j))
    ensures Width(Stringify(c, j)) == |CanonicalBytes(c, Unordered(j))|
    decreases j, 2, 0
  {
    match j {
      case JNum(r) =>
        UnorderedIsFinite(c, j);
        CanonIsWellFormed(c, ByCodeUnit, Num(r));
      case JStr(s) => QuoteIsWellFormed(s);
      case JList(items) =>
        ItemsWidth(c, items);
        WidthOfJoin(ItemTexts(c, items));
        WidthOfJoin(CanonItems(c, ByCodeUnit, UnorderedAll(items)));
        WidthAround(0x5B, Join(ItemTexts(c, items)), 0x5D);
        WidthAround(0x5B, Join(CanonItems(c, ByCodeUnit, UnorderedAll(items))), 0x5D);
      case JRecord(keys, fields) => RecordWidth(c, j);
      case _ => WithoutSurrogatesIsWellFormed(Stringify(c, j));
    }
  }

  lemma {:induction false} ItemsWidth(c: NumberCodec, items: seq<Json>)
    requires Lawful(c) && forall x <- items :: NumbersFinite(c, x) && Listed(x)
    ensures AllWellFormed(ItemTexts(c, items)) && AllWellFormed(CanonItems(c, ByCodeUnit, UnorderedAll(items)))
    ensures |ItemTexts(c, items)| == |CanonItems(c, ByCodeUnit, UnorderedAll(items))|
    ensures SumWidths(ItemTexts(c, items)) == SumWidths(CanonItems(c, ByCodeUnit, UnorderedAll(items)))
    decreases items
  {
    if items != [] {
      StringifiedWidth(c, items[0]);
      UnorderedIsFinite(c, items[0]);
      CanonIsWellFormed(c, ByCodeUnit, Unordered(items[0]));
      ItemsWidth(c, items[1..]);
      assert UnorderedAll(items)[1..] == UnorderedAll(items[1..]);
    }
  }

  /** The width of one entry of the canonical text. */
  function EntryWidth(c: NumberCodec, v: Value, k: Text): nat
    requires v.Obj?
  {
    if k in v.m then Width(CanonEntry(c, ByCodeUnit, v, k)) else 0
  }

  lemma EntryWidthIs(c: NumberCodec, k: Text, text: Text)
    requires WellFormed(text)
    ensures WellFormed(Quote(k) + ([0x3A] + text)) && Width(Quote(k) + ([0x3A] + text)) == Width(Quote(k)) + 1 + Width(text)
  {
    QuoteIsWellFormed(k);
    WidthOfUnit(0x3A);
    WidthConcat([0x3A], text);
    WidthConcat(Quote(k), [0x3A] + text);
    WellFormedAround(Quote(k), [0x3A], text);
  }

  function FieldText(c: NumberCodec, j: Json, k: Text): Text
    requires j.JRecord? && k in j.fields
  {
    Quote(k) + ([0x3A] + Stringify(c, j.fields[k]))
  }

  lemma {:induction false} FieldWidth(c: NumberCodec, j: Json, k: Text)
    requires Lawful(c) && j.JRecord? && NumbersFinite(c, j) && Listed(j) && k in j.fields
    ensures WellFormed(FieldText(c, j, k)) && Width(FieldText(c, j, k)) == EntryWidth(c, Unordered(j), k)
    decreases j, 0, 0
  {
    var child := j.fields[k];
    StringifiedWidth(c, child);
    UnorderedIsFinite(c, child);
    CanonIsWellFormed(c, ByCodeUnit, Unordered(child));
    EntryWidthIs(c, k, Stringify(c, child));
    EntryWidthIs(c, k, Canon(c, ByCodeUnit, Unordered(child)));
  }

  lemma {:induction false} FieldsWidth(c: NumberCodec, j: Json, keys: seq<Text>)
    requires Lawful(c) && j.JRecord? && NumbersFinite(c, j) && Listed(j) && forall k <- keys :: k in j.fields
    ensures AllWellFormed(FieldTexts(c, j, keys)) && |FieldTexts(c, j, keys)| == |keys|
    ensures SumWidths(FieldTexts(c, j, keys)) == SumOver(k => EntryWidth(c, Unordered(j), k), keys)
    decreases j, 0, |keys|
  {
    hide WellFormed, EntryWidth, Width, Lawful, Unordered;
    if keys != [] {
      FieldWidth(c, j, keys[0]);
      FieldsWidth(c, j, keys[1..]);
      assert FieldTexts(c, j, keys) == [FieldText(c, j, keys[0])] + FieldTexts(c, j, keys[1..]);
    }
  }

  lemma {:induction false} EntriesWidth(c: NumberCodec, v: Value, ks: seq<Text>)
    requires Lawful(c) && v.Obj? && Finite(c, v) && forall k <- ks :: k in v.m
    ensures AllWellFormed(CanonEntries(c, ByCodeUnit, v, ks))
    ensures SumWidths(CanonEntries(c, ByCodeUnit, v, ks)) == SumOver(k => EntryWidth(c, v, k), ks)
    decreases |ks|
  {
    if ks != [] {
      CanonIsWellFormed(c, ByCodeUnit, v.m[ks[0]]);
      EntryWidthIs(c, ks[0], Canon(c, ByCodeUnit, v.m[ks[0]]));
      EntriesWidth(c, v, ks[1..]);
    }
  }

  lemma {:induction false} RecordWidth(c: NumberCodec, j: Json)
    requires Lawful(c) && j.JRecord? && NumbersFinite(c, j) && Listed(j)
    ensures WellFormed(Stringify(c, j))
    ensures Width(Stringify(c, j)) == |CanonicalBytes(c, Unordered(j))|
    decreases j, 1, 0
  {
    var v := Unordered(j);
    var ks := SortedKeys(ByCodeUnit, v.m.Keys);
    UnorderedIsFinite(c, j);
    KeysDistinct(ByCodeUnit, ks);
    FieldsWidth(c, j, j.keys);
    EntriesWidth(c, v, ks);
    SumInAnyOrder(k => EntryWidth(c, v, k), j.keys, ks);
    SameLength(j.keys, ks);
    WidthOfJoin(FieldTexts(c, j, j.keys));
    WidthOfJoin(CanonEntries(c, ByCodeUnit, v, ks));
    WidthAround(0x7B, Join(FieldTexts(c, j, j.keys)), 0x7D);
    WidthAround(0x7B, Join(CanonEntries(c, ByCodeUnit, v, ks)), 0x7D);
  }
}
