/** The YOps value order, and the sequence operations built on it. */
module YOrder {
  import opened Text
  import opened Values
  import opened Grammar
  import opened Canonical

  /** `canonicalKey` of the YOps document model. */
  function CanonicalKey(c: NumberCodec, v: Value): Text { Canon(c, ByCodePoint, v) }

  function Rank(v: Value): int {
    match v
    case Null => 0
    case Bool(_) => 1
    case Num(_) => 2
    case Str(_) => 3
    case Arr(_) => 4
    case Obj(_) => 5
  }

  /** `compareYValues` */
  function Compare(c: NumberCodec, a: Value, b: Value): int {
    if Rank(a) != Rank(b) then Rank(a) - Rank(b)
    else
      match a
      case Null => 0
      case Bool(x) => if x == b.b then 0 else if x then 1 else -1
      case Num(x) => if x < b.r then -1 else if x > b.r then 1 else 0
      case Str(s) => Lex(CodePoints(s), CodePoints(b.s))
      case _ => Lex(CodePoints(CanonicalKey(c, a)), CodePoints(CanonicalKey(c, b)))
  }

  // ---------------------------------------------------------------- a total order

  /** The comparison is zero exactly on equal values, that is on equal canonical keys. */
  lemma CompareZero(c: NumberCodec, a: Value, b: Value)
    requires Lawful(c) && Finite(c, a) && Finite(c, b)
    ensures Compare(c, a, b) == 0 <==> a == b
    ensures Compare(c, a, b) == 0 <==> CanonicalKey(c, a) == CanonicalKey(c, b)
  {
    CanonicalTextIdentifiesValue(c, ByCodePoint, a, b);
    if Rank(a) == Rank(b) {
      if a.Str? {
        CompareCodepointsIsATotalOrder(a.s, b.s, b.s);
      } else {
        CompareCodepointsIsATotalOrder(CanonicalKey(c, a), CanonicalKey(c, b), CanonicalKey(c, b));
      }
    }
  }

  lemma CompareAntisymmetric(c: NumberCodec, a: Value, b: Value)
    ensures Compare(c, b, a) == -Compare(c, a, b)
  {
    if Rank(a) == Rank(b) {
      if a.Str? {
        LexAntisymmetric(CodePoints(a.s), CodePoints(b.s));
      } else {
        LexAntisymmetric(CodePoints(CanonicalKey(c, a)), CodePoints(CanonicalKey(c, b)));
      }
    }
  }

  lemma CompareTransitive(c: NumberCodec, a: Value, b: Value, d: Value)
    requires Compare(c, a, b) <= 0 && Compare(c, b, d) <= 0
    ensures Compare(c, a, d) <= 0
    ensures Compare(c, a, b) < 0 || Compare(c, b, d) < 0 ==> Compare(c, a, d) < 0
  {
    if Rank(a) == Rank(b) == Rank(d) {
      if a.Str? {
        LexTransitive(CodePoints(a.s), CodePoints(b.s), CodePoints(d.s));
      } else if a.Arr? || a.Obj? {
        LexTransitive(CodePoints(CanonicalKey(c, a)), CodePoints(CanonicalKey(c, b)), CodePoints(CanonicalKey(c, d)));
      }
    }
  }

  // ---------------------------------------------------------------- sort

  /** What an item is sorted or deduplicated by: itself, or one of its members. */
  predicate HasKey(field: Option<Text>, item: Value) {
    field.Some? ==> item.Obj? && field.value in item.m
  }

  predicate AllHaveKey(field: Option<Text>, items: seq<Value>) {
    forall i | 0 <= i < |items| :: HasKey(field, items[i])
  }

  function KeyOf(field: Option<Text>, item: Value): Value
    requires HasKey(field, item)
  {
    if field.None? then item else item.m[field.value]
  }

  datatype Sorting = Sorting(c: NumberCodec, field: Option<Text>, desc: bool)

  /** The comparator the sort recipe hands to `Array.prototype.sort`. */
  function Cmp(s: Sorting, x: Value, y: Value): int
    requires HasKey(s.field, x) && HasKey(s.field, y)
  {
    var comparison := Compare(s.c, KeyOf(s.field, x), KeyOf(s.field, y));
    if s.desc then -comparison else comparison
  }

  lemma CmpSymmetric(s: Sorting, x: Value, y: Value)
    requires HasKey(s.field, x) && HasKey(s.field, y)
    ensures Cmp(s, y, x) == -Cmp(s, x, y) && Cmp(s, x, x) == 0
  {
    CompareAntisymmetric(s.c, KeyOf(s.field, x), KeyOf(s.field, x));
    CompareAntisymmetric(s.c, KeyOf(s.field, x), KeyOf(s.field, y));
  }

  lemma CmpTransitive(s: Sorting, x: Value, y: Value, z: Value)
    requires HasKey(s.field, x) && HasKey(s.field, y) && HasKey(s.field, z)
    requires Cmp(s, x, y) <= 0 && Cmp(s, y, z) <= 0
    ensures Cmp(s, x, z) <= 0
  {
    var a, b, d := KeyOf(s.field, x), KeyOf(s.field, y), KeyOf(s.field, z);
    if s.desc {
      CompareAntisymmetric(s.c, a, b);
      CompareAntisymmetric(s.c, b, d);
      CompareAntisymmetric(s.c, a, d);
      CompareTransitive(s.c, d, b, a);
    } else {
      CompareTransitive(s.c, a, b, d);
    }
  }

  /** Items that tie compare alike with everything. */
  lemma CmpTies(s: Sorting, x: Value, y: Value, z: Value)
    requires HasKey(s.field, x) && HasKey(s.field, y) && HasKey(s.field, z)
    requires Cmp(s, x, y) == 0
    ensures Cmp(s, x, z) == 0 <==> Cmp(s, y, z) == 0
    ensures Cmp(s, x, z) <= 0 <==> Cmp(s, y, z) <= 0
    ensures Cmp(s, z, x) <= 0 <==> Cmp(s, z, y) <= 0
  {
    CmpSymmetric(s, x, y);
    CmpSymmetric(s, x, z);
    CmpSymmetric(s, y, z);
    if Cmp(s, x, z) <= 0 { CmpTransitive(s, y, x, z); }
    if Cmp(s, y, z) <= 0 { CmpTransitive(s, x, y, z); }
    if Cmp(s, z, x) <= 0 { CmpTransitive(s, z, x, y); }
    if Cmp(s, z, y) <= 0 { CmpTransitive(s, z, y, x); }
  }

  predicate Ordered(s: Sorting, items: seq<Value>)
    requires AllHaveKey(s.field, items)
  {
    forall i, j | 0 <= i < j < |items| :: Cmp(s, items[i], items[j]) <= 0
  }

  /** The items that tie with `x`, in the order they stand in. */
  function Ties(s: Sorting, items: seq<Value>, x: Value): (ties: seq<Value>)
    requires AllHaveKey(s.field, items) && HasKey(s.field, x)
  {
    if items == [] then []
    else (if Cmp(s, items[0], x) == 0 then [items[0]] else []) + Ties(s, items[1..], x)
  }

  /** `sorted` is ordered and, for every key, lists the items of that key exactly as `items`
      does: it is a permutation, and a stable one. */
  ghost predicate IsStableSort(s: Sorting, items: seq<Value>, sorted: seq<Value>)
    requires AllHaveKey(s.field, items)
  {
    && AllHaveKey(s.field, sorted) && Ordered(s, sorted)
    && forall x | HasKey(s.field, x) :: Ties(s, sorted, x) == Ties(s, items, x)
  }

  function Insert(s: Sorting, x: Value, items: seq<Value>): (r: seq<Value>)
    requires HasKey(s.field, x) && AllHaveKey(s.field, items)
    ensures AllHaveKey(s.field, r) && multiset(r) == multiset{x} + multiset(items)
  {
    if items == [] || Cmp(s, x, items[0]) <= 0 then
      assert multiset([x] + items) == multiset{x} + multiset(items);
      [x] + items
    else
      var rest := Insert(s, x, items[1..]);
      assert items == [items[0]] + items[1..];
      [items[0]] + rest
  }

  /** The order `Array.prototype.sort` produces, which ECMAScript requires to be stable. */
  function StableSort(s: Sorting, items: seq<Value>): (r: seq<Value>)
    requires AllHaveKey(s.field, items)
    ensures AllHaveKey(s.field, r) && multiset(r) == multiset(items)
  {
    if items == [] then []
    else
      assert items == [items[0]] + items[1..];
      Insert(s, items[0], StableSort(s, items[1..]))
  }

  lemma {:induction false} InsertOrdered(s: Sorting, x: Value, items: seq<Value>)
    requires HasKey(s.field, x) && AllHaveKey(s.field, items) && Ordered(s, items)
    ensures Ordered(s, Insert(s, x, items))
  {
    var r := Insert(s, x, items);
    if items == [] {
    } else if Cmp(s, x, items[0]) <= 0 {
      forall j | 0 < j < |r| ensures Cmp(s, r[0], r[j]) <= 0 {
        if j > 1 {
          CmpTransitive(s, x, items[0], r[j]);
        }
      }
    } else {
      var rest := Insert(s, x, items[1..]);
      InsertOrdered(s, x, items[1..]);
      CmpSymmetric(s, x, items[0]);
      forall j | 0 < j < |r| ensures Cmp(s, r[0], r[j]) <= 0 {
        assert r[j] in multiset(rest);
        if r[j] != x {
          assert r[j] in items[1..];
        }
      }
    }
  }

  lemma HeadAndTailValues(items: seq<Value>)
    requires items != []
    ensures items == [items[0]] + items[1..]
  {}

  lemma TiesCons(s: Sorting, x: Value, items: seq<Value>, y: Value)
    requires HasKey(s.field, x) && AllHaveKey(s.field, items) && HasKey(s.field, y)
    ensures Ties(s, [x] + items, y) == if Cmp(s, x, y) == 0 then [x] + Ties(s, items, y) else Ties(s, items, y)
  {
    assert ([x] + items)[1..] == items;
  }

  lemma {:induction false} InsertTies(s: Sorting, x: Value, items: seq<Value>, y: Value)
    requires HasKey(s.field, x) && AllHaveKey(s.field, items) && HasKey(s.field, y)
    ensures Ties(s, Insert(s, x, items), y) == (if Cmp(s, x, y) == 0 then [x] else []) + Ties(s, items, y)
  {
    hide Cmp;
    if items == [] || Cmp(s, x, items[0]) <= 0 {
      assert ([x] + items)[1..] == items;
    } else {
      var rest := Insert(s, x, items[1..]);
      InsertTies(s, x, items[1..], y);
      TiesCons(s, items[0], rest, y);
      TiesCons(s, items[0], items[1..], y);
      HeadAndTailValues(items);
      if Cmp(s, items[0], y) == 0 {
        CmpTies(s, items[0], y, x);
        CmpSymmetric(s, items[0], x);
        CmpSymmetric(s, y, x);
        assert Cmp(s, x, y) != 0;
      }
    }
  }

  /** The sort recipe's target is an ordered, stable permutation, in both directions. */
  lemma {:induction false} StableSortIsStable(s: Sorting, items: seq<Value>)
    requires AllHaveKey(s.field, items)
    ensures IsStableSort(s, items, StableSort(s, items))
  {
    if items != [] {
      StableSortIsStable(s, items[1..]);
      InsertOrdered(s, items[0], StableSort(s, items[1..]));
      forall y | HasKey(s.field, y) ensures Ties(s, StableSort(s, items), y) == Ties(s, items, y) {
        InsertTies(s, items[0], StableSort(s, items[1..]), y);
      }
    }
  }

  /** There is only one such order, so any stable platform sort returns this one. */
  lemma {:induction false} StableSortUnique(s: Sorting, a: seq<Value>, b: seq<Value>)
    requires AllHaveKey(s.field, a) && AllHaveKey(s.field, b) && Ordered(s, a) && Ordered(s, b)
    requires forall x | HasKey(s.field, x) :: Ties(s, a, x) == Ties(s, b, x)
    ensures a == b
  {
    if a == [] {
      if b != [] {
        TiesOfHead(s, b);
      }
    } else {
      CmpSymmetric(s, a[0], a[0]);
      assert Ties(s, a, a[0]) == Ties(s, b, a[0]);
      HeadIsNotAfter(s, b, a[0]);
      CmpSymmetric(s, b[0], b[0]);
      assert Ties(s, a, b[0]) == Ties(s, b, b[0]);
      HeadIsNotAfter(s, a, b[0]);
      CmpSymmetric(s, a[0], b[0]);
      assert a[0] == Ties(s, a, a[0])[0] && b[0] == Ties(s, b, a[0])[0];
      TailTies(s, a, b);
      StableSortUnique(s, a[1..], b[1..]);
      assert a == [a[0]] + a[1..] && b == [b[0]] + b[1..];
    }
  }

  lemma TiesOfHead(s: Sorting, items: seq<Value>)
    requires AllHaveKey(s.field, items) && items != []
    ensures Ties(s, items, items[0]) != []
  {
    CmpSymmetric(s, items[0], items[0]);
  }

  lemma TailTies(s: Sorting, a: seq<Value>, b: seq<Value>)
    requires AllHaveKey(s.field, a) && AllHaveKey(s.field, b) && a != [] && b != [] && a[0] == b[0]
    requires forall x | HasKey(s.field, x) :: Ties(s, a, x) == Ties(s, b, x)
    ensures forall x | HasKey(s.field, x) :: Ties(s, a[1..], x) == Ties(s, b[1..], x)
  {
    forall x | HasKey(s.field, x) ensures Ties(s, a[1..], x) == Ties(s, b[1..], x) {
      assert Ties(s, a, x) == Ties(s, b, x);
      var head := if Cmp(s, a[0], x) == 0 then [a[0]] else [];
      assert Ties(s, a, x)[|head|..] == Ties(s, a[1..], x);
      assert Ties(s, b, x)[|head|..] == Ties(s, b[1..], x);
    }
  }

  /** In an ordered list with an item that ties with `x`, the head does not come after `x`. */
  lemma HeadIsNotAfter(s: Sorting, items: seq<Value>, x: Value)
    requires AllHaveKey(s.field, items) && Ordered(s, items) && HasKey(s.field, x) && Ties(s, items, x) != []
    ensures items != [] && Cmp(s, items[0], x) <= 0
  {
    var i := TieExists(s, items, x);
    if i > 0 {
      CmpTransitive(s, items[0], items[i], x);
    }
  }

  lemma {:induction false} TieExists(s: Sorting, items: seq<Value>, x: Value) returns (i: nat)
    requires AllHaveKey(s.field, items) && HasKey(s.field, x) && Ties(s, items, x) != []
    ensures i < |items| && Cmp(s, items[i], x) == 0
  {
    if Cmp(s, items[0], x) == 0 {
      i := 0;
    } else {
      var k := TieExists(s, items[1..], x);
      i := k + 1;
    }
  }

  // ---------------------------------------------------------------- unique

  /** The text two items are compared by. */
  function UniqueKey(c: NumberCodec, field: Option<Text>, item: Value): Text
    requires HasKey(field, item)
  {
    CanonicalKey(c, KeyOf(field, item))
  }

  predicate SeenBefore(c: NumberCodec, field: Option<Text>, items: seq<Value>, i: nat)
    requires AllHaveKey(field, items) && i < |items|
  {
    exists j | 0 <= j < i :: UniqueKey(c, field, items[j]) == UniqueKey(c, field, items[i])
  }

  /** Exactly the first occurrence of each class, in order. */
  function FirstOccurrences(c: NumberCodec, field: Option<Text>, items: seq<Value>, n: nat): (r: seq<Value>)
    requires AllHaveKey(field, items) && n <= |items|
    ensures AllHaveKey(field, r) && |r| <= n
  {
    if n == 0 then []
    else FirstOccurrences(c, field, items, n - 1) + if SeenBefore(c, field, items, n - 1) then [] else [items[n - 1]]
  }

  function Unique(c: NumberCodec, field: Option<Text>, items: seq<Value>): seq<Value>
    requires AllHaveKey(field, items)
  {
    FirstOccurrences(c, field, items, |items|)
  }

  function SeenKeys(c: NumberCodec, field: Option<Text>, items: seq<Value>, n: nat): set<Text>
    requires AllHaveKey(field, items) && n <= |items|
  {
    set j | 0 <= j < n :: UniqueKey(c, field, items[j])
  }

  lemma SeenOneMore(c: NumberCodec, field: Option<Text>, items: seq<Value>, n: nat)
    requires AllHaveKey(field, items) && n < |items|
    ensures SeenKeys(c, field, items, n + 1) == SeenKeys(c, field, items, n) + {UniqueKey(c, field, items[n])}
  {}

  /** The deduplication loop with its set of seen keys. */
  method UniqueLoop(c: NumberCodec, field: Option<Text>, items: seq<Value>) returns (target: seq<Value>)
    requires AllHaveKey(field, items)
    ensures target == Unique(c, field, items)
  {
    var seen: set<Text> := {};
    target := [];
    for i := 0 to |items|
      invariant target == FirstOccurrences(c, field, items, i)
      invariant seen == SeenKeys(c, field, items, i)
    {
      var key := UniqueKey(c, field, items[i]);
      SeenOneMore(c, field, items, i);
      if key !in seen {
        seen := seen + {key};
        target := target + [items[i]];
      }
    }
  }

  predicate KeyAmong(c: NumberCodec, field: Option<Text>, items: seq<Value>, key: Text)
    requires AllHaveKey(field, items)
  {
    exists k | 0 <= k < |items| :: UniqueKey(c, field, items[k]) == key
  }

  lemma KeyAmongLonger(c: NumberCodec, field: Option<Text>, a: seq<Value>, b: seq<Value>, key: Text)
    requires AllHaveKey(field, a) && AllHaveKey(field, b) && AllHaveKey(field, a + b)
    ensures KeyAmong(c, field, a + b, key) <==> KeyAmong(c, field, a, key) || KeyAmong(c, field, b, key)
  {
    if KeyAmong(c, field, a, key) {
      var k :| 0 <= k < |a| && UniqueKey(c, field, a[k]) == key;
      assert (a + b)[k] == a[k];
    }
    if KeyAmong(c, field, b, key) {
      var k :| 0 <= k < |b| && UniqueKey(c, field, b[k]) == key;
      assert (a + b)[|a| + k] == b[k];
    }
  }

  /** The kept items have exactly the keys of the items read. */
  lemma {:induction false} KeysKept(c: NumberCodec, field: Option<Text>, items: seq<Value>, n: nat, key: Text)
    requires AllHaveKey(field, items) && n <= |items|
    ensures KeyAmong(c, field, FirstOccurrences(c, field, items, n), key)
      <==> exists i | 0 <= i < n :: UniqueKey(c, field, items[i]) == key
  {
    if n > 0 {
      var p := FirstOccurrences(c, field, items, n - 1);
      KeysKept(c, field, items, n - 1, key);
      if SeenBefore(c, field, items, n - 1) {
        assert FirstOccurrences(c, field, items, n) == p;
      } else {
        KeyAmongLonger(c, field, p, [items[n - 1]], key);
        assert [items[n - 1]][0] == items[n - 1];
        assert FirstOccurrences(c, field, items, n) == p + [items[n - 1]];
      }
    }
  }

  predicate DistinctKeys(c: NumberCodec, field: Option<Text>, items: seq<Value>)
    requires AllHaveKey(field, items)
  {
    forall j, k | 0 <= j < k < |items| :: UniqueKey(c, field, items[j]) != UniqueKey(c, field, items[k])
  }

  lemma {:induction false} KeptKeysDistinct(c: NumberCodec, field: Option<Text>, items: seq<Value>, n: nat)
    requires AllHaveKey(field, items) && n <= |items|
    ensures DistinctKeys(c, field, FirstOccurrences(c, field, items, n))
  {
    if n > 0 {
      KeptKeysDistinct(c, field, items, n - 1);
      KeysKept(c, field, items, n - 1, UniqueKey(c, field, items[n - 1]));
    }
  }

  /** What the unique recipe keeps has pairwise distinct keys, exactly the keys there
      were, and is left alone when deduplicated again. */
  lemma UniqueIsIdempotent(c: NumberCodec, field: Option<Text>, items: seq<Value>)
    requires AllHaveKey(field, items)
    ensures Unique(c, field, Unique(c, field, items)) == Unique(c, field, items)
    ensures forall key :: KeyAmong(c, field, Unique(c, field, items), key) <==> KeyAmong(c, field, items, key)
    ensures DistinctKeys(c, field, Unique(c, field, items))
  {
    forall key ensures KeyAmong(c, field, Unique(c, field, items), key) <==> KeyAmong(c, field, items, key) {
      KeysKept(c, field, items, |items|, key);
    }
    KeptKeysDistinct(c, field, items, |items|);
    var r := FirstOccurrences(c, field, items, |items|);
    DistinctKeysAllKept(c, field, r, |r|);
    assert r[..|r|] == r;
  }

  lemma {:induction false} DistinctKeysAllKept(c: NumberCodec, field: Option<Text>, items: seq<Value>, n: nat)
    requires AllHaveKey(field, items) && n <= |items|
    requires DistinctKeys(c, field, items)
    ensures FirstOccurrences(c, field, items, n) == items[..n]
  {
    if n > 0 {
      DistinctKeysAllKept(c, field, items, n - 1);
      assert items[..n] == items[..n - 1] + [items[n - 1]];
      assert forall j | 0 <= j < n - 1 :: UniqueKey(c, field, items[j]) != UniqueKey(c, field, items[n - 1]);
    }
  }
}
