/** The value order of YOps spelled out, and what sort and unique make of a sequence. */
module YSorted {
  import opened Text
  import opened Values
  import opened Grammar
  import opened Canonical
  import opened YOrder

  // ---------------------------------------------------------------- the order

  /** null, boolean, number, string, sequence, mapping */
  predicate TypeBefore(a: Value, b: Value) {
    || (a.Null? && !b.Null?)
    || (a.Bool? && (b.Num? || b.Str? || b.Arr? || b.Obj?))
    || (a.Num? && (b.Str? || b.Arr? || b.Obj?))
    || (a.Str? && (b.Arr? || b.Obj?))
    || (a.Arr? && b.Obj?)
  }

  /** Types in their order; false before true, numbers by size, strings by their first
      differing code point, sequences and mappings by that of their canonical texts. */
  predicate Precedes(c: NumberCodec, a: Value, b: Value) {
    || TypeBefore(a, b)
    || (a.Bool? && b.Bool? && !a.b && b.b)
    || (a.Num? && b.Num? && a.r < b.r)
    || (a.Str? && b.Str? && ComesBefore(CodePoints(a.s), CodePoints(b.s)))
    || (((a.Arr? && b.Arr?) || (a.Obj? && b.Obj?))
        && ComesBefore(CodePoints(Canon(c, ByCodePoint, a)), CodePoints(Canon(c, ByCodePoint, b))))
  }

  /** `compareYValues` is negative exactly where the first value precedes the second, and
      positive exactly where the second precedes the first. */
  lemma CompareExactly(c: NumberCodec, a: Value, b: Value)
    ensures Compare(c, a, b) < 0 <==> Precedes(c, a, b)
    ensures Compare(c, a, b) > 0 <==> Precedes(c, b, a)
  {
    hide ComesBefore, Lex;
    if a.Str? && b.Str? {
      LexExactly(CodePoints(a.s), CodePoints(b.s));
    } else if (a.Arr? && b.Arr?) || (a.Obj? && b.Obj?) {
      LexExactly(CodePoints(CanonicalKey(c, a)), CodePoints(CanonicalKey(c, b)));
    }
  }

  // ---------------------------------------------------------------- sort

  /** The value an item stands for: itself, or its entry under the field. */
  function Keyed(field: Option<Text>, item: Value): Value {
    match field
    case None => item
    case Some(k) => if item.Obj? && k in item.m then item.m[k] else item
  }

  /** The items that can be sorted by a field are the mappings that have it. */
  lemma SortableExactly(field: Option<Text>, items: seq<Value>)
    ensures AllHaveKey(field, items) <==>
      field.None? || forall i | 0 <= i < |items| :: items[i].Obj? && field.value in items[i].m
  {}

  /** Ascending, nothing later precedes anything earlier; descending, nothing earlier
      precedes anything later. In particular numbers go up, or down, and so do types. */
  lemma SortGoesOneWay(s: Sorting, items: seq<Value>, i: nat, j: nat)
    requires AllHaveKey(s.field, items) && i < j < |StableSort(s, items)|
    ensures var r := StableSort(s, items); var x, y := Keyed(s.field, r[i]), Keyed(s.field, r[j]);
      && (if s.desc then !Precedes(s.c, x, y) else !Precedes(s.c, y, x))
      && (x.Num? && y.Num? ==> if s.desc then x.r >= y.r else x.r <= y.r)
      && (x.Bool? && y.Bool? && x.b != y.b ==> x.b == s.desc)
      && (if s.desc then !TypeBefore(x, y) else !TypeBefore(y, x))
  {
    hide StableSort, Precedes, Compare;
    var r := StableSort(s, items);
    StableSortIsStable(s, items);
    assert Cmp(s, r[i], r[j]) <= 0;
    CompareExactly(s.c, Keyed(s.field, r[i]), Keyed(s.field, r[j]));
    PrecedesFacts(s.c, Keyed(s.field, r[i]), Keyed(s.field, r[j]));
    PrecedesFacts(s.c, Keyed(s.field, r[j]), Keyed(s.field, r[i]));
  }

  lemma PrecedesFacts(c: NumberCodec, a: Value, b: Value)
    ensures TypeBefore(a, b) ==> Precedes(c, a, b)
    ensures a.Num? && b.Num? && a.r < b.r ==> Precedes(c, a, b)
    ensures a.Bool? && b.Bool? && !a.b && b.b ==> Precedes(c, a, b)
  {}

  /** The items that stand for the value, in their order. */
  function Standing(field: Option<Text>, items: seq<Value>, v: Value): seq<Value> {
    if items == [] then []
    else (if Keyed(field, items[0]) == v then [items[0]] else []) + Standing(field, items[1..], v)
  }

  lemma {:induction false} StandingAreTies(s: Sorting, items: seq<Value>, x: Value)
    requires Lawful(s.c) && AllHaveKey(s.field, items) && HasKey(s.field, x)
    requires Finite(s.c, Keyed(s.field, x)) && forall i | 0 <= i < |items| :: Finite(s.c, Keyed(s.field, items[i]))
    ensures Ties(s, items, x) == Standing(s.field, items, Keyed(s.field, x))
    decreases |items|
  {
    hide Compare, Finite;
    if items != [] {
      CompareZero(s.c, Keyed(s.field, items[0]), Keyed(s.field, x));
      StandingAreTies(s, items[1..], x);
    }
  }

  lemma {:induction false} NoneStanding(field: Option<Text>, items: seq<Value>, v: Value)
    requires forall i | 0 <= i < |items| :: Keyed(field, items[i]) != v
    ensures Standing(field, items, v) == []
    decreases |items|
  {
    if items != [] {
      NoneStanding(field, items[1..], v);
    }
  }

  /** Sorting keeps the items that stand for one value in the order they stood in: it is a
      permutation, and a stable one. */
  lemma SortKeepsEqual(s: Sorting, items: seq<Value>, v: Value)
    requires Lawful(s.c) && AllHaveKey(s.field, items) && forall i | 0 <= i < |items| :: Finite(s.c, Keyed(s.field, items[i]))
    ensures Standing(s.field, StableSort(s, items), v) == Standing(s.field, items, v)
    ensures multiset(StableSort(s, items)) == multiset(items)
  {
    hide Ties, Finite, Compare;
    var r := StableSort(s, items);
    forall i | 0 <= i < |r| ensures exists j | 0 <= j < |items| :: items[j] == r[i] {
      assert r[i] in multiset(r);
      assert r[i] in items;
    }
    if i :| 0 <= i < |items| && Keyed(s.field, items[i]) == v {
      StableSortIsStable(s, items);
      StandingAreTies(s, items, items[i]);
      StandingAreTies(s, r, items[i]);
    } else {
      NoneStanding(s.field, items, v);
      NoneStanding(s.field, r, v);
    }
  }

  // ---------------------------------------------------------------- unique

  predicate StandsEarlier(field: Option<Text>, items: seq<Value>, i: nat)
    requires i < |items|
  {
    exists j | 0 <= j < i :: Keyed(field, items[j]) == Keyed(field, items[i])
  }

  /** Every item that is the first to stand for its value. */
  function FirstToStand(field: Option<Text>, items: seq<Value>, n: nat): seq<Value>
    requires n <= |items|
  {
    if n == 0 then []
    else FirstToStand(field, items, n - 1) + if StandsEarlier(field, items, n - 1) then [] else [items[n - 1]]
  }

  lemma {:induction false} FirstOccurrencesByValue(c: NumberCodec, field: Option<Text>, items: seq<Value>, n: nat)
    requires Lawful(c) && AllHaveKey(field, items) && n <= |items|
    requires forall i | 0 <= i < |items| :: Finite(c, Keyed(field, items[i]))
    ensures FirstOccurrences(c, field, items, n) == FirstToStand(field, items, n)
  {
    if n > 0 {
      FirstOccurrencesByValue(c, field, items, n - 1);
      forall j | 0 <= j < n - 1
        ensures UniqueKey(c, field, items[j]) == UniqueKey(c, field, items[n - 1]) <==> Keyed(field, items[j]) == Keyed(field, items[n - 1])
      {
        CanonicalTextIdentifiesValue(c, ByCodePoint, Keyed(field, items[j]), Keyed(field, items[n - 1]));
      }
    }
  }

  /** Unique keeps, in order, the first of the items that stand for one value. */
  lemma UniqueKeepsFirst(c: NumberCodec, field: Option<Text>, items: seq<Value>)
    requires Lawful(c) && AllHaveKey(field, items) && forall i | 0 <= i < |items| :: Finite(c, Keyed(field, items[i]))
    ensures Unique(c, field, items) == FirstToStand(field, items, |items|)
  {
    FirstOccurrencesByValue(c, field, items, |items|);
  }
}
