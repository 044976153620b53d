/** The structure limits of schema previews: an explicit-stack walk with early exit. */
module StudioBounds {
  import opened Text
  import opened Values
  import opened Utf8
  import opened Canonical
  import opened Grammar
  import opened ProtocolBytes
  import opened OrderedJson

  // ---------------------------------------------------------------- what is bounded

  /** The number of values in a tree, itself included. */
  function Count(v: Value): (n: nat)
    ensures n > 0
    decreases v, 0
  {
    match v
    case Arr(items) => 1 + CountItems(items)
    case Obj(m) => 1 + CountEntries(v, SortedKeys(ByCodeUnit, m.Keys))
    case _ => 1
  }

  function CountItems(items: seq<Value>): nat
    decreases items
  {
    if items == [] then 0 else Count(items[0]) + CountItems(items[1..])
  }

  function CountEntries(v: Value, ks: seq<Text>): nat
    requires v.Obj? && forall k <- ks :: k in v.m
    decreases v, 0, |ks|
  {
    if ks == [] then 0 else Count(v.m[ks[0]]) + CountEntries(v, ks[1..])
  }

  /** No value lies more than `d` levels below the root. */
  predicate DepthAtMost(v: Value, d: int) {
    d >= 0 &&
    match v
    case Arr(items) => forall x <- items :: DepthAtMost(x, d - 1)
    case Obj(m) => forall k <- m :: DepthAtMost(m[k], d - 1)
    case _ => true
  }

  // ---------------------------------------------------------------- any order of the entries

  function EntryCount(v: Value, k: Text): nat
    requires v.Obj?
  {
    if k in v.m then Count(v.m[k]) else 0
  }

  lemma {:induction false} CountIsSum(v: Value, ks: seq<Text>)
    requires v.Obj? && forall k <- ks :: k in v.m
    ensures CountEntries(v, ks) == SumOver(k => EntryCount(v, k), ks)
    decreases |ks|
  {
    if ks != [] {
      CountIsSum(v, ks[1..]);
    }
  }

  /** The count does not depend on the order in which the entries are listed. */
  lemma CountInAnyOrder(v: Value, a: seq<Text>, b: seq<Text>)
    requires v.Obj? && (forall k <- a :: k in v.m) && (forall k :: k in a <==> k in b)
    requires Distinct(a) && Distinct(b)
    ensures CountEntries(v, a) == CountEntries(v, b)
  {
    CountIsSum(v, a);
    CountIsSum(v, b);
    SumInAnyOrder(k => EntryCount(v, k), a, b);
  }

  /** `Object.values`, in the order in which the entries are kept. */
  function Children(j: Json): seq<Json> {
    match j
    case JList(items) => items
    case JRecord(keys, fields) => FieldsAt(fields, keys)
    case _ => []
  }

  function FieldsAt(fields: map<Text, Json>, ks: seq<Text>): seq<Json> {
    if ks == [] then []
    else (if ks[0] in fields then [fields[ks[0]]] else []) + FieldsAt(fields, ks[1..])
  }

  predicate AllListed(items: seq<Json>) { forall x <- items :: Listed(x) }

  predicate AllWithin(items: seq<Json>, d: int) { forall x <- items :: DepthAtMost(Unordered(x), d) }

  lemma {:induction false} FieldsCarry(j: Json, ks: seq<Text>, d: int)
    requires j.JRecord? && Listed(j) && forall k <- ks :: k in j.fields
    ensures CountItems(UnorderedAll(FieldsAt(j.fields, ks))) == CountEntries(Unordered(j), ks)
    ensures AllWithin(FieldsAt(j.fields, ks), d) <==> (forall k <- ks :: DepthAtMost(Unordered(j.fields[k]), d))
    ensures AllListed(FieldsAt(j.fields, ks))
    decreases |ks|
  {
    if ks != [] {
      FieldsCarry(j, ks[1..], d);
      HeadAndTailOf(ks);
      var first, more := j.fields[ks[0]], FieldsAt(j.fields, ks[1..]);
      var all := [first] + more;
      assert FieldsAt(j.fields, ks) == all;
      assert UnorderedAll(all)[1..] == UnorderedAll(more);
      assert forall x :: x in all <==> x == first || x in more;
    }
  }

  /** A value's children carry the rest of its count and its depth. */
  lemma ChildrenCarry(j: Json, d: int)
    requires Listed(j)
    ensures Count(Unordered(j)) == 1 + CountItems(UnorderedAll(Children(j)))
    ensures DepthAtMost(Unordered(j), d) <==> d >= 0 && AllWithin(Children(j), d - 1)
    ensures AllListed(Children(j))
  {
    if j.JRecord? {
      RecordCarries(j, d);
    } else if j.JList? {
      ItemsCarry(j.items, d);
    }
  }

  lemma ItemsCarry(items: seq<Json>, d: int)
    ensures DepthAtMost(Arr(UnorderedAll(items)), d) <==> d >= 0 && AllWithin(items, d - 1)
  {
    var all := UnorderedAll(items);
    if AllWithin(items, d - 1) {
      forall x | x in all ensures DepthAtMost(x, d - 1) {
        var i :| 0 <= i < |all| && all[i] == x;
        assert items[i] in items;
      }
    }
    if DepthAtMost(Arr(all), d) {
      forall x | x in items ensures DepthAtMost(Unordered(x), d - 1) {
        var i :| 0 <= i < |items| && items[i] == x;
        assert all[i] in all;
      }
    }
  }

  lemma RecordCarries(j: Json, d: int)
    requires j.JRecord? && Listed(j)
    ensures Count(Unordered(j)) == 1 + CountItems(UnorderedAll(Children(j)))
    ensures DepthAtMost(Unordered(j), d) <==> d >= 0 && AllWithin(Children(j), d - 1)
    ensures AllListed(Children(j))
  {
    FieldsCarry(j, j.keys, d - 1);
    RecordCount(j);
    RecordDepth(j, d);
    hide Listed, Unordered, DepthAtMost, Count, CountItems, CountEntries, AllWithin;
  }

  lemma RecordDepth(j: Json, d: int)
    requires j.JRecord? && Listed(j)
    ensures DepthAtMost(Unordered(j), d) <==> d >= 0 && forall k <- j.keys :: DepthAtMost(Unordered(j.fields[k]), d - 1)
  {
    var m := Unordered(j).m;
    assert forall k <- j.fields :: k in j.keys;
    if DepthAtMost(Unordered(j), d) {
      forall k | k in j.keys ensures DepthAtMost(Unordered(j.fields[k]), d - 1) {
        assert k in m && m[k] == Unordered(j.fields[k]);
      }
    }
    if d >= 0 && forall k <- j.keys :: DepthAtMost(Unordered(j.fields[k]), d - 1) {
      forall k | k in m ensures DepthAtMost(m[k], d - 1) {
        assert k in j.keys;
      }
    }
  }

  lemma RecordCount(j: Json)
    requires j.JRecord? && Listed(j)
    ensures Count(Unordered(j)) == 1 + CountEntries(Unordered(j), j.keys)
  {
    var v := Unordered(j);
    var sorted := SortedKeys(ByCodeUnit, v.m.Keys);
    KeysDistinct(ByCodeUnit, sorted);
    assert v.m.Keys == j.fields.Keys;
    CountInAnyOrder(v, j.keys, sorted);
  }

  // ---------------------------------------------------------------- the walk

  type Pending = seq<(Json, nat)>

  function CountPending(pending: Pending): nat {
    if pending == [] then 0 else CountPending(pending[..|pending| - 1]) + Count(Unordered(pending[|pending| - 1].0))
  }

  predicate PendingFits(pending: Pending, depthLimit: nat) {
    forall i | 0 <= i < |pending| :: DepthAtMost(Unordered(pending[i].0), depthLimit - pending[i].1)
  }

  predicate PendingListed(pending: Pending) { forall i | 0 <= i < |pending| :: Listed(pending[i].0) }

  lemma CountPush(pending: Pending, item: Json, depth: nat)
    ensures CountPending(pending + [(item, depth)]) == CountPending(pending) + Count(Unordered(item))
  {
    assert (pending + [(item, depth)])[..|pending|] == pending;
  }

  lemma CountItemsPush(items: seq<Json>, i: nat)
    requires i < |items|
    ensures CountItems(UnorderedAll(items[i..])) == Count(Unordered(items[i])) + CountItems(UnorderedAll(items[i + 1..]))
  {
    assert items[i..][1..] == items[i + 1..];
    assert UnorderedAll(items[i..])[1..] == UnorderedAll(items[i + 1..]);
  }

  /** The refinement's loop: pop, count, give up beyond a limit, push the children. What
      it decides does not depend on key order. */
  method WithinStructure(value: Json, nodeLimit: nat, depthLimit: nat) returns (ok: bool)
    requires Listed(value)
    ensures ok <==> Count(Unordered(value)) <= nodeLimit && DepthAtMost(Unordered(value), depthLimit)
  {
    hide Unordered, Count, DepthAtMost, Listed, Children, CountItems;
    var pending: Pending := [(value, 0)];
    var count := 0;
    CountPush([], value, 0);
    assert [] + [(value, 0)] == pending;
    while pending != []
      invariant count <= nodeLimit && PendingListed(pending)
      invariant count + CountPending(pending) == Count(Unordered(value))
      invariant DepthAtMost(Unordered(value), depthLimit) <==> PendingFits(pending, depthLimit)
      decreases CountPending(pending)
    {
      var item, depth := pending[|pending| - 1].0, pending[|pending| - 1].1;
      ghost var before := pending;
      ChildrenCarry(item, depthLimit - depth);
      pending := pending[..|pending| - 1];
      count := count + 1;
      if count > nodeLimit || depth > depthLimit {
        return false;
      }
      PopFits(before, depthLimit);
      pending := PushAll(pending, Children(item), depth + 1, depthLimit);
    }
    ok := true;
  }

  lemma PopFits(pending: Pending, depthLimit: nat)
    requires pending != []
    ensures PendingFits(pending, depthLimit) <==>
      PendingFits(pending[..|pending| - 1], depthLimit) && DepthAtMost(Unordered(pending[|pending| - 1].0), depthLimit - pending[|pending| - 1].1)
  {
    assert forall i | 0 <= i < |pending| - 1 :: pending[..|pending| - 1][i] == pending[i];
  }

  lemma EachOf(children: seq<Json>, d: int)
    ensures (forall j | 0 <= j < |children| :: DepthAtMost(Unordered(children[j]), d)) <==> AllWithin(children, d)
  {
    if forall j | 0 <= j < |children| :: DepthAtMost(Unordered(children[j]), d) {
      forall x | x in children ensures DepthAtMost(Unordered(x), d) {
        var j :| 0 <= j < |children| && children[j] == x;
      }
    }
  }

  /** `for (const child of …) pending.push([child, depth])` */
  method PushAll(before: Pending, children: seq<Json>, depth: nat, ghost depthLimit: nat) returns (pending: Pending)
    requires PendingListed(before) && AllListed(children)
    ensures PendingListed(pending)
    ensures CountPending(pending) == CountPending(before) + CountItems(UnorderedAll(children))
    ensures PendingFits(pending, depthLimit) <==> PendingFits(before, depthLimit) && AllWithin(children, depthLimit - depth)
  {
    hide Unordered, Count, DepthAtMost, Listed;
    pending := before;
    for i := 0 to |children|
      invariant PendingListed(pending)
      invariant CountPending(pending) + CountItems(UnorderedAll(children[i..])) == CountPending(before) + CountItems(UnorderedAll(children))
      invariant PendingFits(pending, depthLimit) <==>
        PendingFits(before, depthLimit) && forall j | 0 <= j < i :: DepthAtMost(Unordered(children[j]), depthLimit - depth)
    {
      CountPush(pending, children[i], depth);
      CountItemsPush(children, i);
      ghost var was := pending;
      pending := pending + [(children[i], depth)];
      assert pending[..|pending| - 1] == was;
      PopFits(pending, depthLimit);
    }
    assert children[|children|..] == [];
    EachOf(children, depthLimit - depth);
  }

  // ---------------------------------------------------------------- the two schemas

  /** `StudioSampleValueSchema`: 10000 values, 24 levels, 64 KiB of JSON text. */
  method SampleValueAccepted(c: NumberCodec, value: Json) returns (ok: bool)
    requires Lawful(c) && NumbersFinite(c, value) && Listed(value)
    ensures ok <==> Count(Unordered(value)) <= 10000 && DepthAtMost(Unordered(value), 24) && |CanonicalBytes(c, Unordered(value))| <= 65536
  {
    ok := WithinStructure(value, 10000, 24);
    if ok {
      StringifiedWidth(c, value);
      ok := |Encode(Stringify(c, value))| <= 65536;
    }
  }

  /** `StudioSchemaEditLocalContributionSchema`: 25000 values, 32 levels, 1 MiB. */
  method ContributionAccepted(c: NumberCodec, value: Json) returns (ok: bool)
    requires Lawful(c) && NumbersFinite(c, value) && Listed(value)
    ensures ok <==> Count(Unordered(value)) <= 25000 && DepthAtMost(Unordered(value), 32) && |CanonicalBytes(c, Unordered(value))| <= 1024 * 1024
  {
    ok := WithinStructure(value, 25000, 32);
    if ok {
      StringifiedWidth(c, value);
      ok := |Encode(Stringify(c, value))| <= 1024 * 1024;
    }
  }
}
