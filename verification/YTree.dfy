/** YOps documents on the heap: cloning, and setting and deleting in place on the clone,
    against the functions of YDoc on the values the nodes stand for. */
module YTree {
  import opened Text
  import opened Values
  import opened YPath
  import opened YDoc

  predicate IsScalar(v: Value) { !v.Arr? && !v.Obj? }

  datatype Ref = Scalar(v: Value) | Node(n: YNode)

  /** Where a child sits in its parent. */
  datatype Slot = At(i: nat) | Under(k: Text)

  function Part(v: Value, s: Slot): Value
    requires HasSlot(v, s)
  {
    if s.At? then v.items[s.i] else v.m[s.k]
  }

  predicate HasSlot(v: Value, s: Slot) {
    if s.At? then v.Arr? && s.i < |v.items| else v.Obj? && s.k in v.m
  }

  function Replaced(v: Value, s: Slot, part: Value): Value
    requires if s.At? then HasSlot(v, s) else v.Obj?
  {
    if s.At? then Arr(v.items[s.i := part]) else Obj(v.m[s.k := part])
  }

  function Without(v: Value, s: Slot): Value
    requires HasSlot(v, s)
  {
    if s.At? then Arr(v.items[..s.i] + v.items[s.i + 1..]) else Obj(v.m - {s.k})
  }

  /** Where the child at `t` was before the one at `s` was removed. */
  function Shifted(s: Slot, t: Slot): Slot { if s.At? && t.At? && t.i >= s.i then At(t.i + 1) else t }

  class YNode {
    var isSeq: bool
    var items: seq<Ref>
    var entries: map<Text, Ref>
    ghost var Repr: set<YNode>
    ghost var Model: Value

    predicate Has(s: Slot)
      reads this
    {
      if s.At? then isSeq && s.i < |items| else !isSeq && s.k in entries
    }

    function Child(s: Slot): Ref
      requires Has(s)
      reads this
    {
      if s.At? then items[s.i] else entries[s.k]
    }

    /** The node and everything below it stand for `Model` and lie in `Repr`; the nodes
        may be shared, unless it is to be a tree. */
    ghost predicate Valid(tree: bool)
      reads this, Repr
      decreases Repr
    {
      && this in Repr
      && Shaped()
      && (forall s :: Has(s) ==> Holds(Child(s), Part(Model, s), tree))
      && (tree ==> forall s, t :: Has(s) && Has(t) && s != t ==> Apart(Child(s), Child(t)))
    }

    ghost predicate Holds(r: Ref, v: Value, tree: bool)
      requires this in Repr
      reads this, Repr
      decreases Repr, 0
    {
      match r
      case Scalar(s) => s == v && IsScalar(s)
      case Node(n) => n in Repr && n.Repr <= Repr && this !in n.Repr && n.Model == v && n.Valid(tree)
    }

    ghost predicate Apart(a: Ref, b: Ref)
      reads this, Repr
    {
      a.Node? && b.Node? && a.n in Repr && b.n in Repr ==> a.n.Repr !! b.n.Repr
    }

    ghost predicate Shaped()
      reads this
    {
      if isSeq then Model.Arr? && |Model.items| == |items| else Model.Obj? && Model.m.Keys == entries.Keys
    }

    /** `current[i] = child`, or `setOwnKey(current, k, child)`. */
    method PutChild(s: Slot, child: Ref)
      requires Valid(true) && (if s.At? then Has(s) else !isSeq)
      requires Good(child, true) && Nodes(child) !! Repr
      modifies this
      ensures Valid(true) && Has(s) && Child(s) == child
      ensures Model == Replaced(old(Model), s, Meaning(child)) && Repr == old(Repr) + Nodes(child)
    {
      if s.At? {
        items := items[s.i := child];
      } else {
        entries := entries[s.k := child];
      }
      Model := Replaced(Model, s, Meaning(child));
      Repr := Repr + Nodes(child);
      forall t | Has(t) ensures Holds(Child(t), Part(Model, t), true) {
        assert t != s ==> old(Has(t)) && old(Holds(Child(t), Part(Model, t), true));
      }
      forall t, u | Has(t) && Has(u) && t != u ensures Apart(Child(t), Child(u)) {
        assert t != s && u != s ==> old(Has(t)) && old(Has(u)) && old(Apart(Child(t), Child(u)));
        assert t != s ==> old(Holds(Child(t), Part(Model, t), true));
        assert u != s ==> old(Holds(Child(u), Part(Model, u), true));
      }
    }

    /** `delete current[k]`, or `current.splice(i, 1)`. */
    method RemoveChild(s: Slot)
      requires Valid(true) && Has(s)
      modifies this
      ensures Valid(true) && Model == Without(old(Model), s) && Repr == old(Repr)
    {
      if s.At? {
        items := items[..s.i] + items[s.i + 1..];
      } else {
        entries := entries - {s.k};
      }
      Model := Without(Model, s);
      forall t | Has(t) ensures old(Has(Shifted(s, t))) && Child(t) == old(Child(Shifted(s, t))) && Holds(Child(t), Part(Model, t), true) {
        assert old(Has(Shifted(s, t))) && old(Holds(Child(Shifted(s, t)), Part(Model, Shifted(s, t)), true));
      }
      forall t, u | Has(t) && Has(u) && t != u ensures Apart(Child(t), Child(u)) {
        assert old(Apart(Child(Shifted(s, t)), Child(Shifted(s, u))));
      }
    }

    /** Account for a change below the child at `s`. */
    ghost method Adopt(s: Slot)
      requires this in Repr && Shaped()
      requires Has(s) && Child(s).Node? && Child(s).n.Valid(true) && this !in Child(s).n.Repr
      requires forall t :: Has(t) && t != s ==> Holds(Child(t), Part(Model, t), true)
      requires forall t :: Has(t) && t != s && Child(t).Node? ==> Child(t).n.Repr !! Child(s).n.Repr
      requires forall t, u :: Has(t) && Has(u) && t != u && t != s && u != s ==> Apart(Child(t), Child(u))
      modifies this`Model, this`Repr
      ensures Valid(true) && Model == Replaced(old(Model), s, Child(s).n.Model) && Repr == old(Repr) + Child(s).n.Repr
    {
      Model := Replaced(Model, s, Child(s).n.Model);
      Repr := Repr + Child(s).n.Repr;
      forall t | Has(t) ensures Holds(Child(t), Part(Model, t), true) {
        assert t != s ==> old(Holds(Child(t), Part(Model, t), true));
      }
      forall t, u | Has(t) && Has(u) && t != u ensures Apart(Child(t), Child(u)) {
        assert t != s && u != s ==> old(Apart(Child(t), Child(u)));
        assert t != s ==> old(Holds(Child(t), Part(Model, t), true));
        assert u != s ==> old(Holds(Child(u), Part(Model, u), true));
      }
    }

    constructor Sequence(items: seq<Ref>, ghost model: Value, ghost below: set<YNode>)
      requires model.Arr? && |model.items| == |items|
      requires forall i | 0 <= i < |items| :: Stands(items[i], model.items[i], true) && Nodes(items[i]) <= below
      requires forall i, j | 0 <= i < j < |items| :: Nodes(items[i]) !! Nodes(items[j])
      ensures Valid(true) && Model == model && Repr == {this} + below && isSeq && this.items == items
      ensures fresh(this)
    {
      this.isSeq := true;
      this.items := items;
      this.entries := map[];
      Model := model;
      Repr := {this} + below;
      new;
    }

    constructor Mapping(entries: map<Text, Ref>, ghost model: Value, ghost below: set<YNode>)
      requires model.Obj? && model.m.Keys == entries.Keys
      requires Cloned(entries, model.m, below)
      ensures Valid(true) && Model == model && Repr == {this} + below && !isSeq && this.entries == entries
      ensures fresh(this)
    {
      this.isSeq := false;
      this.items := [];
      this.entries := entries;
      Model := model;
      Repr := {this} + below;
      new;
    }
  }

  ghost function Nodes(r: Ref): set<YNode>
    reads if r.Node? then {r.n} else {}
  {
    if r.Node? then r.n.Repr else {}
  }

  ghost function Meaning(r: Ref): Value
    reads if r.Node? then {r.n} else {}
  {
    if r.Node? then r.n.Model else r.v
  }

  ghost predicate Good(r: Ref, tree: bool)
    reads if r.Node? then {r.n} + r.n.Repr else {}
  {
    if r.Node? then r.n.Valid(tree) else IsScalar(r.v)
  }

  ghost predicate Stands(r: Ref, v: Value, tree: bool)
    reads if r.Node? then {r.n} + r.n.Repr else {}
  {
    Good(r, tree) && Meaning(r) == v
  }

  // ---------------------------------------------------------------- deepClone

  /** A copy on fresh nodes that share nothing, whatever the argument shares. */
  method DeepClone(value: Ref) returns (r: Ref)
    requires Good(value, false)
    ensures Stands(r, Meaning(value), true) && fresh(Nodes(r))
    decreases Nodes(value), 3
  {
    if value.Scalar? {
      return value;
    }
    if value.n.isSeq {
      r := CloneItems(value.n);
    } else {
      r := CloneEntries(value.n);
    }
  }

  method CloneItems(n: YNode) returns (r: Ref)
    requires n.Valid(false) && n.isSeq
    ensures Stands(r, n.Model, true) && fresh(Nodes(r))
    decreases n.Repr, 0
  {
    var items: seq<Ref> := [];
    ghost var below: set<YNode> := {};
    var i := 0;
    while i < |n.items|
      invariant 0 <= i == |items| <= |n.items|
      invariant fresh(below)
      invariant forall j | 0 <= j < i :: Stands(items[j], n.Model.items[j], true) && Nodes(items[j]) <= below
      invariant forall j, l | 0 <= j < l < i :: Nodes(items[j]) !! Nodes(items[l])
    {
      assert n.Has(At(i));
      assert n.Holds(n.items[i], n.Model.items[i], false);
      var item := DeepClone(n.items[i]);
      items := items + [item];
      below := below + Nodes(item);
      i := i + 1;
    }
    var clone := new YNode.Sequence(items, n.Model, below);
    r := Node(clone);
  }

  /** The entries cloned so far stand for what they copy, in nodes apart from each other. */
  ghost predicate Cloned(entries: map<Text, Ref>, m: map<Text, Value>, below: set<YNode>)
    reads below
  {
    && (forall k <- entries :: k in m && (entries[k].Node? ==> entries[k].n in below && entries[k].n.Repr <= below) && Stands(entries[k], m[k], true))
    && (forall k, l | k in entries && l in entries && k != l :: Nodes(entries[k]) !! Nodes(entries[l]))
  }

  lemma OneMoreCloned(entries: map<Text, Ref>, m: map<Text, Value>, below: set<YNode>, k: Text, entry: Ref)
    requires Cloned(entries, m, below) && k in m && k !in entries
    requires Stands(entry, m[k], true) && Nodes(entry) !! below
    ensures Cloned(entries[k := entry], m, below + Nodes(entry))
  {}

  lemma NothingCloned(m: map<Text, Value>)
    ensures Cloned(map[], m, {})
  {}

  method CloneEntry(n: YNode, k: Text) returns (r: Ref)
    requires n.Valid(false) && !n.isSeq && k in n.entries
    ensures Stands(r, n.Model.m[k], true) && fresh(Nodes(r))
    decreases n.Repr, 0
  {
    assert n.Has(Under(k));
    assert n.Holds(n.entries[k], n.Model.m[k], false);
    r := DeepClone(n.entries[k]);
  }

  method CloneAll(n: YNode) returns (entries: map<Text, Ref>, ghost below: set<YNode>)
    requires n.Valid(false) && !n.isSeq
    ensures entries.Keys == n.entries.Keys && Cloned(entries, n.Model.m, below) && fresh(below)
    decreases n.Repr, 1
  {
    hide Cloned;
    entries, below := map[], {};
    assert Cloned(entries, n.Model.m, below) by { NothingCloned(n.Model.m); }
    var left := n.entries.Keys;
    while left != {}
      invariant left <= n.entries.Keys && entries.Keys == n.entries.Keys - left
      invariant fresh(below) && Cloned(entries, n.Model.m, below)
      decreases |left|
    {
      var k :| k in left;
      var entry := CloneEntry(n, k);
      OneMoreCloned(entries, n.Model.m, below, k, entry);
      entries := entries[k := entry];
      below := below + Nodes(entry);
      left := left - {k};
    }
  }

  method CloneEntries(n: YNode) returns (r: Ref)
    requires n.Valid(false) && !n.isSeq
    ensures Stands(r, n.Model, true) && fresh(Nodes(r))
    decreases n.Repr, 2
  {
    var entries, below := CloneAll(n);
    var clone := new YNode.Mapping(entries, n.Model, below);
    r := Node(clone);
  }

  // ---------------------------------------------------------------- reading

  /** `itemMatchesSeg` on a node. */
  method MatchesSegment(c: NumberCodec, item: Ref, seg: Segment, ghost tree: bool) returns (found: bool)
    requires Good(item, tree) && seg.Match?
    ensures found == ItemMatches(c, Meaning(item), seg)
  {
    if item.Scalar? || item.n.isSeq || seg.key !in item.n.entries {
      return false;
    }
    var n := item.n;
    assert n.Has(Under(seg.key));
    assert n.Holds(n.entries[seg.key], n.Model.m[seg.key], tree);
    var actual := n.entries[seg.key];
    assert actual.Node? ==> actual.n.Valid(tree);
    return actual.Scalar? && MatchEquals(c, actual.v, seg.expected);
  }

  /** `findIndex`; the length stands for -1. */
  method FindMatch(c: NumberCodec, n: YNode, seg: Segment, ghost tree: bool) returns (i: nat)
    requires n.Valid(tree) && n.isSeq && seg.Match?
    ensures i == FindIndex(c, n.Model.items, seg)
  {
    i := 0;
    while i < |n.items|
      invariant 0 <= i <= |n.items|
      invariant FindIndex(c, n.Model.items, seg) == i + FindIndex(c, n.Model.items[i..], seg)
    {
      assert n.Has(At(i));
      assert n.Holds(n.items[i], n.Model.items[i], tree);
      var found := MatchesSegment(c, n.items[i], seg, tree);
      assert n.Model.items[i..][0] == n.Model.items[i] && n.Model.items[i..][1..] == n.Model.items[i + 1..];
      if found {
        return;
      }
      i := i + 1;
    }
    assert n.Model.items[i..] == [];
  }

  /** The slot a segment selects in a value, if it selects one that is there. */
  function SlotOf(c: NumberCodec, v: Value, seg: Segment): Option<Slot> {
    if Step(c, v, seg).None? then None
    else if seg.Key? then Some(Under(seg.value))
    else Some(At(Position(c, v.items, seg)))
  }

  method Locate(c: NumberCodec, current: Ref, seg: Segment, ghost tree: bool) returns (s: Option<Slot>)
    requires Good(current, tree)
    ensures s == SlotOf(c, Meaning(current), seg)
    ensures s.Some? ==> current.Node? && current.n.Has(s.value)
  {
    if current.Scalar? {
      return None;
    }
    var n := current.n;
    if seg.Key? {
      if n.isSeq || seg.value !in n.entries {
        return None;
      }
      return Some(Under(seg.value));
    }
    if !n.isSeq {
      return None;
    }
    var i: nat;
    if seg.Index? {
      i := seg.n;
    } else {
      i := FindMatch(c, n, seg, tree);
    }
    return if i < |n.items| then Some(At(i)) else None;
  }

  // ---------------------------------------------------------------- set

  /** The slot a set writes at: a key need not be there yet. */
  function TargetSlot(c: NumberCodec, v: Value, seg: Segment): Option<Slot> {
    if seg.Key? then if v.Obj? then Some(Under(seg.value)) else None
    else SlotOf(c, v, seg)
  }

  function Then(v: Value, s: Slot, part: Option<Value>): Option<Value>
    requires if s.At? then HasSlot(v, s) else v.Obj?
  {
    match part
    case None => None
    case Some(p) => Some(Replaced(v, s, p))
  }

  /** One level of `Set`, by slots. */
  lemma SetBySlot(c: NumberCodec, v: Value, segs: seq<Segment>, x: Value)
    requires segs != []
    ensures var s := TargetSlot(c, v, segs[0]);
      Set(c, v, segs, x) ==
        if s.None? then None
        else if |segs| == 1 then Some(Replaced(v, s.value, x))
        else if !HasSlot(v, s.value) then Then(v, s.value, Set(c, Obj(map[]), segs[1..], x))
        else if segs[0].Key? && IsScalar(Part(v, s.value)) then None
        else Then(v, s.value, Set(c, Part(v, s.value), segs[1..], x))
  {}

  lemma ReplacedTwice(v: Value, k: Text, a: Value, b: Value)
    requires v.Obj?
    ensures Replaced(Replaced(v, Under(k), a), Under(k), b) == Replaced(v, Under(k), b)
  {}

  method LocateTarget(c: NumberCodec, current: Ref, seg: Segment) returns (s: Option<Slot>)
    requires Good(current, true)
    ensures s == TargetSlot(c, Meaning(current), seg)
    ensures s.Some? ==> current.Node? && (if s.value.At? then current.n.Has(s.value) else !current.n.isSeq)
  {
    if seg.Key? {
      return if current.Scalar? || current.n.isSeq then None else Some(Under(seg.value));
    }
    s := Locate(c, current, seg, true);
  }

  /** `_setRecursive`. Only nodes of the tree it is given, and fresh ones, are touched. */
  method SetRecursive(c: NumberCodec, current: Ref, segs: seq<Segment>, idx: nat, value: Ref) returns (ok: bool)
    requires idx < |segs| && Good(current, true) && Good(value, false)
    requires Nodes(current) !! Nodes(value)
    modifies Nodes(current)
    ensures ok <==> Set(c, old(Meaning(current)), segs[idx..], Meaning(value)).Some?
    ensures ok ==> Stands(current, Set(c, old(Meaning(current)), segs[idx..], Meaning(value)).value, true)
    ensures ok ==> fresh(Nodes(current) - old(Nodes(current)))
    decreases |segs| - idx, 0
  {
    var seg := segs[idx];
    SetBySlot(c, Meaning(current), segs[idx..], Meaning(value));
    assert segs[idx..][1..] == segs[idx + 1..];
    var target := LocateTarget(c, current, seg);
    if target.None? {
      return false;
    }
    var n, s := current.n, target.value;
    if idx == |segs| - 1 {
      var clone := DeepClone(value);
      n.PutChild(s, clone);
      return true;
    }
    if s.Under? && s.k !in n.entries {
      ok := SetMissing(c, n, s.k, segs, idx, value);
      return;
    }
    assert n.Holds(n.Child(s), Part(n.Model, s), true);
    assert n.Child(s).Node? ==> n.Child(s).n.Valid(true);
    if seg.Key? && n.Child(s).Scalar? {
      return false;
    }
    ok := SetBelow(c, n, s, segs, idx, value);
  }

  /** A missing key first gets an empty mapping. */
  method SetMissing(c: NumberCodec, n: YNode, k: Text, segs: seq<Segment>, idx: nat, value: Ref) returns (ok: bool)
    requires idx + 1 < |segs| && n.Valid(true) && !n.isSeq && k !in n.entries && Good(value, false)
    requires n.Repr !! Nodes(value)
    modifies n.Repr
    ensures ok <==> Set(c, Obj(map[]), segs[idx + 1..], Meaning(value)).Some?
    ensures ok ==> n.Valid(true) && n.Model == Replaced(old(n.Model), Under(k), Set(c, Obj(map[]), segs[idx + 1..], Meaning(value)).value)
    ensures ok ==> fresh(n.Repr - old(n.Repr))
    decreases |segs| - idx - 1, 2
  {
    var empty := new YNode.Mapping(map[], Obj(map[]), {});
    n.PutChild(Under(k), Node(empty));
    ghost var v := old(n.Model);
    ok := SetBelow(c, n, Under(k), segs, idx, value);
    if ok {
      ReplacedTwice(v, k, Obj(map[]), Set(c, Obj(map[]), segs[idx + 1..], Meaning(value)).value);
    }
  }

  /** The recursive call on the child at `s`, seen from its parent. */
  method SetBelow(c: NumberCodec, n: YNode, s: Slot, segs: seq<Segment>, idx: nat, value: Ref) returns (ok: bool)
    requires idx + 1 < |segs| && n.Valid(true) && n.Has(s) && Good(value, false)
    requires n.Repr !! Nodes(value)
    modifies n.Repr
    ensures ok <==> Set(c, old(Part(n.Model, s)), segs[idx + 1..], Meaning(value)).Some?
    ensures ok ==> n.Valid(true) && n.Model == Replaced(old(n.Model), s, Set(c, old(Part(n.Model, s)), segs[idx + 1..], Meaning(value)).value)
    ensures ok ==> fresh(n.Repr - old(n.Repr))
    decreases |segs| - idx - 1, 1
  {
    var child := n.Child(s);
    assert n.Holds(child, Part(n.Model, s), true);
    ok := SetRecursive(c, child, segs, idx + 1, value);
    if ok && child.Node? {
      forall t | n.Has(t) && t != s
        ensures n.Holds(n.Child(t), Part(n.Model, t), true)
        ensures n.Child(t).Node? ==> n.Child(t).n.Repr == old(n.Child(t).n.Repr) && n.Child(t).n.Repr !! child.n.Repr
      {
        assert old(n.Has(t)) && old(n.Holds(n.Child(t), Part(n.Model, t), true));
        assert old(n.Apart(n.Child(t), n.Child(s)));
        if n.Child(t).Node? {
          var m := n.Child(t).n;
          assert old(m.Repr) !! old(child.n.Repr) && old(m.Valid(true));
          assert m.Repr == old(m.Repr) && m.Valid(true);
        }
      }
      forall t, u | n.Has(t) && n.Has(u) && t != u && t != s && u != s ensures n.Apart(n.Child(t), n.Child(u)) {
        assert old(n.Apart(n.Child(t), n.Child(u)));
        assert old(n.Holds(n.Child(t), Part(n.Model, t), true)) && old(n.Holds(n.Child(u), Part(n.Model, u), true));
      }
      n.Adopt(s);
    }
  }

  /** `setAtPathSegments`; None where it throws. Nothing that existed is modified, throw or
      not, and no node of the result existed before. */
  method SetAtPathSegments(c: NumberCodec, doc: Ref, segs: seq<Segment>, value: Ref) returns (r: Option<Ref>)
    requires Good(doc, false) && Good(value, false)
    ensures r.Some? <==> Set(c, Meaning(doc), segs, Meaning(value)).Some?
    ensures r.Some? ==> Stands(r.value, Set(c, Meaning(doc), segs, Meaning(value)).value, true) && fresh(Nodes(r.value))
  {
    if |segs| == 0 {
      var copy := DeepClone(value);
      return Some(copy);
    }
    var cloned := DeepClone(doc);
    assert segs[0..] == segs;
    var ok := SetRecursive(c, cloned, segs, 0, value);
    return if ok then Some(cloned) else None;
  }

  // ---------------------------------------------------------------- delete

  /** One level of `DeleteRecursive`, by slots. */
  lemma DeleteBySlot(c: NumberCodec, v: Value, segs: seq<Segment>)
    requires segs != []
    ensures var s := SlotOf(c, v, segs[0]);
      DeleteRecursive(c, v, segs) ==
        if s.None? then None
        else if |segs| == 1 then Some(Without(v, s.value))
        else Then(v, s.value, DeleteRecursive(c, Part(v, s.value), segs[1..]))
  {}

  /** `_deleteRecursive`; the source answers whether it deleted something. */
  method DeleteInPlace(c: NumberCodec, current: Ref, segs: seq<Segment>, idx: nat) returns (deleted: bool)
    requires idx < |segs| && Good(current, true)
    modifies Nodes(current)
    ensures deleted <==> DeleteRecursive(c, old(Meaning(current)), segs[idx..]).Some?
    ensures deleted ==> Stands(current, DeleteRecursive(c, old(Meaning(current)), segs[idx..]).value, true)
    ensures Nodes(current) <= old(Nodes(current))
    decreases |segs| - idx, 0
  {
    DeleteBySlot(c, Meaning(current), segs[idx..]);
    assert segs[idx..][1..] == segs[idx + 1..];
    var target := Locate(c, current, segs[idx], true);
    if target.None? {
      return false;
    }
    var n, s := current.n, target.value;
    if idx == |segs| - 1 {
      n.RemoveChild(s);
      return true;
    }
    deleted := DeleteBelow(c, n, s, segs, idx);
  }

  method DeleteBelow(c: NumberCodec, n: YNode, s: Slot, segs: seq<Segment>, idx: nat) returns (deleted: bool)
    requires idx + 1 < |segs| && n.Valid(true) && n.Has(s)
    modifies n.Repr
    ensures deleted <==> DeleteRecursive(c, old(Part(n.Model, s)), segs[idx + 1..]).Some?
    ensures deleted ==> n.Valid(true) && n.Model == Replaced(old(n.Model), s, DeleteRecursive(c, old(Part(n.Model, s)), segs[idx + 1..]).value)
    ensures n.Repr <= old(n.Repr)
    decreases |segs| - idx - 1, 1
  {
    var child := n.Child(s);
    assert n.Holds(child, Part(n.Model, s), true);
    deleted := DeleteInPlace(c, child, segs, idx + 1);
    if deleted && child.Node? {
      forall t | n.Has(t) && t != s
        ensures n.Holds(n.Child(t), Part(n.Model, t), true)
        ensures n.Child(t).Node? ==> n.Child(t).n.Repr == old(n.Child(t).n.Repr) && n.Child(t).n.Repr !! child.n.Repr
      {
        assert old(n.Has(t)) && old(n.Holds(n.Child(t), Part(n.Model, t), true));
        assert old(n.Apart(n.Child(t), n.Child(s)));
        if n.Child(t).Node? {
          var m := n.Child(t).n;
          assert old(m.Repr) !! old(child.n.Repr) && old(m.Valid(true));
          assert m.Repr == old(m.Repr) && m.Valid(true);
        }
      }
      forall t, u | n.Has(t) && n.Has(u) && t != u && t != s && u != s ensures n.Apart(n.Child(t), n.Child(u)) {
        assert old(n.Apart(n.Child(t), n.Child(u)));
        assert old(n.Holds(n.Child(t), Part(n.Model, t), true)) && old(n.Holds(n.Child(u), Part(n.Model, u), true));
      }
      n.Adopt(s);
    }
  }

  /** `resolvePathSegments`: a reference into the document itself. */
  method ResolvePathSegments(c: NumberCodec, doc: Ref, segs: seq<Segment>) returns (r: Option<Ref>)
    requires Good(doc, false)
    ensures r.Some? <==> Resolve(c, Meaning(doc), segs).Some?
    ensures r.Some? ==> Stands(r.value, Resolve(c, Meaning(doc), segs).value, false) && Nodes(r.value) <= Nodes(doc)
  {
    var current := doc;
    var i := 0;
    assert segs[0..] == segs;
    while i < |segs|
      invariant 0 <= i <= |segs|
      invariant Good(current, false) && Nodes(current) <= Nodes(doc)
      invariant Resolve(c, Meaning(doc), segs) == Resolve(c, Meaning(current), segs[i..])
    {
      assert segs[i..][0] == segs[i] && segs[i..][1..] == segs[i + 1..];
      var s := Locate(c, current, segs[i], false);
      if s.None? {
        return None;
      }
      assert current.n.Holds(current.n.Child(s.value), Part(current.n.Model, s.value), false);
      current := current.n.Child(s.value);
      i := i + 1;
    }
    assert segs[i..] == [];
    return Some(current);
  }

  /** `deleteAtPathSegments`; None where it answers false. Nothing that existed is
      modified, and no node of the result existed before. */
  method DeleteAtPathSegments(c: NumberCodec, doc: Ref, segs: seq<Segment>) returns (r: Option<Ref>)
    requires Good(doc, false)
    ensures r.Some? <==> Delete(c, Meaning(doc), segs).Some?
    ensures r.Some? ==> Stands(r.value, Delete(c, Meaning(doc), segs).value, true) && fresh(Nodes(r.value))
  {
    if |segs| == 0 {
      return None;
    }
    var found := ResolvePathSegments(c, doc, segs);
    if found.None? {
      return None;
    }
    var cloned := DeepClone(doc);
    assert segs[0..] == segs;
    var deleted := DeleteInPlace(c, cloned, segs, 0);
    if !deleted {
      return None;
    }
    return Some(cloned);
  }
}
