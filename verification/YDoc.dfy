/** Reading, setting and deleting at a parsed path in a YOps document, as functions on
    values, and the laws they obey. */
module YDoc {
  import opened Text
  import opened Values
  import opened YPath

  // ---------------------------------------------------------------- match segments

  /** `matchEquals`: numbers and booleans are compared by their printed form. */
  predicate MatchEquals(c: NumberCodec, actual: Value, expected: Text) {
    match actual
    case Str(s) => s == expected
    case Num(r) => c.show(r) == expected
    case Bool(b) => expected == if b then [0x74, 0x72, 0x75, 0x65] else [0x66, 0x61, 0x6C, 0x73, 0x65]
    case _ => false
  }

  /** `itemMatchesSeg` */
  predicate ItemMatches(c: NumberCodec, item: Value, seg: Segment)
    requires seg.Match?
  {
    item.Obj? && seg.key in item.m && MatchEquals(c, item.m[seg.key], seg.expected)
  }

  /** `findIndex`, with the length standing for -1. */
  function FindIndex(c: NumberCodec, items: seq<Value>, seg: Segment): (i: nat)
    requires seg.Match?
    ensures i <= |items| && (i < |items| ==> ItemMatches(c, items[i], seg))
    ensures forall j | 0 <= j < i :: !ItemMatches(c, items[j], seg)
  {
    if items == [] || ItemMatches(c, items[0], seg) then 0 else 1 + FindIndex(c, items[1..], seg)
  }

  /** The position an index or match segment selects in an array. */
  function Position(c: NumberCodec, items: seq<Value>, seg: Segment): nat
    requires !seg.Key?
  {
    if seg.Index? then seg.n else FindIndex(c, items, seg)
  }

  // ---------------------------------------------------------------- resolve

  /** One step of `resolvePathSegments`. */
  function Step(c: NumberCodec, v: Value, seg: Segment): Option<Value> {
    match seg
    case Key(k) => if v.Obj? && k in v.m then Some(v.m[k]) else None
    case _ =>
      if v.Arr? && Position(c, v.items, seg) < |v.items| then Some(v.items[Position(c, v.items, seg)]) else None
  }

  function Resolve(c: NumberCodec, doc: Value, segs: seq<Segment>): Option<Value> {
    if segs == [] then Some(doc)
    else
      match Step(c, doc, segs[0])
      case None => None
      case Some(child) => Resolve(c, child, segs[1..])
  }

  /** The loop of `resolvePathSegments`. */
  method ResolveLoop(c: NumberCodec, doc: Value, segs: seq<Segment>) returns (r: Option<Value>)
    ensures r == Resolve(c, doc, segs)
  {
    var current := doc;
    for i := 0 to |segs|
      invariant Resolve(c, doc, segs) == Resolve(c, current, segs[i..])
    {
      var next := Step(c, current, segs[i]);
      assert segs[i..][1..] == segs[i + 1..];
      if next.None? {
        return None;
      }
      current := next.value;
    }
    return Some(current);
  }

  // ---------------------------------------------------------------- set

  /** `v` with its direct child at `seg` replaced. */
  function Put(c: NumberCodec, v: Value, seg: Segment, child: Value): Value
    requires if seg.Key? then v.Obj? else v.Arr? && Position(c, v.items, seg) < |v.items|
  {
    if seg.Key? then Obj(v.m[seg.value := child]) else Arr(v.items[Position(c, v.items, seg) := child])
  }

  /** What `_setRecursive` descends into: the child there is, or a fresh mapping under a
      missing key; None where it throws. A scalar or null child is never descended into
      by a key segment. */
  function Descend(c: NumberCodec, v: Value, seg: Segment): Option<Value> {
    if seg.Key? then
      if !v.Obj? then None
      else if seg.value !in v.m then Some(Obj(map[]))
      else if v.m[seg.value].Arr? || v.m[seg.value].Obj? then Some(v.m[seg.value])
      else None
    else Step(c, v, seg)
  }

  predicate CanPut(c: NumberCodec, v: Value, seg: Segment) {
    if seg.Key? then v.Obj? else Step(c, v, seg).Some?
  }

  /** `setAtPathSegments`; None where it throws. */
  function Set(c: NumberCodec, doc: Value, segs: seq<Segment>, value: Value): Option<Value>
    decreases |segs|
  {
    if segs == [] then Some(value)
    else if |segs| == 1 then
      if CanPut(c, doc, segs[0]) then Some(Put(c, doc, segs[0], value)) else None
    else
      match Descend(c, doc, segs[0])
      case None => None
      case Some(child) =>
        match Set(c, child, segs[1..], value)
        case None => None
        case Some(child') => Some(Put(c, doc, segs[0], child'))
  }

  // ---------------------------------------------------------------- delete

  function Remove(c: NumberCodec, v: Value, seg: Segment): Value
    requires Step(c, v, seg).Some?
  {
    if seg.Key? then Obj(v.m - {seg.value})
    else
      var i := Position(c, v.items, seg);
      Arr(v.items[..i] + v.items[i + 1..])
  }

  /** `_deleteRecursive`; None where it answers false. */
  function DeleteRecursive(c: NumberCodec, doc: Value, segs: seq<Segment>): Option<Value>
    requires segs != []
  {
    match Step(c, doc, segs[0])
    case None => None
    case Some(child) =>
      if |segs| == 1 then Some(Remove(c, doc, segs[0]))
      else
        match DeleteRecursive(c, child, segs[1..])
        case None => None
        case Some(child') => Some(Put(c, doc, segs[0], child'))
  }

  /** `deleteAtPathSegments`; None where it answers false. */
  function Delete(c: NumberCodec, doc: Value, segs: seq<Segment>): Option<Value> {
    if segs == [] || Resolve(c, doc, segs).None? then None else DeleteRecursive(c, doc, segs)
  }

  // ---------------------------------------------------------------- laws on match-free paths

  predicate MatchFree(segs: seq<Segment>) { forall i | 0 <= i < |segs| :: !segs[i].Match? }

  /** Reading a match-free path just after a successful set gives the value set. */
  lemma {:induction false} GetAfterSet(c: NumberCodec, doc: Value, segs: seq<Segment>, value: Value)
    requires MatchFree(segs) && Set(c, doc, segs, value).Some?
    ensures Resolve(c, Set(c, doc, segs, value).value, segs) == Some(value)
    decreases |segs|
  {
    if |segs| == 1 {
      assert Resolve(c, value, segs[1..]) == Some(value);
    } else if |segs| > 1 {
      GetAfterSet(c, Descend(c, doc, segs[0]).value, segs[1..], value);
    }
  }

  /** Setting what is already there changes nothing. */
  lemma {:induction false} SetOfGet(c: NumberCodec, doc: Value, segs: seq<Segment>)
    requires Resolve(c, doc, segs).Some?
    ensures Set(c, doc, segs, Resolve(c, doc, segs).value) == Some(doc)
  {
    if segs != [] {
      var child := Step(c, doc, segs[0]).value;
      assert Put(c, doc, segs[0], child) == doc by {
        if segs[0].Key? {
          assert doc.m[segs[0].value := child] == doc.m;
        }
      }
      if |segs| == 1 {
        assert segs[1..] == [];
      } else {
        assert segs[1..] != [];
        assert child.Arr? || child.Obj?;
        SetOfGet(c, child, segs[1..]);
      }
    }
  }

  /** The last of two sets at one place wins. */
  lemma {:induction false} SetAfterSet(c: NumberCodec, doc: Value, segs: seq<Segment>, v: Value, w: Value)
    requires MatchFree(segs) && Set(c, doc, segs, v).Some?
    ensures Set(c, Set(c, doc, segs, v).value, segs, w) == Set(c, doc, segs, w)
    decreases |segs|
  {
    if |segs| == 1 {
      PutPut(c, doc, segs[0], v, w);
    } else if |segs| > 1 {
      var child := Descend(c, doc, segs[0]).value;
      SetAfterSet(c, child, segs[1..], v, w);
      SetKeepsKind(c, child, segs[1..], v);
      SetIsTotalOnKind(c, child, segs[1..], v, w);
      PutPut(c, doc, segs[0], Set(c, child, segs[1..], v).value, Set(c, child, segs[1..], w).value);
    }
  }

  lemma PutPut(c: NumberCodec, doc: Value, seg: Segment, v: Value, w: Value)
    requires !seg.Match? && CanPut(c, doc, seg)
    ensures CanPut(c, Put(c, doc, seg, v), seg) && Step(c, Put(c, doc, seg, v), seg) == Some(v)
    ensures Put(c, Put(c, doc, seg, v), seg, w) == Put(c, doc, seg, w)
  {
    if seg.Key? {
      assert doc.m[seg.value := v][seg.value := w] == doc.m[seg.value := w];
    } else {
      assert doc.items[seg.n := v][seg.n := w] == doc.items[seg.n := w];
    }
  }

  /** Setting below a mapping or an array leaves a mapping or an array. */
  lemma SetKeepsKind(c: NumberCodec, doc: Value, segs: seq<Segment>, v: Value)
    requires segs != [] && Set(c, doc, segs, v).Some?
    ensures var d := Set(c, doc, segs, v).value; (doc.Obj? && d.Obj?) || (doc.Arr? && d.Arr?)
  {}

  /** Whether a set throws does not depend on the value set. */
  lemma {:induction false} SetIsTotalOnKind(c: NumberCodec, doc: Value, segs: seq<Segment>, v: Value, w: Value)
    ensures Set(c, doc, segs, v).Some? <==> Set(c, doc, segs, w).Some?
    decreases |segs|
  {
    if |segs| > 1 && Descend(c, doc, segs[0]).Some? {
      SetIsTotalOnKind(c, Descend(c, doc, segs[0]).value, segs[1..], v, w);
    }
  }

  // ---------------------------------------------------------------- diverging paths

  /** The paths part at some segment: neither is a prefix of the other. */
  predicate Diverge(p: seq<Segment>, q: seq<Segment>) {
    p != [] && q != [] && (p[0] != q[0] || Diverge(p[1..], q[1..]))
  }

  lemma {:induction false} NothingInEmptyMapping(c: NumberCodec, segs: seq<Segment>)
    requires segs != []
    ensures Resolve(c, Obj(map[]), segs) == None
  {}

  /** A set leaves every diverging match-free path as it was. */
  lemma {:induction false} SetElsewhere(c: NumberCodec, doc: Value, p: seq<Segment>, q: seq<Segment>, v: Value)
    requires MatchFree(p) && MatchFree(q) && Diverge(p, q) && Set(c, doc, p, v).Some?
    ensures Resolve(c, Set(c, doc, p, v).value, q) == Resolve(c, doc, q)
    decreases |p|
  {
    var d := Set(c, doc, p, v).value;
    if p[0] != q[0] {
      assert Step(c, d, q[0]) == Step(c, doc, q[0]);
    } else {
      assert |p| > 1;
      var child := Descend(c, doc, p[0]).value;
      SetElsewhere(c, child, p[1..], q[1..], v);
      var child' := Set(c, child, p[1..], v).value;
      PutPut(c, doc, p[0], child', child');
      if p[0].Key? && p[0].value !in doc.m {
        NothingInEmptyMapping(c, q[1..]);
      }
    }
  }

  /** What two sets in a row make of a document. */
  function SetBoth(c: NumberCodec, doc: Value, p: seq<Segment>, v: Value, q: seq<Segment>, w: Value): Option<Value> {
    match Set(c, doc, p, v)
    case None => None
    case Some(d) => Set(c, d, q, w)
  }

  /** Sets at diverging match-free paths commute, throwing included. */
  lemma {:induction false} SetsCommute(c: NumberCodec, doc: Value, p: seq<Segment>, v: Value, q: seq<Segment>, w: Value)
    requires MatchFree(p) && MatchFree(q) && Diverge(p, q)
    ensures SetBoth(c, doc, p, v, q, w) == SetBoth(c, doc, q, w, p, v)
    decreases |p|, 1
  {
    if p[0] != q[0] {
      SetsCommuteAtRoot(c, doc, p, v, q, w);
    } else {
      assert |p| > 1 && |q| > 1;
      SetsCommuteBelow(c, doc, p, v, q, w);
    }
  }

  lemma SetShape(c: NumberCodec, doc: Value, p: seq<Segment>, v: Value) returns (child: Value)
    requires p != [] && MatchFree(p) && Set(c, doc, p, v).Some?
    ensures CanPut(c, doc, p[0]) && Set(c, doc, p, v).value == Put(c, doc, p[0], child)
  {
    if |p| == 1 {
      child := v;
    } else {
      child := Set(c, Descend(c, doc, p[0]).value, p[1..], v).value;
    }
  }

  lemma PutApart(c: NumberCodec, doc: Value, seg: Segment, child: Value, other: Segment)
    requires !seg.Match? && !other.Match? && other != seg && CanPut(c, doc, seg)
    ensures var d := Put(c, doc, seg, child);
      && Step(c, d, other) == Step(c, doc, other) && CanPut(c, d, other) == CanPut(c, doc, other)
      && Descend(c, d, other) == Descend(c, doc, other)
  {}

  /** A change under one segment does not affect the set under another. */
  lemma PutElsewhere(c: NumberCodec, doc: Value, seg: Segment, child: Value, q: seq<Segment>, w: Value)
    requires q != [] && !seg.Match? && MatchFree(q) && q[0] != seg && CanPut(c, doc, seg)
    ensures Set(c, Put(c, doc, seg, child), q, w).Some? <==> Set(c, doc, q, w).Some?
    ensures Set(c, doc, q, w).Some? ==> CanPut(c, Set(c, doc, q, w).value, seg)
    ensures Set(c, doc, q, w).Some? ==>
      Set(c, Put(c, doc, seg, child), q, w).value == Put(c, Set(c, doc, q, w).value, seg, child)
  {
    assert !q[0].Match?;
    PutApart(c, doc, seg, child, q[0]);
    SetByChild(c, doc, q, w);
    SetByChild(c, Put(c, doc, seg, child), q, w);
    if NewChild(c, doc, q, w).Some? {
      PutsSwap(c, doc, seg, child, q[0], NewChild(c, doc, q, w).value);
    }
  }

  /** The child a set puts at the first segment. */
  function NewChild(c: NumberCodec, v: Value, q: seq<Segment>, w: Value): Option<Value>
    requires q != []
  {
    if |q| == 1 then if CanPut(c, v, q[0]) then Some(w) else None
    else
      match Descend(c, v, q[0])
      case None => None
      case Some(child) => Set(c, child, q[1..], w)
  }

  lemma SetByChild(c: NumberCodec, v: Value, q: seq<Segment>, w: Value)
    requires q != []
    ensures NewChild(c, v, q, w).Some? ==> CanPut(c, v, q[0])
    ensures Set(c, v, q, w) ==
      if NewChild(c, v, q, w).Some? then Some(Put(c, v, q[0], NewChild(c, v, q, w).value)) else None
  {}

  lemma PutsSwap(c: NumberCodec, doc: Value, a: Segment, x: Value, b: Segment, y: Value)
    requires !a.Match? && !b.Match? && a != b && CanPut(c, doc, a) && CanPut(c, doc, b)
    ensures CanPut(c, Put(c, doc, a, x), b) && CanPut(c, Put(c, doc, b, y), a)
    ensures Put(c, Put(c, doc, a, x), b, y) == Put(c, Put(c, doc, b, y), a, x)
  {
    if doc.Obj? {
      assert doc.m[a.value := x][b.value := y] == doc.m[b.value := y][a.value := x];
    } else {
      assert doc.items[a.n := x][b.n := y] == doc.items[b.n := y][a.n := x];
    }
  }

  lemma SetsCommuteAtRoot(c: NumberCodec, doc: Value, p: seq<Segment>, v: Value, q: seq<Segment>, w: Value)
    requires MatchFree(p) && MatchFree(q) && p != [] && q != [] && p[0] != q[0]
    ensures SetBoth(c, doc, p, v, q, w) == SetBoth(c, doc, q, w, p, v)
  {
    if Set(c, doc, p, v).Some? {
      var x := SetShape(c, doc, p, v);
      PutElsewhere(c, doc, p[0], x, q, w);
      if Set(c, doc, q, w).Some? {
        var y := SetShape(c, doc, q, w);
        PutElsewhere(c, doc, q[0], y, p, v);
        PutsSwap(c, doc, p[0], x, q[0], y);
      }
    } else if Set(c, doc, q, w).Some? {
      var y := SetShape(c, doc, q, w);
      PutElsewhere(c, doc, q[0], y, p, v);
    }
  }

  lemma {:induction false} SetsCommuteBelow(c: NumberCodec, doc: Value, p: seq<Segment>, v: Value, q: seq<Segment>, w: Value)
    requires MatchFree(p) && MatchFree(q) && |p| > 1 && |q| > 1 && p[0] == q[0] && Diverge(p[1..], q[1..])
    ensures SetBoth(c, doc, p, v, q, w) == SetBoth(c, doc, q, w, p, v)
    decreases |p|, 0
  {
    if Descend(c, doc, p[0]).Some? {
      var child := Descend(c, doc, p[0]).value;
      SetsCommute(c, child, p[1..], v, q[1..], w);
      SetThenSetBelow(c, doc, p, v, q, w);
      SetThenSetBelow(c, doc, q, w, p, v);
    }
  }

  lemma SetThenSetBelow(c: NumberCodec, doc: Value, p: seq<Segment>, v: Value, q: seq<Segment>, w: Value)
    requires MatchFree(p) && |p| > 1 && |q| > 1 && p[0] == q[0] && Descend(c, doc, p[0]).Some?
    ensures var below := SetBoth(c, Descend(c, doc, p[0]).value, p[1..], v, q[1..], w);
      SetBoth(c, doc, p, v, q, w) == if below.None? then None else Some(Put(c, doc, p[0], below.value))
  {
    var child := Descend(c, doc, p[0]).value;
    if Set(c, child, p[1..], v).Some? {
      var x := Set(c, child, p[1..], v).value;
      SetKeepsKind(c, child, p[1..], v);
      PutPut(c, doc, p[0], x, x);
      if Set(c, x, q[1..], w).Some? {
        PutPut(c, doc, p[0], x, Set(c, x, q[1..], w).value);
      }
    }
  }

  // ---------------------------------------------------------------- delete

  /** Deletion succeeds exactly where the path resolves, for paths of every kind, so the
      check made before cloning never disagrees with the recursion. */
  lemma {:induction false} DeleteExactlyWhereResolved(c: NumberCodec, doc: Value, segs: seq<Segment>)
    requires segs != []
    ensures DeleteRecursive(c, doc, segs).Some? <==> Resolve(c, doc, segs).Some?
    ensures Delete(c, doc, segs).Some? <==> Resolve(c, doc, segs).Some?
  {
    if |segs| == 1 {
      assert segs[1..] == [];
    } else if Step(c, doc, segs[0]).Some? {
      DeleteExactlyWhereResolved(c, Step(c, doc, segs[0]).value, segs[1..]);
    }
  }

  /** A deleted key is gone. */
  lemma {:induction false} GetAfterDelete(c: NumberCodec, doc: Value, segs: seq<Segment>)
    requires MatchFree(segs) && segs != [] && segs[|segs| - 1].Key? && Delete(c, doc, segs).Some?
    ensures Resolve(c, Delete(c, doc, segs).value, segs) == None
  {
    DeleteExactlyWhereResolved(c, doc, segs);
    if |segs| > 1 {
      var child := Step(c, doc, segs[0]).value;
      DeleteExactlyWhereResolved(c, child, segs[1..]);
      GetAfterDelete(c, child, segs[1..]);
      PutPut(c, doc, segs[0], Delete(c, child, segs[1..]).value, child);
    }
  }

  /** Deleting a key that was newly set in an existing mapping restores the document. */
  lemma {:induction false} DeleteUndoesSet(c: NumberCodec, doc: Value, segs: seq<Segment>, k: Text, v: Value)
    requires MatchFree(segs)
    requires Resolve(c, doc, segs).Some? && Resolve(c, doc, segs).value.Obj? && k !in Resolve(c, doc, segs).value.m
    ensures Set(c, doc, segs + [Key(k)], v).Some?
    ensures Delete(c, Set(c, doc, segs + [Key(k)], v).value, segs + [Key(k)]) == Some(doc)
  {
    var path := segs + [Key(k)];
    if segs == [] {
      assert path == [Key(k)] && path[1..] == [];
      assert doc.m[k := v] - {k} == doc.m;
      assert Resolve(c, v, []) == Some(v);
    } else {
      var child := Step(c, doc, segs[0]).value;
      assert path[0] == segs[0] && path[1..] == segs[1..] + [Key(k)];
      assert segs[1..] == [] ==> child.Obj?;
      DeleteUndoesSet(c, child, segs[1..], k, v);
      var child' := Set(c, child, path[1..], v).value;
      PutPut(c, doc, segs[0], child', child);
      assert Put(c, doc, segs[0], child) == doc by {
        if segs[0].Key? {
          assert doc.m[segs[0].value := child] == doc.m;
        }
      }
      DeleteExactlyWhereResolved(c, child', path[1..]);
    }
  }

  // ---------------------------------------------------------------- match segments made concrete

  /** The path with every match that finds an item replaced by that item's index. */
  function Concretize(c: NumberCodec, doc: Value, segs: seq<Segment>): (r: seq<Segment>)
    ensures |r| == |segs|
  {
    if segs == [] then []
    else
      match Step(c, doc, segs[0])
      case None => segs
      case Some(child) =>
        var seg := if segs[0].Match? then Index(FindIndex(c, doc.items, segs[0])) else segs[0];
        [seg] + Concretize(c, child, segs[1..])
  }

  /** The concrete path reads, sets and deletes exactly as the path with matches does. */
  lemma {:induction false} ConcretizeSame(c: NumberCodec, doc: Value, segs: seq<Segment>, v: Value)
    ensures Resolve(c, doc, Concretize(c, doc, segs)) == Resolve(c, doc, segs)
    ensures Set(c, doc, Concretize(c, doc, segs), v) == Set(c, doc, segs, v)
    ensures Delete(c, doc, Concretize(c, doc, segs)) == Delete(c, doc, segs)
  {
    if segs != [] && Step(c, doc, segs[0]).Some? {
      var child := Step(c, doc, segs[0]).value;
      ConcretizeSame(c, child, segs[1..], v);
      var p := Concretize(c, doc, segs);
      assert p[1..] == Concretize(c, child, segs[1..]);
      assert Step(c, doc, p[0]) == Some(child);
      assert Descend(c, doc, p[0]) == Descend(c, doc, segs[0]);
      if |segs| > 1 {
        DeleteExactlyWhereResolved(c, child, segs[1..]);
        DeleteExactlyWhereResolved(c, child, p[1..]);
        assert DeleteRecursive(c, doc, p).Some? <==> DeleteRecursive(c, doc, segs).Some?;
      } else {
        assert segs[1..] == [] && p[1..] == [];
      }
    }
  }

  /** Where a set succeeds its concrete path has no match left. */
  lemma {:induction false} ConcretizedIsMatchFree(c: NumberCodec, doc: Value, segs: seq<Segment>, v: Value)
    requires Set(c, doc, segs, v).Some?
    ensures MatchFree(Concretize(c, doc, segs))
  {
    if segs != [] {
      if Step(c, doc, segs[0]).Some? {
        var child := Step(c, doc, segs[0]).value;
        if |segs| > 1 {
          ConcretizedIsMatchFree(c, child, segs[1..], v);
        }
        assert Concretize(c, doc, segs)[1..] == Concretize(c, child, segs[1..]);
        var p := Concretize(c, doc, segs);
        assert forall i | 0 < i < |p| :: p[i] == p[1..][i - 1];
      } else if |segs| > 1 {
        SetUnderMissingKeyIsMatchFree(c, segs[1..], v);
        assert forall i | 0 < i < |segs| :: segs[i] == segs[1..][i - 1];
      }
    }
  }

  lemma {:induction false} SetUnderMissingKeyIsMatchFree(c: NumberCodec, segs: seq<Segment>, v: Value)
    requires segs != [] && Set(c, Obj(map[]), segs, v).Some?
    ensures MatchFree(segs)
  {
    if |segs| > 1 {
      SetUnderMissingKeyIsMatchFree(c, segs[1..], v);
      assert forall i | 0 < i < |segs| :: segs[i] == segs[1..][i - 1];
    }
  }

  /** For any path, the concrete path reads back what a successful set wrote. */
  lemma GetAfterSetConcretely(c: NumberCodec, doc: Value, segs: seq<Segment>, v: Value)
    requires Set(c, doc, segs, v).Some?
    ensures Resolve(c, Set(c, doc, segs, v).value, Concretize(c, doc, segs)) == Some(v)
  {
    ConcretizeSame(c, doc, segs, v);
    ConcretizedIsMatchFree(c, doc, segs, v);
    GetAfterSet(c, doc, Concretize(c, doc, segs), v);
  }

  /** What a caller can read off the path and the value alone: if the last segment is a
      match, the value matches it; if it is the key an immediately preceding match looks
      at, the value is what that match expects. */
  predicate MatchesKept(c: NumberCodec, segs: seq<Segment>, v: Value) {
    var n := |segs|;
    && (n > 0 && segs[n - 1].Match? ==> ItemMatches(c, v, segs[n - 1]))
    && (n > 1 && segs[n - 1].Key? && segs[n - 2].Match? && segs[n - 2].key == segs[n - 1].value ==>
          MatchEquals(c, v, segs[n - 2].expected))
  }

  lemma MatchesKeptTail(c: NumberCodec, segs: seq<Segment>, v: Value)
    requires |segs| > 1
    ensures MatchesKept(c, segs, v) <==>
      && MatchesKept(c, segs[1..], v)
      && (|segs| == 2 && segs[1].Key? && segs[0].Match? && segs[0].key == segs[1].value ==> MatchEquals(c, v, segs[0].expected))
  {
    var n := |segs|;
    assert segs[1..][n - 2] == segs[n - 1];
    assert n > 2 ==> segs[1..][n - 3] == segs[n - 2];
  }

  lemma {:induction false} FindIndexAfterPut(c: NumberCodec, items: seq<Value>, seg: Segment, x: Value)
    requires seg.Match? && FindIndex(c, items, seg) < |items|
    ensures var i := FindIndex(c, items, seg);
      FindIndex(c, items[i := x], seg) == i <==> ItemMatches(c, x, seg)
  {
    var i := FindIndex(c, items, seg);
    var after := items[i := x];
    if i == 0 {
      assert after[0] == x;
    } else {
      assert after[0] == items[0] && after[1..] == items[1..][i - 1 := x];
      FindIndexAfterPut(c, items[1..], seg, x);
    }
  }

  /** A set below a matched item leaves it matching, unless it is the matched key itself
      that is set: then exactly when the value is what the match expects. */
  lemma SetBelowMatch(c: NumberCodec, item: Value, seg: Segment, below: seq<Segment>, v: Value)
    requires seg.Match? && ItemMatches(c, item, seg) && below != [] && Set(c, item, below, v).Some?
    ensures below[0].Key?
    ensures ItemMatches(c, Set(c, item, below, v).value, seg) <==>
      (|below| == 1 && below[0].value == seg.key ==> MatchEquals(c, v, seg.expected))
  {
    if |below| > 1 {
      assert below[0].value != seg.key;
    }
  }

  /** Where a match no longer finds its item, what the path reads differs from the value. */
  lemma LostMatch(c: NumberCodec, items: seq<Value>, seg: Segment, x: Value)
    requires seg.Match? && FindIndex(c, items, seg) < |items| && !ItemMatches(c, x, seg)
    ensures var after := items[FindIndex(c, items, seg) := x];
      Step(c, Arr(after), seg).Some? ==> ItemMatches(c, Step(c, Arr(after), seg).value, seg)
  {}

  /** Put-get, exactly: a successful set is read back at the same path if and only if the
      value keeps the matches. */
  lemma {:induction false} PutGetExactly(c: NumberCodec, doc: Value, segs: seq<Segment>, v: Value)
    requires Set(c, doc, segs, v).Some?
    ensures Resolve(c, Set(c, doc, segs, v).value, segs) == Some(v) <==> MatchesKept(c, segs, v)
    decreases |segs|
  {
    if |segs| == 1 {
      PutGetLast(c, doc, segs, v);
    } else if |segs| > 1 {
      var child := Descend(c, doc, segs[0]).value;
      PutGetExactly(c, child, segs[1..], v);
      MatchesKeptTail(c, segs, v);
      if segs[0].Match? {
        PutGetBelowMatch(c, doc, segs, v);
      } else {
        assert Step(c, Set(c, doc, segs, v).value, segs[0]) == Some(Set(c, child, segs[1..], v).value);
      }
    }
  }

  lemma PutGetLast(c: NumberCodec, doc: Value, segs: seq<Segment>, v: Value)
    requires |segs| == 1 && Set(c, doc, segs, v).Some?
    ensures Resolve(c, Set(c, doc, segs, v).value, segs) == Some(v) <==> MatchesKept(c, segs, v)
  {
    assert segs[1..] == [];
    if segs[0].Match? {
      FindIndexAfterPut(c, doc.items, segs[0], v);
      if !ItemMatches(c, v, segs[0]) {
        LostMatch(c, doc.items, segs[0], v);
      }
    }
  }

  /** Another item that matches holds something else under the key the match looks at. */
  lemma OtherItem(c: NumberCodec, item: Value, seg: Segment, below: seq<Segment>, v: Value)
    requires seg.Match? && ItemMatches(c, item, seg) && |below| == 1 && below[0] == Key(seg.key)
    requires !MatchEquals(c, v, seg.expected)
    ensures Resolve(c, item, below) != Some(v)
  {
    assert below[1..] == [];
  }

  lemma PutGetBelowMatch(c: NumberCodec, doc: Value, segs: seq<Segment>, v: Value)
    requires |segs| > 1 && segs[0].Match? && Set(c, doc, segs, v).Some?
    requires Resolve(c, Set(c, Descend(c, doc, segs[0]).value, segs[1..], v).value, segs[1..]) == Some(v) <==> MatchesKept(c, segs[1..], v)
    ensures Resolve(c, Set(c, doc, segs, v).value, segs) == Some(v) <==> MatchesKept(c, segs, v)
  {
    var d := Set(c, doc, segs, v).value;
    var child := Descend(c, doc, segs[0]).value;
    var child' := Set(c, child, segs[1..], v).value;
    SetBelowMatch(c, child, segs[0], segs[1..], v);
    FindIndexAfterPut(c, doc.items, segs[0], child');
    MatchesKeptTail(c, segs, v);
    if ItemMatches(c, child', segs[0]) {
      assert Step(c, d, segs[0]) == Some(child');
    } else {
      LostMatch(c, doc.items, segs[0], child');
      if Step(c, d, segs[0]).Some? {
        OtherItem(c, Step(c, d, segs[0]).value, segs[0], segs[1..], v);
      }
    }
  }

  /** The same condition decides whether the path keeps its place: whether the set leaves
      its concrete path as it was. */
  lemma {:induction false} PathKeepsItsPlace(c: NumberCodec, doc: Value, segs: seq<Segment>, v: Value)
    requires Set(c, doc, segs, v).Some?
    ensures Concretize(c, Set(c, doc, segs, v).value, segs) == Concretize(c, doc, segs) <==> MatchesKept(c, segs, v)
    decreases |segs|
  {
    var d := Set(c, doc, segs, v).value;
    if segs != [] {
      if Step(c, doc, segs[0]).None? {
        if |segs| > 1 {
          SetUnderMissingKeyIsMatchFree(c, segs[1..], v);
        }
        assert MatchFree(segs);
        MatchFreeIsConcrete(c, d, segs);
      } else {
        PlaceBelow(c, doc, segs, v);
      }
    }
  }

  lemma {:induction false} PlaceBelow(c: NumberCodec, doc: Value, segs: seq<Segment>, v: Value)
    requires segs != [] && Set(c, doc, segs, v).Some? && Step(c, doc, segs[0]).Some?
    ensures Concretize(c, Set(c, doc, segs, v).value, segs) == Concretize(c, doc, segs) <==> MatchesKept(c, segs, v)
    decreases |segs|, 0
  {
    var d := Set(c, doc, segs, v).value;
    var child := Step(c, doc, segs[0]).value;
    var child' := if |segs| == 1 then v else Set(c, child, segs[1..], v).value;
    assert d == Put(c, doc, segs[0], child');
    var p, q := Concretize(c, doc, segs), Concretize(c, d, segs);
    assert p[1..] == Concretize(c, child, segs[1..]);
    if |segs| > 1 {
      PathKeepsItsPlace(c, child, segs[1..], v);
      MatchesKeptTail(c, segs, v);
    }
    if segs[0].Match? {
      FindIndexAfterPut(c, doc.items, segs[0], child');
      if |segs| > 1 {
        SetBelowMatch(c, child, segs[0], segs[1..], v);
      }
    }
    if Step(c, d, segs[0]) == Some(child') {
      assert q[1..] == Concretize(c, child', segs[1..]);
    }
    assert p == [p[0]] + p[1..] && q == [q[0]] + q[1..];
  }

  /** What a path reads always keeps the matches. */
  lemma ResolvedKeepsMatches(c: NumberCodec, doc: Value, segs: seq<Segment>)
    requires Resolve(c, doc, segs).Some?
    ensures MatchesKept(c, segs, Resolve(c, doc, segs).value)
  {
    SetOfGet(c, doc, segs);
    PutGetExactly(c, doc, segs, Resolve(c, doc, segs).value);
  }

  /** While the matches are kept the last of two sets wins, on any path. */
  lemma SetAgain(c: NumberCodec, doc: Value, segs: seq<Segment>, v: Value, w: Value)
    requires Set(c, doc, segs, v).Some? && MatchesKept(c, segs, v)
    ensures var d := Set(c, doc, segs, v).value;
      Resolve(c, d, segs) == Some(v) && Set(c, d, segs, w) == Set(c, doc, segs, w)
  {
    var d := Set(c, doc, segs, v).value;
    var p := Concretize(c, doc, segs);
    PutGetExactly(c, doc, segs, v);
    PathKeepsItsPlace(c, doc, segs, v);
    ConcretizeSame(c, doc, segs, v);
    ConcretizeSame(c, doc, segs, w);
    ConcretizeSame(c, d, segs, w);
    ConcretizedIsMatchFree(c, doc, segs, v);
    SetAfterSet(c, doc, p, v, w);
  }

  lemma {:induction false} MatchFreeIsConcrete(c: NumberCodec, doc: Value, segs: seq<Segment>)
    requires MatchFree(segs)
    ensures Concretize(c, doc, segs) == segs
  {
    if segs != [] && Step(c, doc, segs[0]).Some? {
      MatchFreeIsConcrete(c, Step(c, doc, segs[0]).value, segs[1..]);
      assert segs == [segs[0]] + segs[1..];
    }
  }

  /** Overwriting the key a match looks at loses the place: put-get fails for the match. */
  lemma MatchCanLoseItsPlace(c: NumberCodec)
    ensures var doc := Arr([Obj(map[[0x61] := Str([0x62])])]);
      var path := [Match([0x61], [0x62])];
      Set(c, doc, path, Null) == Some(Arr([Null])) && Resolve(c, Arr([Null]), path) == None
  {
    var item := Obj(map[[0x61] := Str([0x62])]);
    var seg := Match([0x61], [0x62]);
    assert [item][0] == item;
    assert ItemMatches(c, item, seg);
    assert [item][0 := Null] == [Null];
    assert !ItemMatches(c, [Null][0], seg);
  }
}
