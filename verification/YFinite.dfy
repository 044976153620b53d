/** Every YOps operation keeps documents within the finite numbers, so that canonical
    text identifies the documents it is compared on. */
module YFinite {
  import opened Text
  import opened Values
  import opened YPath
  import opened YDoc
  import opened YOrder
  import opened YOps
  import opened YRecipes

  predicate AllFinite(c: NumberCodec, values: seq<(Text, Value)>) {
    forall i | 0 <= i < |values| :: Finite(c, values[i].1)
  }

  /** The values an operation carries are finite. */
  predicate OpFinite(c: NumberCodec, op: Op) {
    match op
    case SetOp(_, v) => Finite(c, v)
    case Append(_, v) => Finite(c, v)
    case Populate(_, values) => AllFinite(c, values)
    case Assert(_, equals, _, _) => equals.Some? ==> Finite(c, equals.value)
    case _ => true
  }

  predicate OpsFinite(c: NumberCodec, ops: seq<Op>) { forall i | 0 <= i < |ops| :: OpFinite(c, ops[i]) }

  // ---------------------------------------------------------------- path access

  lemma {:induction false} FiniteResolve(c: NumberCodec, doc: Value, segs: seq<Segment>)
    requires Finite(c, doc) && Resolve(c, doc, segs).Some?
    ensures Finite(c, Resolve(c, doc, segs).value)
  {
    if segs != [] {
      FiniteResolve(c, Step(c, doc, segs[0]).value, segs[1..]);
    }
  }

  lemma FinitePut(c: NumberCodec, doc: Value, seg: Segment, child: Value)
    requires Finite(c, doc) && Finite(c, child)
    requires if seg.Key? then doc.Obj? else doc.Arr? && Position(c, doc.items, seg) < |doc.items|
    ensures Finite(c, Put(c, doc, seg, child))
  {}

  lemma {:induction false} FiniteSet(c: NumberCodec, doc: Value, segs: seq<Segment>, v: Value)
    requires Finite(c, doc) && Finite(c, v) && Set(c, doc, segs, v).Some?
    ensures Finite(c, Set(c, doc, segs, v).value)
    decreases |segs|
  {
    if |segs| == 1 {
      FinitePut(c, doc, segs[0], v);
    } else if |segs| > 1 {
      var child := Descend(c, doc, segs[0]).value;
      FiniteSet(c, child, segs[1..], v);
      FinitePut(c, doc, segs[0], Set(c, child, segs[1..], v).value);
    }
  }

  lemma {:induction false} FiniteDelete(c: NumberCodec, doc: Value, segs: seq<Segment>)
    requires segs != [] && Finite(c, doc) && DeleteRecursive(c, doc, segs).Some?
    ensures Finite(c, DeleteRecursive(c, doc, segs).value)
    decreases |segs|
  {
    if |segs| > 1 {
      var child := Step(c, doc, segs[0]).value;
      FiniteDelete(c, child, segs[1..]);
      FinitePut(c, doc, segs[0], DeleteRecursive(c, child, segs[1..]).value);
    }
  }

  lemma {:induction false} FiniteDeleteKeys(env: Env, doc: Value, path: Text, keys: seq<Text>)
    requires Finite(env.c, doc)
    ensures Finite(env.c, DeleteKeys(env, doc, path, keys))
    decreases |keys|
  {
    if keys != [] {
      var segs := Segs(env, KeyPath(path, keys[0]));
      var d := Delete(env.c, doc, segs);
      if d.Some? {
        FiniteDelete(env.c, doc, segs);
      }
      FiniteDeleteKeys(env, if d.Some? then d.value else doc, path, keys[1..]);
    }
  }

  lemma {:induction false} FiniteSetKeys(env: Env, doc: Value, path: Text, values: seq<(Text, Value)>, code: Code)
    requires Finite(env.c, doc) && AllFinite(env.c, values) && SetKeys(env, doc, path, values, code).Ok?
    ensures Finite(env.c, SetKeys(env, doc, path, values, code).doc)
    decreases |values|
  {
    if values != [] {
      var segs := Segs(env, KeyPath(path, values[0].0));
      FiniteSet(env.c, doc, segs, values[0].1);
      FiniteSetKeys(env, Set(env.c, doc, segs, values[0].1).value, path, values[1..], code);
    }
  }

  lemma FiniteSetOr(env: Env, doc: Value, segs: seq<Segment>, v: Value, code: Code)
    requires Finite(env.c, doc) && Finite(env.c, v) && SetOr(env, doc, segs, v, code).Ok?
    ensures Finite(env.c, SetOr(env, doc, segs, v, code).doc)
  {
    FiniteSet(env.c, doc, segs, v);
  }

  // ---------------------------------------------------------------- values built by handlers

  lemma FiniteParts(c: NumberCodec, m: map<Text, Value>, keys: seq<Text>)
    requires Finite(c, Obj(m))
    ensures Finite(c, Obj(Selected(m, keys))) && Finite(c, Obj(Without(m, keys)))
  {}

  lemma {:induction false} FiniteMerged(c: NumberCodec, m: map<Text, Value>, keys: seq<Text>)
    requires Finite(c, Obj(m)) && AllIn(keys, m) && AllMappings(m, keys)
    ensures Finite(c, Obj(Merged(m, keys)))
    decreases |keys|
  {
    if keys != [] {
      var n := |keys| - 1;
      assert AllIn(keys[..n], m) && AllMappings(m, keys[..n]);
      FiniteMerged(c, m, keys[..n]);
      var a, b := Merged(m, keys[..n]), m[keys[n]].m;
      assert Finite(c, Obj(b));
      forall k | k in a + b ensures Finite(c, (a + b)[k]) {
        if k in b { assert (a + b)[k] == b[k]; } else { assert (a + b)[k] == a[k]; }
      }
      assert Merged(m, keys) == a + b;
    }
  }

  lemma FiniteGroups(c: NumberCodec, m: map<Text, Value>, groups: seq<(Text, seq<Text>)>)
    requires Finite(c, Obj(m))
    ensures AllFinite(c, GroupValues(m, groups))
  {
    forall i | 0 <= i < |groups| ensures Finite(c, GroupValues(m, groups)[i].1) {
      FiniteParts(c, m, groups[i].1);
    }
  }

  lemma {:induction false} FinitePutAll(c: NumberCodec, m: map<Text, Value>, values: seq<(Text, Value)>)
    requires Finite(c, Obj(m)) && AllFinite(c, values)
    ensures Finite(c, Obj(PutAll(m, values)))
    decreases |values|
  {
    if values != [] {
      assert Finite(c, Obj(m[values[0].0 := values[0].1]));
      FinitePutAll(c, m[values[0].0 := values[0].1], values[1..]);
    }
  }

  lemma FiniteSorted(s: Sorting, items: seq<Value>)
    requires Finite(s.c, Arr(items)) && AllHaveKey(s.field, items)
    ensures Finite(s.c, Arr(StableSort(s, items)))
  {
    forall x | x in StableSort(s, items) ensures Finite(s.c, x) {
      assert x in multiset(StableSort(s, items));
      assert x in items;
    }
  }

  lemma {:induction false} FiniteUnique(c: NumberCodec, field: Option<Text>, items: seq<Value>, n: nat)
    requires Finite(c, Arr(items)) && AllHaveKey(field, items) && n <= |items|
    ensures Finite(c, Arr(FirstOccurrences(c, field, items, n)))
  {
    if n > 0 {
      FiniteUnique(c, field, items, n - 1);
    }
  }

  // ---------------------------------------------------------------- handlers

  lemma FiniteSequence(env: Env, doc: Value, op: Op, items: seq<Value>)
    requires OnSequence(op) && Finite(env.c, doc) && OpFinite(env.c, op) && Finite(env.c, Arr(items))
    requires HandleSequence(env, doc, op, items).Ok?
    ensures Finite(env.c, HandleSequence(env, doc, op, items).doc)
  {
    var segs := Segs(env, op.path);
    match op {
      case Append(_, v) => FiniteSetOr(env, doc, segs, Arr(items + [v]), INVALID_OP);
      case Sort(_, field, desc) =>
        FiniteSorted(Sorting(env.c, field, desc), items);
        FiniteSetOr(env, doc, segs, Arr(StableSort(Sorting(env.c, field, desc), items)), INVALID_OP);
      case UniqueOp(_, field) =>
        FiniteUnique(env.c, field, items, |items|);
        FiniteSetOr(env, doc, segs, Arr(Unique(env.c, field, items)), INVALID_OP);
    }
  }

  lemma FiniteMapping(env: Env, doc: Value, op: Op, m: map<Text, Value>)
    requires OnMapping(op) && Finite(env.c, doc) && OpFinite(env.c, op) && Finite(env.c, Obj(m))
    requires HandleMapping(env, doc, op, m).Ok?
    ensures Finite(env.c, HandleMapping(env, doc, op, m).doc)
  {
    match op {
      case Populate(path, values) => FiniteSetKeys(env, doc, path, values, INVALID_PATH);
      case Pick(path, keys) =>
        FiniteParts(env.c, m, keys);
        FiniteSetOr(env, doc, Segs(env, path), Obj(Selected(m, keys)), INVALID_OP);
      case Omit(path, keys) =>
        FiniteParts(env.c, m, keys);
        FiniteSetOr(env, doc, Segs(env, path), Obj(Without(m, keys)), INVALID_OP);
      case Nest(path, keys, under) =>
        FiniteParts(env.c, m, keys);
        FiniteDeleteKeys(env, doc, path, keys);
        FiniteSetOr(env, DeleteKeys(env, doc, path, keys), Segs(env, KeyPath(path, under)), Obj(Selected(m, keys)), INVALID_OP);
      case SplitOp(path, groups) =>
        FiniteGroups(env.c, m, groups);
        FiniteDeleteKeys(env, doc, path, Flatten(groups));
        FiniteSetKeys(env, DeleteKeys(env, doc, path, Flatten(groups)), path, GroupValues(m, groups), INVALID_OP);
      case Merge(path, keys, into) =>
        FiniteMerged(env.c, m, keys);
        FiniteDeleteKeys(env, doc, path, keys);
        FiniteSetOr(env, DeleteKeys(env, doc, path, keys), Segs(env, KeyPath(path, into)), Obj(Merged(m, keys)), INVALID_OP);
    }
  }

  lemma FiniteStructural(env: Env, doc: Value, op: Op)
    requires op.Move? || op.Clone? || op.Rename? || op.Fold? || op.Define?
    requires Finite(env.c, doc) && Handle(env, doc, op).Ok?
    ensures Finite(env.c, Handle(env, doc, op).doc)
  {
    match op {
      case Move(from, to) =>
        FiniteResolve(env.c, doc, Segs(env, from));
        var v := At(env, doc, from).value;
        FiniteSet(env.c, doc, Segs(env, to), v);
        FiniteDelete(env.c, Set(env.c, doc, Segs(env, to), v).value, Segs(env, from));
      case Clone(from, to) =>
        FiniteResolve(env.c, doc, Segs(env, from));
        FiniteSetOr(env, doc, Segs(env, to), At(env, doc, from).value, INVALID_OP);
      case Rename(path, to) =>
        var segs := Segs(env, path);
        FiniteResolve(env.c, doc, Front(segs));
        var m := Resolve(env.c, doc, Front(segs)).value.m;
        FiniteSetOr(env, doc, Front(segs), Obj(Renamed(m, Last(segs).value, to)), INVALID_OP);
      case Fold(path) =>
        var segs := Segs(env, path);
        FiniteResolve(env.c, doc, segs);
        var m := Resolve(env.c, doc, segs).value.m;
        FiniteDelete(env.c, doc, segs);
        FiniteSetOr(env, Delete(env.c, doc, segs).value, Front(segs) + [Key(OnlyKey(m))], m[OnlyKey(m)], INVALID_OP);
      case Define(path) => FiniteSetOr(env, doc, Segs(env, path), Obj(map[]), INVALID_OP);
    }
  }

  /** An operation that succeeds on a finite document with finite arguments yields a
      finite document. */
  lemma FiniteTarget(env: Env, doc: Value, op: Op)
    requires OnSequence(op) || OnMapping(op)
    requires Finite(env.c, doc) && OpFinite(env.c, op) && HandleTarget(env, doc, op).Ok?
    ensures Finite(env.c, HandleTarget(env, doc, op).doc)
  {
    FiniteResolve(env.c, doc, Segs(env, op.path));
    var v := At(env, doc, op.path).value;
    if OnSequence(op) {
      FiniteSequence(env, doc, op, v.items);
    } else {
      FiniteMapping(env, doc, op, v.m);
    }
  }

  lemma FiniteHandle(env: Env, doc: Value, op: Op)
    requires Finite(env.c, doc) && OpFinite(env.c, op) && Handle(env, doc, op).Ok?
    ensures Finite(env.c, Handle(env, doc, op).doc)
  {
    hide HandleTarget, HandleRename, HandleMove, HandleClone, HandleFold, HandleDefine;
    match op {
      case SetOp(path, v) => FiniteSetOr(env, doc, Segs(env, path), v, INVALID_PATH);
      case Unset(path) =>
        if Delete(env.c, doc, Segs(env, path)).Some? {
          FiniteDelete(env.c, doc, Segs(env, path));
        }
      case Drop(path) => FiniteDelete(env.c, doc, Segs(env, path));
      case Assert(_, _, _, _) =>
      case Malformed =>
      case Unregistered =>
      case _ =>
        if OnSequence(op) || OnMapping(op) {
          FiniteTarget(env, doc, op);
        } else {
          FiniteStructural(env, doc, op);
        }
    }
  }

  lemma FiniteApply(env: Env, doc: Value, op: Op)
    requires Finite(env.c, doc) && OpFinite(env.c, op) && Apply(env, doc, op).Ok?
    ensures Finite(env.c, Apply(env, doc, op).doc)
  {
    hide Handle;
    FiniteHandle(env, doc, op);
  }

  lemma {:induction false} FiniteRun(env: Env, doc: Value, ops: seq<Op>)
    requires Finite(env.c, doc) && OpsFinite(env.c, ops)
    ensures Finite(env.c, RunOps(env, doc, ops).doc)
    decreases |ops|
  {
    if ops != [] && Apply(env, doc, ops[0]).Ok? {
      FiniteApply(env, doc, ops[0]);
      FiniteRun(env, Apply(env, doc, ops[0]).doc, ops[1..]);
    }
  }

  // ---------------------------------------------------------------- recipes

  lemma FiniteReplacement(env: Env, path: Text, base: Value, target: Value)
    requires Finite(env.c, base) && Finite(env.c, target)
    ensures OpsFinite(env.c, Replacement(env, path, base, target))
    ensures OpsFinite(env.c, [AssertEquals(path, base), SetOp(path, target)])
  {
    hide Finite, CanonicalKey;
  }

  lemma FiniteExpandAt(env: Env, base: Value, op: Op)
    requires (OnSequence(op) || OnMapping(op)) && Finite(env.c, base) && OpFinite(env.c, op)
    requires ExpandAt(env, base, op).Some?
    ensures OpsFinite(env.c, ExpandAt(env, base, op).value)
  {
    FiniteResolve(env.c, base, Segs(env, op.path));
    var v := At(env, base, op.path).value;
    match op {
      case Append(path, item) => FiniteReplacement(env, path, v, Arr(v.items + [item]));
      case Sort(path, field, desc) =>
        FiniteSorted(Sorting(env.c, field, desc), v.items);
        FiniteReplacement(env, path, v, Arr(StableSort(Sorting(env.c, field, desc), v.items)));
      case UniqueOp(path, field) =>
        FiniteUnique(env.c, field, v.items, |v.items|);
        FiniteReplacement(env, path, v, Arr(Unique(env.c, field, v.items)));
      case _ => FiniteMappingRecipe(env, base, op, v);
    }
  }

  lemma FiniteSplitTarget(c: NumberCodec, m: map<Text, Value>, groups: seq<(Text, seq<Text>)>)
    requires Finite(c, Obj(m))
    ensures Finite(c, Obj(SplitTarget(m, groups)))
  {
    FiniteParts(c, m, Flatten(groups));
    FiniteGroups(c, m, groups);
    FinitePutAll(c, Without(m, Flatten(groups)), GroupValues(m, groups));
  }

  lemma FiniteKeyedTarget(c: NumberCodec, m: map<Text, Value>, keys: seq<Text>, k: Text, v: Value)
    requires Finite(c, Obj(m)) && Finite(c, v)
    ensures Finite(c, Obj(Without(m, keys)[k := v]))
  {
    FiniteParts(c, m, keys);
  }

  lemma FinitePopulate(env: Env, path: Text, v: Value, values: seq<(Text, Value)>)
    requires Finite(env.c, v) && AllFinite(env.c, values) && PopulateRecipe(env, path, v, values).Some?
    ensures OpsFinite(env.c, PopulateRecipe(env, path, v, values).value)
  {
    FinitePutAll(env.c, v.m, values);
    FiniteReplacement(env, path, v, Obj(PutAll(v.m, values)));
  }

  lemma FinitePickOmit(env: Env, path: Text, v: Value, keys: seq<Text>)
    requires Finite(env.c, v)
    ensures PickRecipe(env, path, v, keys).Some? ==> OpsFinite(env.c, PickRecipe(env, path, v, keys).value)
    ensures OmitRecipe(path, v, keys).Some? ==> OpsFinite(env.c, OmitRecipe(path, v, keys).value)
  {
    if v.Obj? {
      FiniteParts(env.c, v.m, keys);
      FiniteReplacement(env, path, v, Obj(Selected(v.m, keys)));
      FiniteReplacement(env, path, v, Obj(Without(v.m, keys)));
    }
  }

  lemma FiniteNest(env: Env, path: Text, v: Value, keys: seq<Text>, under: Text)
    requires Finite(env.c, v) && NestRecipe(env, path, v, keys, under).Some?
    ensures OpsFinite(env.c, NestRecipe(env, path, v, keys, under).value)
  {
    FiniteParts(env.c, v.m, keys);
    FiniteKeyedTarget(env.c, v.m, keys, under, Obj(Selected(v.m, keys)));
    FiniteReplacement(env, path, v, Obj(NestTarget(v.m, keys, under)));
  }

  lemma FiniteSplit(env: Env, path: Text, v: Value, groups: seq<(Text, seq<Text>)>)
    requires Finite(env.c, v) && SplitRecipe(env, path, v, groups).Some?
    ensures OpsFinite(env.c, SplitRecipe(env, path, v, groups).value)
  {
    FiniteSplitTarget(env.c, v.m, groups);
    FiniteReplacement(env, path, v, Obj(SplitTarget(v.m, groups)));
  }

  lemma FiniteMerge(env: Env, path: Text, v: Value, keys: seq<Text>, into: Text)
    requires Finite(env.c, v) && MergeRecipe(env, path, v, keys, into).Some?
    ensures OpsFinite(env.c, MergeRecipe(env, path, v, keys, into).value)
  {
    FiniteMerged(env.c, v.m, keys);
    FiniteKeyedTarget(env.c, v.m, keys, into, Obj(Merged(v.m, keys)));
    FiniteReplacement(env, path, v, Obj(MergeTarget(v.m, keys, into)));
  }

  lemma FiniteMappingRecipe(env: Env, base: Value, op: Op, v: Value)
    requires OnMapping(op) && Finite(env.c, v) && OpFinite(env.c, op)
    requires At(env, base, op.path) == Some(v) && ExpandAt(env, base, op).Some?
    ensures OpsFinite(env.c, ExpandAt(env, base, op).value)
  {
    match op {
      case Populate(path, values) => FinitePopulate(env, path, v, values);
      case Pick(path, keys) => FinitePickOmit(env, path, v, keys);
      case Omit(path, keys) => FinitePickOmit(env, path, v, keys);
      case SplitOp(path, groups) => FiniteSplit(env, path, v, groups);
      case Merge(path, keys, into) => FiniteMerge(env, path, v, keys, into);
      case Nest(path, keys, under) => FiniteNest(env, path, v, keys, under);
    }
  }

  /** The operations of a recipe carry only finite values. */
  lemma FiniteExpand(env: Env, base: Value, op: Op)
    requires Finite(env.c, base) && OpFinite(env.c, op) && Expand(env, base, op).Some?
    ensures OpsFinite(env.c, Expand(env, base, op).value)
  {
    if OnSequence(op) || OnMapping(op) {
      FiniteExpandAt(env, base, op);
    } else if op.Clone? || op.Move? {
      FiniteCloneMove(env, base, op);
    } else {
      FiniteRenameFold(env, base, op);
    }
  }

  lemma FiniteCloneMove(env: Env, base: Value, op: Op)
    requires (op.Clone? || op.Move?) && Finite(env.c, base) && Expand(env, base, op).Some?
    ensures OpsFinite(env.c, Expand(env, base, op).value)
  {
    hide Resolve;
    FiniteResolve(env.c, base, Segs(env, op.from));
    var source := At(env, base, op.from).value;
    FiniteCloneRecipe(env.c, op.from, op.to, source);
  }

  lemma FiniteCloneRecipe(c: NumberCodec, from: Text, to: Text, source: Value)
    requires Finite(c, source)
    ensures CloneRecipe(from, to, source).Some? ==> OpsFinite(c, CloneRecipe(from, to, source).value)
    ensures MoveRecipe(from, to, source).Some? ==> OpsFinite(c, MoveRecipe(from, to, source).value)
  {}

  lemma FiniteRenameFold(env: Env, base: Value, op: Op)
    requires !OnSequence(op) && !OnMapping(op) && !op.Clone? && !op.Move?
    requires Finite(env.c, base) && Expand(env, base, op).Some?
    ensures OpsFinite(env.c, Expand(env, base, op).value)
  {
    hide Resolve, FoldRecipe, RenameRecipe;
    var parentPath := ParentPath(env, op.path);
    FiniteResolve(env.c, base, Segs(env, parentPath));
    var parent := At(env, base, parentPath).value;
    if op.Fold? {
      FiniteFold(env, op.path, parentPath, parent);
    } else {
      FiniteRename(env.c, parentPath, parent, Last(Segs(env, op.path)).value, op.to);
    }
  }

  lemma FiniteRename(c: NumberCodec, path: Text, parent: Value, from: Text, to: Text)
    requires Finite(c, parent) && RenameRecipe(path, parent, from, to).Some?
    ensures OpsFinite(c, RenameRecipe(path, parent, from, to).value)
  {}

  lemma FiniteFold(env: Env, path: Text, parentPath: Text, parent: Value)
    requires Finite(env.c, parent) && FoldRecipe(env, path, parentPath, parent).Some?
    ensures OpsFinite(env.c, FoldRecipe(env, path, parentPath, parent).value)
  {
    hide Blank, Replacement, OpsFinite;
    var k := Last(Segs(env, path)).value;
    assert Finite(env.c, parent.m[k]);
    assert Finite(env.c, Obj(FoldTarget(parent.m, k)));
    FiniteReplacement(env, parentPath, parent, Obj(FoldTarget(parent.m, k)));
  }
}
