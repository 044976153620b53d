/** The recipes of the operations that glue keys to path text - nest, merge, split and
    populate - and exactly when the run-time comparison takes them. */
module YGlued {
  import opened Text
  import opened Values
  import opened Grammar
  import opened Canonical
  import opened YPath
  import opened YDoc
  import opened YOrder
  import opened YOps
  import opened YRecipes
  import opened YFinite
  import opened YCompiler
  import opened YMappings
  import opened YFold

  // ---------------------------------------------------------------- places a match has left

  /** A concrete place of the path's length whose value the match ending the path does not
      find. */
  predicate LeftByMatch(c: NumberCodec, d: Value, segs: seq<Segment>, p: seq<Segment>) {
    && segs != [] && segs[|segs| - 1].Match? && MatchFree(p) && |p| == |segs|
    && Resolve(c, d, p).Some? && !ItemMatches(c, Resolve(c, d, p).value, segs[|segs| - 1])
  }

  lemma {:induction false} DifferentPlacesDiverge(q: seq<Segment>, p: seq<Segment>)
    requires |q| == |p| && q != p
    ensures Diverge(q, p)
  {
    if q[0] == p[0] {
      assert q == [q[0]] + q[1..] && p == [p[0]] + p[1..];
      DifferentPlacesDiverge(q[1..], p[1..]);
    }
  }

  lemma SetKeepsPlace(c: NumberCodec, d: Value, segs: seq<Segment>, p: seq<Segment>, v: Value)
    requires LeftByMatch(c, d, segs, p) && Resolve(c, d, segs).Some?
    ensures Set(c, d, segs, v).Some? && Resolve(c, Set(c, d, segs, v).value, p) == Resolve(c, d, p)
    ensures LeftByMatch(c, Set(c, d, segs, v).value, segs, p)
  {
    var q := Concretize(c, d, segs);
    SetWhereResolved(c, d, segs, v);
    ResolvedKeepsMatches(c, d, segs);
    ConcretizeSame(c, d, segs, v);
    ConcretizedIsMatchFree(c, d, segs, v);
    assert q != p;
    DifferentPlacesDiverge(q, p);
    SetElsewhere(c, d, q, p, v);
  }

  /** A set through a match needs the matched item. */
  lemma {:induction false} SetThroughMatch(c: NumberCodec, d: Value, segs: seq<Segment>, k: Text, v: Value)
    requires segs != [] && segs[|segs| - 1].Match? && Set(c, d, segs + [Key(k)], v).Some?
    ensures Resolve(c, d, segs).Some? && Resolve(c, d, segs).value.Obj?
    decreases |segs|
  {
    var path := segs + [Key(k)];
    assert path[0] == segs[0] && path[1..] == segs[1..] + [Key(k)];
    if |segs| == 1 {
      assert segs[1..] == [];
    } else {
      assert path[1..][|segs| - 2] == segs[|segs| - 1];
      if segs[0].Key? && segs[0].value !in d.m {
        SetUnderMissingKeyIsMatchFree(c, path[1..], v);
        assert false;
      }
      SetThroughMatch(c, Descend(c, d, segs[0]).value, segs[1..], k, v);
    }
  }

  lemma SetBelowKeepsPlace(c: NumberCodec, d: Value, segs: seq<Segment>, p: seq<Segment>, k: Text, v: Value)
    requires LeftByMatch(c, d, segs, p) && Set(c, d, segs + [Key(k)], v).Some?
    ensures Resolve(c, Set(c, d, segs + [Key(k)], v).value, p) == Resolve(c, d, p)
    ensures LeftByMatch(c, Set(c, d, segs + [Key(k)], v).value, segs, p)
  {
    SetThroughMatch(c, d, segs, k, v);
    var n := Resolve(c, d, segs).value.m;
    SetKeyIsSetMapping(c, d, segs, n, k, v);
    SetKeepsPlace(c, d, segs, p, Obj(n[k := v]));
  }

  lemma DeleteBelowKeepsPlace(c: NumberCodec, d: Value, segs: seq<Segment>, p: seq<Segment>, k: Text)
    requires LeftByMatch(c, d, segs, p) && Delete(c, d, segs + [Key(k)]).Some?
    ensures Resolve(c, Delete(c, d, segs + [Key(k)]).value, p) == Resolve(c, d, p)
    ensures LeftByMatch(c, Delete(c, d, segs + [Key(k)]).value, segs, p)
  {
    var path := segs + [Key(k)];
    assert Front(path) == segs;
    DeleteExactlyWhereResolved(c, d, path);
    ParentOfResolvedKey(c, d, path);
    ResolveBelow(c, d, segs, k);
    var n := Resolve(c, d, segs).value.m;
    DeleteKeyIsSetMapping(c, d, segs, n, k);
    SetKeepsPlace(c, d, segs, p, Obj(n - {k}));
  }

  lemma {:induction false} DeleteKeysKeepPlace(env: Env, d: Value, path: Text, keys: seq<Text>, p: seq<Segment>)
    requires LeftByMatch(env.c, d, Segs(env, path), p) && AllAddress(env, path, keys)
    ensures Resolve(env.c, DeleteKeys(env, d, path, keys), p) == Resolve(env.c, d, p)
    ensures LeftByMatch(env.c, DeleteKeys(env, d, path, keys), Segs(env, path), p)
    decreases |keys|
  {
    hide LeftByMatch;
    if keys != [] {
      assert Addresses(env, path, keys[0]);
      var next := Delete(env.c, d, Segs(env, KeyPath(path, keys[0])));
      if next.Some? {
        DeleteBelowKeepsPlace(env.c, d, Segs(env, path), p, keys[0]);
      }
      DeleteKeysKeepPlace(env, if next.Some? then next.value else d, path, keys[1..], p);
    }
  }

  lemma {:induction false} SetKeysKeepPlace(env: Env, d: Value, path: Text, values: seq<(Text, Value)>, code: Code, p: seq<Segment>)
    requires LeftByMatch(env.c, d, Segs(env, path), p) && NamesAddress(env, path, values)
    requires SetKeys(env, d, path, values, code).Ok?
    ensures Resolve(env.c, SetKeys(env, d, path, values, code).doc, p) == Resolve(env.c, d, p)
    decreases |values|
  {
    hide LeftByMatch;
    if values != [] {
      assert Addresses(env, path, values[0].0);
      SetBelowKeepsPlace(env.c, d, Segs(env, path), p, values[0].0, values[0].1);
      SetKeysKeepPlace(env, Set(env.c, d, Segs(env, KeyPath(path, values[0].0)), values[0].1).value, path, values[1..], code, p);
    }
  }

  /** Deleting the key the match looks at leaves the item behind, with no more than some of
      its other entries; later deletes and sets go to another item. */
  predicate Remains(m: map<Text, Value>, k: Text, v: Option<Value>) {
    v.Some? && v.value.Obj? && k !in v.value.m && forall x <- v.value.m :: x in m && v.value.m[x] == m[x]
  }

  lemma {:induction false} DeleteLeavesBehind(env: Env, doc: Value, path: Text, m: map<Text, Value>, keys: seq<Text>, k: Text)
    requires AllAddress(env, path, keys) && NoRepeats(keys) && AllIn(keys, m)
    requires At(env, doc, path) == Some(Obj(m)) && k in keys && !Untouched(Segs(env, path), k)
    ensures var p := Concretize(env.c, doc, Segs(env, path)); var d := DeleteKeys(env, doc, path, keys);
      LeftByMatch(env.c, d, Segs(env, path), p) && Remains(m, k, Resolve(env.c, d, p))
    decreases |keys|
  {
    hide LeftByMatch;
    var segs := Segs(env, path);
    var x, rest := keys[0], keys[1..];
    assert Addresses(env, path, x);
    DeleteKeyIsSetMapping(env.c, doc, segs, m, x);
    SetWhereResolved(env.c, doc, segs, Obj(m - {x}));
    var d := Set(env.c, doc, segs, Obj(m - {x})).value;
    RestOfKeys(env, path, m, keys);
    if x == k {
      DeletedIsLeft(env.c, doc, segs, m, k);
      DeleteKeysKeepPlace(env, d, path, rest, Concretize(env.c, doc, segs));
    } else {
      MappingKeepsMatches(env.c, doc, segs, m, m - {x});
      SetMappingAgain(env.c, doc, segs, m, m - {x}, Null);
      PathKeepsItsPlace(env.c, doc, segs, Obj(m - {x}));
      DeleteLeavesBehind(env, d, path, m - {x}, rest, k);
    }
  }

  lemma DeletedIsLeft(c: NumberCodec, doc: Value, segs: seq<Segment>, m: map<Text, Value>, k: Text)
    requires Resolve(c, doc, segs) == Some(Obj(m)) && !Untouched(segs, k) && Set(c, doc, segs, Obj(m - {k})).Some?
    ensures var p := Concretize(c, doc, segs); var d := Set(c, doc, segs, Obj(m - {k})).value;
      LeftByMatch(c, d, segs, p) && Resolve(c, d, p) == Some(Obj(m - {k}))
  {
    ConcretizedIsMatchFree(c, doc, segs, Obj(m - {k}));
    GetAfterSetConcretely(c, doc, segs, Obj(m - {k}));
  }

  // ---------------------------------------------------------------- the comparison

  /** Taking a replacement recipe comes down to whether the native operation sets the target
      at the path. */
  lemma TakenIsSet(env: Env, doc: Value, op: Op, m: map<Text, Value>, target: Value)
    requires Lawful(env.c) && Finite(env.c, doc) && OpFinite(env.c, op) && Finite(env.c, target) && OnMapping(op)
    requires Apply(env, doc, op).Ok? && op.path != [] && StrictPath(op.path) && At(env, doc, op.path) == Some(Obj(m))
    requires Expand(env, doc, op) == Some(Replacement(env, op.path, Obj(m), target))
    ensures Set(env.c, doc, Segs(env, op.path), target).Some?
    ensures TakesRecipe(env, doc, op) <==> Apply(env, doc, op).doc == Set(env.c, doc, Segs(env, op.path), target).value
  {
    hide Apply, Expand, Replacement, RunOps;
    FiniteResolve(env.c, doc, Segs(env, op.path));
    ReplacementReachesTarget(env, doc, op.path, Obj(m), target);
    FiniteApply(env, doc, op);
    FiniteSet(env.c, doc, Segs(env, op.path), target);
    CanonicalTextIdentifiesValue(env.c, ByCodePoint, Set(env.c, doc, Segs(env, op.path), target).value, Apply(env, doc, op).doc);
  }

  /** What a set of the target reads at the place the path led to. */
  lemma TargetAtPlace(c: NumberCodec, doc: Value, segs: seq<Segment>, target: Value)
    requires Set(c, doc, segs, target).Some?
    ensures Resolve(c, Set(c, doc, segs, target).value, Concretize(c, doc, segs)) == Some(target)
  {
    GetAfterSetConcretely(c, doc, segs, target);
  }

  // ---------------------------------------------------------------- nest

  lemma NotInItself(v: Value, k: Text)
    requires v.Obj? && k in v.m
    ensures v.m[k] != v
  {
    if v.m[k] == v {
      NotInItself(v.m[k], k);
    }
  }

  lemma NestReady(env: Env, doc: Value, op: Op)
    requires op.Nest? && op.keys != [] && Apply(env, doc, op).Ok? && Expand(env, doc, op).Some?
    ensures op.path != [] && StrictPath(op.path) && At(env, doc, op.path).Some? && At(env, doc, op.path).value.Obj?
    ensures var m := At(env, doc, op.path).value.m;
      && NoRepeats(op.keys) && AllIn(op.keys, m) && (op.under in m ==> op.under in op.keys)
      && Expand(env, doc, op) == Some(Replacement(env, op.path, Obj(m), Obj(NestTarget(m, op.keys, op.under))))
      && Apply(env, doc, op) == SetOr(env, DeleteKeys(env, doc, op.path, op.keys), Segs(env, KeyPath(op.path, op.under)), Obj(Selected(m, op.keys)), INVALID_OP)
  {}

  /** Nesting sets the target exactly when no nested key is one the path's last match looks
      at. */
  lemma NestSets(env: Env, doc: Value, path: Text, m: map<Text, Value>, keys: seq<Text>, under: Text, code: Code)
    requires AllAddress(env, path, keys) && Addresses(env, path, under) && NoRepeats(keys) && AllIn(keys, m)
    requires At(env, doc, path) == Some(Obj(m)) && (under in m ==> under in keys)
    ensures var native := SetKeys(env, DeleteKeys(env, doc, path, keys), path, [(under, Obj(Selected(m, keys)))], code);
      var target := Set(env.c, doc, Segs(env, path), Obj(NestTarget(m, keys, under)));
      target.Some? && (AllUntouched(Segs(env, path), keys) <==> native == Ok(target.value))
  {
    var segs := Segs(env, path);
    var nested := Obj(Selected(m, keys));
    var values := [(under, nested)];
    var target := Obj(NestTarget(m, keys, under));
    SetWhereResolved(env.c, doc, segs, target);
    assert PutAll(Without(m, keys), values) == NestTarget(m, keys, under) by { assert values[1..] == []; }
    if AllUntouched(segs, keys) {
      RebuildIsSetMapping(env, doc, path, m, keys, values, code);
    } else if SetKeys(env, DeleteKeys(env, doc, path, keys), path, values, code).Ok? {
      var i :| 0 <= i < |keys| && !Untouched(segs, keys[i]);
      var p := Concretize(env.c, doc, segs);
      var d := DeleteKeys(env, doc, path, keys);
      DeleteLeavesBehind(env, doc, path, m, keys, keys[i]);
      SetKeysKeepPlace(env, d, path, values, code, p);
      TargetAtPlace(env.c, doc, segs, target);
      if under in m {
        assert nested.m[under] == m[under];
        NotInItself(nested, under);
      }
    }
  }

  lemma NestTaken(env: Env, doc: Value, op: Op)
    requires Lawful(env.c) && Finite(env.c, doc) && op.Nest? && op.keys != []
    requires AllAddress(env, op.path, op.keys) && Addresses(env, op.path, op.under)
    requires Apply(env, doc, op).Ok? && Expand(env, doc, op).Some?
    ensures TakesRecipe(env, doc, op) <==> AllUntouched(Segs(env, op.path), op.keys)
  {
    hide Apply, Expand, RunOps, SetKeys, DeleteKeys, TakesRecipe, Addresses;
    NestReady(env, doc, op);
    var m := At(env, doc, op.path).value.m;
    var nested := Obj(Selected(m, op.keys));
    FiniteResolve(env.c, doc, Segs(env, op.path));
    FiniteParts(env.c, m, op.keys);
    FiniteKeyedTarget(env.c, m, op.keys, op.under, nested);
    TakenIsSet(env, doc, op, m, Obj(NestTarget(m, op.keys, op.under)));
    SetOrIsSetKeys(env, DeleteKeys(env, doc, op.path, op.keys), op.path, op.under, nested, INVALID_OP);
    NestSets(env, doc, op.path, m, op.keys, op.under, INVALID_OP);
  }

  /** With no keys the recipe is empty, and nesting still adds the empty mapping. */
  lemma NestNothing(env: Env, doc: Value, op: Op)
    requires Lawful(env.c) && Finite(env.c, doc) && op.Nest? && op.keys == [] && Addresses(env, op.path, op.under)
    requires Apply(env, doc, op).Ok? && Expand(env, doc, op).Some?
    ensures !TakesRecipe(env, doc, op)
  {
    var segs := Segs(env, op.path);
    var m := At(env, doc, op.path).value.m;
    assert op.under !in m;
    var nested := Obj(Selected(m, []));
    assert nested == Obj(map[]);
    SetKeyIsSetMapping(env.c, doc, segs, m, op.under, nested);
    assert Apply(env, doc, op).doc == Set(env.c, doc, segs, Obj(m[op.under := nested])).value;
    TargetAtPlace(env.c, doc, segs, Obj(m[op.under := nested]));
    ConcretizeSame(env.c, doc, segs, Null);
    FiniteApply(env, doc, op);
    CanonicalTextIdentifiesValue(env.c, ByCodePoint, doc, Apply(env, doc, op).doc);
  }

  // ---------------------------------------------------------------- merge

  lemma MergeReady(env: Env, doc: Value, op: Op)
    requires op.Merge? && Apply(env, doc, op).Ok? && Expand(env, doc, op).Some?
    ensures op.path != [] && StrictPath(op.path) && At(env, doc, op.path).Some? && At(env, doc, op.path).value.Obj?
    ensures var m := At(env, doc, op.path).value.m;
      && NoRepeats(op.keys) && AllIn(op.keys, m) && AllMappings(m, op.keys)
      && Expand(env, doc, op) == Some(Replacement(env, op.path, Obj(m), Obj(MergeTarget(m, op.keys, op.into))))
      && Apply(env, doc, op) == SetOr(env, DeleteKeys(env, doc, op.path, op.keys), Segs(env, KeyPath(op.path, op.into)), Obj(Merged(m, op.keys)), INVALID_OP)
  {}

  /** A merge is always taken: what it removes are mappings, at which no match looks, and
      what it sets it sets last. */
  lemma MergeTaken(env: Env, doc: Value, op: Op)
    requires Lawful(env.c) && Finite(env.c, doc) && op.Merge?
    requires AllAddress(env, op.path, op.keys) && Addresses(env, op.path, op.into)
    requires Apply(env, doc, op).Ok? && Expand(env, doc, op).Some?
    ensures TakesRecipe(env, doc, op)
  {
    hide Apply, Expand, RunOps, SetKeys, DeleteKeys, TakesRecipe, Addresses;
    MergeReady(env, doc, op);
    var segs := Segs(env, op.path);
    var m := At(env, doc, op.path).value.m;
    var merged := Obj(Merged(m, op.keys));
    FiniteResolve(env.c, doc, segs);
    FiniteMerged(env.c, m, op.keys);
    FiniteKeyedTarget(env.c, m, op.keys, op.into, merged);
    TakenIsSet(env, doc, op, m, Obj(MergeTarget(m, op.keys, op.into)));
    SetOrIsSetKeys(env, DeleteKeys(env, doc, op.path, op.keys), op.path, op.into, merged, INVALID_OP);
    forall i | 0 <= i < |op.keys| ensures Untouched(segs, op.keys[i]) {
      MappingIsUntouched(env.c, doc, segs, m, op.keys[i]);
    }
    RebuildIsSetMapping(env, doc, op.path, m, op.keys, [(op.into, merged)], INVALID_OP);
  }

  /** A merge that overwrites: the leftover has the key it merges into, and the second of
      the merged mappings the key of the first. */
  lemma MergeCanOverwrite(env: Env)
    ensures var inner, other := Obj(map[[0x6B] := Bool(true)]), Obj(map[[0x6B] := Bool(false)]);
      var doc := Obj(map[[0x61] := inner, [0x62] := other, [0x63] := Null]);
      Apply(env, doc, Merge([], [[0x61], [0x62]], [0x63])) == Ok(Obj(map[[0x63] := other]))
  {
    hide Apply, SetKeys, DeleteKeys, Segs;
    var inner, other := Obj(map[[0x6B] := Bool(true)]), Obj(map[[0x6B] := Bool(false)]);
    var m := map[[0x61] := inner, [0x62] := other, [0x63] := Null];
    var keys := [[0x61], [0x62]];
    assert [0x61][0] == 0x61 && [0x62][0] == 0x62 && [0x63][0] == 0x63;
    RootKey(env, [0x61]);
    RootKey(env, [0x62]);
    RootKey(env, [0x63]);
    assert Segs(env, []) == [] by { RootPath(env); }
    assert Merged(m, keys) == map[[0x6B] := Bool(false)] by { MergedTwo(m, [0x61], [0x62]); }
    assert Without(m, keys) == map[[0x63] := Null];
    MergeDispatch(env, Obj(m), keys, [0x63], m);
    SetOrIsSetKeys(env, DeleteKeys(env, Obj(m), [], keys), [], [0x63], other, INVALID_OP);
    RebuildIsSetMapping(env, Obj(m), [], m, keys, [([0x63], other)], INVALID_OP);
    assert map[[0x63] := Null][[0x63] := other] == map[[0x63] := other];
  }

  lemma RootPath(env: Env)
    ensures Segs(env, []) == [] && StrictPath([])
  {}

  lemma RootKey(env: Env, k: Text)
    requires GluesAsKey(k) && k != []
    ensures Addresses(env, [], k)
  {
    ReadLastKey(k, []);
  }

  lemma MergedTwo(m: map<Text, Value>, a: Text, b: Text)
    requires a in m && b in m && m[a].Obj? && m[b].Obj?
    ensures Merged(m, [a, b]) == m[a].m + m[b].m
  {
    assert [a, b][..1] == [a] && [a][..0] == [];
    assert Merged(m, [a]) == m[a].m;
  }

  lemma MergeDispatch(env: Env, doc: Value, keys: seq<Text>, into: Text, m: map<Text, Value>)
    requires doc == Obj(m) && into != [] && AllIn(keys, m) && AllMappings(m, keys)
    ensures Apply(env, doc, Merge([], keys, into)) ==
      SetOr(env, DeleteKeys(env, doc, [], keys), Segs(env, KeyPath([], into)), Obj(Merged(m, keys)), INVALID_OP)
  {
    hide SetOr, DeleteKeys, Merged;
    RootPath(env);
  }

  // ---------------------------------------------------------------- split

  lemma {:induction false} JoinHolds(parts: seq<Text>, i: nat)
    requires i < |parts|
    ensures |parts[i]| <= |Join(parts)|
    decreases |parts|
  {
    if i > 0 {
      JoinHolds(parts[1..], i - 1);
    }
  }

  lemma {:induction false} EntryAt(c: NumberCodec, v: Value, ks: seq<Text>, i: nat)
    requires v.Obj? && (forall k <- ks :: k in v.m) && i < |ks|
    ensures CanonEntries(c, ByCodePoint, v, ks)[i] == CanonEntry(c, ByCodePoint, v, ks[i])
    decreases |ks|
  {
    if i > 0 {
      EntryAt(c, v, ks[1..], i - 1);
    }
  }

  /** An entry's canonical text is shorter than that of the mapping it is in. */
  lemma EntryIsShorter(c: NumberCodec, v: Value, k: Text)
    requires v.Obj? && k in v.m
    ensures |CanonicalKey(c, v.m[k])| < |CanonicalKey(c, v)|
  {
    var ks := SortedKeys(ByCodePoint, v.m.Keys);
    var i :| 0 <= i < |ks| && ks[i] == k;
    EntryAt(c, v, ks, i);
    JoinHolds(CanonEntries(c, ByCodePoint, v, ks), i);
  }

  lemma {:induction false} LongestGroup(c: NumberCodec, m: map<Text, Value>, groups: seq<(Text, seq<Text>)>) returns (i: nat)
    requires groups != [] && forall i | 0 <= i < |groups| :: groups[i].0 in m
    ensures i < |groups|
    ensures forall j | 0 <= j < |groups| :: |CanonicalKey(c, m[groups[j].0])| <= |CanonicalKey(c, m[groups[i].0])|
    decreases |groups|
  {
    i := 0;
    if |groups| > 1 {
      var rest := groups[1..];
      assert forall j | 0 < j < |groups| :: groups[j] == rest[j - 1];
      var r := LongestGroup(c, m, rest);
      if |CanonicalKey(c, m[groups[0].0])| < |CanonicalKey(c, m[rest[r].0])| {
        i := r + 1;
      }
    }
  }

  lemma {:induction false} GroupOf(groups: seq<(Text, seq<Text>)>, k: Text) returns (i: nat)
    requires k in Flatten(groups)
    ensures i < |groups| && k in groups[i].1
    decreases |groups|
  {
    if k in groups[0].1 {
      i := 0;
    } else {
      i := GroupOf(groups[1..], k);
      i := i + 1;
    }
  }

  /** Groups cannot all be there already, each name among the keys moved: the longest of
      them would have to be inside another. */
  lemma GroupsAreNew(c: NumberCodec, m: map<Text, Value>, groups: seq<(Text, seq<Text>)>)
    requires groups != []
    ensures exists i | 0 <= i < |groups| ::
      groups[i].0 !in m || groups[i].0 !in Flatten(groups) || m[groups[i].0] != Obj(Selected(m, groups[i].1))
  {
    if forall i | 0 <= i < |groups| :: groups[i].0 in m && groups[i].0 in Flatten(groups) && m[groups[i].0] == Obj(Selected(m, groups[i].1)) {
      var i := LongestGroup(c, m, groups);
      var j := GroupOf(groups, groups[i].0);
      EntryIsShorter(c, m[groups[j].0], groups[i].0);
    }
  }

  predicate DistinctNames<T>(entries: seq<(Text, T)>) { forall i, j | 0 <= i < j < |entries| :: entries[i].0 != entries[j].0 }

  lemma {:induction false} GroupNames(m: map<Text, Value>, groups: seq<(Text, seq<Text>)>)
    ensures |GroupValues(m, groups)| == |groups|
    ensures forall i | 0 <= i < |groups| :: GroupValues(m, groups)[i] == (groups[i].0, Obj(Selected(m, groups[i].1)))
    decreases |groups|
  {
    if groups != [] {
      GroupNames(m, groups[1..]);
    }
  }

  predicate NewNames(m: map<Text, Value>, groups: seq<(Text, seq<Text>)>) {
    forall i | 0 <= i < |groups| :: groups[i].0 in m ==> groups[i].0 in Flatten(groups)
  }

  lemma SplitReady(env: Env, doc: Value, op: Op)
    requires op.SplitOp? && Apply(env, doc, op).Ok? && Expand(env, doc, op).Some?
    ensures op.path != [] && StrictPath(op.path) && At(env, doc, op.path).Some? && At(env, doc, op.path).value.Obj?
    ensures var m := At(env, doc, op.path).value.m; var moved := Flatten(op.groups);
      && NoRepeats(moved) && AllIn(moved, m) && NewNames(m, op.groups)
      && Expand(env, doc, op) == Some(Replacement(env, op.path, Obj(m), Obj(SplitTarget(m, op.groups))))
      && Apply(env, doc, op) == SetKeys(env, DeleteKeys(env, doc, op.path, moved), op.path, GroupValues(m, op.groups), INVALID_OP)
  {}

  /** No target of a split consists of entries the base had, unless nothing is moved. */
  lemma SplitTargetIsNew(c: NumberCodec, m: map<Text, Value>, groups: seq<(Text, seq<Text>)>, k: Text)
    requires DistinctNames(groups) && NewNames(m, groups) && k in Flatten(groups)
    ensures !Remains(m, k, Some(Obj(SplitTarget(m, groups))))
  {
    GroupsAreNew(c, m, groups);
    SplitTargetHolds(m, groups);
  }

  lemma UntouchedSplit(env: Env, doc: Value, path: Text, m: map<Text, Value>, groups: seq<(Text, seq<Text>)>)
    requires At(env, doc, path) == Some(Obj(m)) && NewNames(m, groups) && AllUntouched(Segs(env, path), Flatten(groups))
    ensures EntriesKeepMatch(env.c, Segs(env, path), Without(m, Flatten(groups)), GroupValues(m, groups))
  {
    var segs, left := Segs(env, path), Without(m, Flatten(groups));
    GroupNames(m, groups);
    WithoutKeeps(segs, m, Flatten(groups));
    MappingKeepsMatches(env.c, doc, segs, m, left);
    forall i | 0 <= i < |groups| ensures Untouched(segs, groups[i].0) {
      if groups[i].0 !in m {
        NewKeyIsUntouched(env.c, doc, segs, m, groups[i].0);
      }
    }
    UntouchedKeepMatch(env.c, segs, left, GroupValues(m, groups));
  }

  /** A match that ends the path looks at a key that is there. */
  lemma NewKeyIsUntouched(c: NumberCodec, doc: Value, segs: seq<Segment>, m: map<Text, Value>, k: Text)
    requires Resolve(c, doc, segs) == Some(Obj(m)) && k !in m
    ensures Untouched(segs, k)
  {
    ResolvedKeepsMatches(c, doc, segs);
  }

  lemma SplitSets(env: Env, doc: Value, path: Text, m: map<Text, Value>, groups: seq<(Text, seq<Text>)>, code: Code)
    requires AllAddress(env, path, Flatten(groups)) && NamesAddress(env, path, GroupValues(m, groups)) && DistinctNames(groups)
    requires At(env, doc, path) == Some(Obj(m)) && NoRepeats(Flatten(groups)) && AllIn(Flatten(groups), m) && NewNames(m, groups)
    ensures var native := SetKeys(env, DeleteKeys(env, doc, path, Flatten(groups)), path, GroupValues(m, groups), code);
      var target := Set(env.c, doc, Segs(env, path), Obj(SplitTarget(m, groups)));
      target.Some? && (AllUntouched(Segs(env, path), Flatten(groups)) <==> native == Ok(target.value))
  {
    var segs, moved, values := Segs(env, path), Flatten(groups), GroupValues(m, groups);
    var target := Obj(SplitTarget(m, groups));
    SetWhereResolved(env.c, doc, segs, target);
    if AllUntouched(segs, moved) {
      UntouchedSplit(env, doc, path, m, groups);
      RebuildIsSetMapping(env, doc, path, m, moved, values, code);
    } else if SetKeys(env, DeleteKeys(env, doc, path, moved), path, values, code).Ok? {
      var i :| 0 <= i < |moved| && !Untouched(segs, moved[i]);
      DeleteLeavesBehind(env, doc, path, m, moved, moved[i]);
      SetKeysKeepPlace(env, DeleteKeys(env, doc, path, moved), path, values, code, Concretize(env.c, doc, segs));
      TargetAtPlace(env.c, doc, segs, target);
      SplitTargetIsNew(env.c, m, groups, moved[i]);
    }
  }

  lemma SplitTaken(env: Env, doc: Value, op: Op)
    requires Lawful(env.c) && Finite(env.c, doc) && op.SplitOp? && DistinctNames(op.groups)
    requires AllAddress(env, op.path, Flatten(op.groups)) && forall i | 0 <= i < |op.groups| :: Addresses(env, op.path, op.groups[i].0)
    requires Apply(env, doc, op).Ok? && Expand(env, doc, op).Some?
    ensures TakesRecipe(env, doc, op) <==> AllUntouched(Segs(env, op.path), Flatten(op.groups))
  {
    hide Apply, Expand, RunOps, SetKeys, DeleteKeys, TakesRecipe, Addresses;
    SplitReady(env, doc, op);
    var m := At(env, doc, op.path).value.m;
    GroupNames(m, op.groups);
    FiniteResolve(env.c, doc, Segs(env, op.path));
    FiniteSplitTarget(env.c, m, op.groups);
    TakenIsSet(env, doc, op, m, Obj(SplitTarget(m, op.groups)));
    SplitSets(env, doc, op.path, m, op.groups, INVALID_OP);
  }

  // ---------------------------------------------------------------- populate

  /** The mapping has these entries already. */
  predicate Holds(m: map<Text, Value>, values: seq<(Text, Value)>) {
    forall i | 0 <= i < |values| :: values[i].0 in m && m[values[i].0] == values[i].1
  }

  /** What the path reads after a set there. */
  function ReadsNext(c: NumberCodec, doc: Value, segs: seq<Segment>, v: Value): Option<Value> {
    match Set(c, doc, segs, v)
    case None => None
    case Some(d) => Resolve(c, d, segs)
  }

  /** The entries set one by one come to the same as all at once: either the match that ends
      the path stays on its item, or from the entry on that takes it off, both that item and
      the one the match finds next hold what is still to be set. */
  predicate EntriesStay(c: NumberCodec, doc: Value, segs: seq<Segment>, m: map<Text, Value>, values: seq<(Text, Value)>)
    decreases |values|
  {
    |values| > 1 ==>
      var m', rest := m[values[0].0 := values[0].1], values[1..];
      if MatchesKept(c, segs, Obj(m')) then Set(c, doc, segs, Obj(m')).Some? && EntriesStay(c, Set(c, doc, segs, Obj(m')).value, segs, m', rest)
      else
        var next := ReadsNext(c, doc, segs, Obj(m'));
        Holds(m', rest) && next.Some? && next.value.Obj? && Holds(next.value.m, rest)
  }

  lemma {:induction false} HeldPutAll(m: map<Text, Value>, values: seq<(Text, Value)>)
    requires DistinctNames(values)
    ensures PutAll(m, values) == m <==> Holds(m, values)
    decreases |values|
  {
    if Holds(m, values) && values != [] {
      assert m[values[0].0 := values[0].1] == m;
      assert forall i | 0 <= i < |values[1..]| :: values[1..][i] == values[i + 1];
      HeldPutAll(m, values[1..]);
    }
    if PutAll(m, values) == m {
      forall i | 0 <= i < |values| ensures values[i].0 in m && m[values[i].0] == values[i].1 {
        PutAllHolds(m, values, i);
      }
    }
  }

  /** The entry set is the one the match looks at, so the item is left behind. */
  lemma EntryLeaves(c: NumberCodec, doc: Value, segs: seq<Segment>, m: map<Text, Value>, k: Text, v: Value)
    requires Resolve(c, doc, segs) == Some(Obj(m)) && !MatchesKept(c, segs, Obj(m[k := v]))
    ensures !Untouched(segs, k) && Set(c, doc, segs, Obj(m[k := v])).Some?
    ensures var p := Concretize(c, doc, segs); var d := Set(c, doc, segs, Obj(m[k := v])).value;
      LeftByMatch(c, d, segs, p) && Resolve(c, d, p) == Some(Obj(m[k := v]))
  {
    ResolvedKeepsMatches(c, doc, segs);
    SetWhereResolved(c, doc, segs, Obj(m[k := v]));
    ConcretizedIsMatchFree(c, doc, segs, Obj(m[k := v]));
    GetAfterSetConcretely(c, doc, segs, Obj(m[k := v]));
  }

  lemma OthersUntouched(segs: seq<Segment>, values: seq<(Text, Value)>)
    requires values != [] && DistinctNames(values) && !Untouched(segs, values[0].0)
    ensures NamesUntouched(segs, values[1..])
  {}

  /** What two sets at the two places read: neither is there for the other. */
  lemma NextPlace(c: NumberCodec, doc: Value, segs: seq<Segment>, left: Value, n: map<Text, Value>, target: Value)
    requires Set(c, doc, segs, left).Some? && Resolve(c, Set(c, doc, segs, left).value, segs) == Some(Obj(n))
    requires LeftByMatch(c, Set(c, doc, segs, left).value, segs, Concretize(c, doc, segs))
    ensures Set(c, doc, segs, target).Some?
    ensures var q := Concretize(c, Set(c, doc, segs, left).value, segs);
      MatchFree(q) && Resolve(c, Set(c, doc, segs, target).value, q) == Some(Obj(n))
  {
    var p, d := Concretize(c, doc, segs), Set(c, doc, segs, left).value;
    var q := Concretize(c, d, segs);
    SetIsTotalOnKind(c, doc, segs, left, target);
    SetWhereResolved(c, d, segs, Null);
    ConcretizeSame(c, d, segs, Null);
    ConcretizedIsMatchFree(c, d, segs, Null);
    ConcretizedIsMatchFree(c, doc, segs, left);
    ConcretizeSame(c, doc, segs, left);
    ConcretizeSame(c, doc, segs, target);
    ResolvedKeepsMatches(c, d, segs);
    assert p != q;
    DifferentPlacesDiverge(p, q);
    SetElsewhere(c, doc, p, q, left);
    SetElsewhere(c, doc, p, q, target);
  }

  /** From the entry on that takes the match off its item the others are set in the item
      that the match finds next. */
  lemma PopulateOff(env: Env, doc: Value, path: Text, m: map<Text, Value>, values: seq<(Text, Value)>, code: Code)
    requires NamesAddress(env, path, values) && DistinctNames(values) && |values| > 1 && At(env, doc, path) == Some(Obj(m))
    requires !MatchesKept(env.c, Segs(env, path), Obj(m[values[0].0 := values[0].1]))
    requires SetKeys(env, doc, path, values, code).Ok?
    ensures var segs := Segs(env, path); var next := ReadsNext(env.c, doc, segs, Obj(m[values[0].0 := values[0].1]));
      && next.Some? && next.value.Obj?
      && var again := Set(env.c, Set(env.c, doc, segs, Obj(m[values[0].0 := values[0].1])).value, segs, Obj(PutAll(next.value.m, values[1..])));
         again.Some? && SetKeys(env, doc, path, values, code) == Ok(again.value)
  {
    hide LeftByMatch, MatchesKept, Untouched, PutAll;
    var c, segs := env.c, Segs(env, path);
    var k, v, rest := values[0].0, values[0].1, values[1..];
    assert Addresses(env, path, k) && Addresses(env, path, rest[0].0);
    SetKeyIsSetMapping(c, doc, segs, m, k, v);
    EntryLeaves(c, doc, segs, m, k, v);
    var d := Set(c, doc, segs, Obj(m[k := v])).value;
    LeftIsMatch(c, d, segs, Concretize(c, doc, segs));
    SetThroughMatch(c, d, segs, rest[0].0, rest[0].1);
    var n := Resolve(c, d, segs).value.m;
    OthersUntouched(segs, values);
    ResolvedKeepsMatches(c, d, segs);
    UntouchedKeepMatch(c, segs, n, rest);
    SetKeysIsSetMapping(env, d, path, n, rest, code);
  }

  /** Two places, two mappings: setting the rest in the one is setting it in the other only
      where both have it. */
  lemma OtherItemSame(c: NumberCodec, doc: Value, segs: seq<Segment>, m: map<Text, Value>, n: map<Text, Value>, rest: seq<(Text, Value)>)
    requires Set(c, doc, segs, Obj(m)).Some? && DistinctNames(rest)
    requires var d := Set(c, doc, segs, Obj(m)).value;
      LeftByMatch(c, d, segs, Concretize(c, doc, segs)) && Resolve(c, d, segs) == Some(Obj(n))
    ensures var other := Set(c, Set(c, doc, segs, Obj(m)).value, segs, Obj(PutAll(n, rest)));
      var target := Set(c, doc, segs, Obj(PutAll(m, rest)));
      other.Some? && target.Some? && (other == target <==> Holds(m, rest) && Holds(n, rest))
  {
    hide LeftByMatch, PutAll, Holds;
    var p, d := Concretize(c, doc, segs), Set(c, doc, segs, Obj(m)).value;
    TargetAtPlace(c, doc, segs, Obj(m));
    NextPlace(c, doc, segs, Obj(m), n, Obj(PutAll(m, rest)));
    TargetAtPlace(c, doc, segs, Obj(PutAll(m, rest)));
    SetKeepsPlace(c, d, segs, p, Obj(PutAll(n, rest)));
    TargetAtPlace(c, d, segs, Obj(PutAll(n, rest)));
    HeldPutAll(m, rest);
    HeldPutAll(n, rest);
    if Holds(n, rest) {
      SetOfGet(c, d, segs);
    }
  }

  lemma PopulateOffExactly(env: Env, doc: Value, path: Text, m: map<Text, Value>, values: seq<(Text, Value)>, code: Code)
    requires NamesAddress(env, path, values) && DistinctNames(values) && |values| > 1 && At(env, doc, path) == Some(Obj(m))
    requires !MatchesKept(env.c, Segs(env, path), Obj(m[values[0].0 := values[0].1]))
    requires SetKeys(env, doc, path, values, code).Ok?
    ensures var target := Set(env.c, doc, Segs(env, path), Obj(PutAll(m, values)));
      target.Some? && (SetKeys(env, doc, path, values, code) == Ok(target.value) <==> EntriesStay(env.c, doc, Segs(env, path), m, values))
  {
    hide LeftByMatch, MatchesKept, SetKeys, Holds;
    var segs := Segs(env, path);
    PopulateOff(env, doc, path, m, values, code);
    EntryLeaves(env.c, doc, segs, m, values[0].0, values[0].1);
    var m' := m[values[0].0 := values[0].1];
    OtherItemSame(env.c, doc, segs, m', ReadsNext(env.c, doc, segs, Obj(m')).value.m, values[1..]);
  }

  lemma LeftIsMatch(c: NumberCodec, d: Value, segs: seq<Segment>, p: seq<Segment>)
    requires LeftByMatch(c, d, segs, p)
    ensures segs != [] && segs[|segs| - 1].Match?
  {}

  /** Setting entries one by one sets the target exactly when the entries stay. */
  lemma {:induction false} PopulateSets(env: Env, doc: Value, path: Text, m: map<Text, Value>, values: seq<(Text, Value)>, code: Code)
    requires NamesAddress(env, path, values) && DistinctNames(values) && At(env, doc, path) == Some(Obj(m))
    requires SetKeys(env, doc, path, values, code).Ok?
    ensures var target := Set(env.c, doc, Segs(env, path), Obj(PutAll(m, values)));
      target.Some? && (SetKeys(env, doc, path, values, code) == Ok(target.value) <==> EntriesStay(env.c, doc, Segs(env, path), m, values))
    decreases |values|
  {
    hide MatchesKept;
    var segs := Segs(env, path);
    if |values| <= 1 {
      SetKeysIsSetMapping(env, doc, path, m, values, code);
    } else {
      var k, v := values[0].0, values[0].1;
      if MatchesKept(env.c, segs, Obj(m[k := v])) {
        assert Addresses(env, path, k);
        SetKeyIsSetMapping(env.c, doc, segs, m, k, v);
        SetMappingAgain(env.c, doc, segs, m, m[k := v], Obj(PutAll(m, values)));
        PopulateSets(env, Set(env.c, doc, segs, Obj(m[k := v])).value, path, m[k := v], values[1..], code);
      } else {
        PopulateOffExactly(env, doc, path, m, values, code);
      }
    }
  }

  lemma PopulateReady(env: Env, doc: Value, op: Op)
    requires op.Populate? && Apply(env, doc, op).Ok? && Expand(env, doc, op).Some?
    ensures op.path != [] && StrictPath(op.path) && At(env, doc, op.path).Some? && At(env, doc, op.path).value.Obj?
    ensures var m := At(env, doc, op.path).value.m;
      && Expand(env, doc, op) == Some(Replacement(env, op.path, Obj(m), Obj(PutAll(m, op.values))))
      && Apply(env, doc, op) == SetKeys(env, doc, op.path, op.values, INVALID_PATH)
  {}

  lemma PopulateTaken(env: Env, doc: Value, op: Op)
    requires Lawful(env.c) && Finite(env.c, doc) && OpFinite(env.c, op) && op.Populate? && DistinctNames(op.values)
    requires NamesAddress(env, op.path, op.values)
    requires Apply(env, doc, op).Ok? && Expand(env, doc, op).Some?
    ensures At(env, doc, op.path).Some? && At(env, doc, op.path).value.Obj?
    ensures TakesRecipe(env, doc, op) <==> EntriesStay(env.c, doc, Segs(env, op.path), At(env, doc, op.path).value.m, op.values)
  {
    hide Apply, Expand, RunOps, SetKeys, TakesRecipe, Addresses, EntriesStay;
    PopulateReady(env, doc, op);
    var m := At(env, doc, op.path).value.m;
    FiniteResolve(env.c, doc, Segs(env, op.path));
    FinitePutAll(env.c, m, op.values);
    TakenIsSet(env, doc, op, m, Obj(PutAll(m, op.values)));
    PopulateSets(env, doc, op.path, m, op.values, INVALID_PATH);
  }

  // ---------------------------------------------------------------- all four

  /** Every key the operation glues to its path addresses that key; a record's names differ. */
  predicate KeysAddress(env: Env, op: Op) {
    match op
    case Populate(path, values) => NamesAddress(env, path, values) && DistinctNames(values)
    case Nest(path, keys, under) => AllAddress(env, path, keys) && Addresses(env, path, under)
    case Merge(path, keys, into) => AllAddress(env, path, keys) && Addresses(env, path, into)
    case SplitOp(path, groups) =>
      AllAddress(env, path, Flatten(groups)) && DistinctNames(groups) && forall i | 0 <= i < |groups| :: Addresses(env, path, groups[i].0)
    case _ => false
  }

  /** The steps of the operation all work on the item that its path led to at first. */
  predicate StaysInPlace(env: Env, doc: Value, op: Op)
    requires KeysAddress(env, op)
  {
    match op
    case Populate(path, values) =>
      At(env, doc, path).Some? && At(env, doc, path).value.Obj? && EntriesStay(env.c, doc, Segs(env, path), At(env, doc, path).value.m, values)
    case Nest(path, keys, _) => keys != [] && AllUntouched(Segs(env, path), keys)
    case Merge(_, _, _) => true
    case SplitOp(path, groups) => AllUntouched(Segs(env, path), Flatten(groups))
  }

  /** The run-time comparison takes these recipes exactly when the native operation
      succeeds, the recipe compiles and the operation stays in place. */
  lemma GluedKeysTakenExactly(env: Env, doc: Value, op: Op)
    requires Lawful(env.c) && Finite(env.c, doc) && OpFinite(env.c, op) && KeysAddress(env, op)
    ensures TakesRecipe(env, doc, op) <==> Apply(env, doc, op).Ok? && Expand(env, doc, op).Some? && StaysInPlace(env, doc, op)
  {
    hide Apply, Expand, RunOps, EntriesStay;
    if Apply(env, doc, op).Ok? && Expand(env, doc, op).Some? {
      match op {
        case Populate(_, _) => PopulateTaken(env, doc, op);
        case Nest(_, keys, _) =>
          if keys == [] {
            NestNothing(env, doc, op);
          } else {
            NestTaken(env, doc, op);
          }
        case Merge(_, _, _) => MergeTaken(env, doc, op);
        case SplitOp(_, _) => SplitTaken(env, doc, op);
      }
    }
  }
}
