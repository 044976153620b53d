/** What each operation does to a document: when it succeeds, what stands at its place
    afterwards, and that nothing else changes. */
module YEffects {
  import opened Text
  import opened Values
  import opened Grammar
  import opened Canonical
  import opened YPath
  import opened YDoc
  import opened YReads
  import opened YOrder
  import opened YSorted
  import opened YOps
  import opened YRecipes
  import opened YFinite
  import opened YCompiler
  import opened YMappings
  import opened YFold
  import opened YGlued

  // ---------------------------------------------------------------- one place changes

  /** At the place the path led to there is now `v`, and every path that parts from it reads
      as before. */
  ghost predicate Becomes(c: NumberCodec, doc: Value, segs: seq<Segment>, v: Value, d: Value) {
    var place := Concretize(c, doc, segs);
    && Resolve(c, d, place) == Some(v)
    && forall q | MatchFree(q) && Diverge(place, q) :: Resolve(c, d, q) == Resolve(c, doc, q)
  }

  lemma SetBecomes(c: NumberCodec, doc: Value, segs: seq<Segment>, v: Value)
    requires Set(c, doc, segs, v).Some?
    ensures Becomes(c, doc, segs, v, Set(c, doc, segs, v).value)
  {
    var place := Concretize(c, doc, segs);
    GetAfterSetConcretely(c, doc, segs, v);
    ConcretizedIsMatchFree(c, doc, segs, v);
    ConcretizeSame(c, doc, segs, v);
    forall q | MatchFree(q) && Diverge(place, q) ensures Resolve(c, Set(c, doc, segs, v).value, q) == Resolve(c, doc, q) {
      SetElsewhere(c, doc, place, q, v);
    }
  }

  /** Where the path resolves, setting succeeds and changes that place. */
  lemma ReplaceBecomes(c: NumberCodec, doc: Value, segs: seq<Segment>, v: Value)
    requires Resolve(c, doc, segs).Some?
    ensures Set(c, doc, segs, v).Some? && Becomes(c, doc, segs, v, Set(c, doc, segs, v).value)
  {
    SetWhereResolved(c, doc, segs, v);
    SetBecomes(c, doc, segs, v);
  }

  predicate IsReady(path: Text) { path != [] && StrictPath(path) }

  // ---------------------------------------------------------------- the engine's own guards

  /** An unknown operation, one of the wrong shape and one with a path that does not parse
      never reach a handler. */
  lemma Guards(env: Env, doc: Value, op: Op)
    ensures Apply(env, doc, Unregistered) == Err(UNKNOWN_OP) && Apply(env, doc, Malformed) == Err(INVALID_OP)
    ensures op.SetOp? || op.Append? || op.Drop? || op.Define? || op.Unset? || op.Sort? || op.UniqueOp? || op.Fold? || op.Populate? ==>
      && (op.path == [] ==> Apply(env, doc, op) == Err(INVALID_OP))
      && (op.path != [] && TryParse(op.path).PathFailed? ==> Apply(env, doc, op) == Err(INVALID_PATH))
  {
    hide Handle;
  }

  /** A run goes on from what the operations before have made, and stops at the first one
      that fails: with its code, the number of those before it and the document it was
      given. */
  lemma RunGoesOn(env: Env, doc: Value, ops: seq<Op>, op: Op)
    requires RunOps(env, doc, ops).ok
    ensures RunOps(env, doc, ops + [op]) ==
      match Apply(env, RunOps(env, doc, ops).doc, op)
      case Ok(d) => Run(true, d, |ops| + 1, None)
      case Err(code) => Run(false, doc, |ops|, Some(code))
  {
    hide Apply;
    RunAppend(env, doc, ops, [op]);
    RunOne(env, RunOps(env, doc, ops).doc, op);
  }

  lemma RunStops(env: Env, doc: Value, ops: seq<Op>, op: Op, more: seq<Op>)
    requires RunOps(env, doc, ops).ok && Apply(env, RunOps(env, doc, ops).doc, op).Err?
    ensures RunOps(env, doc, ops + [op] + more) == Run(false, doc, |ops|, Some(Apply(env, RunOps(env, doc, ops).doc, op).code))
  {
    hide Apply;
    RunGoesOn(env, doc, ops, op);
    RunAppend(env, doc, ops + [op], more);
  }

  // ---------------------------------------------------------------- set, unset, define, drop

  /** Set succeeds exactly where the path can be written. */
  lemma SetDoes(env: Env, doc: Value, path: Text, v: Value)
    requires IsReady(path)
    ensures var segs, out := Segs(env, path), Apply(env, doc, SetOp(path, v));
      && (out.Ok? ==> Becomes(env.c, doc, segs, v, out.doc))
      && (segs != [] ==> (out.Ok? <==> exists n | 0 <= n < |segs| :: IsWritable(env.c, doc, segs, n)))
      && (out.Err? ==> out.code == INVALID_PATH)
  {
    hide StrictPath, Becomes, IsWritable;
    var segs := Segs(env, path);
    SetDispatch(env, doc, path, v);
    if segs != [] {
      SetSucceedsExactly(env.c, doc, segs, v);
    }
    if Set(env.c, doc, segs, v).Some? {
      SetBecomes(env.c, doc, segs, v);
    }
  }

  /** The mapping without the key. */
  function Lacking(m: map<Text, Value>, k: Text): map<Text, Value> { map x | x in m && x != k :: m[x] }

  lemma LackingIs(m: map<Text, Value>, k: Text)
    ensures Lacking(m, k) == m - {k}
  {}

  lemma DeleteBecomes(c: NumberCodec, doc: Value, front: seq<Segment>, k: Text)
    requires var at := Resolve(c, doc, front); at.Some? && at.value.Obj? && k in at.value.m
    ensures var d := Delete(c, doc, front + [Key(k)]);
      d.Some? && Becomes(c, doc, front, Obj(Lacking(Resolve(c, doc, front).value.m, k)), d.value)
  {
    hide Becomes;
    var m := Resolve(c, doc, front).value.m;
    LackingIs(m, k);
    DeleteKeyIsSetMapping(c, doc, front, m, k);
    ReplaceBecomes(c, doc, front, Obj(m - {k}));
  }

  /** Unset removes the key where it is, does nothing where it is not, and only works on
      mappings. */
  lemma UnsetDoes(env: Env, doc: Value, path: Text, front: seq<Segment>, last: Segment)
    requires IsReady(path) && Segs(env, path) == front + [last]
    ensures var out, at := Apply(env, doc, Unset(path)), Resolve(env.c, doc, front);
      && (!last.Key? || (at.Some? && !at.value.Obj?) ==> out == Err(NOT_A_MAPPING))
      && (last.Key? && (at.None? || (at.value.Obj? && last.value !in at.value.m)) ==> out == Ok(doc))
      && (last.Key? && at.Some? && at.value.Obj? && last.value in at.value.m ==>
            out.Ok? && Becomes(env.c, doc, front, Obj(Lacking(at.value.m, last.value)), out.doc))
  {
    hide StrictPath, Becomes, Segs;
    var segs := front + [last];
    UnsetDispatch(env, doc, path);
    assert Front(segs) == front && segs[|segs| - 1] == last;
    if last.Key? {
      var at := Resolve(env.c, doc, front);
      if at.Some? {
        ResolveBelow(env.c, doc, front, last.value);
        if at.value.Obj? && last.value in at.value.m {
          DeleteBecomes(env.c, doc, front, last.value);
        }
      } else if Resolve(env.c, doc, segs).Some? {
        ParentOfResolvedKey(env.c, doc, segs);
      }
    }
  }

  /** Drop succeeds exactly where the path resolves, and takes the value out of what it is
      in. */
  lemma DropDoes(env: Env, doc: Value, path: Text)
    requires IsReady(path) && Segs(env, path) != []
    ensures var segs, out := Segs(env, path), Apply(env, doc, Drop(path));
      && (out.Ok? <==> At(env, doc, path).Some?)
      && (out.Ok? ==> SetsWithout(env.c, doc, segs[..|segs| - 1], segs[|segs| - 1], out.doc))
      && (out.Err? ==> out.code == PATH_NOT_FOUND)
  {
    hide StrictPath, SetsWithout;
    var segs := Segs(env, path);
    DropDispatch(env, doc, path);
    DeleteExactlyWhereResolved(env.c, doc, segs);
    if Delete(env.c, doc, segs).Some? {
      DeleteExactly(env.c, doc, segs, Delete(env.c, doc, segs).value);
    }
  }

  lemma DropDispatch(env: Env, doc: Value, path: Text)
    requires IsReady(path)
    ensures Apply(env, doc, Drop(path)) ==
      match Delete(env.c, doc, Segs(env, path))
      case None => Err(PATH_NOT_FOUND)
      case Some(d) => Ok(d)
  {
    hide StrictPath, Segs;
  }

  lemma DefineDispatch(env: Env, doc: Value, path: Text)
    requires IsReady(path)
    ensures Apply(env, doc, Define(path)) == HandleDefine(env, doc, path)
  {
    hide StrictPath, HandleDefine;
  }

  /** Define succeeds exactly on a path of keys whose parent is a mapping without the last
      key, which then holds the empty mapping; dropping the path undoes it. */
  lemma DefineDoes(env: Env, doc: Value, path: Text, front: seq<Segment>, last: Segment)
    requires IsReady(path) && Segs(env, path) == front + [last]
    ensures var out, at := Apply(env, doc, Define(path)), Resolve(env.c, doc, front);
      && (out.Ok? <==> AllKeys(front + [last]) && at.Some? && at.value.Obj? && last.value !in at.value.m)
      && (out.Ok? ==> Becomes(env.c, doc, front + [last], Obj(map[]), out.doc))
      && (out.Ok? ==> RunOps(env, doc, [Define(path), Drop(path)]) == Run(true, doc, 2, None))
      && (!AllKeys(front + [last]) ==> out == Err(INVALID_PATH))
      && (AllKeys(front + [last]) && at.None? ==> out == Err(PATH_NOT_FOUND))
      && (AllKeys(front + [last]) && at.Some? && !at.value.Obj? ==> out == Err(NOT_A_MAPPING))
      && (AllKeys(front + [last]) && at.Some? && at.value.Obj? && last.value in at.value.m ==> out == Err(ALREADY_EXISTS))
  {
    hide StrictPath, Becomes, Segs;
    var segs := front + [last];
    DefineDispatch(env, doc, path);
    assert Front(segs) == front && segs[|segs| - 1] == last;
    assert AllKeys(segs) <==> !exists i | 0 <= i < |segs| :: !segs[i].Key?;
    var at := Resolve(env.c, doc, front);
    if AllKeys(segs) && at.Some? && at.value.Obj? && last.value !in at.value.m {
      KeysAreMatchFree(front, last);
      DeleteUndoesSet(env.c, doc, front, last.value, Obj(map[]));
      SetBecomes(env.c, doc, segs, Obj(map[]));
      var d := Set(env.c, doc, segs, Obj(map[])).value;
      DropDispatch(env, d, path);
      RunTwoOps(env, doc, Define(path), Drop(path), d, doc);
    }
  }

  lemma KeysAreMatchFree(front: seq<Segment>, last: Segment)
    requires AllKeys(front + [last])
    ensures MatchFree(front) && last.Key?
  {
    assert forall i | 0 <= i < |front| :: (front + [last])[i] == front[i];
    assert (front + [last])[|front|] == last;
  }

  lemma RunTwoOps(env: Env, doc: Value, first: Op, second: Op, middle: Value, last: Value)
    requires Apply(env, doc, first) == Ok(middle) && Apply(env, middle, second) == Ok(last)
    ensures RunOps(env, doc, [first, second]) == Run(true, last, 2, None)
  {
    hide Apply;
    RunOne(env, middle, second);
    assert [first, second][1..] == [second];
  }

  // ---------------------------------------------------------------- sequences

  /** Append, sort and unique work exactly on sequences, and replace them by one with the
      value at the end, by the sorted one, by the one without later duplicates. */
  lemma SequenceDoes(env: Env, doc: Value, op: Op)
    requires OnSequence(op) && IsReady(op.path)
    ensures var out, at := Apply(env, doc, op), At(env, doc, op.path);
      && (at.None? ==> out == Err(PATH_NOT_FOUND))
      && (at.Some? && !at.value.Arr? ==> out == Err(NOT_A_SEQUENCE))
      && (at.Some? && at.value.Arr? ==>
            var items, segs := at.value.items, Segs(env, op.path);
            && (op.Append? ==> out.Ok? && Becomes(env.c, doc, segs, Arr(items + [op.value]), out.doc))
            && (op.Sort? || op.UniqueOp? ==> if AllHaveKey(op.field, items) then out.Ok? else out == Err(INVALID_OP))
            && (op.Sort? && AllHaveKey(op.field, items) ==>
                  Becomes(env.c, doc, segs, Arr(StableSort(Sorting(env.c, op.field, op.desc), items)), out.doc))
            && (op.UniqueOp? && AllHaveKey(op.field, items) ==> Becomes(env.c, doc, segs, Arr(Unique(env.c, op.field, items)), out.doc)))
  {
    hide StrictPath, Becomes, StableSort, Unique, Segs;
    SequenceDispatch(env, doc, op);
    var at := At(env, doc, op.path);
    if at.Some? && at.value.Arr? {
      var items, segs := at.value.items, Segs(env, op.path);
      match op {
        case Append(_, v) => ReplaceBecomes(env.c, doc, segs, Arr(items + [v]));
        case Sort(_, field, desc) =>
          if AllHaveKey(field, items) {
            ReplaceBecomes(env.c, doc, segs, Arr(StableSort(Sorting(env.c, field, desc), items)));
          }
        case UniqueOp(_, field) =>
          if AllHaveKey(field, items) {
            ReplaceBecomes(env.c, doc, segs, Arr(Unique(env.c, field, items)));
          }
      }
    }
  }

  lemma SequenceDispatch(env: Env, doc: Value, op: Op)
    requires OnSequence(op) && IsReady(op.path)
    ensures Apply(env, doc, op) ==
      match At(env, doc, op.path)
      case None => Err(PATH_NOT_FOUND)
      case Some(v) => if v.Arr? then HandleSequence(env, doc, op, v.items) else Err(NOT_A_SEQUENCE)
  {
    hide StrictPath, HandleSequence, At;
  }

  // ---------------------------------------------------------------- mappings

  function Among(m: map<Text, Value>, keys: seq<Text>): map<Text, Value> { map k | k in m && k in keys :: m[k] }
  function NotAmong(m: map<Text, Value>, keys: seq<Text>): map<Text, Value> { map k | k in m && k !in keys :: m[k] }

  /** Pick leaves the listed entries of the mapping, omit the others. */
  lemma PickOmitDo(env: Env, doc: Value, op: Op)
    requires (op.Pick? || op.Omit?) && IsReady(op.path)
    ensures var out, at := Apply(env, doc, op), At(env, doc, op.path);
      && (at.None? ==> out == Err(PATH_NOT_FOUND))
      && (at.Some? && !at.value.Obj? ==> out == Err(NOT_A_MAPPING))
      && (at.Some? && at.value.Obj? ==>
            out.Ok? && Becomes(env.c, doc, Segs(env, op.path),
              Obj(if op.Pick? then Among(at.value.m, op.keys) else NotAmong(at.value.m, op.keys)), out.doc))
  {
    hide StrictPath, Becomes, Segs;
    MappingDispatch(env, doc, op);
    var at := At(env, doc, op.path);
    if at.Some? && at.value.Obj? {
      assert Selected(at.value.m, op.keys) == Among(at.value.m, op.keys);
      assert Without(at.value.m, op.keys) == NotAmong(at.value.m, op.keys);
      ReplaceBecomes(env.c, doc, Segs(env, op.path), Obj(if op.Pick? then Selected(at.value.m, op.keys) else Without(at.value.m, op.keys)));
    }
  }

  lemma MappingDispatch(env: Env, doc: Value, op: Op)
    requires OnMapping(op) && SchemaOk(op) && StrictPath(op.path)
    ensures Apply(env, doc, op) ==
      match At(env, doc, op.path)
      case None => Err(PATH_NOT_FOUND)
      case Some(v) => if v.Obj? then HandleMapping(env, doc, op, v.m) else Err(NOT_A_MAPPING)
  {
    hide StrictPath, HandleMapping, At;
  }

  /** Nest moves the listed entries into a mapping under the new key. */
  lemma NestDoes(env: Env, doc: Value, path: Text, m: map<Text, Value>, keys: seq<Text>, under: Text)
    requires StrictPath(path) && under != [] && At(env, doc, path) == Some(Obj(m))
    ensures var out := Apply(env, doc, Nest(path, keys, under));
      && ((exists i | 0 <= i < |keys| :: keys[i] !in m) ==> out == Err(NOT_SIBLINGS))
      && (AllIn(keys, m) && under in m && under !in keys ==> out == Err(ALREADY_EXISTS))
      && (AllIn(keys, m) && (under in m ==> under in keys) && NoRepeats(keys)
          && AllAddress(env, path, keys) && Addresses(env, path, under) && AllUntouched(Segs(env, path), keys) ==>
            out.Ok? && Becomes(env.c, doc, Segs(env, path), Obj(NotAmong(m, keys)[under := Obj(Among(m, keys))]), out.doc))
  {
    hide StrictPath, Becomes, Segs, Addresses, Untouched, SetKeys, DeleteKeys;
    MappingDispatch(env, doc, Nest(path, keys, under));
    SetOrIsSetKeys(env, DeleteKeys(env, doc, path, keys), path, under, Obj(Selected(m, keys)), INVALID_OP);
    if AllIn(keys, m) && (under in m ==> under in keys) && NoRepeats(keys)
      && AllAddress(env, path, keys) && Addresses(env, path, under) && AllUntouched(Segs(env, path), keys) {
      assert Selected(m, keys) == Among(m, keys) && Without(m, keys) == NotAmong(m, keys);
      NestSets(env, doc, path, m, keys, under, INVALID_OP);
      SetBecomes(env.c, doc, Segs(env, path), Obj(NestTarget(m, keys, under)));
    }
  }

  /** Merge puts the entries of the listed mappings into one under the new key, the later
      ones winning. */
  lemma MergeDoes(env: Env, doc: Value, path: Text, m: map<Text, Value>, keys: seq<Text>, into: Text, merged: map<Text, Value>)
    requires StrictPath(path) && into != [] && At(env, doc, path) == Some(Obj(m))
    requires forall k :: k in merged <==> exists i | 0 <= i < |keys| :: keys[i] in m && m[keys[i]].Obj? && k in m[keys[i]].m
    requires forall i, k | 0 <= i < |keys| && keys[i] in m && m[keys[i]].Obj? && k in m[keys[i]].m
      && (forall j | i < j < |keys| :: keys[j] in m && m[keys[j]].Obj? ==> k !in m[keys[j]].m) :: merged[k] == m[keys[i]].m[k]
    ensures var out := Apply(env, doc, Merge(path, keys, into));
      && ((exists i | 0 <= i < |keys| :: keys[i] !in m) ==> out == Err(NOT_SIBLINGS))
      && (AllIn(keys, m) && (exists i | 0 <= i < |keys| :: !m[keys[i]].Obj?) ==> out == Err(NOT_A_MAPPING))
      && (AllIn(keys, m) && AllMappings(m, keys) && NoRepeats(keys) && AllAddress(env, path, keys) && Addresses(env, path, into) ==>
            out.Ok? && Becomes(env.c, doc, Segs(env, path), Obj(NotAmong(m, keys)[into := Obj(merged)]), out.doc))
  {
    hide StrictPath, Becomes, Segs, Addresses, Untouched, SetKeys, DeleteKeys, Merged;
    MappingDispatch(env, doc, Merge(path, keys, into));
    if AllIn(keys, m) && AllMappings(m, keys) && NoRepeats(keys) && AllAddress(env, path, keys) && Addresses(env, path, into) {
      MergedIs(m, keys, merged);
      MergeIsSet(env, doc, path, m, keys, into);
      assert Without(m, keys) == NotAmong(m, keys);
      SetBecomes(env.c, doc, Segs(env, path), Obj(MergeTarget(m, keys, into)));
    }
  }

  lemma MergeIsSet(env: Env, doc: Value, path: Text, m: map<Text, Value>, keys: seq<Text>, into: Text)
    requires At(env, doc, path) == Some(Obj(m)) && AllIn(keys, m) && AllMappings(m, keys) && NoRepeats(keys)
    requires AllAddress(env, path, keys) && Addresses(env, path, into)
    ensures var d := Set(env.c, doc, Segs(env, path), Obj(MergeTarget(m, keys, into)));
      d.Some? && SetOr(env, DeleteKeys(env, doc, path, keys), Segs(env, KeyPath(path, into)), Obj(Merged(m, keys)), INVALID_OP) == Ok(d.value)
  {
    hide Addresses, SetKeys, DeleteKeys, Merged;
    var segs := Segs(env, path);
    SetOrIsSetKeys(env, DeleteKeys(env, doc, path, keys), path, into, Obj(Merged(m, keys)), INVALID_OP);
    forall i | 0 <= i < |keys| ensures Untouched(segs, keys[i]) {
      MappingIsUntouched(env.c, doc, segs, m, keys[i]);
    }
    RebuildIsSetMapping(env, doc, path, m, keys, [(into, Obj(Merged(m, keys)))], INVALID_OP);
  }

  /** The last of the listed mappings that has a key decides its value. */
  lemma {:induction false} MergedValue(m: map<Text, Value>, keys: seq<Text>, i: nat, k: Text)
    requires AllIn(keys, m) && AllMappings(m, keys) && i < |keys| && k in m[keys[i]].m
    requires forall j | i < j < |keys| :: k !in m[keys[j]].m
    ensures k in Merged(m, keys) && Merged(m, keys)[k] == m[keys[i]].m[k]
    decreases |keys|
  {
    var n := |keys| - 1;
    var front := keys[..n];
    assert forall j | 0 <= j < n :: front[j] == keys[j];
    if i < n {
      MergedValue(m, front, i, k);
    }
  }

  lemma {:induction false} LastWith(m: map<Text, Value>, keys: seq<Text>, k: Text) returns (i: nat)
    requires AllIn(keys, m) && AllMappings(m, keys) && exists j | 0 <= j < |keys| :: k in m[keys[j]].m
    ensures i < |keys| && k in m[keys[i]].m && forall j | i < j < |keys| :: k !in m[keys[j]].m
    decreases |keys|
  {
    var n := |keys| - 1;
    if k in m[keys[n]].m {
      i := n;
    } else {
      var front := keys[..n];
      assert forall j | 0 <= j < n :: front[j] == keys[j];
      i := LastWith(m, front, k);
    }
  }

  lemma MergedIs(m: map<Text, Value>, keys: seq<Text>, merged: map<Text, Value>)
    requires AllIn(keys, m) && AllMappings(m, keys)
    requires forall k :: k in merged <==> exists i | 0 <= i < |keys| :: keys[i] in m && m[keys[i]].Obj? && k in m[keys[i]].m
    requires forall i, k | 0 <= i < |keys| && keys[i] in m && m[keys[i]].Obj? && k in m[keys[i]].m
      && (forall j | i < j < |keys| :: keys[j] in m && m[keys[j]].Obj? ==> k !in m[keys[j]].m) :: merged[k] == m[keys[i]].m[k]
    ensures Merged(m, keys) == merged
  {
    hide Merged;
    MergedKeys(m, keys);
    forall k ensures (k in Merged(m, keys) <==> k in merged) && (k in merged ==> Merged(m, keys)[k] == merged[k]) {
      if k in merged {
        var i := LastWith(m, keys, k);
        MergedValue(m, keys, i, k);
        assert merged[k] == m[keys[i]].m[k];
      }
    }
  }

  /** The mapping with these entries in place of any it had under their keys. */
  ghost predicate IsFilled(m: map<Text, Value>, values: seq<(Text, Value)>, r: map<Text, Value>) {
    && (forall k :: k in r <==> k in m || exists i | 0 <= i < |values| :: values[i].0 == k)
    && (forall i | 0 <= i < |values| :: r[values[i].0] == values[i].1)
    && (forall k <- m :: (forall i | 0 <= i < |values| :: values[i].0 != k) ==> r[k] == m[k])
  }

  lemma PutAllFills(m: map<Text, Value>, values: seq<(Text, Value)>, r: map<Text, Value>)
    requires DistinctNames(values) && IsFilled(m, values, r)
    ensures PutAll(m, values) == r
  {
    var all := PutAll(m, values);
    forall k ensures (k in all <==> k in r) && (k in r ==> all[k] == r[k]) {
      if i :| 0 <= i < |values| && values[i].0 == k {
        PutAllHolds(m, values, i);
      } else {
        PutAllKeeps(m, values, k);
      }
    }
  }

  /** Populate sets the entries in the mapping. */
  lemma PopulateDoes(env: Env, doc: Value, path: Text, m: map<Text, Value>, values: seq<(Text, Value)>, r: map<Text, Value>)
    requires IsReady(path) && At(env, doc, path) == Some(Obj(m)) && DistinctNames(values) && IsFilled(m, values, r)
    requires NamesAddress(env, path, values) && NamesUntouched(Segs(env, path), values)
    ensures var out := Apply(env, doc, Populate(path, values));
      out.Ok? && Becomes(env.c, doc, Segs(env, path), Obj(r), out.doc)
  {
    hide StrictPath, Becomes, Segs, Addresses, SetKeys, IsFilled, PutAll;
    var segs := Segs(env, path);
    MappingDispatch(env, doc, Populate(path, values));
    ResolvedKeepsMatches(env.c, doc, segs);
    UntouchedKeepMatch(env.c, segs, m, values);
    SetKeysIsSetMapping(env, doc, path, m, values, INVALID_PATH);
    PutAllFills(m, values, r);
    SetBecomes(env.c, doc, segs, Obj(r));
  }

  /** Each group as a mapping of its entries. */
  predicate IsGrouped(m: map<Text, Value>, groups: seq<(Text, seq<Text>)>, values: seq<(Text, Value)>) {
    |values| == |groups| && forall i | 0 <= i < |groups| :: values[i] == (groups[i].0, Obj(Among(m, groups[i].1)))
  }

  lemma GroupedIs(m: map<Text, Value>, groups: seq<(Text, seq<Text>)>, values: seq<(Text, Value)>)
    requires IsGrouped(m, groups, values)
    ensures GroupValues(m, groups) == values
  {
    GroupNames(m, groups);
    forall i | 0 <= i < |groups| ensures GroupValues(m, groups)[i] == values[i] {
      assert Selected(m, groups[i].1) == Among(m, groups[i].1);
    }
  }

  /** Split leaves the entries of no group, and has each group's entries as a mapping under
      its name. */
  lemma SplitDoes(env: Env, doc: Value, path: Text, m: map<Text, Value>, groups: seq<(Text, seq<Text>)>, values: seq<(Text, Value)>, r: map<Text, Value>)
    requires StrictPath(path) && At(env, doc, path) == Some(Obj(m)) && DistinctNames(groups)
    requires IsGrouped(m, groups, values) && IsFilled(NotAmong(m, Flatten(groups)), values, r)
    ensures var out, moved := Apply(env, doc, SplitOp(path, groups)), Flatten(groups);
      && (!NoRepeats(moved) ==> out == Err(INVALID_OP))
      && (NoRepeats(moved) && !AllIn(moved, m) ==> out == Err(PATH_NOT_FOUND))
      && (NoRepeats(moved) && AllIn(moved, m) && (exists i | 0 <= i < |groups| :: groups[i].0 in m && groups[i].0 !in moved) ==>
            out == Err(ALREADY_EXISTS))
      && (NoRepeats(moved) && AllIn(moved, m) && NewNames(m, groups) && AllAddress(env, path, moved)
          && NamesAddress(env, path, values) && AllUntouched(Segs(env, path), moved) ==>
            out.Ok? && Becomes(env.c, doc, Segs(env, path), Obj(r), out.doc))
  {
    hide StrictPath, Becomes, Segs, Addresses, Untouched, SetKeys, DeleteKeys, IsFilled, PutAll, IsGrouped;
    var moved := Flatten(groups);
    MappingDispatch(env, doc, SplitOp(path, groups));
    GroupedIs(m, groups, values);
    SameNames(m, groups, values);
    if NoRepeats(moved) && AllIn(moved, m) && NewNames(m, groups) && AllAddress(env, path, moved)
      && NamesAddress(env, path, values) && AllUntouched(Segs(env, path), moved) {
      SplitSets(env, doc, path, m, groups, INVALID_OP);
      assert Without(m, moved) == NotAmong(m, moved);
      PutAllFills(Without(m, moved), values, r);
      SetBecomes(env.c, doc, Segs(env, path), Obj(r));
    }
  }

  lemma SameNames(m: map<Text, Value>, groups: seq<(Text, seq<Text>)>, values: seq<(Text, Value)>)
    requires IsGrouped(m, groups, values) && DistinctNames(groups)
    ensures DistinctNames(values)
  {}

  /** Rename moves an entry to another key of its mapping. */
  lemma RenameDoes(env: Env, doc: Value, path: Text, front: seq<Segment>, m: map<Text, Value>, from: Text, to: Text)
    requires IsReady(path) && to != [] && Segs(env, path) == front + [Key(from)] && Resolve(env.c, doc, front) == Some(Obj(m))
    ensures var out := Apply(env, doc, Rename(path, to));
      && (from !in m ==> out == Err(PATH_NOT_FOUND))
      && (from in m && to in m ==> out == Err(ALREADY_EXISTS))
      && (from in m && to !in m ==> out.Ok? && Becomes(env.c, doc, front, Obj(Lacking(m, from)[to := m[from]]), out.doc))
  {
    hide StrictPath, Becomes, Segs;
    RenameOnly(env, doc, path, to);
    assert Front(front + [Key(from)]) == front;
    ResolveBelow(env.c, doc, front, from);
    if from in m && to !in m {
      LackingIs(m, from);
      ReplaceBecomes(env.c, doc, front, Obj(Renamed(m, from, to)));
    }
  }

  lemma RenameOnly(env: Env, doc: Value, path: Text, to: Text)
    requires IsReady(path) && to != []
    ensures Apply(env, doc, Rename(path, to)) == HandleRename(env, doc, path, to)
  {
    hide HandleRename, StrictPath;
  }

  /** Fold puts the one entry of the mapping in the mapping's own place. */
  lemma FoldDoes(env: Env, doc: Value, path: Text, front: seq<Segment>, m: map<Text, Value>, k: Text, child: Text, v: Value)
    requires IsReady(path) && Segs(env, path) == front + [Key(k)] && Resolve(env.c, doc, front) == Some(Obj(m))
    requires k in m && m[k] == Obj(map[child := v])
    ensures var out := Apply(env, doc, Fold(path));
      out.Ok? && Becomes(env.c, doc, front, Obj(Lacking(m, k)[child := v]), out.doc)
  {
    hide StrictPath, Becomes, Segs, HandleFold;
    assert Front(front + [Key(k)]) == front;
    OnlyKeyOf(child, v);
    FoldDispatch(env, doc, path);
    NativeFold(env, doc, path, m, k);
    LackingIs(m, k);
    SetBecomes(env.c, doc, front, Obj(FoldTarget(m, k)));
  }

  /** What is not there cannot be renamed or folded, only an entry of a mapping can be
      renamed, and only a mapping with one entry folded. */
  lemma RenameFoldRefuse(env: Env, doc: Value, path: Text, front: seq<Segment>, last: Segment, to: Text)
    requires IsReady(path) && Segs(env, path) == front + [last] && to != []
    ensures At(env, doc, path).None? ==> Apply(env, doc, Rename(path, to)) == Err(PATH_NOT_FOUND)
    ensures At(env, doc, path).Some? && !last.Key? ==> Apply(env, doc, Rename(path, to)) == Err(INVALID_PATH)
    ensures At(env, doc, path).None? ==> Apply(env, doc, Fold(path)) == Err(PATH_NOT_FOUND)
    ensures At(env, doc, path).Some? && (!At(env, doc, path).value.Obj? || |At(env, doc, path).value.m| != 1) ==>
      Apply(env, doc, Fold(path)) == Err(NOT_FOLDABLE)
  {
    hide StrictPath, Segs, Resolve;
    RenameOnly(env, doc, path, to);
    FoldDispatch(env, doc, path);
    assert (front + [last])[|front + [last]| - 1] == last;
  }

  // ---------------------------------------------------------------- clone and move

  /** Clone sets a copy where nothing was. */
  lemma CloneDoes(env: Env, doc: Value, from: Text, to: Text)
    requires IsReady(from) && IsReady(to)
    ensures var out, source := Apply(env, doc, Clone(from, to)), At(env, doc, from);
      && (source.None? ==> out == Err(PATH_NOT_FOUND))
      && (source.Some? && At(env, doc, to).Some? ==> out == Err(ALREADY_EXISTS))
      && (source.Some? && At(env, doc, to).None? ==>
            if out.Ok? then Becomes(env.c, doc, Segs(env, to), source.value, out.doc) && Set(env.c, doc, Segs(env, to), source.value) == Some(out.doc)
            else out == Err(INVALID_OP) && Set(env.c, doc, Segs(env, to), source.value).None?)
  {
    hide StrictPath, Becomes, Segs;
    CloneDispatch(env, doc, from, to);
    var source := At(env, doc, from);
    if source.Some? && Set(env.c, doc, Segs(env, to), source.value).Some? {
      SetBecomes(env.c, doc, Segs(env, to), source.value);
    }
  }

  lemma CloneDispatch(env: Env, doc: Value, from: Text, to: Text)
    requires IsReady(from) && IsReady(to)
    ensures Apply(env, doc, Clone(from, to)) == HandleClone(env, doc, from, to)
    ensures Apply(env, doc, Move(from, to)) == HandleMove(env, doc, from, to)
  {
    hide StrictPath, HandleClone, HandleMove;
  }

  /** Move is clone, then drop of the source, but for a target that is the source or below
      its path text. */
  lemma MoveDoes(env: Env, doc: Value, from: Text, to: Text)
    requires IsReady(from) && IsReady(to)
    ensures var out := Apply(env, doc, Move(from, to));
      && (to == from ==> out == Err(ALREADY_EXISTS))
      && (to != from && from + [SLASH] <= to ==> out == Err(INVALID_PATH))
      && (to != from && !(from + [SLASH] <= to) ==>
            var both := RunOps(env, doc, [Clone(from, to), Drop(from)]);
            if both.ok then out == Ok(both.doc) else out == Err(both.error.value))
  {
    hide StrictPath, Segs, Delete, Set, At;
    CloneDispatch(env, doc, from, to);
    var cloned := HandleClone(env, doc, from, to);
    assert [Clone(from, to), Drop(from)][1..] == [Drop(from)];
    if cloned.Ok? {
      DropDispatch(env, cloned.doc, from);
      RunOne(env, cloned.doc, Drop(from));
    }
  }

  // ---------------------------------------------------------------- assert

  /** What an assertion asks of the value found. */
  predicate IsAsserted(found: Option<Value>, equals: Option<Value>, exists': Option<bool>, kind: Option<Kind>) {
    && (exists'.Some? ==> if exists'.value then found.Some? else found.None?)
    && (equals.Some? ==> found == equals)
    && (kind.Some? ==>
          found.Some? &&
          match kind.value
          case Sequence => found.value.Arr?
          case Mapping => found.value.Obj?
          case Scalar => !found.value.Arr? && !found.value.Obj?)
  }

  /** Assert never changes the document, and fails exactly where one of its conditions
      does not hold of the value found. */
  lemma AssertDoes(env: Env, doc: Value, path: Text, equals: Option<Value>, exists': Option<bool>, kind: Option<Kind>)
    requires Lawful(env.c) && Finite(env.c, doc) && (equals.Some? ==> Finite(env.c, equals.value)) && IsReady(path)
    requires equals.Some? || exists'.Some? || kind.Some?
    ensures Apply(env, doc, Assert(path, equals, exists', kind)) ==
      if IsAsserted(At(env, doc, path), equals, exists', kind) then Ok(doc) else Err(ASSERTION_FAILED)
  {
    hide StrictPath, Segs, Resolve;
    var op := Assert(path, equals, exists', kind);
    AssertDispatch(env, doc, op);
    var found := At(env, doc, path);
    if found.Some? {
      FiniteResolve(env.c, doc, Segs(env, path));
      if equals.Some? {
        CanonicalTextIdentifiesValue(env.c, ByCodePoint, found.value, equals.value);
      }
    }
    assert HandleAssert(env, doc, op) == if IsAsserted(found, equals, exists', kind) then Ok(doc) else Err(ASSERTION_FAILED);
  }
}
