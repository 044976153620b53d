/** The mapping operations that rebuild paths as text - nest, merge, split, populate - as
    one set of a rebuilt mapping, and what the mapping recipes conserve. */
module YMappings {
  import opened Text
  import opened Values
  import opened Grammar
  import opened YPath
  import opened YDoc
  import opened YOrder
  import opened YOps
  import opened YRecipes
  import opened YFinite
  import opened YCompiler

  // ---------------------------------------------------------------- below a mapping

  /** Setting a key of a mapping is setting the mapping. */
  lemma {:induction false} SetKeyIsSetMapping(c: NumberCodec, doc: Value, segs: seq<Segment>, m: map<Text, Value>, k: Text, v: Value)
    requires Resolve(c, doc, segs) == Some(Obj(m))
    ensures Set(c, doc, segs + [Key(k)], v) == Set(c, doc, segs, Obj(m[k := v]))
    ensures Set(c, doc, segs, Obj(m[k := v])).Some?
    decreases |segs|
  {
    SetWhereResolved(c, doc, segs, Obj(m[k := v]));
    var path := segs + [Key(k)];
    if segs == [] {
      assert path == [Key(k)];
    } else {
      var child := Step(c, doc, segs[0]).value;
      assert path[0] == segs[0] && path[1..] == segs[1..] + [Key(k)];
      SetKeyIsSetMapping(c, child, segs[1..], m, k, v);
      if |segs| == 1 {
        assert segs[1..] == [];
      }
    }
  }

  /** Deleting a key of a mapping is setting the mapping without it. */
  lemma {:induction false} DeleteKeyIsSetMapping(c: NumberCodec, doc: Value, segs: seq<Segment>, m: map<Text, Value>, k: Text)
    requires Resolve(c, doc, segs) == Some(Obj(m)) && k in m
    ensures DeleteRecursive(c, doc, segs + [Key(k)]) == Set(c, doc, segs, Obj(m - {k}))
    ensures Delete(c, doc, segs + [Key(k)]) == Set(c, doc, segs, Obj(m - {k}))
    decreases |segs|
  {
    SetWhereResolved(c, doc, segs, Obj(m - {k}));
    var path := segs + [Key(k)];
    if segs == [] {
      assert path == [Key(k)];
      assert Step(c, doc, Key(k)) == Some(m[k]);
    } else {
      var child := Step(c, doc, segs[0]).value;
      assert path[0] == segs[0] && path[1..] == segs[1..] + [Key(k)];
      DeleteKeyIsSetMapping(c, child, segs[1..], m, k);
      if |segs| == 1 {
        assert segs[1..] == [];
      }
    }
    DeleteExactlyWhereResolved(c, doc, path);
  }

  // ---------------------------------------------------------------- a key glued to a path

  /** The key glued to the path as text addresses that key below the path. */
  predicate Addresses(env: Env, path: Text, k: Text) { Segs(env, KeyPath(path, k)) == Segs(env, path) + [Key(k)] }

  predicate AllAddress(env: Env, path: Text, keys: seq<Text>) { forall i | 0 <= i < |keys| :: Addresses(env, path, keys[i]) }

  predicate NamesAddress(env: Env, path: Text, values: seq<(Text, Value)>) {
    forall i | 0 <= i < |values| :: Addresses(env, path, values[i].0)
  }

  /** The path does not end in a match that looks at the key. */
  predicate Untouched(segs: seq<Segment>, k: Text) {
    segs != [] && segs[|segs| - 1].Match? ==> segs[|segs| - 1].key != k
  }

  predicate AllUntouched(segs: seq<Segment>, keys: seq<Text>) { forall i | 0 <= i < |keys| :: Untouched(segs, keys[i]) }

  predicate NamesUntouched(segs: seq<Segment>, values: seq<(Text, Value)>) {
    forall i | 0 <= i < |values| :: Untouched(segs, values[i].0)
  }

  /** A key that can stand for itself, glued with a slash to a strict path, addresses that
      key below the path exactly when the path does not end in glued text. */
  lemma KeyPathParses(env: Env, path: Text, k: Text)
    requires path != [] && StrictPath(path) && GluesAsKey(k)
    ensures StrictPath(KeyPath(path, k)) && KeyPath(path, k) != []
    ensures Addresses(env, path, k) <==> !EndsGlued(path)
  {
    ReadGlued(path, k, []);
    if EndsGlued(path) {
      assert |Segs(env, KeyPath(path, k))| == |Segs(env, path)|;
    }
  }

  /** A key glued to a path that ends in glued text lands beside the place the path leads
      to: populating `"a"b`, which reads as `ab` and an empty key, sets the entry in `ab`. */
  lemma GluedKeyLandsBeside(env: Env)
    ensures var path := [0x22, 0x61, 0x22, 0x62];
      var doc := Obj(map[[0x61, 0x62] := Obj(map[[] := Obj(map[])])]);
      && At(env, doc, path) == Some(Obj(map[]))
      && Apply(env, doc, Populate(path, [([0x63], Null)])) ==
           Ok(Obj(map[[0x61, 0x62] := Obj(map[[] := Obj(map[]), [0x63] := Null])]))
  {
    hide Apply, Set, StrictPath, KeyPath, Resolve, Segs;
    var path, ab := [QUOTE, 0x61, QUOTE, 0x62], [0x61, 0x62];
    var doc := Obj(map[ab := Obj(map[[] := Obj(map[])])]);
    var values := [([0x63], Null)];
    GluedPaths(env);
    BelowOneKey(env.c, ab, map[[] := Obj(map[])], [], Null);
    PopulateDispatch(env, doc, path, values);
    assert values[1..] == [];
    BelowOneKey(env.c, ab, map[[] := Obj(map[])], [0x63], Null);
  }

  lemma PopulateDispatch(env: Env, doc: Value, path: Text, values: seq<(Text, Value)>)
    requires path != [] && StrictPath(path) && At(env, doc, path).Some? && At(env, doc, path).value.Obj?
    ensures Apply(env, doc, Populate(path, values)) == SetKeys(env, doc, path, values, INVALID_PATH)
  {
    hide SetKeys, StrictPath, At;
  }

  lemma BelowOneKey(c: NumberCodec, key: Text, m: map<Text, Value>, k: Text, v: Value)
    ensures Set(c, Obj(map[key := Obj(m)]), [Key(key), Key(k)], v) == Some(Obj(map[key := Obj(m[k := v])]))
    ensures Resolve(c, Obj(map[key := Obj(m)]), [Key(key), Key(k)]) == if k in m then Some(m[k]) else None
  {
    assert [Key(key), Key(k)][1..] == [Key(k)] && [Key(k)][1..] == [];
    assert Resolve(c, Obj(m), [Key(k)]) == if k in m then Some(m[k]) else None;
    assert map[key := Obj(m)][key := Obj(m[k := v])] == map[key := Obj(m[k := v])];
  }

  lemma GluedPaths(env: Env)
    ensures var path := [QUOTE, 0x61, QUOTE, 0x62];
      && StrictPath(path) && Segs(env, path) == [Key([0x61, 0x62]), Key([])]
      && Segs(env, KeyPath(path, [0x63])) == [Key([0x61, 0x62]), Key([0x63])]
  {
    var path := [QUOTE, 0x61, QUOTE, 0x62];
    assert EscapeKey([0x61]) == [0x61];
    assert path == [QUOTE] + ([0x61] + ([QUOTE] + [0x62]));
    assert [0x61] + [0x62] == [0x61, 0x62];
    GluedTextAddsAnEmptyKey([0x61], [0x62]);
    assert path[1..] == [0x61, QUOTE, 0x62] && path[1..][1..] == [QUOTE, 0x62] && [QUOTE, 0x62][1..] == [0x62];
    assert ReadQuoted([QUOTE, 0x62], [0x61]) == QuotedOk([0x61], [0x62]);
    assert ReadQuoted(path[1..], []) == QuotedOk([0x61], [0x62]) by { assert [] + [0x61] == [0x61]; }
    assert Until(SLASH, [0x62]) == 1;
    assert EndsGlued(path);
    ReadGlued(path, [0x63], []);
  }

  // ---------------------------------------------------------------- one mapping set after another

  predicate KeepsTouched(segs: seq<Segment>, m: map<Text, Value>, m': map<Text, Value>) {
    forall key <- m :: Untouched(segs, key) || (key in m' && m'[key] == m[key])
  }

  /** Replacing a mapping keeps the matches while the entry a final match looks at stays. */
  lemma MappingKeepsMatches(c: NumberCodec, doc: Value, segs: seq<Segment>, m: map<Text, Value>, m': map<Text, Value>)
    requires Resolve(c, doc, segs) == Some(Obj(m))
    requires KeepsTouched(segs, m, m')
    ensures MatchesKept(c, segs, Obj(m'))
  {
    ResolvedKeepsMatches(c, doc, segs);
  }

  /** While the matches are kept the path still leads to the mapping that was set, and a
      further set there is a set in the first place. */
  lemma SetMappingAgain(c: NumberCodec, doc: Value, segs: seq<Segment>, m: map<Text, Value>, m': map<Text, Value>, w: Value)
    requires Resolve(c, doc, segs) == Some(Obj(m)) && MatchesKept(c, segs, Obj(m'))
    ensures Set(c, doc, segs, Obj(m')).Some? && Set(c, doc, segs, w).Some?
    ensures var d := Set(c, doc, segs, Obj(m')).value;
      Resolve(c, d, segs) == Some(Obj(m')) && Set(c, d, segs, w) == Set(c, doc, segs, w)
  {
    SetWhereResolved(c, doc, segs, Obj(m'));
    SetWhereResolved(c, doc, segs, w);
    SetAgain(c, doc, segs, Obj(m'), w);
  }

  // ---------------------------------------------------------------- handlers as one set

  lemma {:induction false} DeleteKeysIsSetMapping(env: Env, doc: Value, path: Text, m: map<Text, Value>, keys: seq<Text>)
    requires AllAddress(env, path, keys) && NoRepeats(keys) && AllIn(keys, m)
    requires At(env, doc, path) == Some(Obj(m)) && AllUntouched(Segs(env, path), keys)
    ensures Some(DeleteKeys(env, doc, path, keys)) == Set(env.c, doc, Segs(env, path), Obj(Without(m, keys)))
    decreases |keys|
  {
    var segs := Segs(env, path);
    if keys == [] {
      assert Without(m, keys) == m;
      SetOfGet(env.c, doc, segs);
    } else {
      var k, rest := keys[0], keys[1..];
      assert Addresses(env, path, k);
      DeleteKeyIsSetMapping(env.c, doc, segs, m, k);
      MappingKeepsMatches(env.c, doc, segs, m, m - {k});
      SetMappingAgain(env.c, doc, segs, m, m - {k}, Obj(Without(m, keys)));
      var d := Set(env.c, doc, segs, Obj(m - {k})).value;
      RestOfKeys(env, path, m, keys);
      assert AllUntouched(segs, rest);
      DeleteKeysIsSetMapping(env, d, path, m - {k}, rest);
      WithoutHead(m, keys);
    }
  }

  lemma RestOfKeys(env: Env, path: Text, m: map<Text, Value>, keys: seq<Text>)
    requires keys != [] && AllAddress(env, path, keys) && NoRepeats(keys) && AllIn(keys, m)
    ensures AllAddress(env, path, keys[1..]) && NoRepeats(keys[1..]) && AllIn(keys[1..], m - {keys[0]})
  {
    hide Addresses;
    assert forall i | 0 <= i < |keys[1..]| :: keys[1..][i] == keys[i + 1];
  }

  lemma WithoutHead(m: map<Text, Value>, keys: seq<Text>)
    requires keys != []
    ensures Without(m - {keys[0]}, keys[1..]) == Without(m, keys)
  {
    assert keys == [keys[0]] + keys[1..];
  }

  /** Set one by one, no entry before the last takes the match that ends the path off its
      item. */
  predicate EntriesKeepMatch(c: NumberCodec, segs: seq<Segment>, m: map<Text, Value>, values: seq<(Text, Value)>)
    decreases |values|
  {
    |values| > 1 ==>
      var m' := m[values[0].0 := values[0].1];
      MatchesKept(c, segs, Obj(m')) && EntriesKeepMatch(c, segs, m', values[1..])
  }

  lemma {:induction false} UntouchedKeepMatch(c: NumberCodec, segs: seq<Segment>, m: map<Text, Value>, values: seq<(Text, Value)>)
    requires MatchesKept(c, segs, Obj(m)) && NamesUntouched(segs, values)
    ensures EntriesKeepMatch(c, segs, m, values)
    decreases |values|
  {
    if |values| > 1 {
      UntouchedKeepMatch(c, segs, m[values[0].0 := values[0].1], values[1..]);
    }
  }

  lemma {:induction false} SetKeysIsSetMapping(env: Env, doc: Value, path: Text, m: map<Text, Value>, values: seq<(Text, Value)>, code: Code)
    requires NamesAddress(env, path, values) && EntriesKeepMatch(env.c, Segs(env, path), m, values)
    requires At(env, doc, path) == Some(Obj(m))
    ensures Set(env.c, doc, Segs(env, path), Obj(PutAll(m, values))).Some?
    ensures SetKeys(env, doc, path, values, code) == Ok(Set(env.c, doc, Segs(env, path), Obj(PutAll(m, values))).value)
    decreases |values|
  {
    var segs := Segs(env, path);
    SetWhereResolved(env.c, doc, segs, Obj(PutAll(m, values)));
    if values == [] {
      SetOfGet(env.c, doc, segs);
    } else {
      var k, v := values[0].0, values[0].1;
      assert Addresses(env, path, k);
      SetKeyIsSetMapping(env.c, doc, segs, m, k, v);
      if |values| > 1 {
        SetMappingAgain(env.c, doc, segs, m, m[k := v], Obj(PutAll(m, values)));
        var d := Set(env.c, doc, segs, Obj(m[k := v])).value;
        SetKeysIsSetMapping(env, d, path, m[k := v], values[1..], code);
      } else {
        assert values[1..] == [];
      }
    }
  }

  /** Removing keys and then setting others is one set of the resulting mapping. */
  lemma RebuildIsSetMapping(env: Env, doc: Value, path: Text, m: map<Text, Value>, keys: seq<Text>, values: seq<(Text, Value)>, code: Code)
    requires AllAddress(env, path, keys) && NoRepeats(keys) && AllIn(keys, m) && NamesAddress(env, path, values)
    requires At(env, doc, path) == Some(Obj(m)) && AllUntouched(Segs(env, path), keys)
    requires EntriesKeepMatch(env.c, Segs(env, path), Without(m, keys), values)
    ensures var target := Obj(PutAll(Without(m, keys), values));
      Set(env.c, doc, Segs(env, path), target).Some? &&
      SetKeys(env, DeleteKeys(env, doc, path, keys), path, values, code) == Ok(Set(env.c, doc, Segs(env, path), target).value)
  {
    var segs := Segs(env, path);
    DeleteKeysIsSetMapping(env, doc, path, m, keys);
    WithoutKeeps(segs, m, keys);
    MappingKeepsMatches(env.c, doc, segs, m, Without(m, keys));
    SetMappingAgain(env.c, doc, segs, m, Without(m, keys), Obj(PutAll(Without(m, keys), values)));
    var d := DeleteKeys(env, doc, path, keys);
    SetKeysIsSetMapping(env, d, path, Without(m, keys), values, code);
  }

  lemma WithoutKeeps(segs: seq<Segment>, m: map<Text, Value>, keys: seq<Text>)
    requires AllUntouched(segs, keys)
    ensures KeepsTouched(segs, m, Without(m, keys))
  {
    hide Untouched;
  }

  lemma SetOrIsSetKeys(env: Env, doc: Value, path: Text, k: Text, v: Value, code: Code)
    ensures SetOr(env, doc, Segs(env, KeyPath(path, k)), v, code) == SetKeys(env, doc, path, [(k, v)], code)
    ensures forall m :: PutAll(m, [(k, v)]) == m[k := v]
  {
    assert [(k, v)][1..] == [];
  }

  // ---------------------------------------------------------------- conservation

  /** Picking and omitting the same keys share the mapping out between them. */
  lemma PickOmitComplementary(m: map<Text, Value>, keys: seq<Text>)
    ensures Selected(m, keys).Keys !! Without(m, keys).Keys
    ensures Selected(m, keys) + Without(m, keys) == m
  {}

  /** A rename to a new key is undone by the reverse rename. */
  lemma RenameUndone(m: map<Text, Value>, from: Text, to: Text)
    requires from in m && to !in m
    ensures from !in Renamed(m, from, to) && to in Renamed(m, from, to)
    ensures Renamed(Renamed(m, from, to), to, from) == m
  {}

  /** Nesting one key and folding the wrapper restores the mapping. */
  lemma NestThenFold(m: map<Text, Value>, k: Text, under: Text)
    requires k in m && (under in m ==> under == k)
    ensures var nested := NestTarget(m, [k], under);
      && nested[under].Obj? && |nested[under].m| == 1 && FoldTarget(nested, under) == m
  {
    SelectedOne(m, k);
    OnlyKeyOf(k, m[k]);
    assert Without(m, [k]) == m - {k};
    WrapThenUnwrap(m, k, under);
  }

  lemma WrapThenUnwrap(m: map<Text, Value>, k: Text, under: Text)
    requires k in m && (under in m ==> under == k)
    ensures ((m - {k})[under := Obj(map[k := m[k]])] - {under})[k := m[k]] == m
  {
    assert (m - {k})[under := Obj(map[k := m[k]])] - {under} == m - {k};
  }

  lemma SelectedOne(m: map<Text, Value>, k: Text)
    requires k in m
    ensures Selected(m, [k]) == map[k := m[k]]
  {}

  lemma OnlyKeyOf(k: Text, v: Value)
    ensures |map[k := v]| == 1 && OnlyKey(map[k := v]) == k
  {
    assert OnlyKey(map[k := v]) in map[k := v];
  }

  /** Folding loses nothing - nesting the child again restores the parent - exactly when
      the child's key is not the key of another sibling, which folding would overwrite. */
  lemma FoldThenNest(m: map<Text, Value>, k: Text)
    requires k in m && m[k].Obj? && |m[k].m| == 1
    ensures var child := OnlyKey(m[k].m);
      NestTarget(FoldTarget(m, k), [child], k) == m <==> (child in m ==> child == k)
  {
    var child := OnlyKey(m[k].m);
    var folded := FoldTarget(m, k);
    var again := NestTarget(folded, [child], k);
    assert m[k].m == map[child := m[k].m[child]];
    assert Selected(folded, [child]) == map[child := m[k].m[child]];
    assert again[k] == m[k];
    assert child != k ==> child !in again;
  }

  // ---------------------------------------------------------------- merge

  /** How many entries the merged mappings hold between them. */
  function EntriesUnder(m: map<Text, Value>, keys: seq<Text>): nat
    requires AllIn(keys, m) && AllMappings(m, keys)
  {
    if keys == [] then 0
    else
      var n := |keys| - 1;
      assert AllIn(keys[..n], m) && AllMappings(m, keys[..n]);
      EntriesUnder(m, keys[..n]) + |m[keys[n]].m|
  }

  predicate KeysApart(m: map<Text, Value>, keys: seq<Text>)
    requires AllIn(keys, m) && AllMappings(m, keys)
  {
    forall i, j | 0 <= i < j < |keys| :: m[keys[i]].m.Keys !! m[keys[j]].m.Keys
  }

  lemma UnionSize(a: map<Text, Value>, b: map<Text, Value>)
    ensures |a + b| <= |a| + |b|
    ensures |a + b| == |a| + |b| <==> a.Keys !! b.Keys
  {
    assert (a + b).Keys == a.Keys + b.Keys;
    assert |a.Keys + b.Keys| == |a.Keys| + |b.Keys| - |a.Keys * b.Keys|;
  }

  /** The merged keys are the keys of the merged mappings. */
  lemma {:induction false} MergedKeys(m: map<Text, Value>, keys: seq<Text>)
    requires AllIn(keys, m) && AllMappings(m, keys)
    ensures forall k :: k in Merged(m, keys) <==> exists i | 0 <= i < |keys| :: k in m[keys[i]].m
    decreases |keys|
  {
    if keys != [] {
      var n := |keys| - 1;
      var front := keys[..n];
      assert forall i | 0 <= i < n :: front[i] == keys[i];
      MergedKeys(m, front);
    }
  }

  lemma {:induction false} MergedSize(m: map<Text, Value>, keys: seq<Text>)
    requires AllIn(keys, m) && AllMappings(m, keys)
    ensures |Merged(m, keys)| <= EntriesUnder(m, keys)
    ensures |Merged(m, keys)| == EntriesUnder(m, keys) <==> KeysApart(m, keys)
    decreases |keys|
  {
    if keys != [] {
      var n := |keys| - 1;
      var front, last := keys[..n], m[keys[n]].m;
      assert forall i | 0 <= i < n :: front[i] == keys[i];
      MergedSize(m, front);
      MergedKeys(m, front);
      UnionSize(Merged(m, front), last);
      ApartFromLast(m, keys);
    }
  }

  lemma ApartFromLast(m: map<Text, Value>, keys: seq<Text>)
    requires keys != [] && AllIn(keys, m) && AllMappings(m, keys)
    ensures var n := |keys| - 1;
      AllIn(keys[..n], m) && AllMappings(m, keys[..n]) &&
      (KeysApart(m, keys) <==> KeysApart(m, keys[..n]) && Merged(m, keys[..n]).Keys !! m[keys[n]].m.Keys)
  {
    var n := |keys| - 1;
    var front, last := keys[..n], m[keys[n]].m;
    assert forall i | 0 <= i < n :: front[i] == keys[i];
    MergedKeys(m, front);
    if KeysApart(m, keys) {
      forall k | k in Merged(m, front) ensures k !in last {
        var i :| 0 <= i < n && k in m[front[i]].m;
        assert m[keys[i]].m.Keys !! m[keys[n]].m.Keys;
      }
      forall i, j | 0 <= i < j < n ensures m[front[i]].m.Keys !! m[front[j]].m.Keys {
        assert m[keys[i]].m.Keys !! m[keys[j]].m.Keys;
      }
    }
    if KeysApart(m, front) && Merged(m, front).Keys !! last.Keys {
      forall i, j | 0 <= i < j < |keys| ensures m[keys[i]].m.Keys !! m[keys[j]].m.Keys {
        if j < n {
          assert m[front[i]].m.Keys !! m[front[j]].m.Keys;
        } else {
          forall k | k in m[keys[i]].m.Keys ensures k !in last {
            assert k in m[front[i]].m;
          }
        }
      }
    }
  }

  /** Where no two merged mappings share a key, every entry keeps its value. */
  lemma {:induction false} MergedHolds(m: map<Text, Value>, keys: seq<Text>, i: nat, k: Text)
    requires AllIn(keys, m) && AllMappings(m, keys) && KeysApart(m, keys) && i < |keys| && k in m[keys[i]].m
    ensures k in Merged(m, keys) && Merged(m, keys)[k] == m[keys[i]].m[k]
    decreases |keys|
  {
    var n := |keys| - 1;
    var front := keys[..n];
    assert forall j | 0 <= j < n :: front[j] == keys[j];
    ApartFromLast(m, keys);
    if i < n {
      MergedHolds(m, front, i, k);
      assert m[keys[i]].m.Keys !! m[keys[n]].m.Keys;
    }
  }

  lemma OneMoreEntry(left: map<Text, Value>, k: Text, v: Value)
    ensures |left[k := v]| == |left| + if k in left then 0 else 1
  {
    assert left[k := v].Keys == left.Keys + {k};
  }

  /** No leftover has the key `into`, and no two merged mappings share a key. */
  predicate NothingOverwritten(m: map<Text, Value>, keys: seq<Text>, into: Text)
    requires AllIn(keys, m) && AllMappings(m, keys)
  {
    into !in Without(m, keys) && KeysApart(m, keys)
  }

  /** The entries that are left after a merge, beside and below `into`. */
  function EntriesAfterMerge(m: map<Text, Value>, keys: seq<Text>, into: Text): int
    requires AllIn(keys, m) && AllMappings(m, keys)
  {
    var t := MergeTarget(m, keys, into);
    |t| - 1 + |t[into].m|
  }

  /** Merge keeps as many entries as it was given - leftovers and entries of the merged
      mappings - exactly when nothing is overwritten. */
  lemma MergeConserves(m: map<Text, Value>, keys: seq<Text>, into: Text)
    requires AllIn(keys, m) && AllMappings(m, keys)
    ensures EntriesAfterMerge(m, keys, into) <= |Without(m, keys)| + EntriesUnder(m, keys)
    ensures NothingOverwritten(m, keys, into) <==>
      EntriesAfterMerge(m, keys, into) == |Without(m, keys)| + EntriesUnder(m, keys)
  {
    hide Merged, KeysApart, EntriesUnder;
    MergedSize(m, keys);
    OneMoreEntry(Without(m, keys), into, Obj(Merged(m, keys)));
  }

  /** Then every leftover stays as it was and every merged entry keeps its value. */
  lemma MergeHolds(m: map<Text, Value>, keys: seq<Text>, into: Text)
    requires AllIn(keys, m) && AllMappings(m, keys) && NothingOverwritten(m, keys, into)
    ensures var t := MergeTarget(m, keys, into);
      && (forall k <- Without(m, keys) :: k in t && t[k] == m[k])
      && (forall i, k | 0 <= i < |keys| && k in m[keys[i]].m :: k in t[into].m && t[into].m[k] == m[keys[i]].m[k])
  {
    hide Merged, KeysApart;
    forall i, k | 0 <= i < |keys| && k in m[keys[i]].m
      ensures k in Merged(m, keys) && Merged(m, keys)[k] == m[keys[i]].m[k]
    {
      MergedHolds(m, keys, i, k);
    }
  }

  // ---------------------------------------------------------------- split

  /** The entries of every group, taken out of the groups again. */
  function Gather(groups: seq<(Text, Value)>): map<Text, Value>
    requires forall i | 0 <= i < |groups| :: groups[i].1.Obj?
    decreases |groups|
  {
    if groups == [] then map[] else groups[0].1.m + Gather(groups[1..])
  }

  lemma {:induction false} GatherIsSelected(m: map<Text, Value>, groups: seq<(Text, seq<Text>)>)
    ensures Gather(GroupValues(m, groups)) == Selected(m, Flatten(groups))
    decreases |groups|
  {
    if groups != [] {
      GatherIsSelected(m, groups[1..]);
      assert GroupValues(m, groups)[1..] == GroupValues(m, groups[1..]);
    }
  }

  /** Split shares the base out: the leftovers and the groups' contents are disjoint and
      together are the base. */
  lemma SplitPartitions(m: map<Text, Value>, groups: seq<(Text, seq<Text>)>)
    ensures Without(m, Flatten(groups)).Keys !! Gather(GroupValues(m, groups)).Keys
    ensures Without(m, Flatten(groups)) + Gather(GroupValues(m, groups)) == m
  {
    GatherIsSelected(m, groups);
  }

  lemma {:induction false} PutAllKeeps(m: map<Text, Value>, values: seq<(Text, Value)>, k: Text)
    requires forall i | 0 <= i < |values| :: values[i].0 != k
    ensures k in PutAll(m, values) <==> k in m
    ensures k in m ==> PutAll(m, values)[k] == m[k]
    decreases |values|
  {
    if values != [] {
      PutAllKeeps(m[values[0].0 := values[0].1], values[1..], k);
    }
  }

  /** The split target holds each leftover where it was and each group under its name. */
  lemma {:induction false} SplitTargetHolds(m: map<Text, Value>, groups: seq<(Text, seq<Text>)>)
    requires forall i, j | 0 <= i < j < |groups| :: groups[i].0 != groups[j].0
    requires forall i | 0 <= i < |groups| :: groups[i].0 in m ==> groups[i].0 in Flatten(groups)
    ensures var t := SplitTarget(m, groups);
      && (forall k <- Without(m, Flatten(groups)) :: k in t && t[k] == m[k])
      && (forall i | 0 <= i < |groups| :: groups[i].0 in t && t[groups[i].0] == Obj(Selected(m, groups[i].1)))
  {
    var values := GroupValues(m, groups);
    forall k | k in Without(m, Flatten(groups)) ensures k in SplitTarget(m, groups) && SplitTarget(m, groups)[k] == m[k] {
      PutAllKeeps(Without(m, Flatten(groups)), values, k);
    }
    forall i | 0 <= i < |groups|
      ensures groups[i].0 in SplitTarget(m, groups) && SplitTarget(m, groups)[groups[i].0] == values[i].1
    {
      PutAllHolds(Without(m, Flatten(groups)), values, i);
    }
  }

  lemma {:induction false} PutAllHolds(m: map<Text, Value>, values: seq<(Text, Value)>, i: nat)
    requires i < |values| && forall a, b | 0 <= a < b < |values| :: values[a].0 != values[b].0
    ensures values[i].0 in PutAll(m, values) && PutAll(m, values)[values[i].0] == values[i].1
    decreases |values|
  {
    var m' := m[values[0].0 := values[0].1];
    var rest := values[1..];
    assert forall a | 0 <= a < |rest| :: rest[a] == values[a + 1];
    if i == 0 {
      PutAllKeeps(m', rest, values[0].0);
    } else {
      PutAllHolds(m', rest, i - 1);
    }
  }
}
