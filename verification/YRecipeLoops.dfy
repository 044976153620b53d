/** The mapping recipe compilers as the loops the source runs, against their recipes. */
module YRecipeLoops {
  import opened Text
  import opened Values
  import opened YOrder
  import opened YOps
  import opened YRecipes

  /** `assertMappingKeyList` */
  method KeyList(keys: seq<Text>, base: map<Text, Value>) returns (ok: bool, out: set<Text>)
    ensures ok <==> KeyListOk(keys, base)
    ensures ok ==> forall k :: k in out <==> k in keys
  {
    out := {};
    for i := 0 to |keys|
      invariant KeyListOk(keys[..i], base)
      invariant forall k :: k in out <==> k in keys[..i]
    {
      var key := keys[i];
      assert keys[..i + 1] == keys[..i] + [key];
      if Blank(key) || key in out || key !in base {
        NotKeyList(keys, base, i);
        return false, {};
      }
      out := out + {key};
    }
    assert keys[..|keys|] == keys;
    ok := true;
  }

  lemma NotKeyList(keys: seq<Text>, base: map<Text, Value>, i: nat)
    requires i < |keys| && (Blank(keys[i]) || keys[i] in keys[..i] || keys[i] !in base)
    ensures !KeyListOk(keys, base)
  {
    if keys[i] in keys[..i] {
      var j :| 0 <= j < i && keys[..i][j] == keys[i];
      assert keys[j] == keys[i];
    }
  }

  /** `for (const key of keys) target[key] = base[key]` */
  method Select(base: map<Text, Value>, keys: seq<Text>) returns (target: map<Text, Value>)
    requires AllIn(keys, base)
    ensures target == Selected(base, keys)
  {
    target := map[];
    for i := 0 to |keys|
      invariant target == Selected(base, keys[..i])
    {
      assert keys[..i + 1] == keys[..i] + [keys[i]];
      target := target[keys[i] := base[keys[i]]];
    }
    assert keys[..|keys|] == keys;
  }

  /** `for (const [key, value] of Object.entries(base)) if (!keys.has(key)) target[key] = value` */
  method Leftover(base: map<Text, Value>, keys: seq<Text>, out: set<Text>) returns (target: map<Text, Value>)
    requires forall k :: k in out <==> k in keys
    ensures target == Without(base, keys)
  {
    target := map[];
    var left := base.Keys;
    while left != {}
      invariant left <= base.Keys
      invariant target == map k | k in base && k !in left && k !in keys :: base[k]
      decreases |left|
    {
      var key :| key in left;
      if key !in out {
        target := target[key := base[key]];
      }
      left := left - {key};
    }
  }

  method CompilePick(env: Env, path: Text, base: Value, keys: seq<Text>) returns (r: Option<seq<Op>>)
    ensures r == PickRecipe(env, path, base, keys)
  {
    if Blank(path) || !base.Obj? {
      return None;
    }
    var ok, out := KeyList(keys, base.m);
    if !ok {
      return None;
    }
    var target := Select(base.m, keys);
    return Some(Replacement(env, path, base, Obj(target)));
  }

  method CompileOmit(path: Text, base: Value, keys: seq<Text>) returns (r: Option<seq<Op>>)
    ensures r == OmitRecipe(path, base, keys)
  {
    if Blank(path) || !base.Obj? {
      return None;
    }
    if keys == [] {
      return Some([]);
    }
    var ok, out := KeyList(keys, base.m);
    if !ok {
      return None;
    }
    var target := Leftover(base.m, keys, out);
    return Some([AssertEquals(path, base), SetOp(path, Obj(target))]);
  }

  method CompilePopulate(env: Env, path: Text, base: Value, values: seq<(Text, Value)>) returns (r: Option<seq<Op>>)
    ensures r == PopulateRecipe(env, path, base, values)
  {
    if Blank(path) || !base.Obj? {
      return None;
    }
    var target := base.m;
    for i := 0 to |values|
      invariant forall j | 0 <= j < i :: !Blank(values[j].0)
      invariant PutAll(base.m, values) == PutAll(target, values[i..])
    {
      if Blank(values[i].0) {
        return None;
      }
      assert values[i..][0] == values[i] && values[i..][1..] == values[i + 1..];
      target := target[values[i].0 := values[i].1];
    }
    return Some(Replacement(env, path, base, Obj(target)));
  }

  method CompileNest(env: Env, path: Text, base: Value, keys: seq<Text>, under: Text) returns (r: Option<seq<Op>>)
    ensures r == NestRecipe(env, path, base, keys, under)
  {
    if Blank(path) || Blank(under) || !base.Obj? {
      return None;
    }
    var ok, out := KeyList(keys, base.m);
    if !ok {
      return None;
    }
    if keys == [] {
      return Some([]);
    }
    if under in base.m && under !in out {
      return None;
    }
    var nested := Select(base.m, keys);
    var target := Leftover(base.m, keys, out);
    target := target[under := Obj(nested)];
    return Some(Replacement(env, path, base, Obj(target)));
  }

  /** The union of the mappings under the keys, later keys winning; None where one is not
      a mapping. */
  method MergeAll(base: map<Text, Value>, keys: seq<Text>) returns (merged: Option<map<Text, Value>>)
    requires AllIn(keys, base)
    ensures merged.Some? <==> AllMappings(base, keys)
    ensures merged.Some? ==> merged.value == Merged(base, keys)
  {
    var sofar: map<Text, Value> := map[];
    for i := 0 to |keys|
      invariant AllIn(keys[..i], base) && AllMappings(base, keys[..i]) && sofar == Merged(base, keys[..i])
    {
      assert keys[..i + 1][..i] == keys[..i];
      if !base[keys[i]].Obj? {
        return None;
      }
      sofar := sofar + base[keys[i]].m;
    }
    assert keys[..|keys|] == keys;
    return Some(sofar);
  }

  method CompileMerge(env: Env, path: Text, base: Value, keys: seq<Text>, into: Text) returns (r: Option<seq<Op>>)
    ensures r == MergeRecipe(env, path, base, keys, into)
  {
    if Blank(path) || Blank(into) || !base.Obj? {
      return None;
    }
    var ok, out := KeyList(keys, base.m);
    if !ok {
      return None;
    }
    var merged := MergeAll(base.m, keys);
    if merged.None? {
      return None;
    }
    var target := Leftover(base.m, keys, out);
    target := target[into := Obj(merged.value)];
    return Some(Replacement(env, path, base, Obj(target)));
  }

  method CompileSplit(env: Env, path: Text, base: Value, groups: seq<(Text, seq<Text>)>) returns (r: Option<seq<Op>>)
    ensures r == SplitRecipe(env, path, base, groups)
  {
    if Blank(path) || !base.Obj? {
      return None;
    }
    var moved := Flatten(groups);
    var ok, out := KeyList(moved, base.m);
    if !ok {
      return None;
    }
    for i := 0 to |groups|
      invariant forall j | 0 <= j < i :: !Blank(groups[j].0) && (groups[j].0 in base.m ==> groups[j].0 in moved)
    {
      if Blank(groups[i].0) || (groups[i].0 in base.m && groups[i].0 !in out) {
        return None;
      }
    }
    var target := Leftover(base.m, moved, out);
    ghost var values := GroupValues(base.m, groups);
    for i := 0 to |groups|
      invariant SplitTarget(base.m, groups) == PutAll(target, values[i..])
    {
      assert values[i..][0] == values[i] && values[i..][1..] == values[i + 1..];
      KeysOfGroup(groups, i, base.m);
      var group := Select(base.m, groups[i].1);
      target := target[groups[i].0 := Obj(group)];
    }
    return Some(Replacement(env, path, base, Obj(target)));
  }

  lemma {:induction false} KeysOfGroup(groups: seq<(Text, seq<Text>)>, i: nat, base: map<Text, Value>)
    requires i < |groups| && AllIn(Flatten(groups), base)
    ensures AllIn(groups[i].1, base)
    decreases |groups|
  {
    var rest := Flatten(groups[1..]);
    if i == 0 {
      forall j | 0 <= j < |groups[0].1| ensures groups[0].1[j] in base {
        assert Flatten(groups)[j] == groups[0].1[j];
      }
    } else {
      forall j | 0 <= j < |rest| ensures rest[j] in base {
        assert Flatten(groups)[|groups[0].1| + j] == rest[j];
      }
      KeysOfGroup(groups[1..], i - 1, base);
    }
  }
}
