/** The fold recipe always agrees with the native fold, match segments included. */
module YFold {
  import opened Text
  import opened Values
  import opened Grammar
  import opened YPath
  import opened YDoc
  import opened YOps
  import opened YRecipes
  import opened YFinite
  import opened YCompiler
  import opened YMappings

  /** A match never looks at a key under which there is a mapping. */
  lemma MappingIsUntouched(c: NumberCodec, doc: Value, segs: seq<Segment>, m: map<Text, Value>, k: Text)
    requires Resolve(c, doc, segs) == Some(Obj(m)) && k in m && m[k].Obj?
    ensures Untouched(segs, k)
  {
    ResolvedKeepsMatches(c, doc, segs);
  }

  /** Native fold is one set of the folded parent. */
  lemma NativeFold(env: Env, doc: Value, path: Text, m: map<Text, Value>, k: Text)
    requires Segs(env, path) != [] && Last(Segs(env, path)) == Some(k)
    requires Resolve(env.c, doc, Front(Segs(env, path))) == Some(Obj(m)) && k in m && m[k].Obj? && |m[k].m| == 1
    ensures Set(env.c, doc, Front(Segs(env, path)), Obj(FoldTarget(m, k))).Some?
    ensures HandleFold(env, doc, path) == Ok(Set(env.c, doc, Front(Segs(env, path)), Obj(FoldTarget(m, k))).value)
  {
    var segs, front := Segs(env, path), Front(Segs(env, path));
    var child := OnlyKey(m[k].m);
    var target := Obj(FoldTarget(m, k));
    assert segs == front + [Key(k)];
    ResolveBelow(env.c, doc, front, k);
    DeleteKeyIsSetMapping(env.c, doc, front, m, k);
    MappingIsUntouched(env.c, doc, front, m, k);
    MappingKeepsMatches(env.c, doc, front, m, m - {k});
    SetMappingAgain(env.c, doc, front, m, m - {k}, target);
    SetWhereResolved(env.c, doc, front, target);
    var d := Set(env.c, doc, front, Obj(m - {k})).value;
    SetKeyIsSetMapping(env.c, d, front, m - {k}, child, m[k].m[child]);
  }

  lemma {:induction false} ResolveBelow(c: NumberCodec, doc: Value, segs: seq<Segment>, k: Text)
    requires Resolve(c, doc, segs).Some?
    ensures Resolve(c, doc, segs + [Key(k)]) == Step(c, Resolve(c, doc, segs).value, Key(k))
    decreases |segs|
  {
    var path := segs + [Key(k)];
    if segs == [] {
      assert path == [Key(k)] && path[1..] == [];
    } else {
      assert path[0] == segs[0] && path[1..] == segs[1..] + [Key(k)];
      ResolveBelow(c, Step(c, doc, segs[0]).value, segs[1..], k);
    }
  }

  lemma FoldDispatch(env: Env, doc: Value, path: Text)
    ensures Apply(env, doc, Fold(path)).Ok? ==> path != [] && StrictPath(path)
    ensures path != [] && StrictPath(path) ==> Apply(env, doc, Fold(path)) == HandleFold(env, doc, path)
  {
    hide HandleFold, StrictPath;
  }

  /** A fold that overwrites a sibling: the child's key is the sibling's. */
  lemma FoldCanOverwrite(env: Env)
    ensures var doc := Obj(map[[0x61] := Obj(map[[0x62] := Null]), [0x62] := Bool(true)]);
      Apply(env, doc, Fold([0x61])) == Ok(Obj(map[[0x62] := Null]))
  {
    hide HandleFold, Apply, FoldTarget, StrictPath;
    var inner := map[[0x62] := Null];
    var m := map[[0x61] := Obj(inner), [0x62] := Bool(true)];
    assert [0x61][0] != [0x62][0];
    OneKeyPath(env, [0x61]);
    OnlyKeyOf([0x62], Null);
    NativeFold(env, Obj(m), [0x61], m, [0x61]);
    FoldDispatch(env, Obj(m), [0x61]);
    FoldedOne(m);
  }

  lemma OneKeyPath(env: Env, k: Text)
    requires GluesAsKey(k) && k != []
    ensures StrictPath(k) && Segs(env, k) == [Key(k)] && Front([Key(k)]) == []
  {
    ReadLastKey(k, []);
  }

  lemma FoldedOne(m: map<Text, Value>)
    requires m == map[[0x61] := Obj(map[[0x62] := Null]), [0x62] := Bool(true)] && [0x61] != [0x62]
    requires |map[[0x62] := Null]| == 1 && OnlyKey(map[[0x62] := Null]) == [0x62]
    ensures |m[[0x61]].m| == 1 && FoldTarget(m, [0x61]) == map[[0x62] := Null]
  {
    hide OnlyKey;
    assert m[[0x61]].m == map[[0x62] := Null];
  }

  /** Where the fold recipe compiles and the fold itself succeeds, the run-time comparison
      takes the recipe. */
  lemma FoldTakenExactly(env: Env, doc: Value, op: Op)
    requires Lawful(env.c) && Finite(env.c, doc) && op.Fold?
    ensures TakesRecipe(env, doc, op) <==> Apply(env, doc, op).Ok? && Expand(env, doc, op).Some?
  {
    if Apply(env, doc, op).Ok? && Expand(env, doc, op).Some? {
      var parentPath := ParentPath(env, op.path);
      var front := Front(Segs(env, op.path));
      ParentPathParses(env, op.path);
      FoldExpansion(env, doc, op);
      var m := At(env, doc, parentPath).value.m;
      var k := Last(Segs(env, op.path)).value;
      NativeFold(env, doc, op.path, m, k);
      FiniteResolve(env.c, doc, front);
      FiniteFoldTarget(env.c, m, k);
      ReplacementReachesTarget(env, doc, parentPath, Obj(m), Obj(FoldTarget(m, k)));
    }
  }

  lemma FoldExpansion(env: Env, doc: Value, op: Op)
    requires op.Fold? && Expand(env, doc, op).Some? && Apply(env, doc, op).Ok?
    requires TryParse(ParentPath(env, op.path)) == PathOk(Front(Segs(env, op.path)))
    ensures ParentPath(env, op.path) != [] && StrictPath(ParentPath(env, op.path)) && Apply(env, doc, op) == HandleFold(env, doc, op.path)
    ensures Segs(env, ParentPath(env, op.path)) == Front(Segs(env, op.path))
    ensures Last(Segs(env, op.path)).Some? && At(env, doc, ParentPath(env, op.path)).Some?
    ensures var parent := At(env, doc, ParentPath(env, op.path)).value; var k := Last(Segs(env, op.path)).value;
      && parent.Obj? && k in parent.m && parent.m[k].Obj? && |parent.m[k].m| == 1
      && Expand(env, doc, op) == Some(Replacement(env, ParentPath(env, op.path), parent, Obj(FoldTarget(parent.m, k))))
  {}

  lemma FiniteFoldTarget(c: NumberCodec, m: map<Text, Value>, k: Text)
    requires Finite(c, Obj(m)) && k in m && m[k].Obj? && |m[k].m| == 1
    ensures Finite(c, Obj(FoldTarget(m, k)))
  {}
}
