/** The primitive-profile compiler preserves meaning, and which recipes it takes. */
module YCompiler {
  import opened Text
  import opened Values
  import opened Grammar
  import opened Canonical
  import opened YPath
  import opened YDoc
  import opened YOrder
  import opened YOps
  import opened YRecipes
  import opened YFinite

  predicate Primitive(op: Op) { op.Assert? || op.SetOp? || op.Unset? }

  predicate AllPrimitive(ops: seq<Op>) { forall i | 0 <= i < |ops| :: Primitive(ops[i]) }

  // ---------------------------------------------------------------- meaning preserved

  /** Recipes emit nothing but `assert`, `set` and `unset`. */
  lemma ExpandsToPrimitives(env: Env, base: Value, op: Op)
    requires Expand(env, base, op).Some?
    ensures AllPrimitive(Expand(env, base, op).value)
  {
    if OnSequence(op) || OnMapping(op) {
      ExpandsAtToPrimitives(env, base, op);
    }
  }

  lemma ExpandsAtToPrimitives(env: Env, base: Value, op: Op)
    requires (OnSequence(op) || OnMapping(op)) && ExpandAt(env, base, op).Some?
    ensures AllPrimitive(ExpandAt(env, base, op).value)
  {
    assert forall path, v, target :: AllPrimitive(Replacement(env, path, v, target));
  }

  lemma TakenRecipeAgrees(env: Env, current: Value, op: Op)
    requires Lawful(env.c) && Finite(env.c, current) && OpFinite(env.c, op) && TakesRecipe(env, current, op)
    ensures RunOps(env, current, Expand(env, current, op).value).doc == Apply(env, current, op).doc
  {
    FiniteApply(env, current, op);
    FiniteExpand(env, current, op);
    FiniteRun(env, current, Expand(env, current, op).value);
    CanonicalTextIdentifiesValue(env.c, ByCodePoint,
      RunOps(env, current, Expand(env, current, op).value).doc, Apply(env, current, op).doc);
  }

  /** For every base and every operation list, the compiled list and the native list both
      succeed with the same document, or both fail with the same error and the base. */
  lemma {:induction false} CompilePreservesMeaning(env: Env, base: Value, ops: seq<Op>)
    requires Lawful(env.c) && Finite(env.c, base) && OpsFinite(env.c, ops)
    ensures var native := RunOps(env, base, ops);
      var compiled := RunOps(env, base, Compile(env, base, ops).operations);
      compiled.ok == native.ok && compiled.doc == native.doc && compiled.error == native.error
    decreases |ops|
  {
    if ops != [] && Apply(env, base, ops[0]).Ok? {
      var d := Apply(env, base, ops[0]).doc;
      FiniteApply(env, base, ops[0]);
      CompilePreservesMeaning(env, d, ops[1..]);
      var rest := Compile(env, d, ops[1..]).operations;
      if TakesRecipe(env, base, ops[0]) {
        TakenRecipeAgrees(env, base, ops[0]);
        RunAppend(env, base, Expand(env, base, ops[0]).value, rest);
      } else {
        RunOne(env, base, ops[0]);
        RunAppend(env, base, [ops[0]], rest);
      }
    }
  }

  /** Each operation is either expanded, into primitives only, or retained; none is lost. */
  lemma {:induction false} ExpandedOrRetained(env: Env, base: Value, ops: seq<Op>)
    ensures var r := Compile(env, base, ops);
      && |r.expansions| + |r.retained| == |ops|
      && (forall i | 0 <= i < |r.expansions| :: AllPrimitive(r.expansions[i]))
      && (forall i | 0 <= i < |r.operations| :: Primitive(r.operations[i]) || r.operations[i] in r.retained)
    decreases |ops|
  {
    if ops != [] && Apply(env, base, ops[0]).Ok? {
      ExpandedOrRetained(env, Apply(env, base, ops[0]).doc, ops[1..]);
      if TakesRecipe(env, base, ops[0]) {
        ExpandsToPrimitives(env, base, ops[0]);
      }
    }
  }

  lemma CompileCons(env: Env, base: Value, op: Op, d: Value, rest: seq<Op>)
    requires Apply(env, base, op) == Ok(d) && !TakesRecipe(env, base, op)
    ensures var r := Compile(env, d, rest);
      Compile(env, base, [op] + rest) == Compiled(r.expansions, [op] + r.operations, [op] + r.retained)
  {
    assert ([op] + rest)[1..] == rest;
  }

  lemma PrimitivesAreRetained(env: Env, base: Value, op: Op)
    requires Primitive(op)
    ensures !TakesRecipe(env, base, op)
  {}

  lemma RunCons(env: Env, base: Value, op: Op, rest: seq<Op>)
    requires RunOps(env, base, [op] + rest).ok
    ensures Apply(env, base, op).Ok?
    ensures var d := Apply(env, base, op).doc;
      RunOps(env, d, rest).ok && RunOps(env, d, rest).doc == RunOps(env, base, [op] + rest).doc
  {
    assert ([op] + rest)[1..] == rest;
  }

  /** What compiling `xs + ys` gives when `xs` is kept as it is. */
  ghost predicate Keeps(env: Env, base: Value, xs: seq<Op>, ys: seq<Op>) {
    Compile(env, base, xs + ys).operations == xs + Compile(env, RunOps(env, base, xs).doc, ys).operations
  }

  lemma KeepsNone(env: Env, base: Value, ys: seq<Op>)
    ensures Keeps(env, base, [], ys)
  {
    assert [] + ys == ys;
  }

  lemma KeepsOneMore(env: Env, base: Value, head: Op, tail: seq<Op>, ys: seq<Op>)
    requires Primitive(head) && RunOps(env, base, [head] + tail).ok && Apply(env, base, head).Ok?
    requires Keeps(env, Apply(env, base, head).doc, tail, ys)
    ensures Keeps(env, base, [head] + tail, ys)
  {
    hide TakesRecipe, Expand, Apply, RunOps, Compile;
    RunCons(env, base, head, tail);
    PrimitivesAreRetained(env, base, head);
    CompileCons(env, base, head, Apply(env, base, head).doc, tail + ys);
    assert [head] + tail + ys == [head] + (tail + ys);
    var kept := Compile(env, RunOps(env, base, [head] + tail).doc, ys).operations;
    assert [head] + (tail + kept) == [head] + tail + kept;
  }

  lemma {:induction false} CompileKeepsPrimitives(env: Env, base: Value, xs: seq<Op>, ys: seq<Op>)
    requires AllPrimitive(xs) && RunOps(env, base, xs).ok
    ensures Keeps(env, base, xs, ys)
    decreases |xs|
  {
    if xs == [] {
      KeepsNone(env, base, ys);
    } else {
      assert xs == [xs[0]] + xs[1..];
      RunCons(env, base, xs[0], xs[1..]);
      CompileKeepsPrimitives(env, Apply(env, base, xs[0]).doc, xs[1..], ys);
      KeepsOneMore(env, base, xs[0], xs[1..], ys);
    }
  }

  /** Compiling a compiled list again changes nothing. */
  lemma {:induction false} CompileIsIdempotent(env: Env, base: Value, ops: seq<Op>)
    requires Lawful(env.c) && Finite(env.c, base) && OpsFinite(env.c, ops)
    ensures Compile(env, base, Compile(env, base, ops).operations).operations == Compile(env, base, ops).operations
    decreases |ops|
  {
    if ops != [] && Apply(env, base, ops[0]).Ok? {
      var d := Apply(env, base, ops[0]).doc;
      FiniteApply(env, base, ops[0]);
      CompileIsIdempotent(env, d, ops[1..]);
      var rest := Compile(env, d, ops[1..]).operations;
      if TakesRecipe(env, base, ops[0]) {
        TakenRecipeAgrees(env, base, ops[0]);
        ExpandsToPrimitives(env, base, ops[0]);
        CompileKeepsPrimitives(env, base, Expand(env, base, ops[0]).value, rest);
      } else {
        CompileCons(env, base, ops[0], d, rest);
      }
    }
  }

  // ---------------------------------------------------------------- assert, then set

  lemma SetWhereResolved(c: NumberCodec, doc: Value, segs: seq<Segment>, v: Value)
    requires Resolve(c, doc, segs).Some?
    ensures Set(c, doc, segs, v).Some?
  {
    SetOfGet(c, doc, segs);
    SetIsTotalOnKind(c, doc, segs, v, Resolve(c, doc, segs).value);
  }

  lemma AssertApplies(env: Env, doc: Value, path: Text, base: Value)
    requires Lawful(env.c) && Finite(env.c, doc) && Finite(env.c, base) && path != [] && StrictPath(path)
    ensures Apply(env, doc, AssertEquals(path, base)) ==
      if At(env, doc, path) == Some(base) then Ok(doc) else Err(ASSERTION_FAILED)
  {
    hide Resolve;
    AssertDispatch(env, doc, AssertEquals(path, base));
    if At(env, doc, path).Some? {
      FiniteResolve(env.c, doc, Segs(env, path));
      CanonicalTextIdentifiesValue(env.c, ByCodePoint, At(env, doc, path).value, base);
    }
  }

  lemma AssertDispatch(env: Env, doc: Value, op: Op)
    requires op.Assert? && SchemaOk(op) && StrictPath(op.path)
    ensures Apply(env, doc, op) == HandleAssert(env, doc, op)
  {
    hide HandleAssert, StrictPath;
  }

  /** The emitted pair runs exactly when the value at the path is the recorded base, and
      then sets the target there. */
  lemma AssertThenSet(env: Env, doc: Value, path: Text, base: Value, target: Value)
    requires Lawful(env.c) && Finite(env.c, doc) && Finite(env.c, base) && path != [] && StrictPath(path)
    ensures var r := RunOps(env, doc, [AssertEquals(path, base), SetOp(path, target)]);
      && (r.ok <==> At(env, doc, path) == Some(base))
      && (r.ok ==> Some(r.doc) == Set(env.c, doc, Segs(env, path), target))
      && (!r.ok ==> r.error == Some(ASSERTION_FAILED) && r.doc == doc)
  {
    AssertApplies(env, doc, path, base);
    var ops := [AssertEquals(path, base), SetOp(path, target)];
    assert ops[1..] == [SetOp(path, target)];
    RunOne(env, doc, SetOp(path, target));
    if At(env, doc, path) == Some(base) {
      SetWhereResolved(env.c, doc, Segs(env, path), target);
    }
  }

  /** Nothing else changes: every match-free path that parts from the place the recipe
      writes reads as before. */
  lemma AssertThenSetElsewhere(env: Env, doc: Value, path: Text, base: Value, target: Value, q: seq<Segment>)
    requires Lawful(env.c) && Finite(env.c, doc) && Finite(env.c, base) && path != [] && StrictPath(path)
    requires RunOps(env, doc, [AssertEquals(path, base), SetOp(path, target)]).ok
    requires MatchFree(q) && Diverge(Concretize(env.c, doc, Segs(env, path)), q)
    ensures Resolve(env.c, RunOps(env, doc, [AssertEquals(path, base), SetOp(path, target)]).doc, q)
      == Resolve(env.c, doc, q)
  {
    var segs := Segs(env, path);
    AssertThenSet(env, doc, path, base, target);
    ConcretizeSame(env.c, doc, segs, target);
    ConcretizedIsMatchFree(env.c, doc, segs, target);
    SetElsewhere(env.c, doc, Concretize(env.c, doc, segs), q, target);
  }

  lemma ReplacementReachesTarget(env: Env, doc: Value, path: Text, base: Value, target: Value)
    requires Lawful(env.c) && Finite(env.c, doc) && Finite(env.c, base) && Finite(env.c, target)
    requires path != [] && StrictPath(path) && At(env, doc, path) == Some(base)
    ensures var r := RunOps(env, doc, Replacement(env, path, base, target));
      r.ok && Set(env.c, doc, Segs(env, path), target) == Some(r.doc)
  {
    AssertThenSet(env, doc, path, base, target);
    CanonicalTextIdentifiesValue(env.c, ByCodePoint, base, target);
    if base == target {
      SetOfGet(env.c, doc, Segs(env, path));
    }
  }

  // ---------------------------------------------------------------- recipes the check never rejects

  predicate AlwaysAgrees(op: Op) {
    op.Append? || op.Sort? || op.UniqueOp? || op.Pick? || op.Omit? || op.Clone? || op.Rename?
  }

  lemma SequenceRecipeTaken(env: Env, doc: Value, op: Op)
    requires Lawful(env.c) && Finite(env.c, doc) && OpFinite(env.c, op) && OnSequence(op)
    requires Apply(env, doc, op).Ok? && Expand(env, doc, op).Some?
    ensures TakesRecipe(env, doc, op)
  {
    var v := At(env, doc, op.path).value;
    FiniteResolve(env.c, doc, Segs(env, op.path));
    match op {
      case Append(path, item) => AssertThenSet(env, doc, path, v, Arr(v.items + [item]));
      case Sort(path, field, desc) =>
        FiniteSorted(Sorting(env.c, field, desc), v.items);
        ReplacementReachesTarget(env, doc, path, v, Arr(StableSort(Sorting(env.c, field, desc), v.items)));
      case UniqueOp(path, field) =>
        FiniteUnique(env.c, field, v.items, |v.items|);
        ReplacementReachesTarget(env, doc, path, v, Arr(Unique(env.c, field, v.items)));
    }
  }

  lemma PickTaken(env: Env, doc: Value, op: Op)
    requires Lawful(env.c) && Finite(env.c, doc) && op.Pick?
    requires Apply(env, doc, op).Ok? && Expand(env, doc, op).Some?
    ensures TakesRecipe(env, doc, op)
  {
    var v := At(env, doc, op.path).value;
    FiniteResolve(env.c, doc, Segs(env, op.path));
    FiniteParts(env.c, v.m, op.keys);
    ReplacementReachesTarget(env, doc, op.path, v, Obj(Selected(v.m, op.keys)));
  }

  lemma OmitTaken(env: Env, doc: Value, op: Op)
    requires Lawful(env.c) && Finite(env.c, doc) && op.Omit?
    requires Apply(env, doc, op).Ok? && Expand(env, doc, op).Some?
    ensures TakesRecipe(env, doc, op)
  {
    var v := At(env, doc, op.path).value;
    FiniteResolve(env.c, doc, Segs(env, op.path));
    if op.keys == [] {
      assert Without(v.m, []) == v.m;
      SetOfGet(env.c, doc, Segs(env, op.path));
    } else {
      FiniteParts(env.c, v.m, op.keys);
      AssertThenSet(env, doc, op.path, v, Obj(Without(v.m, op.keys)));
    }
  }

  lemma CloneRuns(env: Env, doc: Value, from: Text, to: Text, source: Value)
    requires Lawful(env.c) && Finite(env.c, doc) && from != [] && to != [] && StrictPath(from) && StrictPath(to)
    requires At(env, doc, from) == Some(source) && At(env, doc, to).None?
    requires Set(env.c, doc, Segs(env, to), source).Some?
    ensures RunOps(env, doc, [AssertEquals(from, source), AssertAbsent(to), SetOp(to, source)])
      == Run(true, Set(env.c, doc, Segs(env, to), source).value, 3, None)
  {
    FiniteResolve(env.c, doc, Segs(env, from));
    AssertApplies(env, doc, from, source);
    AssertDispatch(env, doc, AssertAbsent(to));
    SetDispatch(env, doc, to, source);
    RunThree(env, doc, AssertEquals(from, source), AssertAbsent(to), SetOp(to, source),
      Set(env.c, doc, Segs(env, to), source).value);
  }

  lemma SetDispatch(env: Env, doc: Value, path: Text, v: Value)
    requires path != [] && StrictPath(path)
    ensures Apply(env, doc, SetOp(path, v)) == SetOr(env, doc, Segs(env, path), v, INVALID_PATH)
  {
    hide SetOr, StrictPath;
  }

  lemma RunThree(env: Env, doc: Value, first: Op, second: Op, third: Op, last: Value)
    requires Apply(env, doc, first) == Ok(doc) && Apply(env, doc, second) == Ok(doc) && Apply(env, doc, third) == Ok(last)
    ensures RunOps(env, doc, [first, second, third]) == Run(true, last, 3, None)
  {
    hide Apply;
    var ops := [first, second, third];
    assert ops[1..] == [second, third];
    assert ops[1..][1..] == [third];
    RunOne(env, doc, third);
  }

  lemma CloneTaken(env: Env, doc: Value, op: Op)
    requires Lawful(env.c) && Finite(env.c, doc) && op.Clone?
    requires Apply(env, doc, op).Ok? && Expand(env, doc, op).Some?
    ensures TakesRecipe(env, doc, op)
  {
    CloneRuns(env, doc, op.from, op.to, At(env, doc, op.from).value);
  }

  lemma ParentPathParses(env: Env, path: Text)
    requires StrictPath(path)
    ensures TryParse(ParentPath(env, path)) == PathOk(Front(Segs(env, path)))
  {
    var segs := Segs(env, path);
    if path != [] {
      ReadSegmentsPrintable(path, []);
    }
    assert AllPrintable(segs);
    assert AllPrintable(Front(segs));
    ParseOfFormat(Front(segs));
  }

  lemma RenameTaken(env: Env, doc: Value, op: Op)
    requires Lawful(env.c) && Finite(env.c, doc) && op.Rename?
    requires Apply(env, doc, op).Ok? && Expand(env, doc, op).Some?
    ensures TakesRecipe(env, doc, op)
  {
    ParentPathParses(env, op.path);
    var parentPath := ParentPath(env, op.path);
    var parent := At(env, doc, parentPath).value;
    FiniteResolve(env.c, doc, Segs(env, parentPath));
    AssertThenSet(env, doc, parentPath, parent, Obj(Renamed(parent.m, Last(Segs(env, op.path)).value, op.to)));
  }

  /** Where a recipe of these operations compiles and the operation itself succeeds, the
      replay always agrees: the run-time check never sends them back to native form. */
  lemma CheckNeverRejects(env: Env, doc: Value, op: Op)
    requires Lawful(env.c) && Finite(env.c, doc) && OpFinite(env.c, op) && AlwaysAgrees(op)
    ensures TakesRecipe(env, doc, op) <==> Apply(env, doc, op).Ok? && Expand(env, doc, op).Some?
  {
    if Apply(env, doc, op).Ok? && Expand(env, doc, op).Some? {
      if OnSequence(op) {
        SequenceRecipeTaken(env, doc, op);
      } else if op.Clone? {
        CloneTaken(env, doc, op);
      } else if op.Rename? {
        RenameTaken(env, doc, op);
      } else if op.Pick? {
        PickTaken(env, doc, op);
      } else {
        OmitTaken(env, doc, op);
      }
    }
  }

  /** The move recipe ends in an `unset`, which only removes mapping keys: it is taken
      exactly when the source path ends in a key. */
  lemma MoveTakenExactly(env: Env, doc: Value, op: Op)
    requires Lawful(env.c) && Finite(env.c, doc) && op.Move?
    requires Apply(env, doc, op).Ok? && Expand(env, doc, op).Some?
    ensures TakesRecipe(env, doc, op) <==> Last(Segs(env, op.from)).Some?
  {
    var source := At(env, doc, op.from).value;
    var d := Set(env.c, doc, Segs(env, op.to), source).value;
    MoveRuns(env, doc, op.from, op.to, source);
    UnsetResolvedKey(env, d, op.from);
  }

  lemma UnsetDispatch(env: Env, doc: Value, path: Text)
    requires path != [] && StrictPath(path)
    ensures Apply(env, doc, Unset(path)) == HandleUnset(env, doc, path)
  {
    hide HandleUnset, StrictPath;
  }

  lemma MoveRuns(env: Env, doc: Value, from: Text, to: Text, source: Value)
    requires Lawful(env.c) && Finite(env.c, doc) && from != [] && to != [] && StrictPath(from) && StrictPath(to)
    requires At(env, doc, from) == Some(source) && At(env, doc, to).None?
    requires Set(env.c, doc, Segs(env, to), source).Some? && MoveRecipe(from, to, source).Some?
    ensures var r := RunOps(env, doc, MoveRecipe(from, to, source).value);
      var last := HandleUnset(env, Set(env.c, doc, Segs(env, to), source).value, from);
      (r.ok <==> last.Ok?) && (r.ok ==> r.doc == last.doc)
  {
    hide HandleUnset, Apply;
    CloneRuns(env, doc, from, to, source);
    RunAppend(env, doc, [AssertEquals(from, source), AssertAbsent(to), SetOp(to, source)], [Unset(from)]);
    UnsetDispatch(env, Set(env.c, doc, Segs(env, to), source).value, from);
    RunOne(env, Set(env.c, doc, Segs(env, to), source).value, Unset(from));
  }

  /** `unset` of a path that can be deleted succeeds exactly when the path ends in a key,
      and then deletes there. */
  lemma UnsetResolvedKey(env: Env, d: Value, path: Text)
    requires Delete(env.c, d, Segs(env, path)).Some?
    ensures HandleUnset(env, d, path) ==
      if Last(Segs(env, path)).Some? then Ok(Delete(env.c, d, Segs(env, path)).value) else Err(NOT_A_MAPPING)
  {
    var segs := Segs(env, path);
    if Last(segs).Some? {
      DeleteExactlyWhereResolved(env.c, d, segs);
      ParentOfResolvedKey(env.c, d, segs);
    }
  }

  lemma {:induction false} ParentOfResolvedKey(c: NumberCodec, doc: Value, segs: seq<Segment>)
    requires Last(segs).Some? && Resolve(c, doc, segs).Some?
    ensures Resolve(c, doc, Front(segs)).Some? && Resolve(c, doc, Front(segs)).value.Obj?
    decreases |segs|
  {
    if |segs| > 1 {
      ParentOfResolvedKey(c, Step(c, doc, segs[0]).value, segs[1..]);
      assert Front(segs)[1..] == Front(segs[1..]);
    }
  }
}
