/** What the profile compiler hands out: how its three lists fit together, and that every
    recipe refuses a document other than the one it was compiled against. */
module YExpansions {
  import opened Text
  import opened Values
  import opened Grammar
  import opened Canonical
  import opened YPath
  import opened YDoc
  import opened YOrder
  import opened YOps
  import opened YRecipes
  import opened YFinite
  import opened YCompiler

  // ---------------------------------------------------------------- the three lists

  /** The operations, in order, each either one of the expansions, in order, or itself and
      then one of the retained, in order; from where the flags end, all as they are. */
  predicate Weaves(ops: seq<Op>, taken: seq<bool>, expansions: seq<seq<Op>>, operations: seq<Op>, retained: seq<Op>)
    decreases |taken|
  {
    if taken == [] then expansions == [] && operations == ops && retained == ops
    else if ops == [] then false
    else if taken[0] then
      && expansions != [] && expansions[0] <= operations
      && Weaves(ops[1..], taken[1..], expansions[1..], operations[|expansions[0]|..], retained)
    else
      && operations != [] && operations[0] == ops[0] && retained != [] && retained[0] == ops[0]
      && Weaves(ops[1..], taken[1..], expansions, operations[1..], retained[1..])
  }

  /** The document before the operation with this number. */
  function DocAt(env: Env, base: Value, ops: seq<Op>, i: nat): Value
    requires i <= |ops|
  {
    RunOps(env, base, ops[..i]).doc
  }

  /** The recipes of the flagged operations, each compiled on the document before it. */
  function Recipes(env: Env, base: Value, ops: seq<Op>, taken: seq<bool>): seq<Option<seq<Op>>>
    requires |taken| <= |ops|
    decreases |taken|
  {
    if taken == [] then []
    else
      var n := |taken| - 1;
      Recipes(env, base, ops, taken[..n]) + if taken[n] then [Expand(env, DocAt(env, base, ops, n), ops[n])] else []
  }

  lemma DocAfterHead(env: Env, base: Value, ops: seq<Op>, i: nat)
    requires 0 < i <= |ops| && Apply(env, base, ops[0]).Ok? && RunOps(env, base, ops[..i]).ok
    ensures RunOps(env, Apply(env, base, ops[0]).doc, ops[1..][..i - 1]).ok
    ensures DocAt(env, base, ops, i) == DocAt(env, Apply(env, base, ops[0]).doc, ops[1..], i - 1)
  {
    hide Apply;
    assert ops[..i][1..] == ops[1..][..i - 1] && ops[..i][0] == ops[0];
  }

  lemma RunsFurther(env: Env, base: Value, ops: seq<Op>, i: nat)
    requires 0 < i <= |ops| && Apply(env, base, ops[0]).Ok? && RunOps(env, Apply(env, base, ops[0]).doc, ops[1..][..i - 1]).ok
    ensures RunOps(env, base, ops[..i]).ok
  {
    hide Apply;
    assert ops[..i][1..] == ops[1..][..i - 1] && ops[..i][0] == ops[0];
  }

  /** Up to the first operation that fails, one flag for each: whether the comparison takes
      its recipe on the document before it. */
  ghost predicate IsFlagged(env: Env, base: Value, ops: seq<Op>, taken: seq<bool>) {
    && |taken| <= |ops|
    && (forall i | 0 <= i <= |taken| :: RunOps(env, base, ops[..i]).ok)
    && (|taken| < |ops| ==> Apply(env, DocAt(env, base, ops, |taken|), ops[|taken|]).Err?)
    && (forall i | 0 <= i < |taken| :: taken[i] <==> TakesRecipe(env, DocAt(env, base, ops, i), ops[i]))
  }

  function Given(expansions: seq<seq<Op>>): seq<Option<seq<Op>>> {
    seq(|expansions|, i requires 0 <= i < |expansions| => Some(expansions[i]))
  }

  lemma {:induction false} RecipesHead(env: Env, base: Value, ops: seq<Op>, taken: seq<bool>)
    requires 0 < |taken| <= |ops| && Apply(env, base, ops[0]).Ok?
    requires forall i | 0 <= i <= |taken| :: RunOps(env, base, ops[..i]).ok
    ensures Recipes(env, base, ops, taken) ==
      (if taken[0] then [Expand(env, base, ops[0])] else []) + Recipes(env, Apply(env, base, ops[0]).doc, ops[1..], taken[1..])
    decreases |taken|
  {
    hide Apply, Expand, RunOps;
    var n := |taken| - 1;
    var d := Apply(env, base, ops[0]).doc;
    if n == 0 {
      assert taken[..0] == [] && taken[1..] == [];
      DocAtStart(env, base, ops);
    } else {
      RecipesHead(env, base, ops, taken[..n]);
      assert taken[..n][1..] == taken[1..][..n - 1] && taken[1..][n - 1] == taken[n];
      DocAfterHead(env, base, ops, n);
      assert ops[1..][n - 1] == ops[n];
    }
  }

  lemma DocAtStart(env: Env, base: Value, ops: seq<Op>)
    ensures DocAt(env, base, ops, 0) == base
  {
    assert ops[..0] == [];
  }

  lemma FlaggedLonger(env: Env, base: Value, ops: seq<Op>, more: seq<bool>, head: bool)
    requires ops != [] && Apply(env, base, ops[0]).Ok? && (head <==> TakesRecipe(env, base, ops[0]))
    requires IsFlagged(env, Apply(env, base, ops[0]).doc, ops[1..], more)
    ensures IsFlagged(env, base, ops, [head] + more)
  {
    hide Apply, TakesRecipe;
    var taken, d := [head] + more, Apply(env, base, ops[0]).doc;
    forall i | 0 <= i <= |taken| ensures RunOps(env, base, ops[..i]).ok {
      if i > 0 {
        RunsFurther(env, base, ops, i);
      } else {
        assert ops[..0] == [];
      }
    }
    forall i | 0 < i <= |taken| ensures DocAt(env, base, ops, i) == DocAt(env, d, ops[1..], i - 1) {
      DocAfterHead(env, base, ops, i);
    }
    DocAtStart(env, base, ops);
    forall i | 0 <= i < |taken| ensures taken[i] <==> TakesRecipe(env, DocAt(env, base, ops, i), ops[i]) {
      if i > 0 {
        assert taken[i] == more[i - 1] && ops[1..][i - 1] == ops[i];
      }
    }
    if |taken| < |ops| {
      assert ops[1..][|more|] == ops[|taken|];
    }
  }

  /** The compiled operations are the expansions and the retained operations, each where its
      own operation stood; the expansions are the recipes of exactly those operations that
      the comparison takes, compiled on the documents before them; and from the first
      operation that fails everything is retained as it is. */
  lemma {:induction false} CompileWeaves(env: Env, base: Value, ops: seq<Op>) returns (taken: seq<bool>)
    ensures var r := Compile(env, base, ops);
      && IsFlagged(env, base, ops, taken)
      && Weaves(ops, taken, r.expansions, r.operations, r.retained)
      && Given(r.expansions) == Recipes(env, base, ops, taken)
    decreases |ops|
  {
    hide Apply, TakesRecipe, Expand, RunOps, Recipes;
    if ops == [] || Apply(env, base, ops[0]).Err? {
      taken := [];
      NothingFlagged(env, base, ops);
    } else {
      var d := Apply(env, base, ops[0]).doc;
      var more := CompileWeaves(env, d, ops[1..]);
      var head := TakesRecipe(env, base, ops[0]);
      taken := [head] + more;
      FlaggedLonger(env, base, ops, more, head);
      RecipesHead(env, base, ops, taken);
      var rest := Compile(env, d, ops[1..]);
      assert taken[1..] == more;
      if head {
        TakenHasRecipe(env, base, ops[0]);
        WovenTaken(ops, more, Expand(env, base, ops[0]).value, rest);
      } else {
        WovenSelf(ops, more, rest);
      }
    }
  }

  lemma NothingFlagged(env: Env, base: Value, ops: seq<Op>)
    requires ops == [] || Apply(env, base, ops[0]).Err?
    ensures IsFlagged(env, base, ops, []) && Recipes(env, base, ops, []) == []
  {
    hide Apply, TakesRecipe, Expand;
    assert ops[..0] == [];
    DocAtStart(env, base, ops);
  }

  lemma TakenHasRecipe(env: Env, base: Value, op: Op)
    requires TakesRecipe(env, base, op)
    ensures Expand(env, base, op).Some?
  {}

  lemma WovenTaken(ops: seq<Op>, more: seq<bool>, expansion: seq<Op>, rest: Compiled)
    requires ops != [] && Weaves(ops[1..], more, rest.expansions, rest.operations, rest.retained)
    ensures Weaves(ops, [true] + more, [expansion] + rest.expansions, expansion + rest.operations, rest.retained)
    ensures Given([expansion] + rest.expansions) == [Some(expansion)] + Given(rest.expansions)
  {
    assert ([true] + more)[1..] == more && ([expansion] + rest.expansions)[1..] == rest.expansions;
    assert (expansion + rest.operations)[|expansion|..] == rest.operations && expansion <= expansion + rest.operations;
  }

  lemma WovenSelf(ops: seq<Op>, more: seq<bool>, rest: Compiled)
    requires ops != [] && Weaves(ops[1..], more, rest.expansions, rest.operations, rest.retained)
    ensures Weaves(ops, [false] + more, rest.expansions, [ops[0]] + rest.operations, [ops[0]] + rest.retained)
  {
    assert ([false] + more)[1..] == more;
    assert ([ops[0]] + rest.operations)[1..] == rest.operations && ([ops[0]] + rest.retained)[1..] == rest.retained;
  }

  // ---------------------------------------------------------------- the guard

  /** The path whose value a recipe is compiled against. */
  function GuardedPath(env: Env, op: Op): Text {
    match op
    case Clone(from, _) => from
    case Move(from, _) => from
    case Rename(path, _) => ParentPath(env, path)
    case Fold(path) => ParentPath(env, path)
    case Malformed => []
    case Unregistered => []
    case _ => op.path
  }

  lemma StartsWithGuard(env: Env, base: Value, op: Op)
    requires Expand(env, base, op).Some? && Expand(env, base, op).value != []
    ensures var path := GuardedPath(env, op);
      At(env, base, path).Some? && Expand(env, base, op).value[0] == AssertEquals(path, At(env, base, path).value)
    ensures op.Clone? || op.Move? ==>
      At(env, base, op.to).None? && |Expand(env, base, op).value| > 1 && Expand(env, base, op).value[1] == AssertAbsent(op.to)
  {
    hide Resolve, Segs, Format, Blank;
    if OnSequence(op) || OnMapping(op) {
      assert forall path, v, target :: Replacement(env, path, v, target) != [] ==> Replacement(env, path, v, target)[0] == AssertEquals(path, v);
    }
  }

  lemma FirstRan(env: Env, doc: Value, ops: seq<Op>)
    requires ops != [] && RunOps(env, doc, ops).ok
    ensures Apply(env, doc, ops[0]).Ok?
    ensures RunOps(env, Apply(env, doc, ops[0]).doc, ops[1..]).ok
  {
    hide Apply;
  }

  lemma AssertedHolds(env: Env, doc: Value, path: Text, v: Value)
    requires Lawful(env.c) && Finite(env.c, doc) && Finite(env.c, v) && Apply(env, doc, AssertEquals(path, v)).Ok?
    ensures At(env, doc, path) == Some(v) && Apply(env, doc, AssertEquals(path, v)).doc == doc
  {
    hide Resolve, Segs;
    AssertApplies(env, doc, path, v);
  }

  lemma AbsentHolds(env: Env, doc: Value, path: Text)
    requires Apply(env, doc, AssertAbsent(path)).Ok?
    ensures At(env, doc, path).None?
  {
    hide Resolve, Segs;
  }

  /** A recipe that runs on a document found there what it was compiled against: the same
      value at the path it guards, and for clone and move nothing at the target. */
  lemma RecipeGuards(env: Env, base: Value, doc: Value, op: Op)
    requires Lawful(env.c) && Finite(env.c, base) && Finite(env.c, doc)
    requires Expand(env, base, op).Some? && Expand(env, base, op).value != [] && RunOps(env, doc, Expand(env, base, op).value).ok
    ensures At(env, doc, GuardedPath(env, op)) == At(env, base, GuardedPath(env, op))
    ensures op.Clone? || op.Move? ==> At(env, doc, op.to).None?
  {
    hide Apply, Expand, Resolve, Segs, RunOps;
    var ops, path := Expand(env, base, op).value, GuardedPath(env, op);
    StartsWithGuard(env, base, op);
    FirstRan(env, doc, ops);
    FiniteResolve(env.c, base, Segs(env, path));
    AssertedHolds(env, doc, path, At(env, base, path).value);
    if op.Clone? || op.Move? {
      FirstRan(env, doc, ops[1..]);
      AbsentHolds(env, doc, op.to);
    }
  }

  /** A recipe is empty only where its operation has nothing to do. */
  lemma EmptyRecipe(env: Env, base: Value, op: Op)
    requires Lawful(env.c) && Finite(env.c, base) && OpFinite(env.c, op)
    requires Expand(env, base, op) == Some([]) && TakesRecipe(env, base, op)
    ensures Apply(env, base, op) == Ok(base)
  {
    TakenRecipeAgrees(env, base, op);
  }

  // ---------------------------------------------------------------- which operations have a recipe

  /** Not empty and not white space only. */
  predicate Named(s: Text) { exists i | 0 <= i < |s| :: !IsTrimmed(s[i]) }

  predicate AllNamed(keys: seq<Text>) { forall i | 0 <= i < |keys| :: Named(keys[i]) }

  /** A list of entries of the mapping, each once. */
  predicate ListsEntries(keys: seq<Text>, m: map<Text, Value>) {
    && AllNamed(keys) && (forall i | 0 <= i < |keys| :: keys[i] in m)
    && forall i, j | 0 <= i < j < |keys| :: keys[i] != keys[j]
  }

  predicate CanSortBy(field: Option<Text>, items: seq<Value>) {
    field.None? || (Named(field.value) && forall i | 0 <= i < |items| :: items[i].Obj? && field.value in items[i].m)
  }

  /** The conditions of the operations that work on the value at their path. */
  predicate HasRecipeAt(op: Op, v: Value)
    requires OnSequence(op) || OnMapping(op)
  {
    Named(op.path) &&
    match op
    case Append(_, _) => v.Arr?
    case Sort(_, field, _) => v.Arr? && CanSortBy(field, v.items)
    case UniqueOp(_, field) => v.Arr? && CanSortBy(field, v.items)
    case Populate(_, values) => v.Obj? && forall i | 0 <= i < |values| :: Named(values[i].0)
    case Pick(_, keys) => v.Obj? && ListsEntries(keys, v.m)
    case Omit(_, keys) => v.Obj? && ListsEntries(keys, v.m)
    case Nest(_, keys, under) => v.Obj? && Named(under) && ListsEntries(keys, v.m) && (keys == [] || under !in v.m || under in keys)
    case SplitOp(_, groups) =>
      && v.Obj? && ListsEntries(Flatten(groups), v.m)
      && forall i | 0 <= i < |groups| :: Named(groups[i].0) && (groups[i].0 !in v.m || groups[i].0 in Flatten(groups))
    case Merge(_, keys, into) =>
      v.Obj? && Named(into) && ListsEntries(keys, v.m) && forall i | 0 <= i < |keys| :: keys[i] in v.m && v.m[keys[i]].Obj?
  }

  /** And of those that work on a parent or on two paths. */
  predicate HasRecipe(env: Env, base: Value, op: Op) {
    if OnSequence(op) || OnMapping(op) then At(env, base, op.path).Some? && HasRecipeAt(op, At(env, base, op.path).value)
    else
      match op
      case Clone(from, to) => Named(from) && Named(to) && from != to && At(env, base, from).Some? && At(env, base, to).None?
      case Move(from, to) =>
        Named(from) && Named(to) && from != to && !(from + [SLASH] <= to) && At(env, base, from).Some? && At(env, base, to).None?
      case Rename(path, to) =>
        && Last(Segs(env, path)).Some? && Named(ParentPath(env, path)) && Named(Last(Segs(env, path)).value) && Named(to)
        && var parent, from := At(env, base, ParentPath(env, path)), Last(Segs(env, path)).value;
           parent.Some? && (from == to || (parent.value.Obj? && from in parent.value.m && to !in parent.value.m))
      case Fold(path) =>
        && Last(Segs(env, path)).Some? && Named(path) && Named(ParentPath(env, path))
        && var parent, k := At(env, base, ParentPath(env, path)), Last(Segs(env, path)).value;
           parent.Some? && parent.value.Obj? && k in parent.value.m && parent.value.m[k].Obj? && |parent.value.m[k].m| == 1
      case _ => false
  }

  lemma NamedIsNotBlank(s: Text)
    ensures Named(s) <==> !Blank(s)
    ensures Named(s) ==> s != []
  {}

  lemma EntriesListed(keys: seq<Text>, m: map<Text, Value>)
    ensures ListsEntries(keys, m) <==> KeyListOk(keys, m)
  {
    hide Named, Blank;
    forall i | 0 <= i < |keys| ensures Named(keys[i]) <==> !Blank(keys[i]) {
      NamedIsNotBlank(keys[i]);
    }
  }

  lemma SortableBy(field: Option<Text>, items: seq<Value>)
    ensures CanSortBy(field, items) <==> (field.Some? ==> !Blank(field.value)) && AllHaveKey(field, items)
  {
    hide Named, Blank;
    if field.Some? {
      NamedIsNotBlank(field.value);
    }
  }

  lemma RecipeAtExactly(env: Env, base: Value, op: Op)
    requires OnSequence(op) || OnMapping(op)
    ensures ExpandAt(env, base, op).Some? <==> At(env, base, op.path).Some? && HasRecipeAt(op, At(env, base, op.path).value)
  {
    hide Named, Blank, Resolve, Segs, ListsEntries, KeyListOk, CanSortBy, AllHaveKey, Replacement;
    NamedIsNotBlank(op.path);
    if At(env, base, op.path).Some? {
      var v := At(env, base, op.path).value;
      match op {
        case Append(_, _) =>
        case Sort(_, field, _) =>
          if v.Arr? {
            SortableBy(field, v.items);
          }
        case UniqueOp(_, field) =>
          if v.Arr? {
            SortableBy(field, v.items);
          }
        case Populate(_, values) =>
          forall i | 0 <= i < |values| ensures Named(values[i].0) <==> !Blank(values[i].0) {
            NamedIsNotBlank(values[i].0);
          }
        case Pick(_, keys) => MappingEntries(keys, v);
        case Omit(_, keys) =>
          MappingEntries(keys, v);
          NothingListed(v);
        case Nest(_, keys, under) =>
          NamedIsNotBlank(under);
          MappingEntries(keys, v);
        case SplitOp(_, groups) =>
          MappingEntries(Flatten(groups), v);
          forall i | 0 <= i < |groups| ensures Named(groups[i].0) <==> !Blank(groups[i].0) {
            NamedIsNotBlank(groups[i].0);
          }
        case Merge(_, keys, into) =>
          NamedIsNotBlank(into);
          MappingEntries(keys, v);
      }
    }
  }

  lemma NothingListed(v: Value)
    ensures v.Obj? ==> ListsEntries([], v.m)
  {}

  lemma MappingEntries(keys: seq<Text>, v: Value)
    ensures v.Obj? ==> (ListsEntries(keys, v.m) <==> KeyListOk(keys, v.m))
    ensures v.Obj? && ListsEntries(keys, v.m) ==> AllIn(keys, v.m)
  {
    if v.Obj? {
      EntriesListed(keys, v.m);
    }
  }

  lemma TwoPathRecipeExactly(env: Env, base: Value, op: Op)
    requires op.Clone? || op.Move?
    ensures Expand(env, base, op).Some? <==> HasRecipe(env, base, op)
  {
    hide Named, Blank, Resolve, Segs, HasRecipeAt, ExpandAt, Replacement, Format;
    NamedIsNotBlank(op.from);
    NamedIsNotBlank(op.to);
  }

  lemma RenameRecipeExactly(env: Env, base: Value, path: Text, to: Text)
    ensures Expand(env, base, Rename(path, to)).Some? <==> HasRecipe(env, base, Rename(path, to))
  {
    hide Named, Blank, Resolve, Segs, HasRecipeAt, ExpandAt, Replacement, Format;
    NamedIsNotBlank(ParentPath(env, path));
    NamedIsNotBlank(to);
    if Last(Segs(env, path)).Some? {
      NamedIsNotBlank(Last(Segs(env, path)).value);
    }
  }

  lemma FoldRecipeExactly(env: Env, base: Value, path: Text)
    ensures Expand(env, base, Fold(path)).Some? <==> HasRecipe(env, base, Fold(path))
  {
    hide Named, Blank, Resolve, Segs, HasRecipeAt, ExpandAt, Replacement, Format;
    NamedIsNotBlank(path);
    NamedIsNotBlank(ParentPath(env, path));
  }

  /** An operation has a recipe exactly under these conditions; elsewhere it is retained. */
  lemma RecipeExactly(env: Env, base: Value, op: Op)
    ensures Expand(env, base, op).Some? <==> HasRecipe(env, base, op)
  {
    if OnSequence(op) || OnMapping(op) {
      hide HasRecipeAt, ExpandAt;
      RecipeAtExactly(env, base, op);
    } else {
      hide Expand, HasRecipe;
      match op {
        case Clone(_, _) => TwoPathRecipeExactly(env, base, op);
        case Move(_, _) => TwoPathRecipeExactly(env, base, op);
        case Rename(path, to) => RenameRecipeExactly(env, base, path, to);
        case Fold(path) => FoldRecipeExactly(env, base, path);
        case _ => OtherHasNone(env, base, op);
      }
    }
  }

  lemma OtherHasNone(env: Env, base: Value, op: Op)
    requires !OnSequence(op) && !OnMapping(op) && !op.Clone? && !op.Move? && !op.Rename? && !op.Fold?
    ensures Expand(env, base, op).None? && !HasRecipe(env, base, op)
  {}

  /** What `trim` takes for white space: among them the byte order mark and the line
      separators, and not U+0085, U+180E or U+200B. */
  lemma Trimmed()
    ensures forall u <- [0x09, 0x0A, 0x0B, 0x0C, 0x0D, 0x20, 0xA0, 0x1680, 0x2000, 0x200A, 0x2028, 0x2029, 0x202F, 0x205F, 0x3000, 0xFEFF] :: IsTrimmed(u)
    ensures forall u <- [0x08, 0x0E, 0x21, 0x61, 0x85, 0x180E, 0x1FFF, 0x200B, 0x202A, 0x2060, 0x3001] :: !IsTrimmed(u)
  {}
}
