/** The recipe compilers: native operations rewritten to `assert`, `set` and `unset`. */
module YRecipes {
  import opened Text
  import opened Values
  import opened YPath
  import opened YDoc
  import opened YOrder
  import opened YOps

  // ---------------------------------------------------------------- guards

  /** White space and line terminators, as `trim` removes them. */
  predicate IsTrimmed(u: CodeUnit) {
    || 0x09 <= u <= 0x0D || u == 0x20 || u == 0xA0 || u == 0x1680 || 0x2000 <= u <= 0x200A
    || u == 0x2028 || u == 0x2029 || u == 0x202F || u == 0x205F || u == 0x3000 || u == 0xFEFF
  }

  /** `s.trim().length === 0` */
  predicate Blank(s: Text) { forall i | 0 <= i < |s| :: IsTrimmed(s[i]) }

  predicate NoneBlank(keys: seq<Text>) { forall i | 0 <= i < |keys| :: !Blank(keys[i]) }

  /** `assertMappingKeyList` does not throw. */
  predicate KeyListOk(keys: seq<Text>, m: map<Text, Value>) {
    NoneBlank(keys) && NoRepeats(keys) && AllIn(keys, m)
  }

  function AssertEquals(path: Text, v: Value): Op { Assert(path, Some(v), None, None) }
  function AssertAbsent(path: Text): Op { Assert(path, None, Some(false), None) }

  // ---------------------------------------------------------------- targets

  function NestTarget(m: map<Text, Value>, keys: seq<Text>, under: Text): map<Text, Value> {
    Without(m, keys)[under := Obj(Selected(m, keys))]
  }

  function PutAll(m: map<Text, Value>, values: seq<(Text, Value)>): map<Text, Value>
    decreases |values|
  {
    if values == [] then m else PutAll(m[values[0].0 := values[0].1], values[1..])
  }

  function SplitTarget(m: map<Text, Value>, groups: seq<(Text, seq<Text>)>): map<Text, Value> {
    PutAll(Without(m, Flatten(groups)), GroupValues(m, groups))
  }

  function FoldTarget(parent: map<Text, Value>, k: Text): map<Text, Value>
    requires k in parent && parent[k].Obj? && |parent[k].m| == 1
  {
    var child := OnlyKey(parent[k].m);
    (parent - {k})[child := parent[k].m[child]]
  }

  function MergeTarget(m: map<Text, Value>, keys: seq<Text>, into: Text): map<Text, Value>
    requires AllIn(keys, m) && AllMappings(m, keys)
  {
    Without(m, keys)[into := Obj(Merged(m, keys))]
  }

  // ---------------------------------------------------------------- recipes; None where they throw

  /** `mappingPathReplacement` */
  function Replacement(env: Env, path: Text, base: Value, target: Value): seq<Op> {
    if CanonicalKey(env.c, base) == CanonicalKey(env.c, target) then []
    else [AssertEquals(path, base), SetOp(path, target)]
  }

  function PathReplacement(env: Env, path: Text, base: Option<Value>, target: Option<Value>): Option<seq<Op>> {
    if Blank(path) then None
    else if base.None? && target.None? then Some([])
    else if base.Some? && target.Some? && CanonicalKey(env.c, base.value) == CanonicalKey(env.c, target.value) then Some([])
    else
      Some([if base.Some? then AssertEquals(path, base.value) else AssertAbsent(path)]
           + [if target.Some? then SetOp(path, target.value) else Unset(path)])
  }

  function CloneRecipe(from: Text, to: Text, source: Value): Option<seq<Op>> {
    if Blank(from) || Blank(to) || from == to then None
    else Some([AssertEquals(from, source), AssertAbsent(to), SetOp(to, source)])
  }

  function MoveRecipe(from: Text, to: Text, source: Value): Option<seq<Op>> {
    if CloneRecipe(from, to, source).None? || from + [SLASH] <= to then None
    else Some(CloneRecipe(from, to, source).value + [Unset(from)])
  }

  function RenameRecipe(path: Text, base: Value, from: Text, to: Text): Option<seq<Op>> {
    if Blank(path) || Blank(from) || Blank(to) then None
    else if from == to then Some([])
    else if !base.Obj? || from !in base.m || to in base.m then None
    else Some([AssertEquals(path, base), SetOp(path, Obj(Renamed(base.m, from, to)))])
  }

  function AppendRecipe(path: Text, base: Value, v: Value): Option<seq<Op>> {
    if Blank(path) || !base.Arr? then None
    else Some([AssertEquals(path, base), SetOp(path, Arr(base.items + [v]))])
  }

  function SortRecipe(env: Env, path: Text, base: Value, field: Option<Text>, desc: bool): Option<seq<Op>> {
    if Blank(path) || !base.Arr? || (field.Some? && Blank(field.value)) || !AllHaveKey(field, base.items) then None
    else Some(Replacement(env, path, base, Arr(StableSort(Sorting(env.c, field, desc), base.items))))
  }

  function UniqueRecipe(env: Env, path: Text, base: Value, field: Option<Text>): Option<seq<Op>> {
    if Blank(path) || !base.Arr? || (field.Some? && Blank(field.value)) || !AllHaveKey(field, base.items) then None
    else Some(Replacement(env, path, base, Arr(Unique(env.c, field, base.items))))
  }

  function PickRecipe(env: Env, path: Text, base: Value, keys: seq<Text>): Option<seq<Op>> {
    if Blank(path) || !base.Obj? || !KeyListOk(keys, base.m) then None
    else Some(Replacement(env, path, base, Obj(Selected(base.m, keys))))
  }

  function OmitRecipe(path: Text, base: Value, keys: seq<Text>): Option<seq<Op>> {
    if Blank(path) || !base.Obj? then None
    else if keys == [] then Some([])
    else if !KeyListOk(keys, base.m) then None
    else Some([AssertEquals(path, base), SetOp(path, Obj(Without(base.m, keys)))])
  }

  function PopulateRecipe(env: Env, path: Text, base: Value, values: seq<(Text, Value)>): Option<seq<Op>> {
    if Blank(path) || !base.Obj? || exists i | 0 <= i < |values| :: Blank(values[i].0) then None
    else Some(Replacement(env, path, base, Obj(PutAll(base.m, values))))
  }

  function NestRecipe(env: Env, path: Text, base: Value, keys: seq<Text>, under: Text): Option<seq<Op>> {
    if Blank(path) || Blank(under) || !base.Obj? || !KeyListOk(keys, base.m) then None
    else if keys == [] then Some([])
    else if under in base.m && under !in keys then None
    else Some(Replacement(env, path, base, Obj(NestTarget(base.m, keys, under))))
  }

  function SplitRecipe(env: Env, path: Text, base: Value, groups: seq<(Text, seq<Text>)>): Option<seq<Op>> {
    if Blank(path) || !base.Obj? || !KeyListOk(Flatten(groups), base.m) then None
    else if exists i | 0 <= i < |groups| ::
              Blank(groups[i].0) || (groups[i].0 in base.m && groups[i].0 !in Flatten(groups)) then None
    else Some(Replacement(env, path, base, Obj(SplitTarget(base.m, groups))))
  }

  function FoldRecipe(env: Env, path: Text, parentPath: Text, parent: Value): Option<seq<Op>> {
    if Blank(path) || Blank(parentPath) || !parent.Obj? then None
    else
      match Last(Segs(env, path))
      case None => None
      case Some(k) =>
        if k !in parent.m || !parent.m[k].Obj? || |parent.m[k].m| != 1 then None
        else Some(Replacement(env, parentPath, parent, Obj(FoldTarget(parent.m, k))))
  }

  function MergeRecipe(env: Env, path: Text, base: Value, keys: seq<Text>, into: Text): Option<seq<Op>> {
    if Blank(path) || Blank(into) || !base.Obj? || !KeyListOk(keys, base.m) || !AllMappings(base.m, keys) then None
    else Some(Replacement(env, path, base, Obj(MergeTarget(base.m, keys, into))))
  }

  // ---------------------------------------------------------------- choosing a recipe

  /** The operation's recipe on `base`, for the operations that work on the value at one
      path; None when there is no invocation or the compiler throws. */
  function ExpandAt(env: Env, base: Value, op: Op): Option<seq<Op>>
    requires OnSequence(op) || OnMapping(op)
  {
    match At(env, base, op.path)
    case None => None
    case Some(v) =>
      match op
      case Append(path, item) => AppendRecipe(path, v, item)
      case Sort(path, field, desc) => SortRecipe(env, path, v, field, desc)
      case UniqueOp(path, field) => UniqueRecipe(env, path, v, field)
      case Populate(path, values) => PopulateRecipe(env, path, v, values)
      case Pick(path, keys) => if path == [] then None else PickRecipe(env, path, v, keys)
      case Omit(path, keys) => if path == [] then None else OmitRecipe(path, v, keys)
      case Nest(path, keys, under) => if path == [] then None else NestRecipe(env, path, v, keys, under)
      case SplitOp(path, groups) => if path == [] then None else SplitRecipe(env, path, v, groups)
      case Merge(path, keys, into) => if path == [] then None else MergeRecipe(env, path, v, keys, into)
      case _ => None
  }

  /** `splitLastKeyPath` gave a parent path and a key. */
  predicate HasParentPath(env: Env, path: Text) {
    Last(Segs(env, path)).Some? && ParentPath(env, path) != []
  }

  function ParentPath(env: Env, path: Text): Text { Format(Front(Segs(env, path))) }

  /** `createYOpsRecipeInvocationForNativeOperation`, compiled. */
  function Expand(env: Env, base: Value, op: Op): Option<seq<Op>> {
    if OnSequence(op) || OnMapping(op) then ExpandAt(env, base, op)
    else
      match op
      case Clone(from, to) =>
        var source := At(env, base, from);
        if source.None? || At(env, base, to).Some? then None else CloneRecipe(from, to, source.value)
      case Move(from, to) =>
        var source := At(env, base, from);
        if source.None? || At(env, base, to).Some? then None else MoveRecipe(from, to, source.value)
      case Rename(path, to) =>
        if !HasParentPath(env, path) then None
        else
          var parent := At(env, base, ParentPath(env, path));
          if parent.None? then None
          else RenameRecipe(ParentPath(env, path), parent.value, Last(Segs(env, path)).value, to)
      case Fold(path) =>
        if !HasParentPath(env, path) then None
        else
          var parent := At(env, base, ParentPath(env, path));
          if parent.None? then None else FoldRecipe(env, path, ParentPath(env, path), parent.value)
      case _ => None
  }

  // ---------------------------------------------------------------- the profile compiler

  datatype Compiled = Compiled(expansions: seq<seq<Op>>, operations: seq<Op>, retained: seq<Op>)

  /** The recipe is taken when replaying it gives, up to canonical text, what the native
      operation gives. */
  predicate TakesRecipe(env: Env, current: Value, op: Op) {
    && Apply(env, current, op).Ok? && Expand(env, current, op).Some?
    && var replayed := RunOps(env, current, Expand(env, current, op).value);
       replayed.ok && CanonicalKey(env.c, replayed.doc) == CanonicalKey(env.c, Apply(env, current, op).doc)
  }

  function Compile(env: Env, current: Value, ops: seq<Op>): Compiled
    decreases |ops|
  {
    if ops == [] then Compiled([], [], [])
    else
      match Apply(env, current, ops[0])
      case Err(_) => Compiled([], ops, ops)
      case Ok(d) =>
        var rest := Compile(env, d, ops[1..]);
        if TakesRecipe(env, current, ops[0]) then
          var expansion := Expand(env, current, ops[0]).value;
          Compiled([expansion] + rest.expansions, expansion + rest.operations, rest.retained)
        else Compiled(rest.expansions, [ops[0]] + rest.operations, [ops[0]] + rest.retained)
  }

  /** What the loop holds so far, followed by the rest of the compilation. */
  function After(sofar: Compiled, rest: Compiled): Compiled {
    Compiled(sofar.expansions + rest.expansions, sofar.operations + rest.operations, sofar.retained + rest.retained)
  }

  lemma AfterTaken(sofar: Compiled, expansion: seq<Op>, rest: Compiled)
    ensures After(sofar, Compiled([expansion] + rest.expansions, expansion + rest.operations, rest.retained))
      == After(Compiled(sofar.expansions + [expansion], sofar.operations + expansion, sofar.retained), rest)
  {
    assert sofar.expansions + ([expansion] + rest.expansions) == sofar.expansions + [expansion] + rest.expansions;
    assert sofar.operations + (expansion + rest.operations) == sofar.operations + expansion + rest.operations;
  }

  lemma AfterKept(sofar: Compiled, op: Op, rest: Compiled)
    ensures After(sofar, Compiled(rest.expansions, [op] + rest.operations, [op] + rest.retained))
      == After(Compiled(sofar.expansions, sofar.operations + [op], sofar.retained + [op]), rest)
  {
    assert sofar.operations + ([op] + rest.operations) == sofar.operations + [op] + rest.operations;
    assert sofar.retained + ([op] + rest.retained) == sofar.retained + [op] + rest.retained;
  }

  /** `compileYOpsOperationsToPrimitiveProfile`: the loop over the operations. */
  method CompileLoop(env: Env, base: Value, ops: seq<Op>) returns (r: Compiled)
    ensures r == Compile(env, base, ops)
  {
    var current := base;
    r := Compiled([], [], []);
    assert After(r, Compile(env, base, ops)) == Compile(env, base, ops);
    for i := 0 to |ops|
      invariant Compile(env, base, ops) == After(r, Compile(env, current, ops[i..]))
    {
      var op := ops[i];
      assert ops[i..][0] == op && ops[i..][1..] == ops[i + 1..];
      var native := ApplyYOps(env, current, [op]);
      RunOne(env, current, op);
      if !native.ok {
        return Compiled(r.expansions, r.operations + ops[i..], r.retained + ops[i..]);
      }
      ghost var rest := Compile(env, native.doc, ops[i + 1..]);
      var expansion := Expand(env, current, op);
      var taken := false;
      if expansion.Some? {
        var replayed := ApplyYOps(env, current, expansion.value);
        taken := replayed.ok && CanonicalKey(env.c, replayed.doc) == CanonicalKey(env.c, native.doc);
      }
      if taken {
        AfterTaken(r, expansion.value, rest);
        r := Compiled(r.expansions + [expansion.value], r.operations + expansion.value, r.retained);
      } else {
        AfterKept(r, op, rest);
        r := Compiled(r.expansions, r.operations + [op], r.retained + [op]);
      }
      current := native.doc;
    }
    assert ops[|ops|..] == [];
    assert After(r, Compiled([], [], [])) == r;
  }

  lemma RunOne(env: Env, doc: Value, op: Op)
    ensures RunOps(env, doc, [op]) ==
      match Apply(env, doc, op)
      case Err(code) => Run(false, doc, 0, Some(code))
      case Ok(d) => Run(true, d, 1, None)
  {
    assert [op][1..] == [];
  }
}
