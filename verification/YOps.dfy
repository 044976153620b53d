/** The eighteen YOps operations and the engine that applies a list of them. */
module YOps {
  import opened Text
  import opened Values
  import opened YPath
  import opened YDoc
  import opened YOrder

  /** The platform: number printing and reading, and `parseInt` beyond the safe integers. */
  datatype Env = Env(c: NumberCodec, round: nat -> nat)

  datatype Kind = Mapping | Sequence | Scalar

  /** An operation; the last two stand for whatever fails the engine's shape guards and
      for an operation key no handler is registered under. Records a handler walks in
      entry order are entry lists. */
  datatype Op =
    | Define(path: Text)
    | Drop(path: Text)
    | Rename(path: Text, to: Text)
    | SetOp(path: Text, value: Value)
    | Unset(path: Text)
    | Populate(path: Text, values: seq<(Text, Value)>)
    | Append(path: Text, value: Value)
    | Move(from: Text, to: Text)
    | Clone(from: Text, to: Text)
    | Nest(path: Text, keys: seq<Text>, under: Text)
    | SplitOp(path: Text, groups: seq<(Text, seq<Text>)>)
    | Fold(path: Text)
    | Merge(path: Text, keys: seq<Text>, into: Text)
    | Sort(path: Text, field: Option<Text>, desc: bool)
    | UniqueOp(path: Text, field: Option<Text>)
    | Pick(path: Text, keys: seq<Text>)
    | Omit(path: Text, keys: seq<Text>)
    | Assert(path: Text, equals: Option<Value>, exists': Option<bool>, kind: Option<Kind>)
    | Malformed
    | Unregistered

  datatype Code =
    | INVALID_OP | UNKNOWN_OP | INVALID_PATH | PATH_NOT_FOUND | ALREADY_EXISTS | NOT_A_MAPPING
    | NOT_A_SEQUENCE | NOT_SIBLINGS | NOT_FOLDABLE | ASSERTION_FAILED

  datatype Out = Ok(doc: Value) | Err(code: Code)

  // ---------------------------------------------------------------- shared by the handlers

  function Segs(env: Env, path: Text): seq<Segment> { Parse(env.round, path) }

  function At(env: Env, doc: Value, path: Text): Option<Value> { Resolve(env.c, doc, Segs(env, path)) }

  /** `setAtPath` in a handler that lets it throw: the engine reports INVALID_OP. */
  function SetOr(env: Env, doc: Value, segs: seq<Segment>, value: Value, code: Code): Out {
    match Set(env.c, doc, segs, value)
    case None => Err(code)
    case Some(d) => Ok(d)
  }

  function KeyPath(path: Text, key: Text): Text { if path == [] then key else path + ([SLASH] + key) }

  function DeleteKeys(env: Env, doc: Value, path: Text, keys: seq<Text>): Value
    decreases |keys|
  {
    if keys == [] then doc
    else
      var d := Delete(env.c, doc, Segs(env, KeyPath(path, keys[0])));
      DeleteKeys(env, if d.Some? then d.value else doc, path, keys[1..])
  }

  function SetKeys(env: Env, doc: Value, path: Text, values: seq<(Text, Value)>, code: Code): Out
    decreases |values|
  {
    if values == [] then Ok(doc)
    else
      match Set(env.c, doc, Segs(env, KeyPath(path, values[0].0)), values[0].1)
      case None => Err(code)
      case Some(d) => SetKeys(env, d, path, values[1..], code)
  }

  predicate AllIn(keys: seq<Text>, m: map<Text, Value>) { forall i | 0 <= i < |keys| :: keys[i] in m }

  function Selected(m: map<Text, Value>, keys: seq<Text>): map<Text, Value> {
    map k | k in m && k in keys :: m[k]
  }

  function Without(m: map<Text, Value>, keys: seq<Text>): map<Text, Value> {
    map k | k in m && k !in keys :: m[k]
  }

  function Flatten(groups: seq<(Text, seq<Text>)>): seq<Text> {
    if groups == [] then [] else groups[0].1 + Flatten(groups[1..])
  }

  function GroupValues(m: map<Text, Value>, groups: seq<(Text, seq<Text>)>): (r: seq<(Text, Value)>)
    ensures |r| == |groups|
  {
    seq(|groups|, i requires 0 <= i < |groups| => (groups[i].0, Obj(Selected(m, groups[i].1))))
  }

  predicate NoRepeats(keys: seq<Text>) { forall i, j | 0 <= i < j < |keys| :: keys[i] != keys[j] }

  predicate AllMappings(m: map<Text, Value>, keys: seq<Text>)
    requires AllIn(keys, m)
  {
    forall i | 0 <= i < |keys| :: m[keys[i]].Obj?
  }

  /** The union of the mappings under `keys`, later keys winning. */
  function Merged(m: map<Text, Value>, keys: seq<Text>): map<Text, Value>
    requires AllIn(keys, m) && AllMappings(m, keys)
  {
    if keys == [] then map[]
    else
      var n := |keys| - 1;
      assert AllIn(keys[..n], m) && AllMappings(m, keys[..n]);
      Merged(m, keys[..n]) + m[keys[n]].m
  }

  function OnlyKey(m: map<Text, Value>): (k: Text)
    requires |m| == 1
    ensures m.Keys == {k}
  {
    var ks := SortedKeys(ByCodePoint, m.Keys);
    assert forall k <- m :: k in ks;
    assert ks == [ks[0]];
    ks[0]
  }

  function Renamed(m: map<Text, Value>, from: Text, to: Text): map<Text, Value>
    requires from in m
  {
    (m - {from})[to := m[from]]
  }

  function Last(segs: seq<Segment>): Option<Text> {
    if segs != [] && segs[|segs| - 1].Key? then Some(segs[|segs| - 1].value) else None
  }

  function Front(segs: seq<Segment>): seq<Segment> { if segs == [] then [] else segs[..|segs| - 1] }

  // ---------------------------------------------------------------- handlers

  function HandleAssert(env: Env, doc: Value, op: Op): Out
    requires op.Assert?
  {
    var value := At(env, doc, op.path);
    if op.exists'.Some? && op.exists'.value != value.Some? then Err(ASSERTION_FAILED)
    else if op.equals.Some? && (value.None? || CanonicalKey(env.c, value.value) != CanonicalKey(env.c, op.equals.value))
    then Err(ASSERTION_FAILED)
    else if op.kind.Some? && (value.None? || KindOf(value.value) != op.kind.value) then Err(ASSERTION_FAILED)
    else Ok(doc)
  }

  function KindOf(v: Value): Kind { if v.Arr? then Sequence else if v.Obj? then Mapping else Scalar }

  function HandleUnset(env: Env, doc: Value, path: Text): Out {
    var segs := Segs(env, path);
    if Last(segs).None? then Err(NOT_A_MAPPING)
    else
      var parent := Resolve(env.c, doc, Front(segs));
      if parent.Some? && !parent.value.Obj? then Err(NOT_A_MAPPING)
      else
        match Delete(env.c, doc, segs)
        case None => Ok(doc)
        case Some(d) => Ok(d)
  }

  function HandleDefine(env: Env, doc: Value, path: Text): Out {
    var segs := Segs(env, path);
    if segs == [] || exists i | 0 <= i < |segs| :: !segs[i].Key? then Err(INVALID_PATH)
    else
      match Resolve(env.c, doc, Front(segs))
      case None => Err(PATH_NOT_FOUND)
      case Some(parent) =>
        if !parent.Obj? then Err(NOT_A_MAPPING)
        else if segs[|segs| - 1].value in parent.m then Err(ALREADY_EXISTS)
        else SetOr(env, doc, segs, Obj(map[]), INVALID_OP)
  }

  function HandleRename(env: Env, doc: Value, path: Text, to: Text): Out {
    var segs := Segs(env, path);
    if Resolve(env.c, doc, segs).None? then Err(PATH_NOT_FOUND)
    else if Last(segs).None? then Err(INVALID_PATH)
    else
      match Resolve(env.c, doc, Front(segs))
      case None => Err(INVALID_OP)
      case Some(parent) =>
        var from := Last(segs).value;
        if !parent.Obj? || from !in parent.m then Err(INVALID_OP)
        else if to in parent.m then Err(ALREADY_EXISTS)
        else SetOr(env, doc, Front(segs), Obj(Renamed(parent.m, from, to)), INVALID_OP)
  }

  function HandleMove(env: Env, doc: Value, from: Text, to: Text): Out {
    if to == from then Err(ALREADY_EXISTS)
    else if from + [SLASH] <= to then Err(INVALID_PATH)
    else
      match At(env, doc, from)
      case None => Err(PATH_NOT_FOUND)
      case Some(v) =>
        if At(env, doc, to).Some? then Err(ALREADY_EXISTS)
        else
          match Set(env.c, doc, Segs(env, to), v)
          case None => Err(INVALID_OP)
          case Some(d) =>
            match Delete(env.c, d, Segs(env, from))
            case None => Err(PATH_NOT_FOUND)
            case Some(d') => Ok(d')
  }

  function HandleClone(env: Env, doc: Value, from: Text, to: Text): Out {
    match At(env, doc, from)
    case None => Err(PATH_NOT_FOUND)
    case Some(v) =>
      if At(env, doc, to).Some? then Err(ALREADY_EXISTS) else SetOr(env, doc, Segs(env, to), v, INVALID_OP)
  }

  function HandleFold(env: Env, doc: Value, path: Text): Out {
    var segs := Segs(env, path);
    match Resolve(env.c, doc, segs)
    case None => Err(PATH_NOT_FOUND)
    case Some(v) =>
      if !v.Obj? || |v.m| != 1 then Err(NOT_FOLDABLE)
      else
        match Delete(env.c, doc, segs)
        case None => Err(NOT_FOLDABLE)
        case Some(d) =>
          SetOr(env, d, Front(segs) + [Key(OnlyKey(v.m))], v.m[OnlyKey(v.m)], INVALID_OP)
  }

  function HandleSequence(env: Env, doc: Value, op: Op, items: seq<Value>): Out
    requires OnSequence(op)
  {
    var segs := Segs(env, op.path);
    match op
    case Append(_, v) => SetOr(env, doc, segs, Arr(items + [v]), INVALID_OP)
    case Sort(_, field, desc) =>
      if !AllHaveKey(field, items) then Err(INVALID_OP)
      else SetOr(env, doc, segs, Arr(StableSort(Sorting(env.c, field, desc), items)), INVALID_OP)
    case UniqueOp(_, field) =>
      if !AllHaveKey(field, items) then Err(INVALID_OP)
      else SetOr(env, doc, segs, Arr(Unique(env.c, field, items)), INVALID_OP)
  }

  function HandleMapping(env: Env, doc: Value, op: Op, m: map<Text, Value>): Out
    requires OnMapping(op)
  {
    match op
    case Populate(path, values) => SetKeys(env, doc, path, values, INVALID_PATH)
    case Pick(path, keys) => SetOr(env, doc, Segs(env, path), Obj(Selected(m, keys)), INVALID_OP)
    case Omit(path, keys) => SetOr(env, doc, Segs(env, path), Obj(Without(m, keys)), INVALID_OP)
    case Nest(path, keys, under) =>
      if !AllIn(keys, m) then Err(NOT_SIBLINGS)
      else if under in m && under !in keys then Err(ALREADY_EXISTS)
      else SetOr(env, DeleteKeys(env, doc, path, keys), Segs(env, KeyPath(path, under)), Obj(Selected(m, keys)), INVALID_OP)
    case SplitOp(path, groups) =>
      var moved := Flatten(groups);
      if !NoRepeats(moved) then Err(INVALID_OP)
      else if !AllIn(moved, m) then Err(PATH_NOT_FOUND)
      else if exists i | 0 <= i < |groups| :: groups[i].0 in m && groups[i].0 !in moved then Err(ALREADY_EXISTS)
      else SetKeys(env, DeleteKeys(env, doc, path, moved), path, GroupValues(m, groups), INVALID_OP)
    case Merge(path, keys, into) =>
      if !AllIn(keys, m) then Err(NOT_SIBLINGS)
      else if !AllMappings(m, keys) then Err(NOT_A_MAPPING)
      else SetOr(env, DeleteKeys(env, doc, path, keys), Segs(env, KeyPath(path, into)), Obj(Merged(m, keys)), INVALID_OP)
  }

  predicate OnSequence(op: Op) { op.Append? || op.Sort? || op.UniqueOp? }

  predicate OnMapping(op: Op) {
    op.Populate? || op.Nest? || op.SplitOp? || op.Merge? || op.Pick? || op.Omit?
  }

  /** The handlers that first resolve their path and check what kind of value is there. */
  function HandleTarget(env: Env, doc: Value, op: Op): Out
    requires OnSequence(op) || OnMapping(op)
  {
    match At(env, doc, op.path)
    case None => Err(PATH_NOT_FOUND)
    case Some(v) =>
      if OnSequence(op) then
        if v.Arr? then HandleSequence(env, doc, op, v.items) else Err(NOT_A_SEQUENCE)
      else
        if v.Obj? then HandleMapping(env, doc, op, v.m) else Err(NOT_A_MAPPING)
  }

  /** The registered handler of an operation; the engine never hands it the last two. */
  function Handle(env: Env, doc: Value, op: Op): Out
  {
    match op
    case Malformed => Err(INVALID_OP)
    case Unregistered => Err(UNKNOWN_OP)
    case SetOp(path, v) => SetOr(env, doc, Segs(env, path), v, INVALID_PATH)
    case Unset(path) => HandleUnset(env, doc, path)
    case Assert(_, _, _, _) => HandleAssert(env, doc, op)
    case Define(path) => HandleDefine(env, doc, path)
    case Drop(path) =>
      (match Delete(env.c, doc, Segs(env, path))
       case None => Err(PATH_NOT_FOUND)
       case Some(d) => Ok(d))
    case Rename(path, to) => HandleRename(env, doc, path, to)
    case Move(from, to) => HandleMove(env, doc, from, to)
    case Clone(from, to) => HandleClone(env, doc, from, to)
    case Fold(path) => HandleFold(env, doc, path)
    case _ => HandleTarget(env, doc, op)
  }

  // ---------------------------------------------------------------- the engine

  /** The operation schema's length and presence conditions. */
  predicate SchemaOk(op: Op) {
    match op
    case Malformed => false
    case Unregistered => true
    case Rename(path, to) => path != [] && to != []
    case Move(from, to) => from != [] && to != []
    case Clone(from, to) => from != [] && to != []
    case Nest(_, _, under) => under != []
    case Merge(_, _, into) => into != []
    case SplitOp(_, _) => true
    case Pick(_, _) => true
    case Omit(_, _) => true
    case Assert(path, equals, exists', kind) => path != [] && (equals.Some? || exists'.Some? || kind.Some?)
    case _ => op.path != []
  }

  predicate StrictPath(path: Text) { TryParse(path).PathOk? }

  predicate PathsOk(op: Op) {
    match op
    case Move(from, to) => StrictPath(from) && StrictPath(to)
    case Clone(from, to) => StrictPath(from) && StrictPath(to)
    case Malformed => true
    case Unregistered => true
    case _ => StrictPath(op.path)
  }

  /** One pass of the engine loop: guards, path syntax, handler. */
  function Apply(env: Env, doc: Value, op: Op): Out {
    if op.Unregistered? then Err(UNKNOWN_OP)
    else if !SchemaOk(op) then Err(INVALID_OP)
    else if !PathsOk(op) then Err(INVALID_PATH)
    else Handle(env, doc, op)
  }

  /** `YOpsResult`: on failure `doc` is the original document. */
  datatype Run = Run(ok: bool, doc: Value, applied: nat, error: Option<Code>)

  function RunOps(env: Env, doc: Value, ops: seq<Op>): (r: Run)
    ensures r.ok <==> r.error.None?
    ensures r.applied <= |ops| && (r.ok <==> r.applied == |ops|)
    ensures !r.ok ==> r.doc == doc
    decreases |ops|
  {
    if ops == [] then Run(true, doc, 0, None)
    else
      match Apply(env, doc, ops[0])
      case Err(code) => Run(false, doc, 0, Some(code))
      case Ok(d) =>
        var rest := RunOps(env, d, ops[1..]);
        Run(rest.ok, if rest.ok then rest.doc else doc, rest.applied + 1, rest.error)
  }

  /** `applyYOps`: fail fast, and all or nothing. */
  method ApplyYOps(env: Env, doc: Value, ops: seq<Op>) returns (r: Run)
    ensures r == RunOps(env, doc, ops)
  {
    var original := doc;
    var current := original;
    ghost var all := RunOps(env, doc, ops);
    for i := 0 to |ops|
      invariant var rest := RunOps(env, current, ops[i..]);
        all == Run(rest.ok, if rest.ok then rest.doc else doc, rest.applied + i, rest.error)
    {
      assert ops[i..][0] == ops[i] && ops[i..][1..] == ops[i + 1..];
      match Apply(env, current, ops[i]) {
        case Err(code) => return Run(false, original, i, Some(code));
        case Ok(d) => current := d;
      }
    }
    return Run(true, current, |ops|, None);
  }

  /** Running two lists in a row is running their concatenation, and a failure anywhere
      restores the document the whole run started from. */
  lemma {:induction false} RunAppend(env: Env, doc: Value, xs: seq<Op>, ys: seq<Op>)
    ensures var first := RunOps(env, doc, xs);
      var second := RunOps(env, first.doc, ys);
      RunOps(env, doc, xs + ys) ==
        if !first.ok then first
        else Run(second.ok, if second.ok then second.doc else doc, |xs| + second.applied, second.error)
    decreases |xs|
  {
    if xs == [] {
      assert xs + ys == ys;
    } else {
      assert (xs + ys)[0] == xs[0] && (xs + ys)[1..] == xs[1..] + ys;
      if Apply(env, doc, xs[0]).Ok? {
        RunAppend(env, Apply(env, doc, xs[0]).doc, xs[1..], ys);
      }
    }
  }
}
