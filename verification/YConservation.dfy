/** Mapping operations undone on whole documents, and what a path replacement does to one. */
module YConservation {
  import opened Text
  import opened Values
  import opened Grammar
  import opened YPath
  import opened YDoc
  import opened YOps
  import opened YRecipes
  import opened YCompiler
  import opened YMappings
  import opened YFold
  import opened YGlued

  lemma RunTwo(env: Env, doc: Value, first: Op, second: Op, middle: Value, last: Value)
    requires Apply(env, doc, first) == Ok(middle) && Apply(env, middle, second) == Ok(last)
    ensures RunOps(env, doc, [first, second]) == Run(true, last, 2, None)
  {
    RunOne(env, middle, second);
    assert [first, second][1..] == [second];
  }

  /** Setting a mapping away and back again is no change. */
  lemma SetAndBack(c: NumberCodec, doc: Value, segs: seq<Segment>, m: map<Text, Value>, m': map<Text, Value>)
    requires Resolve(c, doc, segs) == Some(Obj(m)) && KeepsTouched(segs, m, m')
    ensures Set(c, doc, segs, Obj(m')).Some?
    ensures Resolve(c, Set(c, doc, segs, Obj(m')).value, segs) == Some(Obj(m'))
    ensures Set(c, Set(c, doc, segs, Obj(m')).value, segs, Obj(m)) == Some(doc)
  {
    MappingKeepsMatches(c, doc, segs, m, m');
    SetMappingAgain(c, doc, segs, m, m', Obj(m));
    SetOfGet(c, doc, segs);
  }

  // ---------------------------------------------------------------- rename

  predicate EndsIn(env: Env, path: Text, front: seq<Segment>, k: Text) {
    path != [] && StrictPath(path) && Segs(env, path) == front + [Key(k)]
  }

  lemma RenameHandled(env: Env, doc: Value, path: Text, front: seq<Segment>, m: map<Text, Value>, from: Text, to: Text)
    requires EndsIn(env, path, front, from) && Resolve(env.c, doc, front) == Some(Obj(m)) && from in m
    ensures HandleRename(env, doc, path, to) ==
      if to in m then Err(ALREADY_EXISTS) else SetOr(env, doc, front, Obj(Renamed(m, from, to)), INVALID_OP)
  {
    ResolveBelow(env.c, doc, front, from);
    assert (front + [Key(from)])[..|front|] == front;
  }

  lemma RenameDispatch(env: Env, doc: Value, path: Text, to: Text)
    requires path != [] && StrictPath(path)
    ensures Apply(env, doc, Rename(path, to)) == if to == [] then Err(INVALID_OP) else HandleRename(env, doc, path, to)
  {
    hide HandleRename, StrictPath;
  }

  /** The first rename is one set of the parent. */
  lemma RenameIsSet(env: Env, doc: Value, path: Text, front: seq<Segment>, m: map<Text, Value>, from: Text, to: Text)
    requires EndsIn(env, path, front, from) && Resolve(env.c, doc, front) == Some(Obj(m)) && from in m && to !in m && to != []
    ensures Set(env.c, doc, front, Obj(Renamed(m, from, to))).Some?
    ensures Apply(env, doc, Rename(path, to)) == Ok(Set(env.c, doc, front, Obj(Renamed(m, from, to))).value)
  {
    hide HandleRename, StrictPath;
    RenameDispatch(env, doc, path, to);
    RenameHandled(env, doc, path, front, m, from, to);
    SetWhereResolved(env.c, doc, front, Obj(Renamed(m, from, to)));
  }

  /** Where the first rename took away the key that a match looks at, the second finds no
      parent, or one that still has that key, and fails. */
  lemma RenameLosesMatch(env: Env, doc: Value, path: Text, front: seq<Segment>, m: map<Text, Value>, from: Text, to: Text)
    requires EndsIn(env, path, front, to) && Resolve(env.c, doc, front) == Some(Obj(m)) && from in m && to !in m
    requires !Untouched(front, from) && Set(env.c, doc, front, Obj(Renamed(m, from, to))).Some?
    ensures HandleRename(env, Set(env.c, doc, front, Obj(Renamed(m, from, to))).value, path, from).Err?
  {
    var d := Set(env.c, doc, front, Obj(Renamed(m, from, to))).value;
    assert front + [Key(to)] != [] && (front + [Key(to)])[..|front|] == front;
    if Resolve(env.c, d, front + [Key(to)]).Some? {
      ParentOfResolvedKey(env.c, d, front + [Key(to)]);
      ResolvedKeepsMatches(env.c, d, front);
      var other := Resolve(env.c, d, front).value.m;
      assert from in other;
      ResolveBelow(env.c, d, front, to);
      RenameHandled(env, d, path, front, other, to, from);
    }
  }

  /** A rename to a new key is undone by the reverse rename, whatever the two paths look
      like, exactly when neither key is empty and the parent is not selected by a match on
      the renamed key. */
  lemma RenameUndoneOnDocument(env: Env, doc: Value, p: Text, q: Text, front: seq<Segment>, m: map<Text, Value>, from: Text, to: Text)
    requires EndsIn(env, p, front, from) && EndsIn(env, q, front, to)
    requires Resolve(env.c, doc, front) == Some(Obj(m)) && from in m && to !in m
    ensures RunOps(env, doc, [Rename(p, to), Rename(q, from)]) == Run(true, doc, 2, None)
      <==> from != [] && to != [] && Untouched(front, from)
  {
    hide EndsIn, Apply, HandleRename, StrictPath;
    var ops := [Rename(p, to), Rename(q, from)];
    assert ops[1..] == [Rename(q, from)];
    assert p != [] && StrictPath(p) && q != [] && StrictPath(q) by { EndsInIsStrict(env, p, front, from); EndsInIsStrict(env, q, front, to); }
    RenameDispatch(env, doc, p, to);
    if to != [] {
      RenameIsSet(env, doc, p, front, m, from, to);
      var d := Set(env.c, doc, front, Obj(Renamed(m, from, to))).value;
      RenameDispatch(env, d, q, from);
      RunOne(env, d, Rename(q, from));
      if from != [] && Untouched(front, from) {
        RenameBack(env, doc, q, front, m, from, to);
      } else if from != [] {
        RenameLosesMatch(env, doc, q, front, m, from, to);
      }
    }
  }

  lemma EndsInIsStrict(env: Env, path: Text, front: seq<Segment>, k: Text)
    requires EndsIn(env, path, front, k)
    ensures path != [] && StrictPath(path)
  {}

  lemma RenameBack(env: Env, doc: Value, q: Text, front: seq<Segment>, m: map<Text, Value>, from: Text, to: Text)
    requires EndsIn(env, q, front, to) && Resolve(env.c, doc, front) == Some(Obj(m)) && from in m && to !in m
    requires from != [] && Untouched(front, from) && Set(env.c, doc, front, Obj(Renamed(m, from, to))).Some?
    ensures Apply(env, Set(env.c, doc, front, Obj(Renamed(m, from, to))).value, Rename(q, from)) == Ok(doc)
  {
    var renamed := Renamed(m, from, to);
    RenameUndone(m, from, to);
    assert KeepsTouched(front, m, renamed);
    SetAndBack(env.c, doc, front, m, renamed);
    RenameIsSet(env, Set(env.c, doc, front, Obj(renamed)).value, q, front, renamed, to, from);
  }

  /** A rename that is not undone: the item was found by the entry that was renamed. */
  lemma RenameNotUndone(env: Env)
    ensures var doc := Arr([Obj(map[[0x69] := Str([0x31])])]);
      var there := Rename([0x5B, 0x69, 0x3D, 0x31, 0x5D, 0x2F, 0x69], [0x6E]);
      var back := Rename([0x5B, 0x69, 0x3D, 0x31, 0x5D, 0x2F, 0x6E], [0x69]);
      && Apply(env, doc, there) == Ok(Arr([Obj(map[[0x6E] := Str([0x31])])]))
      && RunOps(env, doc, [there, back]) == Run(false, doc, 1, Some(PATH_NOT_FOUND))
  {
    hide Apply, StrictPath, Set, Resolve;
    var item, renamed := Obj(map[[0x69] := Str([0x31])]), Obj(map[[0x6E] := Str([0x31])]);
    var front := [Match([0x69], [0x31])];
    var p, q := [LEFT, 0x69, EQUALS, 0x31, RIGHT, SLASH, 0x69], [LEFT, 0x69, EQUALS, 0x31, RIGHT, SLASH, 0x6E];
    BelowTheItem(0x69);
    BelowTheItem(0x6E);
    StrictlyEndsIn(env, p, front, [0x69]);
    StrictlyEndsIn(env, q, front, [0x6E]);
    TheItem(env.c);
    assert Renamed(item.m, [0x69], [0x6E]) == renamed.m;
    RenameIsSet(env, Arr([item]), p, front, item.m, [0x69], [0x6E]);
    RenameDispatch(env, Arr([renamed]), q, [0x69]);
    RunOne(env, Arr([renamed]), Rename(q, [0x69]));
    assert [Rename(p, [0x6E]), Rename(q, [0x69])][1..] == [Rename(q, [0x69])];
  }

  lemma StrictlyEndsIn(env: Env, path: Text, front: seq<Segment>, k: Text)
    requires path != [] && TryParse(path) == PathOk(front + [Key(k)])
    ensures EndsIn(env, path, front, k) && StrictPath(path)
  {}

  lemma TheItem(c: NumberCodec)
    ensures var item, renamed := Obj(map[[0x69] := Str([0x31])]), Obj(map[[0x6E] := Str([0x31])]);
      var front := [Match([0x69], [0x31])];
      && Resolve(c, Arr([item]), front) == Some(item) && Set(c, Arr([item]), front, renamed) == Some(Arr([renamed]))
      && Resolve(c, Arr([renamed]), front + [Key([0x6E])]) == None
  {
    var item, renamed, seg := Obj(map[[0x69] := Str([0x31])]), Obj(map[[0x6E] := Str([0x31])]), Match([0x69], [0x31]);
    assert [0x69][0] != [0x6E][0];
    assert [item][0] == item && ItemMatches(c, item, seg);
    assert [item][0 := renamed] == [renamed];
    assert [seg][1..] == [];
    assert !ItemMatches(c, [renamed][0], seg);
    assert ([seg] + [Key([0x6E])])[0] == seg;
  }

  /** The path `[i=1]/` followed by one letter. */
  lemma BelowTheItem(letter: CodeUnit)
    requires letter != SLASH && letter != QUOTE && letter != LEFT
    ensures TryParse([LEFT, 0x69, EQUALS, 0x31, RIGHT, SLASH, letter]) == PathOk([Match([0x69], [0x31]), Key([letter])])
  {
    var raw := [LEFT, 0x69, EQUALS, 0x31, RIGHT];
    var s := [LEFT, 0x69, EQUALS, 0x31, RIGHT, SLASH, letter];
    assert Inside(raw) == [0x69, EQUALS, 0x31];
    assert Until(EQUALS, [0x69, EQUALS, 0x31]) == 1;
    assert [0x69, EQUALS, 0x31][..1] == [0x69] && [0x69, EQUALS, 0x31][2..] == [0x31];
    assert !AllDigits(Inside(raw)) by { assert Inside(raw)[0] == 0x69; }
    assert ClassifyStrict(raw) == PathOk([Match([0x69], [0x31])]);
    var n := Until(SLASH, s);
    assert s[5] == SLASH && s[0] != SLASH && s[1] != SLASH && s[2] != SLASH && s[3] != SLASH && s[4] != SLASH;
    assert n == 5;
    assert s[..5] == raw && s[6..] == [letter];
    assert Until(SLASH, [letter]) == 1 && [letter][..1] == [letter];
    assert ReadSegments([letter], [Match([0x69], [0x31])]) == PathOk([Match([0x69], [0x31])] + [Key([letter])]);
    assert [] + [Match([0x69], [0x31])] == [Match([0x69], [0x31])];
  }

  /** A nest whose steps part: once the nested key is gone from the first item the match
      finds the second, and the wrapper is set there. */
  lemma NestCanLoseItsPlace(env: Env)
    ensures var item := Obj(map[[0x69] := Str([0x31])]);
      Apply(env, Arr([item, item]), Nest([LEFT, 0x69, EQUALS, 0x31, RIGHT], [[0x69]], [0x6E])) ==
        Ok(Arr([Obj(map[]), Obj(map[[0x69] := Str([0x31]), [0x6E] := item])]))
  {
    hide Apply, StrictPath, SetKeys, Segs;
    var item, seg := Obj(map[[0x69] := Str([0x31])]), Match([0x69], [0x31]);
    var path, keys := [LEFT, 0x69, EQUALS, 0x31, RIGHT], [[0x69]];
    var values := [([0x6E], Obj(Selected(item.m, keys)))];
    assert [0x69][0] != [0x6E][0];
    TheMatch(env);
    assert [item, item][0] == item && ItemMatches(env.c, item, seg);
    assert [seg][1..] == [];
    assert Step(env.c, Arr([item, item]), seg) == Some(item);
    assert Resolve(env.c, Arr([item, item]), [seg]) == Some(item);
    assert Selected(item.m, keys) == item.m;
    NestHandled(env, Arr([item, item]), path, item.m, [0x69], [0x6E]);
    TwoItems(env.c, item);
    assert keys[1..] == [] && values[1..] == [];
    assert DeleteKeys(env, Arr([item, item]), path, keys) == Arr([Obj(map[]), item]);
    OneEntry(env, Arr([Obj(map[]), item]), path, values, INVALID_OP);
  }

  lemma OneEntry(env: Env, doc: Value, path: Text, values: seq<(Text, Value)>, code: Code)
    requires |values| == 1
    ensures SetKeys(env, doc, path, values, code) == SetOr(env, doc, Segs(env, KeyPath(path, values[0].0)), values[0].1, code)
  {
    assert values[1..] == [];
  }

  lemma TheMatch(env: Env)
    ensures var path, seg := [LEFT, 0x69, EQUALS, 0x31, RIGHT], Match([0x69], [0x31]);
      && StrictPath(path) && Segs(env, path) == [seg]
      && Segs(env, KeyPath(path, [0x69])) == [seg, Key([0x69])] && Segs(env, KeyPath(path, [0x6E])) == [seg, Key([0x6E])]
  {
    var path := [LEFT, 0x69, EQUALS, 0x31, RIGHT];
    assert Inside(path) == [0x69, EQUALS, 0x31];
    assert [0x69, EQUALS, 0x31][..1] == [0x69] && [0x69, EQUALS, 0x31][2..] == [0x31];
    assert !AllDigits(Inside(path)) by { assert Inside(path)[0] == 0x69; }
    assert path[0] != SLASH && path[1] != SLASH && path[2] != SLASH && path[3] != SLASH && path[4] != SLASH;
    assert Until(SLASH, path) == 5 && path[..5] == path;
    BelowTheItem(0x69);
    BelowTheItem(0x6E);
    assert KeyPath(path, [0x69]) == [LEFT, 0x69, EQUALS, 0x31, RIGHT, SLASH, 0x69];
    assert KeyPath(path, [0x6E]) == [LEFT, 0x69, EQUALS, 0x31, RIGHT, SLASH, 0x6E];
  }

  lemma TwoItems(c: NumberCodec, item: Value)
    requires item == Obj(map[[0x69] := Str([0x31])])
    ensures var seg := Match([0x69], [0x31]);
      && Delete(c, Arr([item, item]), [seg, Key([0x69])]) == Some(Arr([Obj(map[]), item]))
      && Set(c, Arr([Obj(map[]), item]), [seg, Key([0x6E])], item) == Some(Arr([Obj(map[]), Obj(item.m[[0x6E] := item])]))
  {
    var seg := Match([0x69], [0x31]);
    assert [item, item][0] == item && ItemMatches(c, item, seg);
    assert Step(c, Arr([item, item]), seg) == Some(item);
    assert [seg, Key([0x69])][1..] == [Key([0x69])] && [seg, Key([0x6E])][1..] == [Key([0x6E])] && [Key([0x69])][1..] == [];
    assert item.m - {[0x69]} == map[];
    assert [item, item][0 := Obj(map[])] == [Obj(map[]), item];
    DeleteExactlyWhereResolved(c, item, [Key([0x69])]);
    DeleteExactlyWhereResolved(c, Arr([item, item]), [seg, Key([0x69])]);
    var rest := [Obj(map[]), item];
    assert !ItemMatches(c, rest[0], seg) && rest[1..] == [item];
    assert FindIndex(c, [item], seg) == 0;
    assert FindIndex(c, rest, seg) == 1;
    assert rest[1 := Obj(item.m[[0x6E] := item])] == [Obj(map[]), Obj(item.m[[0x6E] := item])];
  }

  // ---------------------------------------------------------------- nest, then fold

  /** The nest handler runs, as deletes and one set. */
  predicate NestRuns(path: Text, m: map<Text, Value>, k: Text, under: Text) {
    StrictPath(path) && under != [] && k in m && (under in m ==> under == k)
  }

  lemma NestHandled(env: Env, doc: Value, path: Text, m: map<Text, Value>, k: Text, under: Text)
    requires At(env, doc, path) == Some(Obj(m))
    ensures Apply(env, doc, Nest(path, [k], under)).Ok? ==> NestRuns(path, m, k, under)
    ensures NestRuns(path, m, k, under) ==>
      Apply(env, doc, Nest(path, [k], under)) ==
        SetKeys(env, DeleteKeys(env, doc, path, [k]), path, [(under, Obj(Selected(m, [k])))], INVALID_OP)
  {
    hide SetOr, SetKeys, DeleteKeys, Segs, Selected, StrictPath;
    var op := Nest(path, [k], under);
    assert [k][0] == k;
    assert Apply(env, doc, op).Ok? ==> Apply(env, doc, op) == HandleMapping(env, doc, op, m);
    assert NestRuns(path, m, k, under) ==> Apply(env, doc, op) == HandleMapping(env, doc, op, m);
    SetOrIsSetKeys(env, DeleteKeys(env, doc, path, [k]), path, under, Obj(Selected(m, [k])), INVALID_OP);
  }

  lemma FoldIsSet(env: Env, doc: Value, path: Text, m: map<Text, Value>, k: Text)
    requires Addresses(env, path, k) && At(env, doc, path) == Some(Obj(m)) && k in m && m[k].Obj? && |m[k].m| == 1
    ensures Set(env.c, doc, Segs(env, path), Obj(FoldTarget(m, k))).Some?
    ensures HandleFold(env, doc, KeyPath(path, k)) == Ok(Set(env.c, doc, Segs(env, path), Obj(FoldTarget(m, k))).value)
  {
    assert (Segs(env, path) + [Key(k)])[..|Segs(env, path)|] == Segs(env, path);
    NativeFold(env, doc, KeyPath(path, k), m, k);
  }

  lemma NestThenFoldRestores(env: Env, doc: Value, path: Text, m: map<Text, Value>, k: Text, under: Text)
    requires At(env, doc, path) == Some(Obj(m)) && Addresses(env, path, k) && Addresses(env, path, under)
    requires NestRuns(path, m, k, under) && StrictPath(KeyPath(path, under)) && Untouched(Segs(env, path), k)
    ensures RunOps(env, doc, [Nest(path, [k], under), Fold(KeyPath(path, under))]) == Run(true, doc, 2, None)
  {
    hide Addresses, StrictPath, SetKeys, DeleteKeys, HandleFold, Apply, FoldTarget;
    var segs := Segs(env, path);
    var nested := NestTarget(m, [k], under);
    NestHandled(env, doc, path, m, k, under);
    assert [k][0] == k;
    NestSets(env, doc, path, m, [k], under, INVALID_OP);
    NestThenFold(m, k, under);
    assert KeepsTouched(segs, m, nested);
    SetAndBack(env.c, doc, segs, m, nested);
    var d := Set(env.c, doc, segs, Obj(nested)).value;
    FoldIsSet(env, d, path, nested, under);
    FoldDispatch(env, d, KeyPath(path, under));
    RunTwo(env, doc, Nest(path, [k], under), Fold(KeyPath(path, under)), d, doc);
  }

  lemma FoldKeepsPlace(env: Env, d: Value, path: Text, k: Text, p: seq<Segment>)
    requires Addresses(env, path, k) && LeftByMatch(env.c, d, Segs(env, path), p)
    requires HandleFold(env, d, KeyPath(path, k)).Ok?
    ensures Resolve(env.c, HandleFold(env, d, KeyPath(path, k)).doc, p) == Resolve(env.c, d, p)
  {
    hide LeftByMatch;
    var segs := Segs(env, path);
    assert Front(segs + [Key(k)]) == segs;
    var wrapper := Resolve(env.c, d, segs + [Key(k)]).value.m;
    var child := OnlyKey(wrapper);
    DeleteBelowKeepsPlace(env.c, d, segs, p, k);
    SetBelowKeepsPlace(env.c, Delete(env.c, d, segs + [Key(k)]).value, segs, p, child, wrapper[child]);
  }

  /** Where the match that ends the path looks at the nested key, its item is left without
      that key for good. */
  lemma NestThenFoldLoses(env: Env, doc: Value, path: Text, m: map<Text, Value>, k: Text, under: Text)
    requires At(env, doc, path) == Some(Obj(m)) && Addresses(env, path, k) && Addresses(env, path, under)
    requires NestRuns(path, m, k, under) && !Untouched(Segs(env, path), k)
    requires Apply(env, doc, Nest(path, [k], under)).Ok?
    requires HandleFold(env, Apply(env, doc, Nest(path, [k], under)).doc, KeyPath(path, under)).Ok?
    ensures HandleFold(env, Apply(env, doc, Nest(path, [k], under)).doc, KeyPath(path, under)).doc != doc
  {
    hide Addresses, SetKeys, DeleteKeys, HandleFold, Apply, StrictPath;
    var segs, p := Segs(env, path), Concretize(env.c, doc, Segs(env, path));
    var values := [(under, Obj(Selected(m, [k])))];
    assert [k][0] == k;
    NestHandled(env, doc, path, m, k, under);
    DeleteLeavesBehind(env, doc, path, m, [k], k);
    SetKeysKeepPlace(env, DeleteKeys(env, doc, path, [k]), path, values, INVALID_OP, p);
    FoldKeepsPlace(env, Apply(env, doc, Nest(path, [k], under)).doc, path, under, p);
    ConcretizeSame(env.c, doc, segs, Null);
  }

  /** Nesting one key and folding the wrapper restores the document exactly when the nest
      runs, the wrapper's path is a strict one and the mapping is not selected by a match on
      the nested key. */
  lemma NestThenFoldOnDocument(env: Env, doc: Value, path: Text, m: map<Text, Value>, k: Text, under: Text)
    requires At(env, doc, path) == Some(Obj(m)) && Addresses(env, path, k) && Addresses(env, path, under)
    ensures RunOps(env, doc, [Nest(path, [k], under), Fold(KeyPath(path, under))]) == Run(true, doc, 2, None)
      <==> NestRuns(path, m, k, under) && StrictPath(KeyPath(path, under)) && Untouched(Segs(env, path), k)
  {
    hide NestRuns, StrictPath, Untouched, Addresses, HandleFold, Apply;
    if NestRuns(path, m, k, under) && StrictPath(KeyPath(path, under)) && Untouched(Segs(env, path), k) {
      NestThenFoldRestores(env, doc, path, m, k, under);
    } else if RunOps(env, doc, [Nest(path, [k], under), Fold(KeyPath(path, under))]).ok {
      PairRan(env, doc, Nest(path, [k], under), Fold(KeyPath(path, under)));
      NestHandled(env, doc, path, m, k, under);
      FoldDispatch(env, Apply(env, doc, Nest(path, [k], under)).doc, KeyPath(path, under));
      NestThenFoldLoses(env, doc, path, m, k, under);
    }
  }

  // ---------------------------------------------------------------- the general replacement recipe

  lemma PairRan(env: Env, doc: Value, first: Op, second: Op)
    requires RunOps(env, doc, [first, second]).ok
    ensures Apply(env, doc, first).Ok? && Apply(env, Apply(env, doc, first).doc, second).Ok?
    ensures RunOps(env, doc, [first, second]).doc == Apply(env, Apply(env, doc, first).doc, second).doc
  {
    hide Apply;
    assert [first, second][1..] == [second];
    if Apply(env, doc, first).Ok? {
      RunOne(env, Apply(env, doc, first).doc, second);
    }
  }

  /** What the path holds after the second operation, exactly: a value set keeps the
      matches, a key removed leaves no second item for a match on it to find. */
  predicate ReachesTarget(env: Env, doc: Value, path: Text, target: Option<Value>) {
    match target
    case Some(v) => MatchesKept(env.c, Segs(env, path), v)
    case None => !FoundAgain(env.c, doc, Segs(env, path))
  }

  /** Where a path replacement with something to do runs, the path held exactly the
      recorded base before, present or absent, and holds exactly the target after, if and
      only if its matches stay. */
  lemma PathReplacementReaches(env: Env, doc: Value, path: Text, base: Option<Value>, target: Option<Value>, ops: seq<Op>)
    requires Lawful(env.c) && Finite(env.c, doc) && (base.Some? ==> Finite(env.c, base.value))
    requires path != [] && StrictPath(path)
    requires PathReplacement(env, path, base, target) == Some(ops) && ops != [] && RunOps(env, doc, ops).ok
    ensures At(env, doc, path) == base
    ensures At(env, RunOps(env, doc, ops).doc, path) == target <==> ReachesTarget(env, doc, path, target)
  {
    var first := if base.Some? then AssertEquals(path, base.value) else AssertAbsent(path);
    var second := if target.Some? then SetOp(path, target.value) else Unset(path);
    assert ops == [first, second];
    PairRan(env, doc, first, second);
    GuardHolds(env, doc, path, base);
    if target.Some? {
      SetDispatch(env, doc, path, target.value);
      PutGetExactly(env.c, doc, Segs(env, path), target.value);
    } else {
      UnsetDispatch(env, doc, path);
      UnsetReaches(env, doc, path);
    }
  }

  lemma GuardHolds(env: Env, doc: Value, path: Text, base: Option<Value>)
    requires Lawful(env.c) && Finite(env.c, doc) && (base.Some? ==> Finite(env.c, base.value))
    requires path != [] && StrictPath(path)
    ensures var guard := if base.Some? then AssertEquals(path, base.value) else AssertAbsent(path);
      && (Apply(env, doc, guard).Ok? <==> At(env, doc, path) == base)
      && (Apply(env, doc, guard).Ok? ==> Apply(env, doc, guard).doc == doc)
  {
    if base.Some? {
      AssertApplies(env, doc, path, base.value);
    } else {
      AssertDispatch(env, doc, AssertAbsent(path));
    }
  }

  lemma UnsetReaches(env: Env, doc: Value, path: Text)
    requires HandleUnset(env, doc, path).Ok? && At(env, doc, path).Some?
    ensures At(env, HandleUnset(env, doc, path).doc, path) == None <==> !FoundAgain(env.c, doc, Segs(env, path))
  {
    var segs := Segs(env, path);
    DeleteExactlyWhereResolved(env.c, doc, segs);
    GetAfterDeleteExactly(env.c, doc, segs);
  }

  /** The last segment is the key an immediately preceding match looks at, and the array
      that the match selects from has a further item that matches. */
  predicate FoundAgain(c: NumberCodec, doc: Value, segs: seq<Segment>) {
    var n := |segs|;
    && n > 1 && segs[n - 1].Key? && segs[n - 2].Match? && segs[n - 2].key == segs[n - 1].value
    && var found := Resolve(c, doc, segs[..n - 2]);
    && found.Some? && found.value.Arr?
    && exists j | 0 <= j < |found.value.items| ::
         FindIndex(c, found.value.items, segs[n - 2]) < j && ItemMatches(c, found.value.items[j], segs[n - 2])
  }

  lemma FoundAgainTail(c: NumberCodec, doc: Value, segs: seq<Segment>)
    requires |segs| > 2 && Step(c, doc, segs[0]).Some?
    ensures FoundAgain(c, doc, segs) <==> FoundAgain(c, Step(c, doc, segs[0]).value, segs[1..])
  {
    hide Resolve;
    var n, below := |segs|, segs[1..];
    assert below[n - 2] == segs[n - 1] && below[n - 3] == segs[n - 2];
    assert Resolve(c, doc, segs[..n - 2]) == Resolve(c, Step(c, doc, segs[0]).value, below[..n - 3]) by {
      ResolveHead(c, doc, segs[..n - 2]);
      assert segs[..n - 2][1..] == below[..n - 3];
    }
  }

  lemma ResolveHead(c: NumberCodec, doc: Value, segs: seq<Segment>)
    requires segs != [] && Step(c, doc, segs[0]).Some?
    ensures Resolve(c, doc, segs) == Resolve(c, Step(c, doc, segs[0]).value, segs[1..])
  {
  }

  /** A deleted key is gone, on any path, unless a match on that key finds another item. */
  lemma {:induction false} GetAfterDeleteExactly(c: NumberCodec, doc: Value, segs: seq<Segment>)
    requires segs != [] && segs[|segs| - 1].Key? && Delete(c, doc, segs).Some?
    ensures Resolve(c, Delete(c, doc, segs).value, segs) == None <==> !FoundAgain(c, doc, segs)
    decreases |segs|
  {
    DeleteExactlyWhereResolved(c, doc, segs);
    if |segs| > 1 {
      var child := Step(c, doc, segs[0]).value;
      DeleteExactlyWhereResolved(c, child, segs[1..]);
      GetAfterDeleteExactly(c, child, segs[1..]);
      var child' := Delete(c, child, segs[1..]).value;
      if segs[0].Match? {
        DeletedBelowMatch(c, doc, segs);
      } else {
        PutPut(c, doc, segs[0], child', child);
        if |segs| > 2 {
          FoundAgainTail(c, doc, segs);
        }
      }
    }
  }

  /** A delete further below a matched item leaves it matching. */
  lemma DeleteFarBelow(c: NumberCodec, item: Value, seg: Segment, below: seq<Segment>)
    requires seg.Match? && ItemMatches(c, item, seg) && |below| > 1 && DeleteRecursive(c, item, below).Some?
    ensures ItemMatches(c, DeleteRecursive(c, item, below).value, seg)
  {
    assert below[0].Key? && below[0].value != seg.key;
  }

  lemma ResolveTwo(c: NumberCodec, doc: Value, segs: seq<Segment>)
    requires |segs| == 2
    ensures Resolve(c, doc, segs) == if Step(c, doc, segs[0]).None? then None else Step(c, Step(c, doc, segs[0]).value, segs[1])
  {
    if Step(c, doc, segs[0]).Some? {
      var child := Step(c, doc, segs[0]).value;
      assert segs[1..] == [segs[1]] && [segs[1]][1..] == [];
      assert Resolve(c, child, [segs[1]]) == Step(c, child, segs[1]);
    }
  }

  lemma DeletedBelowMatch(c: NumberCodec, doc: Value, segs: seq<Segment>)
    requires |segs| > 1 && segs[0].Match? && segs[|segs| - 1].Key? && Delete(c, doc, segs).Some?
    requires var child := Step(c, doc, segs[0]).value;
      Step(c, doc, segs[0]).Some? && Delete(c, child, segs[1..]).Some? &&
      (Resolve(c, Delete(c, child, segs[1..]).value, segs[1..]) == None <==> !FoundAgain(c, child, segs[1..]))
    ensures Resolve(c, Delete(c, doc, segs).value, segs) == None <==> !FoundAgain(c, doc, segs)
  {
    if |segs| > 2 {
      var items, seg, below := doc.items, segs[0], segs[1..];
      var i := FindIndex(c, items, seg);
      var child' := Delete(c, items[i], below).value;
      FindIndexAfterPut(c, items, seg, child');
      DeleteFarBelow(c, items[i], seg, below);
      assert Step(c, Arr(items[i := child']), seg) == Some(child');
      FoundAgainTail(c, doc, segs);
    } else {
      DeletedFromItem(c, doc, segs);
    }
  }

  /** The deleted key is one of the matched item's own. */
  lemma DeletedFromItem(c: NumberCodec, doc: Value, segs: seq<Segment>)
    requires |segs| == 2 && segs[0].Match? && segs[1].Key? && Delete(c, doc, segs).Some?
    ensures Resolve(c, Delete(c, doc, segs).value, segs) == None <==> !FoundAgain(c, doc, segs)
  {
    var items, seg, k := doc.items, segs[0], segs[1].value;
    var i := FindIndex(c, items, seg);
    var child' := Obj(items[i].m - {k});
    var after := Arr(items[i := child']);
    assert segs[..0] == [];
    ItemLost(c, doc, segs);
    ResolveTwo(c, after, segs);
    if k == seg.key {
      NextItem(c, items, seg, child');
    } else {
      FindIndexAfterPut(c, items, seg, child');
      assert Step(c, after, seg) == Some(child');
    }
  }

  lemma ItemLost(c: NumberCodec, doc: Value, segs: seq<Segment>)
    requires |segs| == 2 && segs[0].Match? && segs[1].Key? && Delete(c, doc, segs).Some?
    ensures doc.Arr? && FindIndex(c, doc.items, segs[0]) < |doc.items| && doc.items[FindIndex(c, doc.items, segs[0])].Obj?
    ensures var i := FindIndex(c, doc.items, segs[0]);
      Delete(c, doc, segs).value == Arr(doc.items[i := Obj(doc.items[i].m - {segs[1].value})])
  {
    assert segs[1..] == [segs[1]];
    DeleteExactlyWhereResolved(c, doc, segs);
  }

  /** Where the item found no longer matches, the match finds one exactly if there is one
      after it. */
  lemma NextItem(c: NumberCodec, items: seq<Value>, seg: Segment, x: Value)
    requires seg.Match? && FindIndex(c, items, seg) < |items| && !ItemMatches(c, x, seg)
    ensures var i := FindIndex(c, items, seg); var after := items[i := x];
      Step(c, Arr(after), seg).Some? <==> exists j | 0 <= j < |items| :: i < j && ItemMatches(c, items[j], seg)
    ensures var after := items[FindIndex(c, items, seg) := x];
      Step(c, Arr(after), seg).Some? ==> ItemMatches(c, Step(c, Arr(after), seg).value, seg)
  {
    var i := FindIndex(c, items, seg);
    var after := items[i := x];
    assert forall j | 0 <= j < |items| && j != i :: after[j] == items[j];
    if j :| 0 <= j < |items| && i < j && ItemMatches(c, items[j], seg) {
      assert ItemMatches(c, after[j], seg);
    }
  }
}
