/** The structural diff of two normalized schemas. */
module SchemaDiff {
  import opened Text
  import opened Values
  import opened Grammar
  import opened Canonical
  import opened OrderedJson

  datatype Kind = ADD | CHANGE | REMOVE

  datatype Change = Change(kind: Kind, path: Text)

  const DOT: CodeUnit := 0x2E
  const NAME: Text := [0x6E, 0x61, 0x6D, 0x65]
  const VERSION: Text := [0x76, 0x65, 0x72, 0x73, 0x69, 0x6F, 0x6E]
  const DESCRIPTION: Text := [0x64, 0x65, 0x73, 0x63, 0x72, 0x69, 0x70, 0x74, 0x69, 0x6F, 0x6E]
  const NODES: Text := [0x6E, 0x6F, 0x64, 0x65, 0x73]
  const CHILDREN: Text := [0x63, 0x68, 0x69, 0x6C, 0x64, 0x72, 0x65, 0x6E]
  const REPEATED: Text := [0x72, 0x65, 0x70, 0x65, 0x61, 0x74, 0x65, 0x64]

  predicate SameText(c: NumberCodec, a: Json, b: Json) { Stringify(c, a) == Stringify(c, b) }

  // ---------------------------------------------------------------- paths

  function ChildPath(path: Text, key: Text): Text { if path == [] then key else path + ([DOT] + key) }

  /** The text between dots. */
  function Pieces(path: Text): (pieces: seq<Text>)
    ensures pieces != []
  {
    if path == [] then [[]]
    else
      var more := Pieces(path[1..]);
      if path[0] == DOT then [[]] + more else [[path[0]] + more[0]] + more[1..]
  }

  /** nodes.<key>(.children.<key>)*.repeated */
  predicate IsRepeatedFlag(path: Text) {
    var p := Pieces(path);
    && |p| >= 3 && |p| % 2 == 1
    && p[0] == NODES && p[|p| - 1] == REPEATED
    && (forall i | 0 < i < |p| && i % 2 == 1 :: p[i] != [])
    && (forall i | 0 < i < |p| - 1 && i % 2 == 0 :: p[i] == CHILDREN)
  }

  predicate IsTrue(j: Json, key: Text)
    requires j.JRecord?
  {
    key in j.fields && j.fields[key] == JBool(true)
  }

  predicate DotFree(key: Text) { forall i | 0 <= i < |key| :: key[i] != DOT }

  lemma {:induction false} PiecesOfKey(key: Text)
    requires DotFree(key)
    ensures Pieces(key) == [key]
  {
    if key != [] {
      PiecesOfKey(key[1..]);
      assert [key[0]] + key[1..] == key;
    }
  }

  lemma {:induction false} PiecesOfChild(path: Text, key: Text)
    requires DotFree(key)
    ensures Pieces(path + ([DOT] + key)) == Pieces(path) + [key]
    decreases |path|
  {
    var whole := path + ([DOT] + key);
    if path == [] {
      assert whole == [DOT] + key && whole[1..] == key;
      PiecesOfKey(key);
    } else {
      assert whole[1..] == path[1..] + ([DOT] + key);
      PiecesOfChild(path[1..], key);
    }
  }

  function PathOf(keys: seq<Text>): Text {
    if keys == [] then [] else ChildPath(PathOf(keys[..|keys| - 1]), keys[|keys| - 1])
  }

  /** While no key on the way is empty or holds a dot, the pieces of a path are its keys:
      then the flag is the `repeated` of a node, and never a slot or node of that name. */
  lemma {:induction false} PiecesAreKeys(keys: seq<Text>)
    requires keys != [] && forall i | 0 <= i < |keys| :: keys[i] != [] && DotFree(keys[i])
    ensures PathOf(keys) != [] && Pieces(PathOf(keys)) == keys
    decreases |keys|
  {
    var n := |keys| - 1;
    if n == 0 {
      assert PathOf(keys) == keys[0] && keys == [keys[0]];
      PiecesOfKey(keys[0]);
    } else {
      PiecesAreKeys(keys[..n]);
      PiecesOfChild(PathOf(keys[..n]), keys[n]);
      assert keys == keys[..n] + [keys[n]];
    }
  }

  // ---------------------------------------------------------------- the diff

  function Compared(base: Json, target: Json, path: Text): set<Text>
    requires base.JRecord? && target.JRecord?
  {
    (base.fields.Keys + target.fields.Keys) - if path == [] then {NAME, VERSION, DESCRIPTION} else {}
  }

  function Diff(c: NumberCodec, base: Json, target: Json, path: Text): seq<Change>
    decreases base, 2, 0
  {
    if base.JRecord? && target.JRecord? then
      DiffKeys(c, base, target, path, SortedKeys(ByCodeUnit, Compared(base, target, path)))
    else if SameText(c, base, target) then []
    else [Change(CHANGE, path)]
  }

  function DiffKeys(c: NumberCodec, base: Json, target: Json, path: Text, keys: seq<Text>): seq<Change>
    requires base.JRecord? && target.JRecord?
    decreases base, 1, |keys|
  {
    if keys == [] then []
    else DiffProperty(c, base, target, keys[0], ChildPath(path, keys[0])) + DiffKeys(c, base, target, path, keys[1..])
  }

  function DiffProperty(c: NumberCodec, base: Json, target: Json, key: Text, path: Text): seq<Change>
    requires base.JRecord? && target.JRecord?
    decreases base, 0, 0
  {
    if IsRepeatedFlag(path) && IsTrue(base, key) == IsTrue(target, key) then []
    else if key !in base.fields then [Change(ADD, path)]
    else if key !in target.fields then [Change(REMOVE, path)]
    else Diff(c, base.fields[key], target.fields[key], path)
  }

  /** The array the source's functions push into. */
  class Changes {
    var list: seq<Change>

    constructor ()
      ensures list == []
    {
      list := [];
    }
  }

  method CompareValues(c: NumberCodec, base: Json, target: Json, path: Text, changes: Changes)
    modifies changes
    ensures changes.list == old(changes.list) + Diff(c, base, target, path)
    decreases base, 2, 0
  {
    if base.JRecord? && target.JRecord? {
      CompareKeys(c, base, target, path, SortedKeys(ByCodeUnit, Compared(base, target, path)), changes);
      return;
    }
    if !SameText(c, base, target) {
      changes.list := changes.list + [Change(CHANGE, path)];
    }
  }

  method CompareKeys(c: NumberCodec, base: Json, target: Json, path: Text, keys: seq<Text>, changes: Changes)
    requires base.JRecord? && target.JRecord?
    modifies changes
    ensures changes.list == old(changes.list) + DiffKeys(c, base, target, path, keys)
    decreases base, 1, 0
  {
    assert keys[0..] == keys;
    for i := 0 to |keys|
      invariant changes.list + DiffKeys(c, base, target, path, keys[i..]) == old(changes.list) + DiffKeys(c, base, target, path, keys)
    {
      assert keys[i..][0] == keys[i] && keys[i..][1..] == keys[i + 1..];
      Regrouped(changes.list, DiffProperty(c, base, target, keys[i], ChildPath(path, keys[i])), DiffKeys(c, base, target, path, keys[i + 1..]));
      CompareProperty(c, base, target, keys[i], ChildPath(path, keys[i]), changes);
    }
    assert keys[|keys|..] == [];
    assert changes.list + [] == changes.list;
  }

  lemma Regrouped(a: seq<Change>, b: seq<Change>, d: seq<Change>)
    ensures a + (b + d) == (a + b) + d
  {}

  method CompareProperty(c: NumberCodec, base: Json, target: Json, key: Text, path: Text, changes: Changes)
    requires base.JRecord? && target.JRecord?
    modifies changes
    ensures changes.list == old(changes.list) + DiffProperty(c, base, target, key, path)
    decreases base, 0, 0
  {
    if IsRepeatedFlag(path) && IsTrue(base, key) == IsTrue(target, key) {
      return;
    }
    if key !in base.fields {
      changes.list := changes.list + [Change(ADD, path)];
      return;
    }
    if key !in target.fields {
      changes.list := changes.list + [Change(REMOVE, path)];
      return;
    }
    CompareValues(c, base.fields[key], target.fields[key], path, changes);
  }

  method DiffYSchemas(c: NumberCodec, base: Json, target: Json) returns (r: seq<Change>)
    ensures r == Diff(c, base, target, [])
  {
    var changes := new Changes();
    CompareValues(c, base, target, [], changes);
    r := changes.list;
  }

  // ---------------------------------------------------------------- symmetry

  function Mirror(change: Change): Change {
    Change(match change.kind case ADD => REMOVE case REMOVE => ADD case CHANGE => CHANGE, change.path)
  }

  function MirrorAll(changes: seq<Change>): seq<Change> {
    seq(|changes|, i requires 0 <= i < |changes| => Mirror(changes[i]))
  }

  lemma MirrorConcat(a: seq<Change>, b: seq<Change>)
    ensures MirrorAll(a + b) == MirrorAll(a) + MirrorAll(b)
  {}

  /** Diffing the other way round gives the same entries in the same order, with ADD and
      REMOVE exchanged. */
  lemma {:induction false} DiffMirrored(c: NumberCodec, base: Json, target: Json, path: Text)
    ensures Diff(c, target, base, path) == MirrorAll(Diff(c, base, target, path))
    decreases base, 1, 0
  {
    if base.JRecord? && target.JRecord? {
      assert Compared(base, target, path) == Compared(target, base, path);
      DiffKeysMirrored(c, base, target, path, SortedKeys(ByCodeUnit, Compared(base, target, path)));
    }
  }

  lemma OneMirrored(path: Text)
    ensures MirrorAll([]) == []
    ensures MirrorAll([Change(ADD, path)]) == [Change(REMOVE, path)] && MirrorAll([Change(REMOVE, path)]) == [Change(ADD, path)]
  {}

  lemma {:induction false} DiffKeysMirrored(c: NumberCodec, base: Json, target: Json, path: Text, keys: seq<Text>)
    requires base.JRecord? && target.JRecord? && forall k <- keys :: k in base.fields || k in target.fields
    ensures DiffKeys(c, target, base, path, keys) == MirrorAll(DiffKeys(c, base, target, path, keys))
    decreases base, 0, |keys|
  {
    hide Diff, IsRepeatedFlag, MirrorAll;
    OneMirrored(path);
    if keys != [] {
      var key := keys[0];
      OneMirrored(ChildPath(path, key));
      if key in base.fields && key in target.fields {
        DiffMirrored(c, base.fields[key], target.fields[key], ChildPath(path, key));
      }
      DiffKeysMirrored(c, base, target, path, keys[1..]);
      MirrorConcat(DiffProperty(c, base, target, key, ChildPath(path, key)), DiffKeys(c, base, target, path, keys[1..]));
    }
  }

  // ---------------------------------------------------------------- when it is empty

  /** A schema with what the diff does not look at taken out. */
  datatype Normal = Leaf(text: Text) | Fields(m: map<Text, Normal>)

  /** Not release metadata of the root, and not a node's `repeated` that is not true. */
  predicate Counts(j: Json, key: Text, path: Text)
    requires j.JRecord?
  {
    && key in j.fields
    && (path == [] ==> key !in {NAME, VERSION, DESCRIPTION})
    && (IsRepeatedFlag(ChildPath(path, key)) ==> IsTrue(j, key))
  }

  function Normalized(c: NumberCodec, j: Json, path: Text): Normal
    decreases j
  {
    if j.JRecord? then
      Fields(map key | key in j.fields && Counts(j, key, path) :: Normalized(c, j.fields[key], ChildPath(path, key)))
    else Leaf(Stringify(c, j))
  }

  lemma {:induction false} QuotedStart(c: NumberCodec, j: Json)
    requires Lawful(c) && (j.JNum? ==> c.dom(j.r))
    ensures Stringify(c, j) != []
    ensures Stringify(c, j)[0] == 0x7B <==> j.JRecord?
    ensures Stringify(c, j)[0] == 0x74 <==> j == JBool(true)
  {
    if j.JNum? {
      NumberStart(c, j.r);
    }
  }

  lemma NumberStart(c: NumberCodec, r: real)
    requires Lawful(c) && c.dom(r)
    ensures c.show(r) != [] && (c.show(r)[0] == 0x2D || 0x30 <= c.show(r)[0] <= 0x39)
  {
    var n :| NumberOk(n) && NumberText(n) == c.show(r);
  }

  lemma TextTellsRecords(c: NumberCodec, a: Json, b: Json)
    requires Lawful(c) && NumbersFinite(c, a) && NumbersFinite(c, b) && SameText(c, a, b)
    ensures a.JRecord? == b.JRecord? && (a == JBool(true) <==> b == JBool(true))
  {
    QuotedStart(c, a);
    QuotedStart(c, b);
  }

  lemma {:induction false} DiffKeysEmpty(c: NumberCodec, base: Json, target: Json, path: Text, keys: seq<Text>)
    requires base.JRecord? && target.JRecord?
    ensures DiffKeys(c, base, target, path, keys) == [] <==>
      forall k | k in keys :: DiffProperty(c, base, target, k, ChildPath(path, k)) == []
    decreases |keys|
  {
    if keys != [] {
      DiffKeysEmpty(c, base, target, path, keys[1..]);
      HeadAndTailOf(keys);
    }
  }

  lemma FlagEmpty(c: NumberCodec, base: Json, target: Json, key: Text, path: Text)
    requires Lawful(c) && NumbersFinite(c, base) && NumbersFinite(c, target)
    requires base.JRecord? && target.JRecord? && IsRepeatedFlag(path)
    ensures DiffProperty(c, base, target, key, path) == [] <==> IsTrue(base, key) == IsTrue(target, key)
  {
    if IsTrue(base, key) != IsTrue(target, key) && key in base.fields && key in target.fields {
      if SameText(c, base.fields[key], target.fields[key]) {
        TextTellsRecords(c, base.fields[key], target.fields[key]);
      }
    }
  }

  /** One key adds nothing to the diff exactly when the normal forms have the same there. */
  predicate SameAt(c: NumberCodec, base: Json, target: Json, key: Text, path: Text)
    requires base.JRecord? && target.JRecord?
  {
    && (Counts(base, key, path) <==> Counts(target, key, path))
    && (Counts(base, key, path) && Counts(target, key, path) ==>
          Normalized(c, base.fields[key], ChildPath(path, key)) == Normalized(c, target.fields[key], ChildPath(path, key)))
  }

  lemma SameFields(c: NumberCodec, base: Json, target: Json, path: Text)
    requires base.JRecord? && target.JRecord?
    ensures Normalized(c, base, path) == Normalized(c, target, path) <==>
      forall key | key in Compared(base, target, path) :: SameAt(c, base, target, key, path)
  {
    hide IsRepeatedFlag, IsTrue, ChildPath;
    var a, b := Normalized(c, base, path).m, Normalized(c, target, path).m;
    assert forall key :: key in a <==> Counts(base, key, path);
    assert forall key :: key in b <==> Counts(target, key, path);
    if a == b {
      forall key | key in Compared(base, target, path) ensures SameAt(c, base, target, key, path) {
        assert key in a <==> key in b;
        assert key in a ==> a[key] == b[key];
      }
    }
    if forall key | key in Compared(base, target, path) :: SameAt(c, base, target, key, path) {
      forall key ensures (key in a <==> key in b) && (key in a && key in b ==> a[key] == b[key]) {
        if key in a || key in b {
          assert SameAt(c, base, target, key, path);
        }
      }
      assert a == b;
    }
  }

  lemma TrueIsTrue(c: NumberCodec, base: Json, target: Json, key: Text, path: Text)
    requires base.JRecord? && target.JRecord? && IsRepeatedFlag(ChildPath(path, key)) && key in Compared(base, target, path)
    ensures SameAt(c, base, target, key, path) <==> IsTrue(base, key) == IsTrue(target, key)
  {
    hide IsRepeatedFlag;
  }

  /** The diff is empty exactly when the two schemas have the same normal form. */
  lemma {:induction false} DiffEmptyExactly(c: NumberCodec, base: Json, target: Json, path: Text)
    requires Lawful(c) && NumbersFinite(c, base) && NumbersFinite(c, target)
    ensures Diff(c, base, target, path) == [] <==> Normalized(c, base, path) == Normalized(c, target, path)
    decreases base
  {
    if base.JRecord? && target.JRecord? {
      var compared := Compared(base, target, path);
      DiffKeysEmpty(c, base, target, path, SortedKeys(ByCodeUnit, compared));
      SameFields(c, base, target, path);
      forall k | k in compared
        ensures DiffProperty(c, base, target, k, ChildPath(path, k)) == [] <==> SameAt(c, base, target, k, path)
      {
        if IsRepeatedFlag(ChildPath(path, k)) {
          FlagEmpty(c, base, target, k, ChildPath(path, k));
          TrueIsTrue(c, base, target, k, path);
        } else if k in base.fields && k in target.fields {
          DiffEmptyExactly(c, base.fields[k], target.fields[k], ChildPath(path, k));
        }
      }
    } else if SameText(c, base, target) {
      TextTellsRecords(c, base, target);
    }
  }

  /** Schemas with an empty diff form equivalence classes. */
  lemma EmptyDiffIsAnEquivalence(c: NumberCodec, a: Json, b: Json, d: Json)
    requires Lawful(c) && NumbersFinite(c, a) && NumbersFinite(c, b) && NumbersFinite(c, d)
    ensures Diff(c, a, a, []) == []
    ensures Diff(c, a, b, []) == [] ==> Diff(c, b, a, []) == []
    ensures Diff(c, a, b, []) == [] && Diff(c, b, d, []) == [] ==> Diff(c, a, d, []) == []
  {
    DiffEmptyExactly(c, a, a, []);
    DiffEmptyExactly(c, a, b, []);
    DiffEmptyExactly(c, b, a, []);
    DiffEmptyExactly(c, b, d, []);
    DiffEmptyExactly(c, a, d, []);
  }
}
