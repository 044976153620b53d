/** What the schema diff reports: exactly the paths that only one schema has, or at which
    they differ, in the order of their keys. */
module SchemaReports {
  import opened Text
  import opened Values
  import opened Grammar
  import opened OrderedJson
  import opened SchemaDiff
  import opened Protocol

  // ---------------------------------------------------------------- looking up

  /** The value under a list of keys. */
  function Lookup(j: Json, keys: seq<Text>): Option<Json> {
    if keys == [] then Some(j)
    else if j.JRecord? && keys[0] in j.fields then Lookup(j.fields[keys[0]], keys[1..])
    else None
  }

  predicate RecordAt(j: Json, keys: seq<Text>) { Lookup(j, keys).Some? && Lookup(j, keys).value.JRecord? }

  predicate TrueAt(j: Json, keys: seq<Text>) { Lookup(j, keys) == Some(JBool(true)) }

  /** Release metadata: one of the three keys where the path is still empty. */
  predicate IsMetadata(keys: seq<Text>) {
    keys != [] && PathOf(keys[..|keys| - 1]) == [] && keys[|keys| - 1] in {NAME, VERSION, DESCRIPTION}
  }

  /** The keys lead through records of both schemas, past no release metadata and past no
      `repeated` flag of a node that means the same in both. */
  predicate Reached(base: Json, target: Json, keys: seq<Text>) {
    && (forall n | 0 <= n < |keys| :: RecordAt(base, keys[..n]) && RecordAt(target, keys[..n]))
    && (forall n | 0 < n <= |keys| :: !IsMetadata(keys[..n]))
    && (forall n | 0 < n <= |keys| :: IsRepeatedFlag(PathOf(keys[..n])) ==> TrueAt(base, keys[..n]) != TrueAt(target, keys[..n]))
  }

  /** ADD: only the target has the keys. REMOVE: only the base has. CHANGE: both have, not
      both a record there, and with different texts. */
  predicate Differs(c: NumberCodec, base: Json, target: Json, keys: seq<Text>, kind: Kind) {
    var a, b := Lookup(base, keys), Lookup(target, keys);
    match kind
    case ADD => a.None? && b.Some?
    case REMOVE => a.Some? && b.None?
    case CHANGE => a.Some? && b.Some? && !(a.value.JRecord? && b.value.JRecord?) && Stringify(c, a.value) != Stringify(c, b.value)
  }

  predicate Reported(c: NumberCodec, base: Json, target: Json, keys: seq<Text>, kind: Kind) {
    Reached(base, target, keys) && Differs(c, base, target, keys, kind)
  }

  // ---------------------------------------------------------------- step by step

  /** The same below a prefix, by recursion. */
  predicate Below(c: NumberCodec, base: Json, target: Json, prefix: seq<Text>, rest: seq<Text>, kind: Kind)
    decreases |rest|
  {
    if rest == [] then kind == CHANGE && !(base.JRecord? && target.JRecord?) && !SameText(c, base, target)
    else
      && base.JRecord? && target.JRecord?
      && var key := rest[0];
      && !IsMetadata(prefix + [key])
      && (IsRepeatedFlag(PathOf(prefix + [key])) ==> IsTrue(base, key) != IsTrue(target, key))
      && if key in base.fields && key in target.fields then
           Below(c, base.fields[key], target.fields[key], prefix + [key], rest[1..], kind)
         else
           |rest| == 1 && ((kind == ADD && key in target.fields) || (kind == REMOVE && key in base.fields))
  }

  lemma PathOfMore(prefix: seq<Text>, key: Text)
    ensures PathOf(prefix + [key]) == ChildPath(PathOf(prefix), key)
    ensures IsMetadata(prefix + [key]) <==> PathOf(prefix) == [] && key in {NAME, VERSION, DESCRIPTION}
  {
    assert (prefix + [key])[..|prefix|] == prefix;
  }

  /** `Reached`, with the keys before already passed. */
  predicate ReachedFrom(base: Json, target: Json, prefix: seq<Text>, rest: seq<Text>) {
    && (forall n | 0 <= n < |rest| :: RecordAt(base, rest[..n]) && RecordAt(target, rest[..n]))
    && (forall n | 0 < n <= |rest| :: !IsMetadata(prefix + rest[..n]))
    && (forall n | 0 < n <= |rest| ::
          IsRepeatedFlag(PathOf(prefix + rest[..n])) ==> TrueAt(base, rest[..n]) != TrueAt(target, rest[..n]))
  }

  /** The clauses for one number of keys. */
  predicate Passes(base: Json, target: Json, prefix: seq<Text>, keys: seq<Text>) {
    && !IsMetadata(prefix + keys)
    && (IsRepeatedFlag(PathOf(prefix + keys)) ==> TrueAt(base, keys) != TrueAt(target, keys))
  }

  lemma ReachedAtEach(base: Json, target: Json, prefix: seq<Text>, rest: seq<Text>)
    ensures ReachedFrom(base, target, prefix, rest) <==>
      && (forall n | 0 <= n < |rest| :: RecordAt(base, rest[..n]) && RecordAt(target, rest[..n]))
      && (forall n | 0 < n <= |rest| :: Passes(base, target, prefix, rest[..n]))
  {
    hide IsMetadata, IsRepeatedFlag, TrueAt, RecordAt;
  }

  lemma LookupHead(j: Json, keys: seq<Text>)
    requires keys != [] && j.JRecord? && keys[0] in j.fields
    ensures Lookup(j, keys) == Lookup(j.fields[keys[0]], keys[1..])
  {}

  lemma LookupOne(j: Json, key: Text)
    requires j.JRecord?
    ensures Lookup(j, [key]) == if key in j.fields then Some(j.fields[key]) else None
  {
    assert [key][1..] == [];
    if key in j.fields {
      assert Lookup(j.fields[key], []) == Some(j.fields[key]);
    }
  }

  lemma FirstKey(base: Json, target: Json, prefix: seq<Text>, key: Text)
    requires base.JRecord? && target.JRecord?
    ensures TrueAt(base, [key]) == IsTrue(base, key) && TrueAt(target, [key]) == IsTrue(target, key)
    ensures Lookup(base, [key]).Some? <==> key in base.fields
    ensures Lookup(target, [key]).Some? <==> key in target.fields
  {
    LookupOne(base, key);
    LookupOne(target, key);
  }

  /** Past a key that both have. */
  lemma ReachedTail(base: Json, target: Json, prefix: seq<Text>, rest: seq<Text>)
    requires rest != [] && base.JRecord? && target.JRecord? && rest[0] in base.fields && rest[0] in target.fields
    ensures ReachedFrom(base, target, prefix, rest) <==>
      && Passes(base, target, prefix, [rest[0]])
      && ReachedFrom(base.fields[rest[0]], target.fields[rest[0]], prefix + [rest[0]], rest[1..])
  {
    hide IsMetadata, IsRepeatedFlag, Passes;
    var key, tail := rest[0], rest[1..];
    var a, b := base.fields[key], target.fields[key];
    ReachedAtEach(base, target, prefix, rest);
    ReachedAtEach(a, b, prefix + [key], tail);
    forall n | 0 < n <= |rest|
      ensures rest[..n][0] == key && rest[..n][1..] == tail[..n - 1]
      ensures RecordAt(base, rest[..n]) == RecordAt(a, tail[..n - 1]) && RecordAt(target, rest[..n]) == RecordAt(b, tail[..n - 1])
    {}
    assert rest[..0] == [] && rest[..1] == [key];
    forall n | 1 < n <= |rest|
      ensures Passes(base, target, prefix, rest[..n]) <==> Passes(a, b, prefix + [key], tail[..n - 1])
    {
      PassesTail(base, target, prefix, rest[..n]);
      assert rest[..n][1..] == tail[..n - 1];
    }
    if ReachedFrom(base, target, prefix, rest) {
      forall n | 0 <= n < |tail| ensures RecordAt(a, tail[..n]) && RecordAt(b, tail[..n]) {
        assert RecordAt(base, rest[..n + 1]) && RecordAt(target, rest[..n + 1]);
      }
      forall n | 0 < n <= |tail| ensures Passes(a, b, prefix + [key], tail[..n]) {
        assert Passes(base, target, prefix, rest[..n + 1]);
      }
    }
  }

  lemma PassesTail(base: Json, target: Json, prefix: seq<Text>, keys: seq<Text>)
    requires |keys| > 1 && base.JRecord? && target.JRecord? && keys[0] in base.fields && keys[0] in target.fields
    ensures Passes(base, target, prefix, keys) <==>
      Passes(base.fields[keys[0]], target.fields[keys[0]], prefix + [keys[0]], keys[1..])
  {
    hide IsMetadata, IsRepeatedFlag;
    assert prefix + keys == prefix + [keys[0]] + keys[1..];
  }

  /** Past a key that not both have there is nothing. */
  lemma ReachedLast(base: Json, target: Json, prefix: seq<Text>, rest: seq<Text>)
    requires rest != [] && base.JRecord? && target.JRecord? && !(rest[0] in base.fields && rest[0] in target.fields)
    ensures ReachedFrom(base, target, prefix, rest) <==> |rest| == 1 && Passes(base, target, prefix, [rest[0]])
  {
    hide IsMetadata, IsRepeatedFlag, Passes;
    ReachedAtEach(base, target, prefix, rest);
    FirstKey(base, target, prefix, rest[0]);
    assert rest[..0] == [] && rest[..1] == [rest[0]];
    if |rest| > 1 {
      assert !(RecordAt(base, rest[..1]) && RecordAt(target, rest[..1]));
    }
  }

  lemma {:induction false} BelowExactly(c: NumberCodec, base: Json, target: Json, prefix: seq<Text>, rest: seq<Text>, kind: Kind)
    ensures Below(c, base, target, prefix, rest, kind) <==> ReachedFrom(base, target, prefix, rest) && Differs(c, base, target, rest, kind)
    decreases |rest|
  {
    hide IsMetadata, IsRepeatedFlag;
    if rest != [] {
      if !(base.JRecord? && target.JRecord?) {
        assert rest[..0] == [] && !(RecordAt(base, rest[..0]) && RecordAt(target, rest[..0]));
      } else {
        var key := rest[0];
        FirstKey(base, target, prefix, key);
        if key in base.fields && key in target.fields {
          ReachedTail(base, target, prefix, rest);
          BelowExactly(c, base.fields[key], target.fields[key], prefix + [key], rest[1..], kind);
        } else {
          ReachedLast(base, target, prefix, rest);
          assert |rest| == 1 ==> rest == [key];
        }
      }
    }
  }

  lemma ReachedFromStart(base: Json, target: Json, keys: seq<Text>)
    ensures ReachedFrom(base, target, [], keys) <==> Reached(base, target, keys)
  {
    hide IsMetadata, IsRepeatedFlag, TrueAt, RecordAt;
    forall n | 0 <= n <= |keys| ensures [] + keys[..n] == keys[..n] {}
  }

  // ---------------------------------------------------------------- the diff with its keys

  datatype Report = Report(keys: seq<Text>, kind: Kind)

  /** The diff, each entry with the keys that lead there. */
  function Reports(c: NumberCodec, base: Json, target: Json, prefix: seq<Text>): seq<Report>
    decreases base, 2, 0
  {
    if base.JRecord? && target.JRecord? then
      ReportsIn(c, base, target, prefix, SortedKeys(ByCodeUnit, Compared(base, target, PathOf(prefix))))
    else if SameText(c, base, target) then []
    else [Report(prefix, CHANGE)]
  }

  function ReportsIn(c: NumberCodec, base: Json, target: Json, prefix: seq<Text>, keys: seq<Text>): seq<Report>
    requires base.JRecord? && target.JRecord?
    decreases base, 1, |keys|
  {
    if keys == [] then [] else ReportsAt(c, base, target, prefix, keys[0]) + ReportsIn(c, base, target, prefix, keys[1..])
  }

  function ReportsAt(c: NumberCodec, base: Json, target: Json, prefix: seq<Text>, key: Text): seq<Report>
    requires base.JRecord? && target.JRecord?
    decreases base, 0, 0
  {
    if IsRepeatedFlag(PathOf(prefix + [key])) && IsTrue(base, key) == IsTrue(target, key) then []
    else if key !in base.fields then [Report(prefix + [key], ADD)]
    else if key !in target.fields then [Report(prefix + [key], REMOVE)]
    else Reports(c, base.fields[key], target.fields[key], prefix + [key])
  }

  function Told(reports: seq<Report>): seq<Change> {
    seq(|reports|, i requires 0 <= i < |reports| => Change(reports[i].kind, PathOf(reports[i].keys)))
  }

  lemma ToldConcat(a: seq<Report>, b: seq<Report>)
    ensures Told(a + b) == Told(a) + Told(b)
  {}

  lemma ToldOne(r: Report)
    ensures Told([]) == [] && Told([r]) == [Change(r.kind, PathOf(r.keys))]
  {}

  lemma {:induction false} DiffIsTold(c: NumberCodec, base: Json, target: Json, prefix: seq<Text>)
    ensures Diff(c, base, target, PathOf(prefix)) == Told(Reports(c, base, target, prefix))
    decreases base, 1, 0
  {
    hide Told, IsRepeatedFlag;
    ToldOne(Report(prefix, CHANGE));
    if base.JRecord? && target.JRecord? {
      var compared := Compared(base, target, PathOf(prefix));
      DiffKeysAreTold(c, base, target, prefix, SortedKeys(ByCodeUnit, compared));
    }
  }

  lemma {:induction false} DiffKeysAreTold(c: NumberCodec, base: Json, target: Json, prefix: seq<Text>, keys: seq<Text>)
    requires base.JRecord? && target.JRecord? && forall k <- keys :: k in base.fields || k in target.fields
    ensures DiffKeys(c, base, target, PathOf(prefix), keys) == Told(ReportsIn(c, base, target, prefix, keys))
    decreases base, 0, |keys|
  {
    hide Told, IsRepeatedFlag, Diff;
    ToldOne(Report(prefix, CHANGE));
    if keys != [] {
      var key := keys[0];
      PathOfMore(prefix, key);
      ToldOne(Report(prefix + [key], ADD));
      ToldOne(Report(prefix + [key], REMOVE));
      if key in base.fields && key in target.fields {
        DiffIsTold(c, base.fields[key], target.fields[key], prefix + [key]);
      }
      DiffKeysAreTold(c, base, target, prefix, keys[1..]);
      ToldConcat(ReportsAt(c, base, target, prefix, key), ReportsIn(c, base, target, prefix, keys[1..]));
    }
  }

  // ---------------------------------------------------------------- what is reported

  /** The reports below a prefix. */
  lemma {:induction false} ReportsBelow(c: NumberCodec, base: Json, target: Json, prefix: seq<Text>, r: Report)
    ensures r in Reports(c, base, target, prefix) <==>
      prefix <= r.keys && Below(c, base, target, prefix, r.keys[|prefix|..], r.kind)
    decreases base, 2, 0
  {
    hide IsMetadata, IsRepeatedFlag;
    if base.JRecord? && target.JRecord? {
      var compared := Compared(base, target, PathOf(prefix));
      ReportsInBelow(c, base, target, prefix, SortedKeys(ByCodeUnit, compared), r);
      if prefix <= r.keys && |r.keys| > |prefix| {
        var key := r.keys[|prefix|];
        PathOfMore(prefix, key);
        assert r.keys[|prefix|..][0] == key;
      }
    } else {
      assert prefix <= r.keys && r.keys[|prefix|..] == [] ==> r.keys == prefix;
    }
  }

  /** One of these keys comes next. */
  lemma {:induction false} ReportsInBelow(c: NumberCodec, base: Json, target: Json, prefix: seq<Text>, keys: seq<Text>, r: Report)
    requires base.JRecord? && target.JRecord?
    requires forall k <- keys :: k in Compared(base, target, PathOf(prefix))
    ensures r in ReportsIn(c, base, target, prefix, keys) <==>
      prefix < r.keys && r.keys[|prefix|] in keys && Below(c, base, target, prefix, r.keys[|prefix|..], r.kind)
    decreases base, 1, |keys|
  {
    hide IsMetadata, IsRepeatedFlag, Below, Compared;
    if keys != [] {
      ReportsAtBelow(c, base, target, prefix, keys[0], r);
      ReportsInBelow(c, base, target, prefix, keys[1..], r);
    }
  }

  lemma {:induction false} ReportsAtBelow(c: NumberCodec, base: Json, target: Json, prefix: seq<Text>, key: Text, r: Report)
    requires base.JRecord? && target.JRecord? && key in Compared(base, target, PathOf(prefix))
    ensures r in ReportsAt(c, base, target, prefix, key) <==>
      prefix < r.keys && r.keys[|prefix|] == key && Below(c, base, target, prefix, r.keys[|prefix|..], r.kind)
    decreases base, 0, 0
  {
    hide IsMetadata, IsRepeatedFlag;
    PathOfMore(prefix, key);
    NextKey(prefix, key, r.keys);
    if key in base.fields && key in target.fields {
      ReportsBelow(c, base.fields[key], target.fields[key], prefix + [key], r);
    }
  }

  lemma NextKey(prefix: seq<Text>, key: Text, keys: seq<Text>)
    ensures prefix + [key] <= keys <==> prefix < keys && keys[|prefix|] == key
    ensures prefix + [key] <= keys ==> keys[|prefix|..][0] == key && keys[|prefix|..][1..] == keys[|prefix + [key]|..]
    ensures keys == prefix + [key] <==> prefix + [key] <= keys && |keys[|prefix|..]| == 1
  {}

  // ---------------------------------------------------------------- in the order of keys

  /** At the first key where the two differ the one has the key that comes first. */
  predicate KeysBefore(a: seq<Text>, b: seq<Text>) {
    exists n | 0 <= n < |a| && n < |b| :: a[..n] == b[..n] && ComesBefore(a[n], b[n])
  }

  predicate InKeyOrder(reports: seq<Report>) {
    forall i, j | 0 <= i < j < |reports| :: KeysBefore(reports[i].keys, reports[j].keys)
  }

  lemma KeysApart(prefix: seq<Text>, a: seq<Text>, b: seq<Text>)
    requires prefix < a && prefix < b && ComesBefore(a[|prefix|], b[|prefix|])
    ensures KeysBefore(a, b)
  {
    assert a[..|prefix|] == prefix && b[..|prefix|] == prefix;
  }

  lemma OrderConcat(a: seq<Report>, b: seq<Report>)
    requires InKeyOrder(a) && InKeyOrder(b)
    requires forall x, y | x in a && y in b :: KeysBefore(x.keys, y.keys)
    ensures InKeyOrder(a + b)
  {
    hide KeysBefore;
    var both := a + b;
    forall i, j | 0 <= i < j < |both| ensures KeysBefore(both[i].keys, both[j].keys) {
      if j < |a| {
        assert both[i] == a[i] && both[j] == a[j];
      } else if i >= |a| {
        assert both[i] == b[i - |a|] && both[j] == b[j - |a|];
      } else {
        assert both[i] in a && both[j] in b;
      }
    }
  }

  lemma {:induction false} ReportsInOrder(c: NumberCodec, base: Json, target: Json, prefix: seq<Text>)
    ensures InKeyOrder(Reports(c, base, target, prefix))
    decreases base, 1, 0
  {
    if base.JRecord? && target.JRecord? {
      var compared := Compared(base, target, PathOf(prefix));
      ListedInOrder(c, base, target, prefix, SortedKeys(ByCodeUnit, compared));
    }
  }

  lemma {:induction false} ListedInOrder(c: NumberCodec, base: Json, target: Json, prefix: seq<Text>, keys: seq<Text>)
    requires base.JRecord? && target.JRecord? && StrictlySorted(ByCodeUnit, keys)
    requires forall k <- keys :: k in Compared(base, target, PathOf(prefix))
    ensures InKeyOrder(ReportsIn(c, base, target, prefix, keys))
    decreases base, 0, |keys|
  {
    hide InKeyOrder, KeysBefore, Compared, Below, Lex, ComesBefore;
    EmptyInOrder();
    if keys != [] {
      var key, rest := keys[0], keys[1..];
      var first, more := ReportsAt(c, base, target, prefix, key), ReportsIn(c, base, target, prefix, rest);
      OneInOrder(Report(prefix + [key], ADD));
      OneInOrder(Report(prefix + [key], REMOVE));
      if key in base.fields && key in target.fields {
        ReportsInOrder(c, base.fields[key], target.fields[key], prefix + [key]);
      }
      SortedTail(keys);
      ListedInOrder(c, base, target, prefix, rest);
      forall x, y | x in first && y in more ensures KeysBefore(x.keys, y.keys) {
        ReportsAtBelow(c, base, target, prefix, key, x);
        ReportsInBelow(c, base, target, prefix, rest, y);
        KeyAfterHead(keys, y.keys[|prefix|]);
        LexExactly(key, y.keys[|prefix|]);
        KeysApart(prefix, x.keys, y.keys);
      }
      OrderConcat(first, more);
    }
  }

  lemma EmptyInOrder()
    ensures InKeyOrder([])
  {}

  lemma OneInOrder(r: Report)
    ensures InKeyOrder([r])
  {}

  lemma SortedTail(keys: seq<Text>)
    requires keys != [] && StrictlySorted(ByCodeUnit, keys)
    ensures StrictlySorted(ByCodeUnit, keys[1..])
  {
    assert forall i | 0 <= i < |keys[1..]| :: keys[1..][i] == keys[i + 1];
  }

  lemma KeyAfterHead(keys: seq<Text>, k: Text)
    requires keys != [] && StrictlySorted(ByCodeUnit, keys) && k in keys[1..]
    ensures Lex(keys[0], k) < 0
  {
    var i :| 0 <= i < |keys[1..]| && keys[1..][i] == k;
    assert keys[i + 1] == k;
    assert Before(ByCodeUnit, keys[0], keys[i + 1]);
  }

  // ---------------------------------------------------------------- the diff

  /** The diff is the list of all reports, in the order of their keys. */
  lemma DiffReports(c: NumberCodec, base: Json, target: Json) returns (reports: seq<Report>)
    ensures Diff(c, base, target, []) == Told(reports) && InKeyOrder(reports)
    ensures forall r :: r in reports <==> Reported(c, base, target, r.keys, r.kind)
  {
    hide IsMetadata, IsRepeatedFlag, Told, Below, InKeyOrder;
    reports := Reports(c, base, target, []);
    DiffIsTold(c, base, target, []);
    ReportsInOrder(c, base, target, []);
    forall r ensures r in reports <==> Reported(c, base, target, r.keys, r.kind) {
      ReportsBelow(c, base, target, [], r);
      assert r.keys[0..] == r.keys;
      BelowExactly(c, base, target, [], r.keys, r.kind);
      ReachedFromStart(base, target, r.keys);
    }
  }

  /** A change is in the diff exactly when some list of keys has that path and is reported
      so. */
  lemma DiffExactly(c: NumberCodec, base: Json, target: Json, kind: Kind, path: Text)
    ensures Change(kind, path) in Diff(c, base, target, []) <==> exists keys :: PathOf(keys) == path && Reported(c, base, target, keys, kind)
  {
    hide Reported;
    var reports := DiffReports(c, base, target);
    if Change(kind, path) in Diff(c, base, target, []) {
      var i :| 0 <= i < |reports| && Told(reports)[i] == Change(kind, path);
      assert reports[i] in reports;
    }
    if keys :| PathOf(keys) == path && Reported(c, base, target, keys, kind) {
      assert Report(keys, kind) in reports;
      var i :| 0 <= i < |reports| && reports[i] == Report(keys, kind);
      assert Told(reports)[i] == Change(kind, path);
    }
  }

  // ---------------------------------------------------------------- plain keys

  predicate PlainKeyList(keys: seq<Text>) { forall i | 0 <= i < |keys| :: keys[i] != [] && DotFree(keys[i]) }

  /** No key in the schema is empty or holds a dot. */
  predicate Plain(j: Json) {
    match j
    case JRecord(_, fields) => forall k <- fields :: k != [] && DotFree(k) && Plain(fields[k])
    case _ => true
  }

  lemma {:induction false} LookupIsPlain(j: Json, keys: seq<Text>)
    requires Plain(j) && Lookup(j, keys).Some?
    ensures PlainKeyList(keys)
    decreases |keys|
  {
    if keys != [] {
      LookupIsPlain(j.fields[keys[0]], keys[1..]);
      assert forall i | 0 < i < |keys| :: keys[i] == keys[1..][i - 1];
    }
  }

  lemma PlainPathsApart(a: seq<Text>, b: seq<Text>)
    requires PlainKeyList(a) && PlainKeyList(b) && PathOf(a) == PathOf(b)
    ensures a == b
  {
    if a != [] {
      PiecesAreKeys(a);
    }
    if b != [] {
      PiecesAreKeys(b);
    }
  }

  /** nodes.<key>(.children.<key>)*.repeated, of the keys themselves */
  predicate IsFlagKeys(keys: seq<Text>) {
    && |keys| >= 3 && |keys| % 2 == 1 && keys[0] == Ascii("nodes") && keys[|keys| - 1] == Ascii("repeated")
    && forall i | 0 < i < |keys| - 1 && i % 2 == 0 :: keys[i] == Ascii("children")
  }

  lemma NoKeysNoPath(keys: seq<Text>)
    requires |keys| <= 1
    ensures keys == [] ==> PathOf(keys) == [] && Pieces(PathOf(keys)) == [[]]
    ensures |keys| == 1 ==> PathOf(keys[..0]) == []
  {}

  lemma Spelled()
    ensures NODES == Ascii("nodes") && CHILDREN == Ascii("children") && REPEATED == Ascii("repeated")
    ensures NAME == Ascii("name") && VERSION == Ascii("version") && DESCRIPTION == Ascii("description")
  {}

  lemma PlainFlag(keys: seq<Text>)
    requires PlainKeyList(keys)
    ensures IsRepeatedFlag(PathOf(keys)) <==> IsFlagKeys(keys)
    ensures IsMetadata(keys) <==> |keys| == 1 && keys[0] in [Ascii("name"), Ascii("version"), Ascii("description")]
  {
    hide Ascii, Pieces, PathOf, DotFree;
    Spelled();
    if keys != [] {
      PiecesAreKeys(keys);
      if |keys| > 1 {
        PiecesAreKeys(keys[..|keys| - 1]);
      } else {
        NoKeysNoPath(keys);
      }
    } else {
      NoKeysNoPath(keys);
    }
  }

  /** The exclusions, of the keys themselves. */
  predicate NotExcluded(base: Json, target: Json, keys: seq<Text>) {
    && (keys != [] ==> keys[0] !in [Ascii("name"), Ascii("version"), Ascii("description")])
    && forall n | 0 < n <= |keys| :: IsFlagKeys(keys[..n]) ==> TrueAt(base, keys[..n]) != TrueAt(target, keys[..n])
  }

  predicate ThroughRecords(base: Json, target: Json, keys: seq<Text>) {
    forall n | 0 <= n < |keys| :: RecordAt(base, keys[..n]) && RecordAt(target, keys[..n])
  }

  lemma PlainReached(base: Json, target: Json, keys: seq<Text>)
    requires PlainKeyList(keys) && NotExcluded(base, target, keys)
    ensures Reached(base, target, keys) <==> ThroughRecords(base, target, keys)
  {
    hide IsMetadata, IsRepeatedFlag, IsFlagKeys, RecordAt, TrueAt;
    forall n | 0 < n <= |keys| ensures !IsMetadata(keys[..n]) && (IsRepeatedFlag(PathOf(keys[..n])) <==> IsFlagKeys(keys[..n])) {
      PlainFlag(keys[..n]);
    }
  }

  /** For schemas whose keys are neither empty nor dotted: below no release metadata and at
      or below no flag with one meaning, ADD, REMOVE and CHANGE are reported exactly where
      the path leads through records of both and only the target has it, only the base has
      it, or both have it and differ. */
  lemma PlainDiffExactly(c: NumberCodec, base: Json, target: Json, keys: seq<Text>, kind: Kind)
    requires Plain(base) && Plain(target) && PlainKeyList(keys) && NotExcluded(base, target, keys)
    ensures Change(kind, PathOf(keys)) in Diff(c, base, target, []) <==>
      ThroughRecords(base, target, keys) && Differs(c, base, target, keys, kind)
  {
    hide Reached, ThroughRecords, NotExcluded, Differs, Plain, PlainKeyList, PathOf, Diff;
    DiffExactly(c, base, target, kind, PathOf(keys));
    PlainReached(base, target, keys);
    if other :| PathOf(other) == PathOf(keys) && Reported(c, base, target, other, kind) {
      DiffersIsPlain(c, base, target, other, kind);
      PlainPathsApart(other, keys);
    }
  }

  lemma DiffersIsPlain(c: NumberCodec, base: Json, target: Json, keys: seq<Text>, kind: Kind)
    requires Plain(base) && Plain(target) && Differs(c, base, target, keys, kind)
    ensures PlainKeyList(keys)
  {
    if Lookup(base, keys).Some? {
      LookupIsPlain(base, keys);
    } else {
      LookupIsPlain(target, keys);
    }
  }
}
