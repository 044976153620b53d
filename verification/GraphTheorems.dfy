/** What the heap walk decides: which graphs have a canonical text, and which are cyclic. */
module GraphTheorems {
  import opened Text
  import opened Values
  import opened Grammar
  import opened Canonical
  import opened CanonicalGraph

  /** The graph below `value` unrolls to the finite value `v`, shared nodes once per use. */
  ghost predicate Represents(all: set<Node>, value: Ref, v: Value)
    reads all
    decreases v
  {
    match value
    case RNull => v == Null
    case RBool(b) => v == Bool(b)
    case RNum(r) => v == Num(r)
    case RStr(s) => v == Str(s)
    case RNode(n) =>
      n in all && n.plain && if n.isArray then ArrayOf(all, n, v) else RecordOf(all, n, v)
    case _ => false
  }

  ghost predicate ArrayOf(all: set<Node>, n: Node, v: Value)
    requires n in all
    reads all
    decreases v, 0
  {
    v.Arr? && |v.items| == |n.items| && forall i | 0 <= i < |v.items| :: Represents(all, n.items[i], v.items[i])
  }

  ghost predicate RecordOf(all: set<Node>, n: Node, v: Value)
    requires n in all
    reads all
    decreases v, 0
  {
    v.Obj? && v.m.Keys == n.entries.Keys && forall k <- v.m :: Represents(all, n.entries[k], v.m[k])
  }

  // ---------------------------------------------------------------- a text is a canonical text

  function Zip(ks: seq<Text>, vs: seq<Value>): map<Text, Value>
    requires |ks| == |vs|
  {
    if ks == [] then map[] else Zip(ks[1..], vs[1..])[ks[0] := vs[0]]
  }

  lemma {:induction false} ZipAt(ks: seq<Text>, vs: seq<Value>)
    requires |ks| == |vs| && Distinct(ks)
    ensures forall k :: k in Zip(ks, vs) <==> k in ks
    ensures forall i | 0 <= i < |ks| :: Zip(ks, vs)[ks[i]] == vs[i]
    decreases |ks|
  {
    if ks != [] {
      DistinctTail(ks);
      ZipAt(ks[1..], vs[1..]);
      HeadAndTailOf(ks);
      assert forall i | 0 < i < |ks| :: ks[i] == ks[1..][i - 1] && vs[i] == vs[1..][i - 1];
    }
  }

  function EntryTextOf(c: NumberCodec, k: Text, v: Value): Text { Quote(k) + ([0x3A] + Canon(c, ByCodeUnit, v)) }

  lemma {:induction false} EntriesOfMap(c: NumberCodec, v: Value, ks: seq<Text>, parts: seq<Text>)
    requires v.Obj? && (forall k <- ks :: k in v.m) && |parts| == |ks|
    requires forall i | 0 <= i < |ks| :: parts[i] == EntryTextOf(c, ks[i], v.m[ks[i]])
    ensures CanonEntries(c, ByCodeUnit, v, ks) == parts
    decreases |ks|
  {
    if ks != [] {
      EntriesOfMap(c, v, ks[1..], parts[1..]);
      assert parts == [parts[0]] + parts[1..];
    }
  }

  lemma {:induction false} TextIsCanonical(c: NumberCodec, all: set<Node>, value: Ref, ancestors: set<Node>) returns (v: Value)
    requires Closed(all) && Known(all, value) && GraphText(c, all, value, ancestors).Done?
    ensures Represents(all, value, v) && InDomain(c, v)
    ensures GraphText(c, all, value, ancestors).value == Canon(c, ByCodeUnit, v)
    decreases |all - ancestors|, 1, 0
  {
    match value {
      case RNull => v := Null;
      case RBool(b) => v := Bool(b);
      case RNum(r) => v := Num(r);
      case RStr(s) => v := Str(s);
      case RNode(n) =>
        FewerLeft(all, ancestors, n);
        if n.isArray {
          var vs := ItemsAreCanonical(c, all, n.items, ancestors + {n});
          v := Arr(vs);
        } else {
          v := RecordIsCanonical(c, all, n, ancestors + {n});
        }
    }
  }

  lemma {:induction false} ItemsAreCanonical(c: NumberCodec, all: set<Node>, items: seq<Ref>, ancestors: set<Node>) returns (vs: seq<Value>)
    requires Closed(all) && (forall r <- items :: Known(all, r)) && ItemTexts(c, all, items, ancestors).Done?
    ensures |vs| == |items| && forall i | 0 <= i < |vs| :: Represents(all, items[i], vs[i]) && InDomain(c, vs[i])
    ensures ItemTexts(c, all, items, ancestors).value == CanonItems(c, ByCodeUnit, vs)
    decreases |all - ancestors|, 2, |items|
  {
    if items == [] {
      vs := [];
    } else {
      var first := TextIsCanonical(c, all, items[0], ancestors);
      var rest := ItemsAreCanonical(c, all, items[1..], ancestors);
      vs := [first] + rest;
      assert vs[1..] == rest;
      assert forall i | 0 < i < |items| :: items[i] == items[1..][i - 1] && vs[i] == rest[i - 1];
    }
  }

  lemma {:induction false} EntriesAreCanonical(c: NumberCodec, all: set<Node>, n: Node, ks: seq<Text>, ancestors: set<Node>) returns (vs: seq<Value>)
    requires Closed(all) && n in all && (forall k <- ks :: k in n.entries) && EntryTexts(c, all, n, ks, ancestors).Done?
    ensures |vs| == |ks| && |EntryTexts(c, all, n, ks, ancestors).value| == |ks|
    ensures forall i | 0 <= i < |ks| ::
      && Represents(all, n.entries[ks[i]], vs[i]) && InDomain(c, vs[i]) && WellFormed(ks[i])
      && EntryTexts(c, all, n, ks, ancestors).value[i] == EntryTextOf(c, ks[i], vs[i])
    decreases |all - ancestors|, 3, |ks|
  {
    if ks == [] {
      vs := [];
    } else {
      var first := TextIsCanonical(c, all, n.entries[ks[0]], ancestors);
      var rest := EntriesAreCanonical(c, all, n, ks[1..], ancestors);
      vs := [first] + rest;
      assert forall i | 0 < i < |ks| :: ks[i] == ks[1..][i - 1] && vs[i] == rest[i - 1];
    }
  }

  lemma {:induction false} RecordIsCanonical(c: NumberCodec, all: set<Node>, n: Node, ancestors: set<Node>) returns (v: Value)
    requires Closed(all) && n in all && EntryTexts(c, all, n, SortedKeys(ByCodeUnit, n.entries.Keys), ancestors).Done?
    ensures RecordOf(all, n, v) && InDomain(c, v)
    ensures EntryTexts(c, all, n, SortedKeys(ByCodeUnit, n.entries.Keys), ancestors).value
      == CanonEntries(c, ByCodeUnit, v, SortedKeys(ByCodeUnit, v.m.Keys))
    decreases |all - ancestors|, 4, 0
  {
    var ks := SortedKeys(ByCodeUnit, n.entries.Keys);
    var vs := EntriesAreCanonical(c, all, n, ks, ancestors);
    KeysDistinct(ByCodeUnit, ks);
    ZipAt(ks, vs);
    v := Obj(Zip(ks, vs));
    assert v.m.Keys == n.entries.Keys;
    forall k | k in v.m ensures Represents(all, n.entries[k], v.m[k]) && InDomain(c, v.m[k]) && WellFormed(k) {
      var i :| 0 <= i < |ks| && ks[i] == k;
    }
    EntriesOfMap(c, v, ks, EntryTexts(c, all, n, ks, ancestors).value);
  }

  // ---------------------------------------------------------------- walks

  ghost predicate Edge(n: Node, m: Node)
    reads n
  {
    if n.isArray then RNode(m) in n.items else exists k :: k in n.entries && n.entries[k] == RNode(m)
  }

  ghost predicate Walk(all: set<Node>, older p: seq<Node>)
    reads all
  {
    p != [] && (forall i | 0 <= i < |p| :: p[i] in all) && forall i | 0 < i < |p| :: Edge(p[i - 1], p[i])
  }

  ghost predicate Repeats(p: seq<Node>) { exists i, j :: 0 <= i < j < |p| && p[i] == p[j] }

  /** Some walk from the value comes to a node twice. */
  ghost predicate ReachesCycle(all: set<Node>, value: Ref)
    reads all
  {
    value.RNode? && exists p :: Walk(all, p) && p[0] == value.n && Repeats(p)
  }

  lemma WalkTail(all: set<Node>, p: seq<Node>)
    requires Walk(all, p) && |p| > 1
    ensures Walk(all, p[1..]) && Edge(p[0], p[1])
  {
    assert forall i | 0 <= i < |p| - 1 :: p[1..][i] == p[i + 1];
  }

  lemma WalkPush(all: set<Node>, n: Node, p: seq<Node>)
    requires Walk(all, p) && n in all && Edge(n, p[0])
    ensures Walk(all, [n] + p)
    ensures Repeats(p) || p[|p| - 1] == n ==> Repeats([n] + p)
  {
    hide Edge;
    var q := [n] + p;
    assert forall i | 0 <= i < |p| :: q[i + 1] == p[i];
    forall i | 0 < i < |q| ensures Edge(q[i - 1], q[i]) {
      if i > 1 {
        assert Edge(p[i - 2], p[i - 1]);
      }
    }
    RepeatsPush(n, p);
  }

  lemma RepeatsPush(n: Node, p: seq<Node>)
    requires p != []
    ensures Repeats(p) || p[|p| - 1] == n ==> Repeats([n] + p)
  {
    var q := [n] + p;
    assert forall i | 0 <= i < |p| :: q[i + 1] == p[i];
    if Repeats(p) {
      var i, j :| 0 <= i < j < |p| && p[i] == p[j];
      assert q[i + 1] == q[j + 1];
    }
    if p[|p| - 1] == n {
      assert q[0] == q[|p|];
    }
  }

  // ---------------------------------------------------------------- cyclic has a cycle

  lemma {:induction false} CyclicHasWalk(c: NumberCodec, all: set<Node>, value: Ref, ancestors: set<Node>) returns (p: seq<Node>)
    requires Closed(all) && Known(all, value) && GraphText(c, all, value, ancestors).Cyclic?
    ensures value.RNode? && Walk(all, p) && p[0] == value.n
    ensures p[|p| - 1] in ancestors || Repeats(p)
    decreases |all - ancestors|, 1, 0
  {
    var n := value.n;
    if n in ancestors {
      p := [n];
    } else {
      FewerLeft(all, ancestors, n);
      var q := CyclicBelow(c, all, n, ancestors);
      WalkPush(all, n, q);
      p := [n] + q;
    }
  }

  lemma {:induction false} CyclicBelow(c: NumberCodec, all: set<Node>, n: Node, ancestors: set<Node>) returns (p: seq<Node>)
    requires Closed(all) && n in all && n !in ancestors && NodeText(c, all, n, ancestors).Cyclic?
    ensures Walk(all, p) && Edge(n, p[0])
    ensures p[|p| - 1] in ancestors + {n} || Repeats(p)
    decreases |all - ancestors|, 0, 0
  {
    FewerLeft(all, ancestors, n);
    if n.isArray {
      p := ItemsCyclic(c, all, n, n.items, ancestors + {n});
    } else {
      p := EntriesCyclic(c, all, n, SortedKeys(ByCodeUnit, n.entries.Keys), ancestors + {n});
    }
  }

  lemma {:induction false} ItemsCyclic(c: NumberCodec, all: set<Node>, n: Node, items: seq<Ref>, ancestors: set<Node>) returns (p: seq<Node>)
    requires Closed(all) && n in all && n.isArray && (forall r <- items :: r in n.items) && (forall r <- items :: Known(all, r))
    requires ItemTexts(c, all, items, ancestors).Cyclic?
    ensures Walk(all, p) && Edge(n, p[0]) && (p[|p| - 1] in ancestors || Repeats(p))
    decreases |all - ancestors|, 2, |items|
  {
    if GraphText(c, all, items[0], ancestors).Cyclic? {
      p := CyclicHasWalk(c, all, items[0], ancestors);
      assert items[0] in n.items;
    } else {
      p := ItemsCyclic(c, all, n, items[1..], ancestors);
    }
  }

  lemma {:induction false} EntriesCyclic(c: NumberCodec, all: set<Node>, n: Node, ks: seq<Text>, ancestors: set<Node>) returns (p: seq<Node>)
    requires Closed(all) && n in all && !n.isArray && forall k <- ks :: k in n.entries
    requires EntryTexts(c, all, n, ks, ancestors).Cyclic?
    ensures Walk(all, p) && Edge(n, p[0]) && (p[|p| - 1] in ancestors || Repeats(p))
    decreases |all - ancestors|, 3, |ks|
  {
    if EntryText(c, all, n, ks[0], ancestors).Cyclic? {
      p := CyclicHasWalk(c, all, n.entries[ks[0]], ancestors);
      assert ks[0] in n.entries && n.entries[ks[0]] == RNode(p[0]);
    } else {
      p := EntriesCyclic(c, all, n, ks[1..], ancestors);
    }
  }

  // ---------------------------------------------------------------- a text has no cycle

  lemma {:induction false} ItemDone(c: NumberCodec, all: set<Node>, items: seq<Ref>, ancestors: set<Node>, r: Ref)
    requires Closed(all) && (forall x <- items :: Known(all, x)) && r in items
    requires ItemTexts(c, all, items, ancestors).Done?
    ensures GraphText(c, all, r, ancestors).Done?
    decreases |items|
  {
    if r != items[0] {
      ItemDone(c, all, items[1..], ancestors, r);
    }
  }

  lemma {:induction false} EntryDone(c: NumberCodec, all: set<Node>, n: Node, ks: seq<Text>, ancestors: set<Node>, k: Text)
    requires Closed(all) && n in all && (forall x <- ks :: x in n.entries) && k in ks
    requires EntryTexts(c, all, n, ks, ancestors).Done?
    ensures GraphText(c, all, n.entries[k], ancestors).Done?
    decreases |ks|
  {
    if k != ks[0] {
      EntryDone(c, all, n, ks[1..], ancestors, k);
    }
  }

  lemma ChildDone(c: NumberCodec, all: set<Node>, n: Node, m: Node, ancestors: set<Node>)
    requires Closed(all) && n in all && m in all && Edge(n, m) && GraphText(c, all, RNode(n), ancestors).Done?
    ensures n !in ancestors && GraphText(c, all, RNode(m), ancestors + {n}).Done?
  {
    if n.isArray {
      ItemDone(c, all, n.items, ancestors + {n}, RNode(m));
    } else {
      var k :| k in n.entries && n.entries[k] == RNode(m);
      EntryDone(c, all, n, SortedKeys(ByCodeUnit, n.entries.Keys), ancestors + {n}, k);
    }
  }

  lemma {:induction false} TextHasNoRepeat(c: NumberCodec, all: set<Node>, ancestors: set<Node>, p: seq<Node>)
    requires Closed(all) && Walk(all, p) && GraphText(c, all, RNode(p[0]), ancestors).Done?
    ensures !Repeats(p) && forall i | 0 <= i < |p| :: p[i] !in ancestors
    decreases |p|
  {
    if |p| > 1 {
      WalkTail(all, p);
      ChildDone(c, all, p[0], p[1], ancestors);
      TextHasNoRepeat(c, all, ancestors + {p[0]}, p[1..]);
      assert forall i | 0 < i < |p| :: p[i] == p[1..][i - 1];
      forall i, j | 0 <= i < j < |p| ensures p[i] != p[j] {
        if i > 0 {
          assert p[1..][i - 1] != p[1..][j - 1];
        }
      }
    }
  }

  // ---------------------------------------------------------------- valid graphs

  predicate ValidRef(c: NumberCodec, r: Ref) {
    match r
    case RNum(x) => c.dom(x)
    case RStr(s) => WellFormed(s)
    case RNonFinite => false
    case ROther => false
    case _ => true
  }

  /** Nothing in the graph but a cycle could make the walk fail. */
  ghost predicate AllValid(c: NumberCodec, all: set<Node>)
    reads all
  {
    forall n <- all :: n.plain && (forall r <- n.items :: ValidRef(c, r))
      && forall k <- n.entries :: WellFormed(k) && ValidRef(c, n.entries[k])
  }

  lemma {:induction false} ValidIsNotInvalid(c: NumberCodec, all: set<Node>, value: Ref, ancestors: set<Node>)
    requires Closed(all) && Known(all, value) && AllValid(c, all) && ValidRef(c, value)
    ensures !GraphText(c, all, value, ancestors).Invalid?
    decreases |all - ancestors|, 1, 0
  {
    if value.RNode? && value.n !in ancestors {
      var n := value.n;
      FewerLeft(all, ancestors, n);
      if n.isArray {
        ValidItems(c, all, n.items, ancestors + {n});
      } else {
        ValidEntries(c, all, n, SortedKeys(ByCodeUnit, n.entries.Keys), ancestors + {n});
      }
    }
  }

  lemma {:induction false} ValidItems(c: NumberCodec, all: set<Node>, items: seq<Ref>, ancestors: set<Node>)
    requires Closed(all) && AllValid(c, all) && forall r <- items :: Known(all, r) && ValidRef(c, r)
    ensures !ItemTexts(c, all, items, ancestors).Invalid?
    decreases |all - ancestors|, 2, |items|
  {
    if items != [] {
      ValidIsNotInvalid(c, all, items[0], ancestors);
      ValidItems(c, all, items[1..], ancestors);
    }
  }

  lemma {:induction false} ValidEntries(c: NumberCodec, all: set<Node>, n: Node, ks: seq<Text>, ancestors: set<Node>)
    requires Closed(all) && AllValid(c, all) && n in all && forall k <- ks :: k in n.entries
    ensures !EntryTexts(c, all, n, ks, ancestors).Invalid?
    decreases |all - ancestors|, 3, |ks|
  {
    if ks != [] {
      ValidIsNotInvalid(c, all, n.entries[ks[0]], ancestors);
      ValidEntries(c, all, n, ks[1..], ancestors);
    }
  }

  /** On an otherwise valid graph the cyclic error is raised exactly when a cycle is
      reachable; sharing without a cycle is accepted. */
  lemma CyclicIffCycleReachable(c: NumberCodec, all: set<Node>, value: Ref)
    requires Closed(all) && Known(all, value) && AllValid(c, all) && ValidRef(c, value)
    ensures GraphText(c, all, value, {}).Cyclic? <==> ReachesCycle(all, value)
    ensures GraphText(c, all, value, {}).Done? <==> !ReachesCycle(all, value)
  {
    ValidIsNotInvalid(c, all, value, {});
    if GraphText(c, all, value, {}).Cyclic? {
      var p := CyclicHasWalk(c, all, value, {});
    }
    if ReachesCycle(all, value) && GraphText(c, all, value, {}).Done? {
      var p :| Walk(all, p) && p[0] == value.n && Repeats(p);
      TextHasNoRepeat(c, all, {}, p);
    }
  }

  // ---------------------------------------------------------------- exactly the finite values

  /** A node that represents a finite value lies on no cycle: walking around it would
      find the value inside itself. */
  lemma {:induction false} NoClosedWalk(all: set<Node>, v: Value, p: seq<Node>)
    requires Walk(all, p) && |p| > 1 && p[|p| - 1] == p[0]
    ensures !Represents(all, RNode(p[0]), v)
    decreases v
  {
    if Represents(all, RNode(p[0]), v) {
      var n, m := p[0], p[1];
      var q := Rotated(all, p);
      if n.isArray {
        assert ArrayOf(all, n, v);
        var i :| 0 <= i < |n.items| && n.items[i] == RNode(m);
        NoClosedWalk(all, v.items[i], q);
      } else {
        assert RecordOf(all, n, v);
        var k :| k in n.entries && n.entries[k] == RNode(m);
        NoClosedWalk(all, v.m[k], q);
      }
    }
  }

  lemma Rotated(all: set<Node>, p: seq<Node>) returns (q: seq<Node>)
    requires Walk(all, p) && |p| > 1 && p[|p| - 1] == p[0]
    ensures Walk(all, q) && |q| > 1 && q[0] == p[1] && q[|q| - 1] == q[0] && Edge(p[0], p[1])
  {
    WalkTail(all, p);
    q := p[1..] + [p[1]];
    forall i | 0 < i < |q| ensures Edge(q[i - 1], q[i]) {
      if i < |p| - 1 {
        assert q[i - 1] == p[i] && q[i] == p[i + 1];
      } else {
        assert q[i - 1] == p[|p| - 1];
      }
    }
  }

  lemma {:induction false} RepresentedHasNoRepeat(all: set<Node>, v: Value, p: seq<Node>)
    requires Walk(all, p) && Represents(all, RNode(p[0]), v)
    ensures !Repeats(p)
    decreases v
  {
    if Repeats(p) {
      var i, j :| 0 <= i < j < |p| && p[i] == p[j];
      if i == 0 {
        var q := p[..j + 1];
        assert forall a | 0 <= a < |q| :: q[a] == p[a];
        NoClosedWalk(all, v, q);
      } else {
        WalkTail(all, p);
        assert p[1..][i - 1] == p[1..][j - 1];
        var n, m := p[0], p[1];
        if n.isArray {
          var a :| 0 <= a < |n.items| && n.items[a] == RNode(m);
          RepresentedHasNoRepeat(all, v.items[a], p[1..]);
        } else {
          var k :| k in n.entries && n.entries[k] == RNode(m);
          RepresentedHasNoRepeat(all, v.m[k], p[1..]);
        }
      }
    }
  }

  lemma {:induction false} RepresentedIsNotInvalid(c: NumberCodec, all: set<Node>, value: Ref, v: Value, ancestors: set<Node>)
    requires Closed(all) && Known(all, value) && Represents(all, value, v) && InDomain(c, v)
    ensures !GraphText(c, all, value, ancestors).Invalid?
    decreases v, 1, 0
  {
    if value.RNode? && value.n !in ancestors {
      var n := value.n;
      if n.isArray {
        assert ArrayOf(all, n, v);
        RepresentedItems(c, all, n.items, v, 0, ancestors + {n});
        assert n.items[0..] == n.items;
      } else {
        RepresentedEntries(c, all, n, v, SortedKeys(ByCodeUnit, n.entries.Keys), ancestors + {n});
      }
    }
  }

  lemma {:induction false} RepresentedItems(c: NumberCodec, all: set<Node>, items: seq<Ref>, v: Value, i: nat, ancestors: set<Node>)
    requires Closed(all) && (forall r <- items :: Known(all, r)) && v.Arr? && InDomain(c, v)
    requires i <= |items| == |v.items| && forall j | i <= j < |items| :: Represents(all, items[j], v.items[j])
    ensures !ItemTexts(c, all, items[i..], ancestors).Invalid?
    decreases v, 0, |items| - i
  {
    if i < |items| {
      assert items[i..][0] == items[i] && items[i..][1..] == items[i + 1..];
      RepresentedIsNotInvalid(c, all, items[i], v.items[i], ancestors);
      RepresentedItems(c, all, items, v, i + 1, ancestors);
    }
  }

  lemma {:induction false} RepresentedEntries(c: NumberCodec, all: set<Node>, n: Node, v: Value, ks: seq<Text>, ancestors: set<Node>)
    requires Closed(all) && n in all && RecordOf(all, n, v) && InDomain(c, v) && forall k <- ks :: k in n.entries
    ensures !EntryTexts(c, all, n, ks, ancestors).Invalid?
    decreases v, 0, |ks|
  {
    if ks != [] {
      assert ks[0] in v.m;
      RepresentedIsNotInvalid(c, all, n.entries[ks[0]], v.m[ks[0]], ancestors);
      RepresentedEntries(c, all, n, v, ks[1..], ancestors);
    }
  }

  lemma {:induction false} OneRepresented(all: set<Node>, value: Ref, v: Value, w: Value)
    requires Represents(all, value, v) && Represents(all, value, w)
    ensures v == w
    decreases v
  {
    if value.RNode? {
      var n := value.n;
      if n.isArray {
        forall i | 0 <= i < |v.items| ensures v.items[i] == w.items[i] {
          OneRepresented(all, n.items[i], v.items[i], w.items[i]);
        }
        assert v.items == w.items;
      } else {
        forall k | k in v.m ensures v.m[k] == w.m[k] {
          OneRepresented(all, n.entries[k], v.m[k], w.m[k]);
        }
        assert v.m == w.m;
      }
    }
  }

  /** The walk yields a text exactly for the graphs that unroll to a finite value of the
      protocol domain, and the text is that value's canonical text. */
  lemma GraphTextExactly(c: NumberCodec, all: set<Node>, value: Ref, t: Text)
    requires Closed(all) && Known(all, value)
    ensures GraphText(c, all, value, {}) == Done(t) <==>
      exists v :: Represents(all, value, v) && InDomain(c, v) && t == Canon(c, ByCodeUnit, v)
  {
    if GraphText(c, all, value, {}) == Done(t) {
      var v := TextIsCanonical(c, all, value, {});
    }
    if v: Value :| Represents(all, value, v) && InDomain(c, v) && t == Canon(c, ByCodeUnit, v) {
      RepresentedIsNotInvalid(c, all, value, v, {});
      if GraphText(c, all, value, {}).Cyclic? {
        var p := CyclicHasWalk(c, all, value, {});
        RepresentedHasNoRepeat(all, v, p);
      }
      var w := TextIsCanonical(c, all, value, {});
      OneRepresented(all, value, v, w);
    }
  }
}
