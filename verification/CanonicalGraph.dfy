/** `canonicalJson` on the heap: an object graph that may share nodes or be cyclic, walked
    with a mutable set of the ancestors of the node at hand. */
module CanonicalGraph {
  import opened Text
  import opened Values
  import opened Grammar
  import opened Canonical

  /** `ROther` stands for undefined, functions, symbols and bigints. */
  datatype Ref = RNull | RBool(b: bool) | RNum(r: real) | RNonFinite | RStr(s: Text) | ROther | RNode(n: Node)

  /** An array or a record. `plain` tells that every property is an enumerable data
      property with a string key, the array has no holes, and the prototype is plain. */
  class Node {
    var isArray: bool
    var plain: bool
    var items: seq<Ref>
    var entries: map<Text, Ref>
  }

  class AncestorSet {
    var members: set<Node>

    constructor ()
      ensures members == {}
    {
      members := {};
    }
  }

  predicate Known(all: set<Node>, value: Ref) { value.RNode? ==> value.n in all }

  /** Every node reachable from `all` is in it. */
  ghost predicate Closed(all: set<Node>)
    reads all
  {
    forall n <- all :: (forall r <- n.items :: Known(all, r)) && (forall k <- n.entries :: Known(all, n.entries[k]))
  }

  // ---------------------------------------------------------------- what the walk yields

  /** Both failures are the non-canonical error; they are told apart by their branch. */
  datatype Outcome<+T> = Done(value: T) | Cyclic | Invalid

  /** The text of a value below the given ancestors. */
  ghost function GraphText(c: NumberCodec, all: set<Node>, value: Ref, ancestors: set<Node>): Outcome<Text>
    requires Closed(all) && Known(all, value)
    reads all
    decreases |all - ancestors|, 1, 0
  {
    match value
    case RNull => Done([0x6E, 0x75, 0x6C, 0x6C])
    case RBool(b) => Done(if b then [0x74, 0x72, 0x75, 0x65] else [0x66, 0x61, 0x6C, 0x73, 0x65])
    case RNum(r) => if c.dom(r) then Done(c.show(r)) else Invalid
    case RStr(s) => if WellFormed(s) then Done(Quote(s)) else Invalid
    case RNode(n) => if n in ancestors then Cyclic else NodeText(c, all, n, ancestors)
    case _ => Invalid
  }

  lemma FewerLeft(all: set<Node>, ancestors: set<Node>, n: Node)
    requires n in all && n !in ancestors
    ensures |all - (ancestors + {n})| < |all - ancestors|
  {
    assert all - ancestors == (all - (ancestors + {n})) + {n};
  }

  /** The node's text, with the node itself among the ancestors meanwhile. */
  ghost function NodeText(c: NumberCodec, all: set<Node>, n: Node, ancestors: set<Node>): Outcome<Text>
    requires Closed(all) && n in all && n !in ancestors
    reads all
    decreases |all - ancestors|, 0, 0
  {
    FewerLeft(all, ancestors, n);
    if !n.plain then Invalid
    else if n.isArray then Wrap([0x5B], ItemTexts(c, all, n.items, ancestors + {n}), [0x5D])
    else Wrap([0x7B], EntryTexts(c, all, n, SortedKeys(ByCodeUnit, n.entries.Keys), ancestors + {n}), [0x7D])
  }

  function Wrap(open: Text, parts: Outcome<seq<Text>>, close: Text): Outcome<Text> {
    match parts
    case Done(texts) => Done(open + (Join(texts) + close))
    case Cyclic => Cyclic
    case Invalid => Invalid
  }

  function Push(first: Outcome<Text>, rest: Outcome<seq<Text>>): Outcome<seq<Text>> {
    match first
    case Cyclic => Cyclic
    case Invalid => Invalid
    case Done(text) =>
      match rest
      case Cyclic => Cyclic
      case Invalid => Invalid
      case Done(texts) => Done([text] + texts)
  }

  ghost function ItemTexts(c: NumberCodec, all: set<Node>, items: seq<Ref>, ancestors: set<Node>): Outcome<seq<Text>>
    requires Closed(all) && forall r <- items :: Known(all, r)
    reads all
    decreases |all - ancestors|, 2, |items|
  {
    if items == [] then Done([])
    else Push(GraphText(c, all, items[0], ancestors), ItemTexts(c, all, items[1..], ancestors))
  }

  ghost function EntryText(c: NumberCodec, all: set<Node>, n: Node, k: Text, ancestors: set<Node>): Outcome<Text>
    requires Closed(all) && n in all && k in n.entries
    reads all
    decreases |all - ancestors|, 2, 0
  {
    if !WellFormed(k) then Invalid
    else
      match GraphText(c, all, n.entries[k], ancestors)
      case Done(text) => Done(Quote(k) + ([0x3A] + text))
      case Cyclic => Cyclic
      case Invalid => Invalid
  }

  ghost function EntryTexts(c: NumberCodec, all: set<Node>, n: Node, ks: seq<Text>, ancestors: set<Node>): Outcome<seq<Text>>
    requires Closed(all) && n in all && forall k <- ks :: k in n.entries
    reads all
    decreases |all - ancestors|, 3, |ks|
  {
    if ks == [] then Done([])
    else Push(EntryText(c, all, n, ks[0], ancestors), EntryTexts(c, all, n, ks[1..], ancestors))
  }

  // ---------------------------------------------------------------- the mutable walk

  function After(sofar: seq<Text>, rest: Outcome<seq<Text>>): Outcome<seq<Text>> {
    match rest
    case Done(texts) => Done(sofar + texts)
    case Cyclic => Cyclic
    case Invalid => Invalid
  }

  lemma AfterPush(sofar: seq<Text>, first: Outcome<Text>, rest: Outcome<seq<Text>>)
    ensures After(sofar, Push(first, rest)) == if first.Done? then After(sofar + [first.value], rest) else Push(first, rest)
  {
    if first.Done? && rest.Done? {
      assert sofar + ([first.value] + rest.value) == (sofar + [first.value]) + rest.value;
    }
  }

  lemma AfterNothing(sofar: seq<Text>, rest: Outcome<seq<Text>>)
    ensures After([], rest) == rest && After(sofar, Done([])) == Done(sofar)
  {
    if rest.Done? {
      assert [] + rest.value == rest.value;
    }
    assert sofar + [] == sofar;
  }

  /** Terminates on every finite graph, and leaves `ancestors` as it was on every exit. */
  method CanonicalJson(c: NumberCodec, ghost all: set<Node>, value: Ref, ancestors: AncestorSet) returns (r: Outcome<Text>)
    requires Closed(all) && Known(all, value)
    modifies ancestors
    ensures ancestors.members == old(ancestors.members)
    ensures r == GraphText(c, all, value, ancestors.members)
    decreases |all - ancestors.members|, 1, 0
  {
    match value {
      case RNull => return Done([0x6E, 0x75, 0x6C, 0x6C]);
      case RBool(b) => return Done(if b then [0x74, 0x72, 0x75, 0x65] else [0x66, 0x61, 0x6C, 0x73, 0x65]);
      case RNum(x) => return if c.dom(x) then Done(c.show(x)) else Invalid;
      case RStr(s) =>
        var wellFormed := CheckWellFormed(s);
        return if wellFormed then Done(Quote(s)) else Invalid;
      case RNode(n) =>
        if n in ancestors.members {
          return Cyclic;
        }
        r := CanonicalNode(c, all, n, ancestors);
      case _ => return Invalid;
    }
  }

  /** The node added to the ancestors, the try block, and the node taken out again. */
  method CanonicalNode(c: NumberCodec, ghost all: set<Node>, n: Node, ancestors: AncestorSet) returns (r: Outcome<Text>)
    requires Closed(all) && n in all && n !in ancestors.members
    modifies ancestors
    ensures ancestors.members == old(ancestors.members)
    ensures r == NodeText(c, all, n, ancestors.members)
    decreases |all - ancestors.members|, 0, 0
  {
    ghost var before := ancestors.members;
    FewerLeft(all, before, n);
    ancestors.members := ancestors.members + {n};
    r := TryNode(c, all, n, before, ancestors);
    ancestors.members := ancestors.members - {n};
    assert ancestors.members == before;
  }

  /** The try block. */
  method TryNode(c: NumberCodec, ghost all: set<Node>, n: Node, ghost before: set<Node>, ancestors: AncestorSet) returns (r: Outcome<Text>)
    requires Closed(all) && n in all && n !in before && ancestors.members == before + {n}
    modifies ancestors
    ensures ancestors.members == old(ancestors.members)
    ensures r == NodeText(c, all, n, before)
    decreases |all - ancestors.members|, 4, 0
  {
    if !n.plain {
      return Invalid;
    }
    if n.isArray {
      var items := CanonicalItems(c, all, n.items, ancestors);
      return Wrap([0x5B], items, [0x5D]);
    }
    var entries := CanonicalEntries(c, all, n, SortedKeys(ByCodeUnit, n.entries.Keys), ancestors);
    return Wrap([0x7B], entries, [0x7D]);
  }

  method CanonicalItems(c: NumberCodec, ghost all: set<Node>, items: seq<Ref>, ancestors: AncestorSet) returns (r: Outcome<seq<Text>>)
    requires Closed(all) && forall v <- items :: Known(all, v)
    modifies ancestors
    ensures ancestors.members == old(ancestors.members)
    ensures r == ItemTexts(c, all, items, ancestors.members)
    decreases |all - ancestors.members|, 2, 0
  {
    var parts: seq<Text> := [];
    var index := 0;
    AfterNothing([], ItemTexts(c, all, items, ancestors.members));
    assert items[0..] == items;
    while index < |items|
      invariant 0 <= index <= |items|
      invariant ancestors.members == old(ancestors.members)
      invariant ItemTexts(c, all, items, ancestors.members) == After(parts, ItemTexts(c, all, items[index..], ancestors.members))
    {
      var rest := items[index..];
      assert rest[0] == items[index] && rest[1..] == items[index + 1..];
      AfterPush(parts, GraphText(c, all, rest[0], ancestors.members), ItemTexts(c, all, rest[1..], ancestors.members));
      var text := CanonicalJson(c, all, items[index], ancestors);
      if !text.Done? {
        return if text.Cyclic? then Cyclic else Invalid;
      }
      parts := parts + [text.value];
      index := index + 1;
    }
    assert items[index..] == [];
    AfterNothing(parts, Done([]));
    r := Done(parts);
  }

  method CanonicalEntry(c: NumberCodec, ghost all: set<Node>, n: Node, k: Text, ancestors: AncestorSet) returns (r: Outcome<Text>)
    requires Closed(all) && n in all && k in n.entries
    modifies ancestors
    ensures ancestors.members == old(ancestors.members)
    ensures r == EntryText(c, all, n, k, ancestors.members)
    decreases |all - ancestors.members|, 2, 0
  {
    var wellFormed := CheckWellFormed(k);
    if !wellFormed {
      return Invalid;
    }
    var text := CanonicalJson(c, all, n.entries[k], ancestors);
    if !text.Done? {
      return text;
    }
    return Done(Quote(k) + ([0x3A] + text.value));
  }

  method CanonicalEntries(c: NumberCodec, ghost all: set<Node>, n: Node, ks: seq<Text>, ancestors: AncestorSet) returns (r: Outcome<seq<Text>>)
    requires Closed(all) && n in all && forall k <- ks :: k in n.entries
    modifies ancestors
    ensures ancestors.members == old(ancestors.members)
    ensures r == EntryTexts(c, all, n, ks, ancestors.members)
    decreases |all - ancestors.members|, 3, 0
  {
    var parts: seq<Text> := [];
    var index := 0;
    AfterNothing([], EntryTexts(c, all, n, ks, ancestors.members));
    assert ks[0..] == ks;
    while index < |ks|
      invariant 0 <= index <= |ks|
      invariant ancestors.members == old(ancestors.members)
      invariant EntryTexts(c, all, n, ks, ancestors.members) == After(parts, EntryTexts(c, all, n, ks[index..], ancestors.members))
    {
      var rest := ks[index..];
      var k := ks[index];
      assert rest[0] == k && rest[1..] == ks[index + 1..];
      AfterPush(parts, EntryText(c, all, n, k, ancestors.members), EntryTexts(c, all, n, rest[1..], ancestors.members));
      var text := CanonicalEntry(c, all, n, k, ancestors);
      if !text.Done? {
        return if text.Cyclic? then Cyclic else Invalid;
      }
      parts := parts + [text.value];
      index := index + 1;
    }
    assert ks[index..] == [];
    AfterNothing(parts, Done([]));
    r := Done(parts);
  }
}
