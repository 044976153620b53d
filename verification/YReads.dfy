/** What paths find in a document, said of the document alone: reading, and where a set or
    a delete takes effect. */
module YReads {
  import opened Text
  import opened Values
  import opened Canonical
  import opened YPath
  import opened YDoc

  // ---------------------------------------------------------------- one segment

  /** `[k=expected]` finds the string itself, and the number or boolean that is written so. */
  predicate IsWritten(c: NumberCodec, member: Value, expected: Text) {
    member == Str(expected) || ((member.Num? || member.Bool?) && Canon(c, ByCodePoint, member) == expected)
  }

  predicate IsFound(c: NumberCodec, item: Value, k: Text, expected: Text) {
    item.Obj? && k in item.m && IsWritten(c, item.m[k], expected)
  }

  predicate IsFirst(c: NumberCodec, items: seq<Value>, i: nat, k: Text, expected: Text)
    requires i < |items|
  {
    IsFound(c, items[i], k, expected) && forall j | 0 <= j < i :: !IsFound(c, items[j], k, expected)
  }

  /** An item matches exactly when it is a mapping whose member is the text expected, or a
      number or boolean with that canonical text. */
  lemma MatchFinds(c: NumberCodec, item: Value, seg: Segment)
    requires seg.Match?
    ensures ItemMatches(c, item, seg) <==> IsFound(c, item, seg.key, seg.expected)
  {}

  /** The segment leads from the value to its child. */
  predicate LeadsTo(c: NumberCodec, v: Value, seg: Segment, child: Value) {
    match seg
    case Key(k) => v.Obj? && k in v.m && child == v.m[k]
    case Index(n) => v.Arr? && n < |v.items| && child == v.items[n]
    case Match(k, expected) => v.Arr? && exists i | 0 <= i < |v.items| :: IsFirst(c, v.items, i, k, expected) && child == v.items[i]
  }

  lemma FirstIsFound(c: NumberCodec, items: seq<Value>, seg: Segment)
    requires seg.Match?
    ensures var i := FindIndex(c, items, seg); i < |items| ==> IsFirst(c, items, i, seg.key, seg.expected)
    ensures forall i | 0 <= i < |items| :: IsFirst(c, items, i, seg.key, seg.expected) ==> i == FindIndex(c, items, seg)
  {
    forall i | 0 <= i < |items| ensures ItemMatches(c, items[i], seg) <==> IsFound(c, items[i], seg.key, seg.expected) {
      MatchFinds(c, items[i], seg);
    }
  }

  lemma StepExactly(c: NumberCodec, v: Value, seg: Segment, child: Value)
    ensures Step(c, v, seg) == Some(child) <==> LeadsTo(c, v, seg, child)
  {
    hide IsFirst;
    if v.Arr? && seg.Match? {
      FirstIsFound(c, v.items, seg);
    }
  }

  // ---------------------------------------------------------------- reading

  /** The values met on the way. */
  predicate IsTrail(c: NumberCodec, segs: seq<Segment>, trail: seq<Value>) {
    |trail| == |segs| + 1 && forall i | 0 <= i < |segs| :: LeadsTo(c, trail[i], segs[i], trail[i + 1])
  }

  /** A path reads a value exactly when there is a trail from the document to it. */
  lemma {:induction false} ReadsExactly(c: NumberCodec, doc: Value, segs: seq<Segment>, v: Value)
    ensures Resolve(c, doc, segs) == Some(v) <==> exists trail :: IsTrail(c, segs, trail) && trail[0] == doc && trail[|segs|] == v
    decreases |segs|
  {
    hide LeadsTo;
    if segs == [] {
      assert IsTrail(c, segs, [doc]);
    } else {
      var rest := segs[1..];
      if trail :| IsTrail(c, segs, trail) && trail[0] == doc && trail[|segs|] == v {
        StepExactly(c, doc, segs[0], trail[1]);
        TrailTail(c, segs, trail);
        ReadsExactly(c, trail[1], rest, v);
      }
      if Resolve(c, doc, segs) == Some(v) {
        var child := Step(c, doc, segs[0]).value;
        StepExactly(c, doc, segs[0], child);
        ReadsExactly(c, child, rest, v);
        var trail :| IsTrail(c, rest, trail) && trail[0] == child && trail[|rest|] == v;
        TrailLonger(c, doc, segs, trail);
      }
    }
  }

  lemma TrailTail(c: NumberCodec, segs: seq<Segment>, trail: seq<Value>)
    requires segs != [] && IsTrail(c, segs, trail)
    ensures IsTrail(c, segs[1..], trail[1..])
  {
    hide LeadsTo;
    forall i | 0 <= i < |segs[1..]| ensures LeadsTo(c, trail[1..][i], segs[1..][i], trail[1..][i + 1]) {
      assert LeadsTo(c, trail[i + 1], segs[i + 1], trail[i + 2]);
    }
  }

  lemma TrailLonger(c: NumberCodec, doc: Value, segs: seq<Segment>, trail: seq<Value>)
    requires segs != [] && IsTrail(c, segs[1..], trail) && LeadsTo(c, doc, segs[0], trail[0])
    ensures IsTrail(c, segs, [doc] + trail)
  {
    hide LeadsTo;
    forall i | 0 <= i < |segs| ensures LeadsTo(c, ([doc] + trail)[i], segs[i], ([doc] + trail)[i + 1]) {
      if i > 0 {
        assert LeadsTo(c, trail[i - 1], segs[1..][i - 1], trail[i]);
      }
    }
  }

  /** A number is found by its printed form, and a boolean by its name. */
  lemma MatchFindsScalars(c: NumberCodec, item: Value, k: Text, r: real, b: bool)
    requires item.Obj? && k in item.m
    ensures item.m[k] == Num(r) ==> Resolve(c, Arr([item]), [Match(k, c.show(r))]) == Some(item)
    ensures item.m[k] == Bool(true) ==> Resolve(c, Arr([item]), [Match(k, [0x74, 0x72, 0x75, 0x65])]) == Some(item)
    ensures item.m[k] == Bool(false) ==> Resolve(c, Arr([item]), [Match(k, [0x66, 0x61, 0x6C, 0x73, 0x65])]) == Some(item)
    ensures item.m[k].Str? ==> Resolve(c, Arr([item]), [Match(k, item.m[k].s)]) == Some(item)
  {
    if item.m[k] == Num(r) {
      OneItemFound(c, item, k, c.show(r));
    }
    if item.m[k].Bool? {
      OneItemFound(c, item, k, if item.m[k].b then [0x74, 0x72, 0x75, 0x65] else [0x66, 0x61, 0x6C, 0x73, 0x65]);
    }
    if item.m[k].Str? {
      OneItemFound(c, item, k, item.m[k].s);
    }
  }

  lemma OneItemFound(c: NumberCodec, item: Value, k: Text, expected: Text)
    requires IsFound(c, item, k, expected)
    ensures Resolve(c, Arr([item]), [Match(k, expected)]) == Some(item)
  {
    var seg := Match(k, expected);
    assert IsFirst(c, [item], 0, k, expected) && [item][0] == item;
    StepExactly(c, Arr([item]), seg, item);
    assert [seg][1..] == [];
  }

  // ---------------------------------------------------------------- where a set succeeds

  /** The value has, or can be given, a child at the segment. */
  ghost predicate TakesChild(c: NumberCodec, v: Value, seg: Segment) {
    if seg.Key? then v.Obj? else exists child :: LeadsTo(c, v, seg, child)
  }

  predicate AllKeys(segs: seq<Segment>) { forall i | 0 <= i < |segs| :: segs[i].Key? }

  /** Either the parent is there and takes the child, or the path leads as far as a mapping
      that lacks its next key, and nothing but keys follows. */
  ghost predicate IsWritable(c: NumberCodec, doc: Value, segs: seq<Segment>, n: nat)
    requires n < |segs|
  {
    var at := Resolve(c, doc, segs[..n]);
    && at.Some?
    && if n == |segs| - 1 then TakesChild(c, at.value, segs[n])
       else at.value.Obj? && AllKeys(segs[n..]) && segs[n].value !in at.value.m
  }

  lemma TakesExactly(c: NumberCodec, v: Value, seg: Segment)
    ensures CanPut(c, v, seg) <==> TakesChild(c, v, seg)
  {
    hide LeadsTo;
    if Step(c, v, seg).Some? {
      StepExactly(c, v, seg, Step(c, v, seg).value);
    }
    if child :| LeadsTo(c, v, seg, child) {
      StepExactly(c, v, seg, child);
    }
  }

  lemma {:induction false} SetFreshExactly(c: NumberCodec, segs: seq<Segment>, v: Value)
    requires segs != []
    ensures Set(c, Obj(map[]), segs, v).Some? <==> AllKeys(segs)
    decreases |segs|
  {
    if |segs| > 1 {
      SetFreshExactly(c, segs[1..], v);
      assert forall i | 0 < i < |segs| :: segs[i] == segs[1..][i - 1];
    }
  }

  lemma WritableTail(c: NumberCodec, doc: Value, segs: seq<Segment>, n: nat)
    requires 0 < n < |segs| && Step(c, doc, segs[0]).Some?
    ensures IsWritable(c, doc, segs, n) <==> IsWritable(c, Step(c, doc, segs[0]).value, segs[1..], n - 1)
  {
    hide TakesChild, AllKeys;
    assert segs[..n][1..] == segs[1..][..n - 1] && segs[..n][0] == segs[0];
    assert segs[n..] == segs[1..][n - 1..];
  }

  lemma NotWritable(c: NumberCodec, doc: Value, segs: seq<Segment>, n: nat)
    requires 0 < n < |segs| && Step(c, doc, segs[0]).None?
    ensures !IsWritable(c, doc, segs, n)
  {
    assert segs[..n][0] == segs[0];
  }

  lemma ScalarNotWritable(c: NumberCodec, doc: Value, segs: seq<Segment>, n: nat)
    requires n < |segs| && !doc.Arr? && !doc.Obj?
    ensures !IsWritable(c, doc, segs, n)
  {
    if n > 0 {
      NotWritable(c, doc, segs, n);
    }
  }

  /** A set succeeds exactly where the path can be written. */
  lemma {:induction false} SetSucceedsExactly(c: NumberCodec, doc: Value, segs: seq<Segment>, v: Value)
    requires segs != []
    ensures Set(c, doc, segs, v).Some? <==> exists n | 0 <= n < |segs| :: IsWritable(c, doc, segs, n)
    decreases |segs|
  {
    hide IsWritable;
    if |segs| == 1 {
      TakesExactly(c, doc, segs[0]);
      WritableAtOnce(c, doc, segs);
    } else if Step(c, doc, segs[0]).Some? {
      var child := Step(c, doc, segs[0]).value;
      SetSucceedsExactly(c, child, segs[1..], v);
      NotWritableHere(c, doc, segs);
      forall n | 0 < n < |segs| ensures IsWritable(c, doc, segs, n) <==> IsWritable(c, child, segs[1..], n - 1) {
        WritableTail(c, doc, segs, n);
      }
      if Descend(c, doc, segs[0]).None? {
        forall n | 0 <= n < |segs[1..]| ensures !IsWritable(c, child, segs[1..], n) {
          ScalarNotWritable(c, child, segs[1..], n);
        }
      }
      WritableBelow(c, doc, segs, child);
    } else {
      WritableAtOnce(c, doc, segs);
      forall n | 0 < n < |segs| ensures !IsWritable(c, doc, segs, n) {
        NotWritable(c, doc, segs, n);
      }
      SetFreshExactly(c, segs[1..], v);
      assert forall i | 0 < i < |segs| :: segs[i] == segs[1..][i - 1];
    }
  }

  lemma WritableBelow(c: NumberCodec, doc: Value, segs: seq<Segment>, child: Value)
    requires |segs| > 1 && !IsWritable(c, doc, segs, 0)
    requires forall n | 0 < n < |segs| :: IsWritable(c, doc, segs, n) <==> IsWritable(c, child, segs[1..], n - 1)
    ensures (exists n | 0 <= n < |segs| :: IsWritable(c, doc, segs, n)) <==> exists n | 0 <= n < |segs[1..]| :: IsWritable(c, child, segs[1..], n)
  {
    hide IsWritable;
    if n: nat :| n < |segs[1..]| && IsWritable(c, child, segs[1..], n) {
      assert IsWritable(c, doc, segs, n + 1);
    }
  }

  lemma WritableAtOnce(c: NumberCodec, doc: Value, segs: seq<Segment>)
    requires segs != []
    ensures IsWritable(c, doc, segs, 0) <==>
      if |segs| == 1 then TakesChild(c, doc, segs[0]) else doc.Obj? && AllKeys(segs) && segs[0].value !in doc.m
  {
    hide TakesChild;
    assert segs[..0] == [] && segs[0..] == segs;
  }

  lemma NotWritableHere(c: NumberCodec, doc: Value, segs: seq<Segment>)
    requires |segs| > 1 && Step(c, doc, segs[0]).Some?
    ensures !IsWritable(c, doc, segs, 0)
  {
    WritableAtOnce(c, doc, segs);
  }

  // ---------------------------------------------------------------- what a delete does

  /** The value without the child at the segment: without that key, or with the later
      items moved up. */
  predicate IsWithout(c: NumberCodec, v: Value, seg: Segment, after: Value) {
    match seg
    case Key(k) => v.Obj? && k in v.m && after == Obj(map x | x in v.m && x != k :: v.m[x])
    case Index(n) => v.Arr? && n < |v.items| && after == Arr(v.items[..n] + v.items[n + 1..])
    case Match(k, expected) =>
      v.Arr? && exists i | 0 <= i < |v.items| :: IsFirst(c, v.items, i, k, expected) && after == Arr(v.items[..i] + v.items[i + 1..])
  }

  lemma RemoveExactly(c: NumberCodec, v: Value, seg: Segment, after: Value)
    ensures IsWithout(c, v, seg, after) <==> Step(c, v, seg).Some? && after == Remove(c, v, seg)
  {
    hide IsFirst;
    if v.Arr? && seg.Match? {
      FirstIsFound(c, v.items, seg);
    }
    if seg.Key? && v.Obj? {
      assert (map x | x in v.m && x != seg.value :: v.m[x]) == v.m - {seg.value};
    }
  }

  lemma {:induction false} DeleteIsSet(c: NumberCodec, doc: Value, segs: seq<Segment>)
    requires segs != [] && Resolve(c, doc, segs).Some?
    ensures var at := Resolve(c, doc, segs[..|segs| - 1]);
      && at.Some? && Step(c, at.value, segs[|segs| - 1]).Some?
      && DeleteRecursive(c, doc, segs) == Set(c, doc, segs[..|segs| - 1], Remove(c, at.value, segs[|segs| - 1]))
    decreases |segs|
  {
    var front := segs[..|segs| - 1];
    if |segs| > 1 {
      var child := Step(c, doc, segs[0]).value;
      DeleteIsSet(c, child, segs[1..]);
      assert front[1..] == segs[1..][..|segs| - 2] && segs[1..][|segs| - 2] == segs[|segs| - 1];
      if |segs| == 2 {
        assert front[1..] == [];
      }
    }
  }

  ghost predicate SetsWithout(c: NumberCodec, doc: Value, front: seq<Segment>, last: Segment, d: Value) {
    var at := Resolve(c, doc, front);
    at.Some? && exists after :: IsWithout(c, at.value, last, after) && Set(c, doc, front, after) == Some(d)
  }

  /** Deleting is setting, where the path leads but for its last segment, the value without
      the child there. */
  lemma DeleteExactly(c: NumberCodec, doc: Value, segs: seq<Segment>, d: Value)
    requires segs != []
    ensures Delete(c, doc, segs) == Some(d) <==> SetsWithout(c, doc, segs[..|segs| - 1], segs[|segs| - 1], d)
  {
    hide IsWithout;
    var front, last := segs[..|segs| - 1], segs[|segs| - 1];
    if Delete(c, doc, segs) == Some(d) {
      DeleteIsSet(c, doc, segs);
      var v := Resolve(c, doc, front).value;
      RemoveExactly(c, v, last, Remove(c, v, last));
    }
    if Resolve(c, doc, front).Some? {
      var v := Resolve(c, doc, front).value;
      if after :| IsWithout(c, v, last, after) && Set(c, doc, front, after) == Some(d) {
        RemoveExactly(c, v, last, after);
        LastStep(c, doc, segs);
        DeleteIsSet(c, doc, segs);
      }
    }
  }

  lemma {:induction false} LastStep(c: NumberCodec, doc: Value, segs: seq<Segment>)
    requires segs != [] && Resolve(c, doc, segs[..|segs| - 1]).Some?
    ensures Resolve(c, doc, segs) == Step(c, Resolve(c, doc, segs[..|segs| - 1]).value, segs[|segs| - 1])
    decreases |segs|
  {
    var front := segs[..|segs| - 1];
    if |segs| == 1 {
      assert front == [] && segs[1..] == [];
    } else {
      assert front[1..] == segs[1..][..|segs| - 2] && segs[1..][|segs| - 2] == segs[|segs| - 1];
      LastStep(c, Step(c, doc, segs[0]).value, segs[1..]);
    }
  }
}
