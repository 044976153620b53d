/** Whole first-parent histories: they replay from the empty genesis, their head fixes
    them, and adding objects never unverifies them. */
module History {
  import opened Text
  import opened Values
  import opened Grammar
  import opened Utf8
  import opened Protocol
  import opened Resolver
  import opened Integrity
  import opened Replay

  ghost predicate IsAccepted(k: Kernel, get: Getter, drivers: Drivers, commit: Value) {
    && CommitIntegrity(k, get, commit).Ok?
    && EffectResult(k, get, drivers, CommitIntegrity(k, get, commit).value.effect).Ok?
  }

  /** The Effect of an accepted commit. */
  function EffectOf(k: Kernel, get: Getter, commit: Value): Value {
    match CommitIntegrity(k, get, commit)
    case Ok(x) => x.effect
    case Err(_) => Null
  }

  /** From a parentless commit to the head, each commit the first parent of the next. */
  ghost predicate FirstParentChain(k: Kernel, get: Getter, chain: seq<Value>) {
    && chain != [] && ParentsOf(chain[0]) == []
    && forall i | 0 < i < |chain| :: IsFirstParent(k, get, chain[i - 1], chain[i])
  }

  ghost predicate IsFirstParent(k: Kernel, get: Getter, parent: Value, commit: Value) {
    ParentsOf(commit) != [] && Resolve(k, get, ParentsOf(commit)[0]) == Ok(parent)
  }

  ghost predicate AllAccepted(k: Kernel, get: Getter, drivers: Drivers, chain: seq<Value>) {
    forall i | 0 <= i < |chain| :: IsAccepted(k, get, drivers, chain[i])
  }

  /** One driver run: None where there is no driver or it does not produce a State. */
  function Drive(k: Kernel, get: Getter, drivers: Drivers, state: Value, effect: Value): Option<Value> {
    match DriverOf(drivers, effect)
    case Err(_) => None
    case Ok(driver) =>
      match driver.execute(state, DefinitionOf(effect), ResolvedInputs(k, get, effect))
      case Produced(next) => Some(next)
      case _ => None
  }

  /** The Effects' drivers in order, each on the State the one before produced. */
  function DriveAll(k: Kernel, get: Getter, drivers: Drivers, genesis: Value, effects: seq<Value>): Option<Value>
    decreases |effects|
  {
    if effects == [] then Some(genesis)
    else
      match DriveAll(k, get, drivers, genesis, effects[..|effects| - 1])
      case None => None
      case Some(state) => Drive(k, get, drivers, state, effects[|effects| - 1])
  }

  function Effects(k: Kernel, get: Getter, chain: seq<Value>): seq<Value> {
    seq(|chain|, i requires 0 <= i < |chain| => EffectOf(k, get, chain[i]))
  }

  /** Among the byte strings known not to collide are the two this commit hashes: its
      resolved result and the State its Effect produces. */
  ghost predicate CommitKnown(k: Kernel, get: Getter, drivers: Drivers, known: iset<Bytes>, commit: Value) {
    var resolved, produced := Resolve(k, get, Field(commit, "result")), EffectResult(k, get, drivers, EffectOf(k, get, commit));
    && (resolved.Ok? ==> ObjectPreimage(k, resolved.value) in known)
    && (produced.Ok? ==> ObjectPreimage(k, produced.value) in known)
  }

  ghost predicate ChainKnown(k: Kernel, get: Getter, drivers: Drivers, known: iset<Bytes>, chain: seq<Value>) {
    forall i | 0 <= i < |chain| :: CommitKnown(k, get, drivers, known, chain[i])
  }

  // ---------------------------------------------------------------- one commit

  /** An accepted commit's result resolves to what its driver makes of its Effect's Base. */
  lemma CommitStep(k: Kernel, get: Getter, drivers: Drivers, known: iset<Bytes>, commit: Value)
    requires Lawful(k.c) && CollisionFree(k, known) && CommitKnown(k, get, drivers, known, commit)
    requires IsAccepted(k, get, drivers, commit)
    ensures var effect := EffectOf(k, get, commit);
      && Resolve(k, get, Field(effect, "base")).Ok? && Resolve(k, get, Field(commit, "result")).Ok?
      && Drive(k, get, drivers, BaseOf(k, get, effect), effect) == Some(Resolve(k, get, Field(commit, "result")).value)
  {
    var x := CommitIntegrity(k, get, commit).value;
    IntegrityExactly(k, get, commit, x);
    var state := EffectResult(k, get, drivers, x.effect).value;
    EffectExactly(k, get, drivers, x.effect, state);
    ResolvedIsProduced(k, get, known, Field(commit, "result"), state);
  }

  lemma ResolvedIsProduced(k: Kernel, get: Getter, known: iset<Bytes>, requested: Value, state: Value)
    requires Lawful(k.c) && CollisionFree(k, known)
    requires Resolve(k, get, requested).Ok? && Describe(k, state) == Ok(DescriptorOf(requested))
    requires ObjectPreimage(k, Resolve(k, get, requested).value) in known && ObjectPreimage(k, state) in known
    ensures Resolve(k, get, requested) == Ok(state)
  {
    var v := Resolve(k, get, requested).value;
    ResolveExactly(k, get, requested, v);
    DescriptorIdentifiesObject(k, known, v, state);
  }

  /** What an accepted commit says of its place: the first parent's result is its Base, or
      it has no parent and its Base is the empty genesis; its Decision permits. */
  lemma CommitPlace(k: Kernel, get: Getter, commit: Value)
    requires Lawful(k.c) && CommitIntegrity(k, get, commit).Ok?
    ensures var x := CommitIntegrity(k, get, commit).value;
      && Resolve(k, get, Field(commit, "decision")) == Ok(x.decision) && Permits(x.decision)
      && Resolves(k, get, Field(x.effect, "base"))
      && (ParentsOf(commit) == [] ==> IsEmptyGenesis(Field(BaseOf(k, get, x.effect), "value")))
      && (forall parent | IsFirstParent(k, get, parent, commit) ::
            DescriptorOf(Field(parent, "result")) == DescriptorOf(Field(x.effect, "base")))
  {
    var x := CommitIntegrity(k, get, commit).value;
    IntegrityExactly(k, get, commit, x);
  }

  lemma SameDescriptorSameObject(k: Kernel, get: Getter, a: Value, b: Value)
    requires Resolve(k, get, a).Ok? && Resolve(k, get, b).Ok? && DescriptorOf(a) == DescriptorOf(b)
    ensures Resolve(k, get, a) == Resolve(k, get, b)
  {}

  // ---------------------------------------------------------------- whole histories

  lemma {:induction false} HistoryRuns(k: Kernel, get: Getter, drivers: Drivers, known: iset<Bytes>, chain: seq<Value>)
    requires Lawful(k.c) && CollisionFree(k, known) && ChainKnown(k, get, drivers, known, chain)
    requires FirstParentChain(k, get, chain) && AllAccepted(k, get, drivers, chain)
    ensures var genesis := BaseOf(k, get, EffectOf(k, get, chain[0])); var head := chain[|chain| - 1];
      && Resolve(k, get, Field(head, "result")).Ok?
      && DriveAll(k, get, drivers, genesis, Effects(k, get, chain)) == Some(Resolve(k, get, Field(head, "result")).value)
    decreases |chain|
  {
    hide CommitIntegrity, EffectResult, Resolve, Drive;
    var n := |chain| - 1;
    var head := chain[n];
    var before := chain[..n];
    assert IsAccepted(k, get, drivers, head);
    CommitStep(k, get, drivers, known, head);
    LastDrive(k, get, drivers, BaseOf(k, get, EffectOf(k, get, chain[0])), chain);
    if n > 0 {
      FrontIsChain(k, get, drivers, chain);
      HistoryRuns(k, get, drivers, known, before);
      assert before[|before| - 1] == chain[n - 1];
      ParentResultIsBase(k, get, chain[n - 1], head);
    }
  }

  lemma LastDrive(k: Kernel, get: Getter, drivers: Drivers, genesis: Value, chain: seq<Value>)
    requires chain != []
    ensures var n := |chain| - 1;
      DriveAll(k, get, drivers, genesis, Effects(k, get, chain)) ==
        match DriveAll(k, get, drivers, genesis, Effects(k, get, chain[..n]))
        case None => None
        case Some(state) => Drive(k, get, drivers, state, EffectOf(k, get, chain[n]))
  {
    hide CommitIntegrity, Drive;
    var n := |chain| - 1;
    assert Effects(k, get, chain)[..n] == Effects(k, get, chain[..n]);
  }

  lemma FrontIsChain(k: Kernel, get: Getter, drivers: Drivers, chain: seq<Value>)
    requires FirstParentChain(k, get, chain) && AllAccepted(k, get, drivers, chain) && |chain| > 1
    ensures var before := chain[..|chain| - 1];
      FirstParentChain(k, get, before) && AllAccepted(k, get, drivers, before) && before[0] == chain[0]
    ensures IsFirstParent(k, get, chain[|chain| - 2], chain[|chain| - 1])
  {
    hide CommitIntegrity, EffectResult, Resolve;
    FrontOfChain(k, get, chain);
  }

  lemma ParentResultIsBase(k: Kernel, get: Getter, parent: Value, head: Value)
    requires Lawful(k.c) && CommitIntegrity(k, get, head).Ok? && IsFirstParent(k, get, parent, head)
    requires Resolve(k, get, Field(parent, "result")).Ok?
    ensures Resolve(k, get, Field(parent, "result")) == Ok(BaseOf(k, get, EffectOf(k, get, head)))
  {
    CommitPlace(k, get, head);
    SameDescriptorSameObject(k, get, Field(parent, "result"), Field(EffectOf(k, get, head), "base"));
  }

  /** Every Decision on the chain accepts or overrides: none rejects. */
  lemma HistoryPermits(k: Kernel, get: Getter, drivers: Drivers, chain: seq<Value>)
    requires Lawful(k.c) && AllAccepted(k, get, drivers, chain)
    ensures forall i | 0 <= i < |chain| ::
      var decision := Resolve(k, get, Field(chain[i], "decision"));
      decision.Ok? && Permits(decision.value) && !Refuses(decision.value)
  {
    hide CommitIntegrity, EffectResult, Resolve, Permits, Refuses;
    forall i | 0 <= i < |chain|
      ensures var decision := Resolve(k, get, Field(chain[i], "decision"));
        decision.Ok? && Permits(decision.value) && !Refuses(decision.value)
    {
      assert IsAccepted(k, get, drivers, chain[i]);
      CommitPlace(k, get, chain[i]);
      PermitsNotRefuses(Resolve(k, get, Field(chain[i], "decision")).value);
    }
  }

  lemma PermitsNotRefuses(decision: Value)
    requires Permits(decision)
    ensures !Refuses(decision)
  {
    OutcomesApart();
  }

  /** History is replayable: along any first-parent chain of accepted commits, the State the
      head's result names is what the Effects' drivers make, in order, of a State whose
      value is the empty mapping; and every Decision on the chain accepts or overrides. */
  lemma HistoryReplays(k: Kernel, get: Getter, drivers: Drivers, known: iset<Bytes>, chain: seq<Value>)
    requires Lawful(k.c) && CollisionFree(k, known) && ChainKnown(k, get, drivers, known, chain)
    requires FirstParentChain(k, get, chain) && AllAccepted(k, get, drivers, chain)
    ensures var genesis := BaseOf(k, get, EffectOf(k, get, chain[0])); var head := chain[|chain| - 1];
      && IsState(genesis) && Field(genesis, "value") == Obj(map[])
      && Resolve(k, get, Field(head, "result")).Ok?
      && DriveAll(k, get, drivers, genesis, Effects(k, get, chain)) == Some(Resolve(k, get, Field(head, "result")).value)
    ensures forall i | 0 <= i < |chain| ::
      var decision := Resolve(k, get, Field(chain[i], "decision"));
      decision.Ok? && Permits(decision.value) && !Refuses(decision.value)
  {
    hide CommitIntegrity, EffectResult, Resolve, Permits, Refuses, DriveAll;
    HistoryRuns(k, get, drivers, known, chain);
    assert IsAccepted(k, get, drivers, chain[0]);
    CommitPlace(k, get, chain[0]);
    GenesisIsState(k, get, drivers, chain[0]);
    HistoryPermits(k, get, drivers, chain);
  }

  lemma GenesisIsState(k: Kernel, get: Getter, drivers: Drivers, commit: Value)
    requires Lawful(k.c) && IsAccepted(k, get, drivers, commit)
    ensures var effect := EffectOf(k, get, commit);
      Resolve(k, get, Field(effect, "base")).Ok? && IsState(BaseOf(k, get, effect))
  {
    var effect := EffectOf(k, get, commit);
    var state := EffectResult(k, get, drivers, effect).value;
    EffectExactly(k, get, drivers, effect, state);
    StateStepExactly(k, get, effect);
    ParsedSchemas(k.c, BaseOf(k, get, effect));
  }

  /** The head fixes its history: two chains to one head, read through two resolvers, are
      the same commits, whatever else the resolvers hold. */
  lemma {:induction false} HeadFixesHistory(k: Kernel, known: iset<Bytes>, first: Getter, second: Getter, a: seq<Value>, b: seq<Value>)
    requires Lawful(k.c) && CollisionFree(k, known)
    requires forall i | 0 <= i < |a| :: ObjectPreimage(k, a[i]) in known
    requires forall i | 0 <= i < |b| :: ObjectPreimage(k, b[i]) in known
    requires FirstParentChain(k, first, a) && FirstParentChain(k, second, b)
    requires a[|a| - 1] == b[|b| - 1]
    ensures a == b
    decreases |a|
  {
    hide Resolve;
    var n, m := |a| - 1, |b| - 1;
    assert n > 0 ==> IsFirstParent(k, first, a[n - 1], a[n]);
    assert m > 0 ==> IsFirstParent(k, second, b[m - 1], b[m]);
    assert n == 0 <==> m == 0;
    if n > 0 {
      SameFirstParent(k, known, first, second, a[n], a[n - 1], b[m - 1]);
      FrontOfChain(k, first, a);
      FrontOfChain(k, second, b);
      HeadFixesHistory(k, known, first, second, a[..n], b[..m]);
      SameFrontAndLast(a, b);
    }
  }

  lemma SameFirstParent(k: Kernel, known: iset<Bytes>, first: Getter, second: Getter, head: Value, p: Value, q: Value)
    requires Lawful(k.c) && CollisionFree(k, known)
    requires IsFirstParent(k, first, p, head) && IsFirstParent(k, second, q, head)
    requires ObjectPreimage(k, p) in known && ObjectPreimage(k, q) in known
    ensures p == q
  {
    ResolversAgree(k, known, first, second, ParentsOf(head)[0]);
  }

  lemma FrontOfChain(k: Kernel, get: Getter, chain: seq<Value>)
    requires FirstParentChain(k, get, chain) && |chain| > 1
    ensures var before := chain[..|chain| - 1];
      FirstParentChain(k, get, before) && before[|before| - 1] == chain[|chain| - 2]
    ensures forall i | 0 <= i < |chain| - 1 :: chain[..|chain| - 1][i] == chain[i]
  {
    hide IsFirstParent;
    var before := chain[..|chain| - 1];
    assert forall i | 0 <= i < |before| :: before[i] == chain[i];
  }

  lemma SameFrontAndLast(a: seq<Value>, b: seq<Value>)
    requires a != [] && b != [] && a[..|a| - 1] == b[..|b| - 1] && a[|a| - 1] == b[|b| - 1]
    ensures a == b
  {
    assert a == a[..|a| - 1] + [a[|a| - 1]] && b == b[..|b| - 1] + [b[|b| - 1]];
  }

  // ---------------------------------------------------------------- growing the store

  lemma StillIntact(k: Kernel, first: Getter, second: Getter, commit: Value, x: Verified)
    requires Extends(k, first, second) && Intact(k, first, commit, x)
    ensures Intact(k, second, commit, x)
  {
    hide Resolve, ParseCommit;
    assert Resolves(k, first, Field(x.effect, "base"));
    assert ReferencesStand(k, second, commit, x) by {
      forall i | 0 <= i < |ConsideredOf(x.decision)| ensures IsConsidered(k, second, ConsideredOf(x.decision)[i]) {
        var requested := ConsideredOf(x.decision)[i];
        assert IsConsidered(k, first, requested);
        assert AllResolve(k, first, SubjectsOf(Resolve(k, first, requested).value));
      }
    }
  }

  lemma {:induction false} SameInputMap(k: Kernel, first: Getter, second: Getter, inputs: seq<Value>, sofar: map<Text, Value>)
    requires Extends(k, first, second) && InputMap(k, first, inputs, sofar).Ok?
    ensures InputMap(k, second, inputs, sofar) == InputMap(k, first, inputs, sofar)
    decreases |inputs|
  {
    if inputs != [] {
      assert Resolve(k, first, ObjectOf(inputs[0])).Ok?;
      SameInputMap(k, first, second, inputs[1..], sofar[RoleOf(inputs[0]) := Resolve(k, first, ObjectOf(inputs[0])).value]);
    }
  }

  lemma StillHolds(k: Kernel, first: Getter, second: Getter, drivers: Drivers, effect: Value, state: Value)
    requires Extends(k, first, second) && ClaimHolds(k, first, drivers, effect, state)
    ensures ClaimHolds(k, second, drivers, effect, state)
  {
    hide Resolve, ParseEffect, ParseState, Describe, DriverOf, DefinitionOf;
    InputMapResolves(k, first, InputsOf(effect), map[]);
    SameInputMap(k, first, second, InputsOf(effect), map[]);
  }

  /** A resolver that knows more verifies every commit and Effect that was verified, with
      the same outcome. */
  lemma MoreObjectsKeepVerified(k: Kernel, first: Getter, second: Getter, drivers: Drivers, commit: Value)
    requires Lawful(k.c) && Extends(k, first, second) && IsAccepted(k, first, drivers, commit)
    ensures CommitIntegrity(k, second, commit) == CommitIntegrity(k, first, commit)
    ensures IsAccepted(k, second, drivers, commit)
    ensures EffectResult(k, second, drivers, EffectOf(k, second, commit)) == EffectResult(k, first, drivers, EffectOf(k, first, commit))
  {
    var x := CommitIntegrity(k, first, commit).value;
    IntegrityExactly(k, first, commit, x);
    StillIntact(k, first, second, commit, x);
    IntegrityExactly(k, second, commit, x);
    var state := EffectResult(k, first, drivers, x.effect).value;
    EffectExactly(k, first, drivers, x.effect, state);
    StillHolds(k, first, second, drivers, x.effect, state);
    EffectExactly(k, second, drivers, x.effect, state);
  }

  /** Putting an object into the store never unverifies a commit. */
  lemma PutKeepsVerified(k: Kernel, known: iset<Bytes>, objects: map<Text, Bytes>, drivers: Drivers, obj: Value, commit: Value)
    requires Lawful(k.c) && CollisionFree(k, known)
    requires ResolvesWithin(k, Stored(objects), known) && ObjectPreimage(k, obj) in known
    requires IsAccepted(k, Stored(objects), drivers, commit)
    ensures IsAccepted(k, Stored(AfterPut(k, objects, obj)), drivers, commit)
    ensures CommitIntegrity(k, Stored(AfterPut(k, objects, obj)), commit) == CommitIntegrity(k, Stored(objects), commit)
  {
    PutExtends(k, known, objects, obj);
    MoreObjectsKeepVerified(k, Stored(objects), Stored(AfterPut(k, objects, obj)), drivers, commit);
  }
}
