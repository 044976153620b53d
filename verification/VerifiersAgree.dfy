/** The two independent verifiers accept the same history, where their parsers agree on the
    objects that occur in it: the commit or the Effect itself, and what is stored. */
module VerifiersAgree {
  import opened Text
  import opened Values
  import opened Grammar
  import opened ProtocolBytes
  import opened Protocol
  import opened Resolver
  import opened Integrity
  import opened Replay
  import opened PythonVerifier

  lemma SameResolution(py: PythonKernel, get: Getter, requested: Value)
    requires Lawful(py.k.c) && AgreesOnStored(py, get)
    ensures PyResolve(py, get, requested).Ok? <==> Resolve(py.k, get, requested).Ok?
    ensures PyResolve(py, get, requested).Ok? ==> PyResolve(py, get, requested) == Resolve(py.k, get, requested)
  {
    hide PyResolve, Resolve;
    if PyResolve(py, get, requested).Ok? {
      ResolversMatch(py, get, requested, PyResolve(py, get, requested).value);
    }
    if Resolve(py.k, get, requested).Ok? {
      ResolversMatch(py, get, requested, Resolve(py.k, get, requested).value);
    }
  }

  lemma ParsersGive(py: PythonKernel, v: Value)
    requires AgreesOn(py, v)
    ensures Validate(py, v).Ok? && IsCommit(v) <==> ParseCommit(py.k.c, v).Ok?
    ensures Validate(py, v).Ok? && IsEffect(v) <==> ParseEffect(py.k.c, v).Ok?
  {
    hide Validate, ParseObject, ParseCommit, ParseEffect;
    ParseObjectIsOneOfFour(py.k.c, v);
  }

  /** What is resolved was parsed from stored bytes. */
  lemma AgreesOnResolved(py: PythonKernel, get: Getter, requested: Value)
    requires Lawful(py.k.c) && AgreesOnStored(py, get) && Resolve(py.k, get, requested).Ok?
    ensures AgreesOn(py, Resolve(py.k, get, requested).value)
  {
    hide Resolve, Describe, AgreesOn, ParseDescriptor, ParseBytes, CanonicalBytes;
    var v := Resolve(py.k, get, requested).value;
    ResolveExactly(py.k, get, requested, v);
    DescribeParsed(py.k, v);
    ParseOfCanonicalBytes(py.k.c, v);
  }

  // ---------------------------------------------------------------- commits

  lemma PyChain(py: PythonKernel, get: Getter, commit: Value, x: Verified)
    requires Lawful(py.k.c) && AgreesOnStored(py, get)
    ensures
      && PyDecisionStep(py, get, commit) == Ok(x.decision)
      && PyProposalStep(py, get, x.decision) == Ok(x.proposal)
      && PyEffectStep(py, get, commit, x.proposal) == Ok(x.effect)
      <==> ChainStands(py.k, get, commit, x)
  {
    hide PyResolve, Resolve, Permits, Refuses, IsRejected, ParseDecision, IsDecision;
    SameResolution(py, get, Field(commit, "decision"));
    if Resolve(py.k, get, Field(commit, "decision")) == Ok(x.decision) && IsDecision(x.decision) {
      ResolvedParses(py.k, get, Field(commit, "decision"));
      PermitsOrRefuses(py.k.c, x.decision);
    }
    SameResolution(py, get, SubjectOf(x.decision));
    SameResolution(py, get, SubjectOf(x.proposal));
  }

  lemma {:induction false} PyResolveAllExactly(py: PythonKernel, get: Getter, requested: seq<Value>, values: seq<Value>)
    requires Lawful(py.k.c) && AgreesOnStored(py, get)
    ensures PyResolveAll(py, get, requested) == Ok(values) <==> ParentsAre(py.k, get, requested, values)
    decreases |requested|
  {
    hide PyResolve, Resolve;
    if requested != [] {
      var rest := requested[1..];
      SameResolution(py, get, requested[0]);
      assert forall i | 0 < i < |requested| :: requested[i] == rest[i - 1];
      if values != [] {
        PyResolveAllExactly(py, get, rest, values[1..]);
        assert values == [values[0]] + values[1..];
        assert forall i | 0 < i < |values| :: values[i] == values[1..][i - 1];
      }
    }
  }

  lemma {:induction false} PyResolveAllOk(py: PythonKernel, get: Getter, requested: seq<Value>)
    requires Lawful(py.k.c) && AgreesOnStored(py, get)
    ensures PyResolveAll(py, get, requested).Ok? <==> AllResolve(py.k, get, requested)
    decreases |requested|
  {
    hide PyResolve, Resolve;
    if requested != [] {
      SameResolution(py, get, requested[0]);
      PyResolveAllOk(py, get, requested[1..]);
      assert forall i | 0 < i < |requested| :: requested[i] == requested[1..][i - 1];
    }
  }

  lemma {:induction false} PyConsideredExactly(py: PythonKernel, get: Getter, considered: seq<Value>)
    requires Lawful(py.k.c) && AgreesOnStored(py, get)
    ensures PyConsidered(py, get, considered).Ok? <==> forall i | 0 <= i < |considered| :: IsConsidered(py.k, get, considered[i])
    decreases |considered|
  {
    hide PyResolve, Resolve;
    if considered != [] {
      SameResolution(py, get, considered[0]);
      if Resolve(py.k, get, considered[0]).Ok? {
        PyResolveAllOk(py, get, SubjectsOf(Resolve(py.k, get, considered[0]).value));
      }
      PyConsideredExactly(py, get, considered[1..]);
      assert forall i | 0 < i < |considered| :: considered[i] == considered[1..][i - 1];
    }
  }

  lemma PyReferencesExactly(py: PythonKernel, get: Getter, commit: Value, x: Verified)
    requires Lawful(py.k.c) && AgreesOnStored(py, get)
    ensures PyReferences(py, get, commit, x.decision, x.effect) == Ok(x.parents) <==> ReferencesStand(py.k, get, commit, x)
  {
    hide PyResolve, Resolve;
    SameResolution(py, get, Field(x.effect, "base"));
    SameResolution(py, get, Field(commit, "result"));
    PyConsideredExactly(py, get, ConsideredOf(x.decision));
    PyResolveAllExactly(py, get, ParentsOf(commit), x.parents);
  }

  lemma PyStages(py: PythonKernel, get: Getter, commit: Value, x: Verified)
    ensures PyCommitIntegrity(py, get, commit) == Ok(x) <==>
      && Validate(py, commit).Ok? && IsCommit(commit)
      && PyDecisionStep(py, get, commit) == Ok(x.decision)
      && PyProposalStep(py, get, x.decision) == Ok(x.proposal)
      && PyEffectStep(py, get, commit, x.proposal) == Ok(x.effect)
      && PyReferences(py, get, commit, x.decision, x.effect) == Ok(x.parents)
  {
    hide Validate, PyDecisionStep, PyProposalStep, PyEffectStep, PyReferences;
  }

  /** What Python accepts: the chain and the references stand. */
  lemma PyIntegrityExactly(py: PythonKernel, get: Getter, commit: Value, x: Verified)
    requires Lawful(py.k.c) && AgreesOnStored(py, get) && AgreesOn(py, commit)
    ensures PyCommitIntegrity(py, get, commit) == Ok(x) <==>
      ParseCommit(py.k.c, commit).Ok? && ChainStands(py.k, get, commit, x) && ReferencesStand(py.k, get, commit, x)
  {
    hide PyCommitIntegrity, Resolve, PyResolve, Validate, ParseCommit, ParseObject, AgreesOn;
    PyStages(py, get, commit, x);
    ParsersGive(py, commit);
    PyChain(py, get, commit, x);
    PyReferencesExactly(py, get, commit, x);
  }

  /** Over one store, TypeScript verifies a commit exactly when Python verifies it, with the
      same findings, and every object in the Effect's inputs resolves - which only the
      TypeScript verifier checks, and in a different place. */
  lemma CommitVerifiersAgree(py: PythonKernel, get: Getter, commit: Value, x: Verified)
    requires Lawful(py.k.c) && AgreesOnStored(py, get) && AgreesOn(py, commit)
    ensures CommitIntegrity(py.k, get, commit) == Ok(x) <==>
      PyCommitIntegrity(py, get, commit) == Ok(x) && AllInputsResolve(py.k, get, x.effect)
  {
    hide PyCommitIntegrity, CommitIntegrity, Resolve, PyResolve, Validate, ParseCommit, AgreesOn;
    PyIntegrityExactly(py, get, commit, x);
    IntegrityExactly(py.k, get, commit, x);
  }

  // ---------------------------------------------------------------- Effects

  /** Python builds its registry from the drivers' own names. */
  predicate KeyedByName(drivers: Drivers) { forall key <- drivers :: DriverKey(drivers[key].name) == key }

  lemma {:induction false} SameInputs(py: PythonKernel, get: Getter, inputs: seq<Value>, sofar: map<Text, Value>)
    requires Lawful(py.k.c) && AgreesOnStored(py, get)
    ensures PyInputMap(py, get, inputs, sofar).Ok? <==> InputMap(py.k, get, inputs, sofar).Ok?
    ensures PyInputMap(py, get, inputs, sofar).Ok? ==> PyInputMap(py, get, inputs, sofar) == InputMap(py.k, get, inputs, sofar)
    decreases |inputs|
  {
    hide PyResolve, Resolve;
    if inputs != [] {
      SameResolution(py, get, ObjectOf(inputs[0]));
      if Resolve(py.k, get, ObjectOf(inputs[0])).Ok? {
        SameInputs(py, get, inputs[1..], sofar[RoleOf(inputs[0]) := Resolve(py.k, get, ObjectOf(inputs[0])).value]);
      }
    }
  }

  lemma {:induction false} AgreesOnInputs(py: PythonKernel, get: Getter, inputs: seq<Value>, sofar: map<Text, Value>)
    requires Lawful(py.k.c) && AgreesOnStored(py, get) && InputMap(py.k, get, inputs, sofar).Ok?
    requires forall role <- sofar :: AgreesOn(py, sofar[role])
    ensures var m := InputMap(py.k, get, inputs, sofar).value; forall role <- m :: AgreesOn(py, m[role])
    decreases |inputs|
  {
    hide Resolve, AgreesOn;
    if inputs != [] {
      AgreesOnResolved(py, get, ObjectOf(inputs[0]));
      AgreesOnInputs(py, get, inputs[1..], sofar[RoleOf(inputs[0]) := Resolve(py.k, get, ObjectOf(inputs[0])).value]);
    }
  }

  lemma {:induction false} SameSupplied(py: PythonKernel, supplied: map<Text, Value>, inputs: seq<Value>)
    requires (forall role <- supplied :: AgreesOn(py, supplied[role])) && SuppliedInputs(py.k, supplied, inputs).Ok?
    ensures PySupplied(py, supplied, inputs).Ok?
    decreases |inputs|
  {
    hide Describe, PyDescribe, AgreesOn;
    if inputs != [] {
      DescribersAgree(py, supplied[RoleOf(inputs[0])], DescriptorOf(ObjectOf(inputs[0])));
      SameSupplied(py, supplied, inputs[1..]);
    }
  }

  lemma PyChecksAreTheDriver(py: PythonKernel, get: Getter, drivers: Drivers, effect: Value)
    requires Lawful(py.k.c) && AgreesOnStored(py, get) && KeyedByName(drivers)
    requires ParseEffect(py.k.c, effect).Ok? && InputMap(py.k, get, InputsOf(effect), map[]).Ok?
    ensures var r := PyReplayChecks(py, effect, ResolvedInputs(py.k, get, effect), drivers);
      && (r.Ok? <==> DriverOf(drivers, effect).Ok?)
      && (r.Ok? ==> r == DriverOf(drivers, effect))
  {
    var supplied := ResolvedInputs(py.k, get, effect);
    OwnInputsAlwaysMatch(py.k, get, effect);
    AgreesOnInputs(py, get, InputsOf(effect), map[]);
    SameSupplied(py, supplied, InputsOf(effect));
    RolesAreSupplied(py.k, get, effect);
  }

  lemma RolesAreSupplied(k: Kernel, get: Getter, effect: Value)
    requires Lawful(k.c) && ParseEffect(k.c, effect).Ok? && InputMap(k, get, InputsOf(effect), map[]).Ok?
    ensures ResolvedInputs(k, get, effect).Keys == RoleSet(InputsOf(effect))
  {
    hide ParseEffect, Describe;
    var inputs := InputsOf(effect);
    ParsedEffectRoles(k.c, effect);
    OwnInputsAlwaysMatch(k, get, effect);
    SuppliedExactly(k, ResolvedInputs(k, get, effect), inputs);
    forall i | 0 <= i < |inputs| ensures RoleOf(inputs[i]) in ResolvedInputs(k, get, effect) {
      OneInputFacts(k, ResolvedInputs(k, get, effect), inputs[i]);
    }
    RolesFill(ResolvedInputs(k, get, effect), inputs);
  }

  /** An object with a State's descriptor is a State. */
  lemma ClaimedIsState(k: Kernel, effect: Value, state: Value)
    requires ParseEffect(k.c, effect).Ok? && Describe(k, state) == Ok(DescriptorOf(Field(effect, "result")))
    ensures ParseState(k.c, state).Ok?
  {
    EffectShape(k.c, effect);
    DescribeParsed(k, state);
    ResultKind(k.c, Field(effect, "result"));
    ParseObjectIsOneOfFour(k.c, state);
  }

  lemma ResultKind(c: NumberCodec, d: Value)
    requires DescriptorOfKind(c, d, "state").Ok?
    ensures DescriptorOf(d).schema == STATE_SCHEMA
  {
    KindsDistinct();
  }

  lemma PyJudgement(py: PythonKernel, get: Getter, drivers: Drivers, effect: Value, state: Value)
    requires (InDomain(py.k.c, state) ==> AgreesOn(py, state)) && ParseEffect(py.k.c, effect).Ok?
    requires var r := PyReplayChecks(py, effect, ResolvedInputs(py.k, get, effect), drivers);
      && (r.Ok? <==> DriverOf(drivers, effect).Ok?) && (r.Ok? ==> r == DriverOf(drivers, effect))
    ensures PyJudge(py, effect, PyReplay(py, BaseOf(py.k, get, effect), effect, ResolvedInputs(py.k, get, effect), drivers)) == Ok(state)
      <==> Drives(py.k, get, drivers, BaseOf(py.k, get, effect), effect, state)
           && ParseState(py.k.c, state).Ok? && Describe(py.k, state) == Ok(DescriptorOf(Field(effect, "result")))
  {
    hide ParseEffect, ParseState, ParseObject, Describe, PyDescribe, Validate, PyReplay, PyJudge, BaseOf, ResolvedInputs, DriverOf, DefinitionOf, PyReplayChecks, InDomain;
    var replayed := PyReplay(py, BaseOf(py.k, get, effect), effect, ResolvedInputs(py.k, get, effect), drivers);
    PyJudgeExactly(py, effect, replayed, state);
    PyReplayProduces(py, BaseOf(py.k, get, effect), effect, ResolvedInputs(py.k, get, effect), drivers, state);
    DescribersAgree(py, state, DescriptorOf(Field(effect, "result")));
    DescribeParsed(py.k, state);
    if Describe(py.k, state) == Ok(DescriptorOf(Field(effect, "result"))) {
      ClaimedIsState(py.k, effect, state);
    }
  }

  lemma PyJudgeExactly(py: PythonKernel, effect: Value, replayed: Executed, state: Value)
    ensures PyJudge(py, effect, replayed) == Ok(state)
      <==> replayed == Produced(state) && PyDescribe(py, state) == Ok(DescriptorOf(Field(effect, "result")))
  {
    hide PyDescribe;
  }

  lemma PyReplayProduces(py: PythonKernel, base: Value, effect: Value, supplied: map<Text, Value>, drivers: Drivers, state: Value)
    ensures PyReplay(py, base, effect, supplied, drivers) == Produced(state) <==>
      && PyReplayChecks(py, effect, supplied, drivers).Ok?
      && PyReplayChecks(py, effect, supplied, drivers).value.execute(base, DefinitionOf(effect), supplied) == Produced(state)
      && Validate(py, state).Ok?
  {
    hide PyReplayChecks, Validate, DefinitionOf;
  }

  /** The two verifiers accept the same Effects and compute the same State; of a State the
      driver makes they need only agree on it when it can be canonicalized at all. */
  lemma EffectVerifiersAgree(py: PythonKernel, get: Getter, drivers: Drivers, effect: Value, state: Value)
    requires Lawful(py.k.c) && KeyedByName(drivers)
    requires AgreesOnStored(py, get) && AgreesOn(py, effect) && (InDomain(py.k.c, state) ==> AgreesOn(py, state))
    ensures EffectResult(py.k, get, drivers, effect) == Ok(state) <==> PyEffectResult(py, get, drivers, effect) == Ok(state)
  {
    hide EffectResult, ParseEffect, ParseObject, Resolve, PyResolve, Validate, PyReplay, PyJudge, Drives, Describe, ParseState, InDomain, AgreesOn;
    EffectExactly(py.k, get, drivers, effect, state);
    ParsersGive(py, effect);
    if ParseEffect(py.k.c, effect).Ok? {
      SameResolution(py, get, Field(effect, "base"));
      SameInputs(py, get, InputsOf(effect), map[]);
      InputMapResolves(py.k, get, InputsOf(effect), map[]);
      if Resolves(py.k, get, Field(effect, "base")) && AllInputsResolve(py.k, get, effect) {
        PyChecksAreTheDriver(py, get, drivers, effect);
        PyJudgement(py, get, drivers, effect, state);
      }
    }
  }

  /** The hypotheses can be met, object by object, and the collection checks never stand in
      the way: of what the TypeScript parser accepts the schema must accept it too, and of
      what it rejects either the schema or the collection checks must reject it. */
  lemma SchemaCanAgree(py: PythonKernel, v: Value)
    ensures ParseObject(py.k.c, v).Ok? ==> (AgreesOn(py, v) <==> py.schema(v))
    ensures ParseObject(py.k.c, v).Err? ==> (AgreesOn(py, v) <==> !py.schema(v) || !v.Obj? || Collections(py.k.c, v).Err?)
  {
    hide ParseObject, Collections;
    if ParseObject(py.k.c, v).Ok? {
      CollectionsFollow(py.k.c, v);
      ParsedIsObject(py.k.c, v);
    }
  }

  lemma ParsedIsObject(c: NumberCodec, v: Value)
    requires ParseObject(c, v).Ok?
    ensures v.Obj?
  {}

  /** The difference is real: a commit that Python verifies while the store lacks one of
      the Effect's inputs is one that TypeScript rejects. */
  lemma MissingInputSplitsThem(py: PythonKernel, get: Getter, commit: Value, x: Verified, i: nat)
    requires Lawful(py.k.c) && AgreesOnStored(py, get) && AgreesOn(py, commit)
    requires PyCommitIntegrity(py, get, commit) == Ok(x)
    requires i < |InputsOf(x.effect)| && get(DescriptorOf(ObjectOf(InputsOf(x.effect)[i]))).None?
    ensures CommitIntegrity(py.k, get, commit).Err?
  {
    hide PyCommitIntegrity, CommitIntegrity, AgreesOn;
    if CommitIntegrity(py.k, get, commit).Ok? {
      var y := CommitIntegrity(py.k, get, commit).value;
      CommitVerifiersAgree(py, get, commit, y);
      assert Resolves(py.k, get, ObjectOf(InputsOf(x.effect)[i]));
    }
  }
}
