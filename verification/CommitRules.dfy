/** What accepting a commit comes to in the fields of the objects themselves, for both
    verifiers, and what each failure is. */
module CommitRules {
  import opened Text
  import opened Values
  import opened Grammar
  import opened Utf8
  import opened Protocol
  import opened Resolver
  import opened Integrity
  import opened Replay
  import opened PythonVerifier
  import opened VerifiersAgree

  // ---------------------------------------------------------------- in the fields

  predicate Says(v: Value, name: string, text: string) { Field(v, name) == Str(Ascii(text)) }

  predicate DecisionRecord(v: Value) { Says(v, "schema", "t3x/statement/v1") && Says(v, "predicateType", "t3x.decision/v1") }
  predicate ProposalRecord(v: Value) { Says(v, "schema", "t3x/statement/v1") && Says(v, "predicateType", "t3x.proposal/v1") }
  predicate EffectRecord(v: Value) { Says(v, "schema", "t3x/effect/v1") }

  function Items(v: Value, name: string): seq<Value> { Elements(Field(v, name)) }

  ghost predicate Leads(k: Kernel, get: Getter, v: Value, name: string, found: Value) {
    Resolve(k, get, Field(v, name)) == Ok(found)
  }

  /** The Statement has one subject, and it resolves to this. */
  ghost predicate LeadsToSubject(k: Kernel, get: Getter, statement: Value, found: Value) {
    |Items(statement, "subjects")| == 1 && Resolve(k, get, Items(statement, "subjects")[0]) == Ok(found)
  }

  ghost predicate EachResolves(k: Kernel, get: Getter, requested: seq<Value>) {
    forall i | 0 <= i < |requested| :: Resolve(k, get, requested[i]).Ok?
  }

  /** A considered Statement resolves, and all it is about. */
  ghost predicate ResolvesWithSubjects(k: Kernel, get: Getter, requested: Value) {
    Resolve(k, get, requested).Ok? && EachResolves(k, get, Items(Resolve(k, get, requested).value, "subjects"))
  }

  ghost predicate ConsideredResolve(k: Kernel, get: Getter, decision: Value) {
    var considered := Items(Field(decision, "predicate"), "considered");
    forall i | 0 <= i < |considered| :: ResolvesWithSubjects(k, get, considered[i])
  }

  /** The parent's result is the object of an input of the Effect. */
  predicate IsInput(effect: Value, parent: Value) {
    exists j | 0 <= j < |Items(effect, "inputs")| :: Field(Items(effect, "inputs")[j], "object") == Field(parent, "result")
  }

  /** The first parent's result is the Base, or there is no parent and the Base's value is
      the empty mapping; every further parent's result is the object of a declared input. */
  predicate ParentsFit(base: Value, effect: Value, parents: seq<Value>) {
    && (parents == [] ==> Field(base, "value") == Obj(map[]))
    && (parents != [] ==> Field(parents[0], "result") == Field(effect, "base"))
    && (forall i | 1 <= i < |parents| :: IsInput(effect, parents[i]))
  }

  /** From the commit to the Effect. */
  ghost predicate ChainLeads(k: Kernel, get: Getter, commit: Value, x: Verified) {
    && Leads(k, get, commit, "decision", x.decision) && DecisionRecord(x.decision) && Permits(x.decision)
    && LeadsToSubject(k, get, x.decision, x.proposal) && ProposalRecord(x.proposal)
    && LeadsToSubject(k, get, x.proposal, x.effect) && EffectRecord(x.effect)
    && Field(commit, "result") == Field(x.effect, "result")
  }

  ghost predicate AllLeads(k: Kernel, get: Getter, commit: Value, x: Verified) {
    var base := Resolve(k, get, Field(x.effect, "base"));
    && base.Ok? && Resolve(k, get, Field(commit, "result")).Ok? && ConsideredResolve(k, get, x.decision)
    && |x.parents| == |Items(commit, "parents")|
    && (forall i | 0 <= i < |x.parents| :: Resolve(k, get, Items(commit, "parents")[i]) == Ok(x.parents[i]))
    && ParentsFit(base.value, x.effect, x.parents)
  }

  ghost predicate InputsLead(k: Kernel, get: Getter, effect: Value) {
    forall i | 0 <= i < |Items(effect, "inputs")| :: Resolve(k, get, Field(Items(effect, "inputs")[i], "object")).Ok?
  }

  // ---------------------------------------------------------------- the same said twice

  lemma KindsOfRecords(v: Value)
    ensures IsDecision(v) <==> DecisionRecord(v)
    ensures IsProposal(v) <==> ProposalRecord(v)
    ensures IsEffect(v) <==> EffectRecord(v)
  {}

  /** Two parsed descriptors that read the same are the same. */
  lemma SameDescriptor(c: NumberCodec, a: Value, b: Value)
    requires ParseDescriptor(c, a).Ok? && ParseDescriptor(c, b).Ok?
    ensures DescriptorOf(a) == DescriptorOf(b) <==> a == b
  {
    OnlyDescriptorFields(a);
    OnlyDescriptorFields(b);
  }

  lemma DescriptorsParsed(c: NumberCodec, commit: Value, effect: Value)
    requires ParseCommit(c, commit).Ok? && ParseEffect(c, effect).Ok?
    ensures ParseDescriptor(c, Field(commit, "result")).Ok?
    ensures ParseDescriptor(c, Field(effect, "result")).Ok? && ParseDescriptor(c, Field(effect, "base")).Ok?
    ensures forall i | 0 <= i < |InputsOf(effect)| :: ParseDescriptor(c, ObjectOf(InputsOf(effect)[i])).Ok?
  {
    hide ParseCommit, ParseEffect, ParseDescriptor;
    CommitShape(c, commit);
    EffectShape(c, effect);
    EffectInputsDiffer(c, effect);
    forall i | 0 <= i < |InputsOf(effect)| ensures ParseDescriptor(c, ObjectOf(InputsOf(effect)[i])).Ok? {
      ShapeHasDescriptor(c, InputsOf(effect)[i]);
    }
  }

  lemma ShapeHasDescriptor(c: NumberCodec, input: Value)
    requires InputShape(c, input).Ok?
    ensures ParseDescriptor(c, ObjectOf(input)).Ok?
  {
    hide ParseDescriptor, Identifier;
  }

  lemma ProposalSubjects(c: NumberCodec, proposal: Value)
    requires ParseProposal(c, proposal).Ok?
    ensures |SubjectsOf(proposal)| == 1
  {
    hide ParseStatement, ProposalPredicate;
    StatementHasPredicate(c, proposal);
  }

  lemma ResolvedRecords(k: Kernel, get: Getter, requested: Value)
    requires Lawful(k.c) && Resolve(k, get, requested).Ok?
    ensures var v := Resolve(k, get, requested).value;
      && (DecisionRecord(v) ==> ParseDecision(k.c, v).Ok?) && (ProposalRecord(v) ==> ParseProposal(k.c, v).Ok?)
      && (EffectRecord(v) ==> ParseEffect(k.c, v).Ok?)
  {
    hide Resolve, ParseDecision, ParseProposal, ParseEffect, ParseState, ParseStatement, ParseCommit;
    ResolvedParses(k, get, requested);
    KindsOfRecords(Resolve(k, get, requested).value);
  }

  lemma ChainSaysTheSame(k: Kernel, get: Getter, commit: Value, x: Verified)
    requires Lawful(k.c) && ParseCommit(k.c, commit).Ok?
    ensures ChainStands(k, get, commit, x) <==> ChainLeads(k, get, commit, x)
    ensures ChainStands(k, get, commit, x) ==> ParseEffect(k.c, x.effect).Ok? && ParseDecision(k.c, x.decision).Ok?
  {
    hide Resolve, ParseCommit, ParseDecision, ParseProposal, ParseEffect, IsDecision, IsProposal, IsEffect, DecisionRecord, ProposalRecord,
      EffectRecord, IsRejected, Permits, ParseDescriptor, DescriptorOf, Field;
    KindsOfRecords(x.decision);
    KindsOfRecords(x.proposal);
    KindsOfRecords(x.effect);
    if Resolve(k, get, Field(commit, "decision")) == Ok(x.decision) && IsDecision(x.decision) {
      ResolvedRecords(k, get, Field(commit, "decision"));
      PermitsOrRefuses(k.c, x.decision);
      OneStatementSubject(k.c, x.decision);
      if Resolve(k, get, SubjectOf(x.decision)) == Ok(x.proposal) && IsProposal(x.proposal) {
        ResolvedRecords(k, get, SubjectOf(x.decision));
        ProposalSubjects(k.c, x.proposal);
        if Resolve(k, get, SubjectOf(x.proposal)) == Ok(x.effect) && IsEffect(x.effect) {
          ResolvedRecords(k, get, SubjectOf(x.proposal));
          DescriptorsParsed(k.c, commit, x.effect);
          SameDescriptor(k.c, Field(commit, "result"), Field(x.effect, "result"));
        }
      }
    }
  }

  lemma LinksSayTheSame(k: Kernel, get: Getter, commit: Value, base: Value, effect: Value, parents: seq<Value>)
    requires Lawful(k.c) && ParseCommit(k.c, commit).Ok? && ParseEffect(k.c, effect).Ok?
    requires ParentsAre(k, get, ParentsOf(commit), parents)
    ensures LinksHold(base, effect, parents) <==> ParentsFit(base, effect, parents)
  {
    hide Resolve, ParseCommit, ParseEffect, ParseDescriptor, DescriptorOf, Field, InputsOf, IsDeclared, IsInput;
    CommitShape(k.c, commit);
    DescriptorsParsed(k.c, commit, effect);
    forall i | 0 <= i < |parents| ensures ParseDescriptor(k.c, Field(parents[i], "result")).Ok? {
      ParentParses(k, get, ParentsOf(commit)[i]);
      DescriptorsParsed(k.c, parents[i], effect);
    }
    if parents != [] {
      SameDescriptor(k.c, Field(parents[0], "result"), Field(effect, "base"));
    }
    forall i | 1 <= i < |parents| ensures IsDeclared(effect, parents[i]) <==> IsInput(effect, parents[i]) {
      DeclaredSaysTheSame(k.c, effect, parents[i]);
    }
  }

  lemma DeclaredSaysTheSame(c: NumberCodec, effect: Value, parent: Value)
    requires ParseDescriptor(c, Field(parent, "result")).Ok?
    requires forall i | 0 <= i < |InputsOf(effect)| :: ParseDescriptor(c, ObjectOf(InputsOf(effect)[i])).Ok?
    ensures IsDeclared(effect, parent) <==> IsInput(effect, parent)
  {
    hide ParseDescriptor, DescriptorOf, Field;
    var inputs := InputsOf(effect);
    assert inputs == Items(effect, "inputs");
    forall i | 0 <= i < |inputs|
      ensures DescriptorOf(ObjectOf(inputs[i])) == DescriptorOf(Field(parent, "result")) <==> Field(inputs[i], "object") == Field(parent, "result")
    {
      SameDescriptor(c, ObjectOf(inputs[i]), Field(parent, "result"));
    }
    if i :| 0 <= i < |inputs| && Field(inputs[i], "object") == Field(parent, "result") {
      assert DescriptorOf(ObjectOf(InputsOf(effect)[i])) == DescriptorOf(Field(parent, "result"));
    }
    if i :| 0 <= i < |inputs| && DescriptorOf(ObjectOf(inputs[i])) == DescriptorOf(Field(parent, "result")) {
      assert Field(Items(effect, "inputs")[i], "object") == Field(parent, "result");
    }
  }

  lemma ParentParses(k: Kernel, get: Getter, requested: Value)
    requires Lawful(k.c) && Resolve(k, get, requested).Ok? && DescriptorOfKind(k.c, requested, "commit").Ok?
    ensures ParseCommit(k.c, Resolve(k, get, requested).value).Ok?
  {
    hide Resolve, DescriptorOfKind;
    ResolvedOfKind(k, get, requested, "commit");
    ResolvedParses(k, get, requested);
  }

  lemma ReferencesSayTheSame(k: Kernel, get: Getter, commit: Value, x: Verified)
    requires Lawful(k.c) && ParseCommit(k.c, commit).Ok? && ParseEffect(k.c, x.effect).Ok?
    ensures ReferencesStand(k, get, commit, x) <==> AllLeads(k, get, commit, x)
    ensures AllInputsResolve(k, get, x.effect) <==> InputsLead(k, get, x.effect)
  {
    hide Resolve, ParseCommit, ParseEffect, Field, LinksHold, ParentsFit, ConsideredResolve, IsConsidered;
    ConsideredSaysTheSame(k, get, x.decision);
    InputsSayTheSame(k, get, x.effect);
    var base := Resolve(k, get, Field(x.effect, "base"));
    if base.Ok? && ParentsAre(k, get, ParentsOf(commit), x.parents) {
      LinksSayTheSame(k, get, commit, base.value, x.effect, x.parents);
    }
    assert ParentsAre(k, get, ParentsOf(commit), x.parents) <==>
      |x.parents| == |Items(commit, "parents")| && forall i | 0 <= i < |x.parents| :: Resolve(k, get, Items(commit, "parents")[i]) == Ok(x.parents[i]);
  }

  lemma InputsSayTheSame(k: Kernel, get: Getter, effect: Value)
    ensures AllInputsResolve(k, get, effect) <==> InputsLead(k, get, effect)
  {
    hide Resolve, Field;
    var inputs := InputsOf(effect);
    assert inputs == Items(effect, "inputs");
    if AllInputsResolve(k, get, effect) {
      forall i | 0 <= i < |inputs| ensures Resolve(k, get, Field(inputs[i], "object")).Ok? {
        assert Resolves(k, get, ObjectOf(InputsOf(effect)[i]));
      }
    }
    if InputsLead(k, get, effect) {
      forall i | 0 <= i < |inputs| ensures Resolves(k, get, ObjectOf(inputs[i])) {
        assert Resolve(k, get, Field(Items(effect, "inputs")[i], "object")).Ok?;
      }
    }
  }

  lemma ConsideredSaysTheSame(k: Kernel, get: Getter, decision: Value)
    ensures ConsideredResolve(k, get, decision) <==> forall i | 0 <= i < |ConsideredOf(decision)| :: IsConsidered(k, get, ConsideredOf(decision)[i])
  {
    hide Resolve, Field, IsConsidered, ResolvesWithSubjects;
    assert ConsideredOf(decision) == Items(Field(decision, "predicate"), "considered");
    forall requested: Value ensures ResolvesWithSubjects(k, get, requested) <==> IsConsidered(k, get, requested) {
      SubjectsSayTheSame(k, get, requested);
    }
  }

  lemma SubjectsSayTheSame(k: Kernel, get: Getter, requested: Value)
    ensures ResolvesWithSubjects(k, get, requested) <==> IsConsidered(k, get, requested)
  {
    hide Resolve, Field;
    if Resolve(k, get, requested).Ok? {
      var subjects := SubjectsOf(Resolve(k, get, requested).value);
      assert forall i | 0 <= i < |subjects| :: Resolves(k, get, subjects[i]) <==> Resolve(k, get, subjects[i]).Ok?;
    }
  }

  // ---------------------------------------------------------------- acceptance

  /** A commit is accepted exactly when it parses, its Decision's outcome is one of the two
      that permit, the chain leads from Decision through Proposal to an Effect with the
      commit's result, everything named resolves and the parents fit. */
  lemma CommitExactly(k: Kernel, get: Getter, commit: Value, x: Verified)
    requires Lawful(k.c)
    ensures CommitIntegrity(k, get, commit) == Ok(x) <==>
      ParseCommit(k.c, commit).Ok? && ChainLeads(k, get, commit, x) && AllLeads(k, get, commit, x) && InputsLead(k, get, x.effect)
  {
    hide CommitIntegrity, ParseCommit, ChainStands, ReferencesStand, ChainLeads, AllLeads, InputsLead, AllInputsResolve, ParseEffect, ParseDecision;
    IntegrityExactly(k, get, commit, x);
    if ParseCommit(k.c, commit).Ok? {
      ChainSaysTheSame(k, get, commit, x);
      if ChainStands(k, get, commit, x) {
        ReferencesSayTheSame(k, get, commit, x);
      }
    }
  }

  /** The same of the Python verifier, which does not look at the Effect's inputs. */
  lemma PyCommitExactly(py: PythonKernel, get: Getter, commit: Value, x: Verified)
    requires Lawful(py.k.c) && AgreesOnStored(py, get) && AgreesOn(py, commit)
    ensures PyCommitIntegrity(py, get, commit) == Ok(x) <==>
      ParseCommit(py.k.c, commit).Ok? && ChainLeads(py.k, get, commit, x) && AllLeads(py.k, get, commit, x)
  {
    hide PyCommitIntegrity, ParseCommit, ChainStands, ReferencesStand, ChainLeads, AllLeads, ParseEffect, ParseDecision, AgreesOn;
    PyIntegrityExactly(py, get, commit, x);
    if ParseCommit(py.k.c, commit).Ok? {
      ChainSaysTheSame(py.k, get, commit, x);
      if ChainStands(py.k, get, commit, x) {
        ReferencesSayTheSame(py.k, get, commit, x);
      }
    }
  }

  // ---------------------------------------------------------------- failures

  /** Which check fails decides the code: a reference that does not resolve passes its code
      on, and everything else on the way to the Effect breaks the chain. */
  lemma ChainFailures(k: Kernel, get: Getter, commit: Value)
    requires Lawful(k.c)
    ensures ParseCommit(k.c, commit).Err? ==> CommitIntegrity(k, get, commit) == Err(ParseCommit(k.c, commit).code)
    ensures ParseCommit(k.c, commit).Ok? ==>
      var decision := Resolve(k, get, Field(commit, "decision"));
      && (decision.Err? ==> CommitIntegrity(k, get, commit) == Err(decision.code))
      && (decision.Ok? && (!DecisionRecord(decision.value) || Refuses(decision.value)) ==>
            CommitIntegrity(k, get, commit) == Err(INTEGRITY_CHAIN_INVALID))
  {
    hide Resolve, ParseCommit, ParseDecision, ParseProposal, ParseEffect, ProposalStep, EffectStep, ReferencesStep, IsDecision, DecisionRecord, Refuses, IsRejected;
    if ParseCommit(k.c, commit).Ok? && Resolve(k, get, Field(commit, "decision")).Ok? {
      var d := Resolve(k, get, Field(commit, "decision")).value;
      KindsOfRecords(d);
      if DecisionRecord(d) {
        ResolvedRecords(k, get, Field(commit, "decision"));
        PermitsOrRefuses(k.c, d);
      }
    }
  }

  lemma ProposalFailures(k: Kernel, get: Getter, commit: Value, decision: Value)
    requires Lawful(k.c) && ParseCommit(k.c, commit).Ok?
    requires Leads(k, get, commit, "decision", decision) && DecisionRecord(decision) && Permits(decision)
    ensures |Items(decision, "subjects")| == 1
    ensures var proposal := Resolve(k, get, Items(decision, "subjects")[0]);
      && (proposal.Err? ==> CommitIntegrity(k, get, commit) == Err(proposal.code))
      && (proposal.Ok? && !ProposalRecord(proposal.value) ==> CommitIntegrity(k, get, commit) == Err(INTEGRITY_CHAIN_INVALID))
  {
    hide Resolve, ParseCommit, ParseDecision, ParseProposal, ParseEffect, EffectStep, ReferencesStep, IsDecision, DecisionRecord, Permits, Refuses,
      IsRejected, IsProposal, ProposalRecord, Field;
    DecisionPasses(k, get, commit, decision);
    OneStatementSubject(k.c, decision);
    var proposal := Resolve(k, get, SubjectOf(decision));
    if proposal.Ok? {
      KindsOfRecords(proposal.value);
    }
  }

  lemma DecisionPasses(k: Kernel, get: Getter, commit: Value, decision: Value)
    requires Lawful(k.c) && Leads(k, get, commit, "decision", decision) && DecisionRecord(decision) && Permits(decision)
    ensures DecisionStep(k, get, commit) == Ok(decision) && ParseDecision(k.c, decision).Ok?
  {
    hide Resolve, ParseDecision, DecisionRecord, Permits, Refuses, IsDecision, IsRejected, DecisionStep;
    KindsOfRecords(decision);
    ResolvedRecords(k, get, Field(commit, "decision"));
    PermitsOrRefuses(k.c, decision);
    DecisionStepExactly(k, get, commit, decision);
  }

  lemma EffectFailures(k: Kernel, get: Getter, commit: Value, decision: Value, proposal: Value)
    requires Lawful(k.c) && ParseCommit(k.c, commit).Ok?
    requires Leads(k, get, commit, "decision", decision) && DecisionRecord(decision) && Permits(decision)
    requires LeadsToSubject(k, get, decision, proposal) && ProposalRecord(proposal)
    ensures |Items(proposal, "subjects")| == 1
    ensures var effect := Resolve(k, get, Items(proposal, "subjects")[0]);
      && (effect.Err? ==> CommitIntegrity(k, get, commit) == Err(effect.code))
      && (effect.Ok? && (!EffectRecord(effect.value) || Field(commit, "result") != Field(effect.value, "result")) ==>
            CommitIntegrity(k, get, commit) == Err(INTEGRITY_CHAIN_INVALID))
  {
    hide Resolve, ParseCommit, ParseDecision, ParseProposal, ParseEffect, DecisionStep, ProposalStep, ReferencesStep, DecisionRecord, Permits,
      IsProposal, ProposalRecord, EffectRecord, IsEffect, ParseDescriptor, DescriptorOf, Field;
    DecisionPasses(k, get, commit, decision);
    OneStatementSubject(k.c, decision);
    KindsOfRecords(proposal);
    ProposalStepExactly(k, get, decision, proposal);
    ResolvedRecords(k, get, SubjectOf(decision));
    ProposalSubjects(k.c, proposal);
    var effect := Resolve(k, get, SubjectOf(proposal));
    if effect.Ok? {
      KindsOfRecords(effect.value);
      if EffectRecord(effect.value) {
        ResolvedRecords(k, get, SubjectOf(proposal));
        DescriptorsParsed(k.c, commit, effect.value);
        SameDescriptor(k.c, Field(commit, "result"), Field(effect.value, "result"));
      }
    }
  }

  /** Past the chain, a reference that does not resolve fails the commit; when all resolve,
      parents that do not fit break the chain. */
  lemma ReferenceFailures(k: Kernel, get: Getter, commit: Value, x: Verified)
    requires Lawful(k.c) && ParseCommit(k.c, commit).Ok? && ChainLeads(k, get, commit, x)
    requires Resolve(k, get, Field(x.effect, "base")).Ok? && Resolve(k, get, Field(commit, "result")).Ok?
    requires ConsideredResolve(k, get, x.decision) && InputsLead(k, get, x.effect)
    requires |x.parents| == |Items(commit, "parents")|
    requires forall i | 0 <= i < |x.parents| :: Resolve(k, get, Items(commit, "parents")[i]) == Ok(x.parents[i])
    ensures CommitIntegrity(k, get, commit) ==
      if ParentsFit(Resolve(k, get, Field(x.effect, "base")).value, x.effect, x.parents) then Ok(x) else Err(INTEGRITY_CHAIN_INVALID)
  {
    hide Resolve, ParseCommit, ParseDecision, ParseProposal, ParseEffect, DecisionStep, ProposalStep, EffectStep, BaseStep, InputsResolve, ConsideredStep,
      ParentsStep, LinksHold, ParentsFit, ConsideredResolve, Field, IsConsidered, DecisionPredicate, DescriptorOfKind;
    ChainSaysTheSame(k, get, commit, x);
    DecisionStepExactly(k, get, commit, x.decision);
    ProposalStepExactly(k, get, x.decision, x.proposal);
    EffectStepExactly(k, get, commit, x.proposal, x.effect);
    BaseStepExactly(k, get, x.effect);
    InputsResolveExactly(k, get, InputsOf(x.effect));
    ConsideredSaysTheSame(k, get, x.decision);
    DecisionHasPredicate(k.c, x.decision);
    ConsideredShape(k.c, x.decision);
    ConsideredExactly(k, get, ConsideredOf(x.decision));
    CommitShape(k.c, commit);
    ParentsExactly(k, get, ParentsOf(commit), x.parents);
    assert ParentsAre(k, get, ParentsOf(commit), x.parents);
    InputsSayTheSame(k, get, x.effect);
    LinksSayTheSame(k, get, commit, Resolve(k, get, Field(x.effect, "base")).value, x.effect, x.parents);
    CheckedLast(k, get, commit, x);
  }

  lemma CheckedLast(k: Kernel, get: Getter, commit: Value, x: Verified)
    requires ParseCommit(k.c, commit).Ok? && DecisionStep(k, get, commit) == Ok(x.decision)
    requires ProposalStep(k, get, x.decision) == Ok(x.proposal) && EffectStep(k, get, commit, x.proposal) == Ok(x.effect)
    requires BaseStep(k, get, x.effect).Ok? && Resolve(k, get, Field(commit, "result")).Ok? && InputsResolve(k, get, InputsOf(x.effect)).Ok?
    requires ConsideredStep(k, get, ConsideredOf(x.decision)).Ok? && ParentsStep(k, get, ParentsOf(commit)) == Ok(x.parents)
    ensures CommitIntegrity(k, get, commit) ==
      if LinksHold(BaseStep(k, get, x.effect).value, x.effect, x.parents) then Ok(x) else Err(INTEGRITY_CHAIN_INVALID)
  {
    hide Resolve, ParseCommit, DecisionStep, ProposalStep, EffectStep, BaseStep, InputsResolve, ConsideredStep, ParentsStep, LinksHold;
  }

  // ---------------------------------------------------------------- the first that is missing

  ghost predicate IsFirstMissing(k: Kernel, get: Getter, requested: seq<Value>, i: nat)
    requires i < |requested|
  {
    Resolve(k, get, requested[i]).Err? && forall j | 0 <= j < i :: Resolve(k, get, requested[j]).Ok?
  }

  lemma {:induction false} MissingOfAll(k: Kernel, get: Getter, requested: seq<Value>, i: nat)
    requires i < |requested| && IsFirstMissing(k, get, requested, i)
    ensures ResolveAll(k, get, requested) == Err(Resolve(k, get, requested[i]).code)
    decreases |requested|
  {
    hide Resolve;
    if i > 0 {
      assert Resolve(k, get, requested[0]).Ok?;
      assert forall j | 0 <= j < |requested[1..]| :: requested[1..][j] == requested[j + 1];
      MissingOfAll(k, get, requested[1..], i - 1);
    }
  }

  function Objects(inputs: seq<Value>): seq<Value> { seq(|inputs|, i requires 0 <= i < |inputs| => Field(inputs[i], "object")) }

  lemma {:induction false} InputsAreAll(k: Kernel, get: Getter, inputs: seq<Value>)
    ensures InputsResolve(k, get, inputs) == ResolveAll(k, get, Objects(inputs))
    decreases |inputs|
  {
    hide Resolve, Field;
    if inputs != [] {
      InputsAreAll(k, get, inputs[1..]);
      assert Objects(inputs)[1..] == Objects(inputs[1..]);
    }
  }

  /** The first considered Statement that is missing, or the first of its subjects. */
  ghost predicate IsFirstUnsupported(k: Kernel, get: Getter, considered: seq<Value>, i: nat)
    requires i < |considered|
  {
    !ResolvesWithSubjects(k, get, considered[i]) && forall j | 0 <= j < i :: ResolvesWithSubjects(k, get, considered[j])
  }

  lemma StatementStep(k: Kernel, get: Getter, requested: Value)
    requires Lawful(k.c) && DescriptorOfKind(k.c, requested, "statement").Ok? && Resolve(k, get, requested).Ok?
    ensures var v := Resolve(k, get, requested).value;
      && StatementSubjects(k, get, v) == ResolveAll(k, get, Items(v, "subjects"))
      && (ResolveAll(k, get, Items(v, "subjects")).Ok? <==> EachResolves(k, get, Items(v, "subjects")))
  {
    hide Resolve, DescriptorOfKind, ParseStatement, Field, ResolveAll;
    var v := Resolve(k, get, requested).value;
    ResolvedOfKind(k, get, requested, "statement");
    ResolvedParses(k, get, requested);
    assert SubjectsOf(v) == Items(v, "subjects");
    ResolveAllExactly(k, get, SubjectsOf(v));
    AllIsEach(k, get, SubjectsOf(v));
  }

  lemma AllIsEach(k: Kernel, get: Getter, requested: seq<Value>)
    ensures AllResolve(k, get, requested) <==> EachResolves(k, get, requested)
  {
    hide Resolve;
    if EachResolves(k, get, requested) {
      forall i | 0 <= i < |requested| ensures Resolves(k, get, requested[i]) {
        assert Resolve(k, get, requested[i]).Ok?;
      }
    }
    if AllResolve(k, get, requested) {
      forall i | 0 <= i < |requested| ensures Resolve(k, get, requested[i]).Ok? {
        assert Resolves(k, get, requested[i]);
      }
    }
  }

  lemma {:induction false} MissingConsidered(k: Kernel, get: Getter, considered: seq<Value>, i: nat)
    requires Lawful(k.c) && forall j | 0 <= j < |considered| :: DescriptorOfKind(k.c, considered[j], "statement").Ok?
    requires i < |considered| && IsFirstUnsupported(k, get, considered, i)
    ensures ConsideredStep(k, get, considered) ==
      if Resolve(k, get, considered[i]).Err? then Err(Resolve(k, get, considered[i]).code)
      else ResolveAll(k, get, Items(Resolve(k, get, considered[i]).value, "subjects"))
    decreases |considered|
  {
    hide Resolve, DescriptorOfKind, StatementSubjects, EachResolves, Items;
    if Resolve(k, get, considered[0]).Ok? {
      StatementStep(k, get, considered[0]);
    }
    if i > 0 {
      assert ResolvesWithSubjects(k, get, considered[0]);
      assert forall j | 0 <= j < |considered[1..]| :: considered[1..][j] == considered[j + 1];
      MissingConsidered(k, get, considered[1..], i - 1);
    }
  }

  lemma {:induction false} MissingParent(k: Kernel, get: Getter, requested: seq<Value>, i: nat)
    requires Lawful(k.c) && forall j | 0 <= j < |requested| :: DescriptorOfKind(k.c, requested[j], "commit").Ok?
    requires i < |requested| && IsFirstMissing(k, get, requested, i)
    ensures ParentsStep(k, get, requested) == Err(Resolve(k, get, requested[i]).code)
    decreases |requested|
  {
    hide Resolve, DescriptorOfKind, OneParent;
    OneParentExactly(k, get, requested[0]);
    if i > 0 {
      assert Resolve(k, get, requested[0]).Ok?;
      assert forall j | 0 <= j < |requested[1..]| :: requested[1..][j] == requested[j + 1];
      MissingParent(k, get, requested[1..], i - 1);
    }
  }

  /** Past the chain the references decide. */
  lemma PastChain(k: Kernel, get: Getter, commit: Value, x: Verified)
    requires Lawful(k.c) && ParseCommit(k.c, commit).Ok? && ChainLeads(k, get, commit, x)
    ensures ParseEffect(k.c, x.effect).Ok? && ParseDecision(k.c, x.decision).Ok?
    ensures BaseStep(k, get, x.effect) == Resolve(k, get, Field(x.effect, "base"))
    ensures var references := ReferencesStep(k, get, commit, x.decision, x.effect);
      references.Err? ==> CommitIntegrity(k, get, commit) == Err(references.code)
  {
    hide Resolve, ParseCommit, ParseDecision, ParseProposal, ParseEffect, DecisionStep, ProposalStep, EffectStep, ReferencesStep, BaseStep, ChainLeads, Field;
    ChainSaysTheSame(k, get, commit, x);
    DecisionStepExactly(k, get, commit, x.decision);
    ProposalStepExactly(k, get, x.decision, x.proposal);
    EffectStepExactly(k, get, commit, x.proposal, x.effect);
    BaseStepExactly(k, get, x.effect);
  }

  ghost predicate StatesLead(k: Kernel, get: Getter, commit: Value, x: Verified) {
    Resolve(k, get, Field(x.effect, "base")).Ok? && Resolve(k, get, Field(commit, "result")).Ok?
  }

  /** Past the chain the Base is asked for first, and then the commit's result. */
  lemma MissingState(k: Kernel, get: Getter, commit: Value, x: Verified)
    requires Lawful(k.c) && ParseCommit(k.c, commit).Ok? && ChainLeads(k, get, commit, x)
    ensures var base, result := Resolve(k, get, Field(x.effect, "base")), Resolve(k, get, Field(commit, "result"));
      && (base.Err? ==> CommitIntegrity(k, get, commit) == Err(base.code))
      && (base.Ok? && result.Err? ==> CommitIntegrity(k, get, commit) == Err(result.code))
  {
    hide Resolve, ParseCommit, ParseDecision, ParseEffect, CommitIntegrity, BaseStep, ChainLeads, Field, InputsResolve, ConsideredStep, ParentsStep, LinksHold;
    PastChain(k, get, commit, x);
  }

  /** Then the inputs, in order. */
  lemma MissingObject(k: Kernel, get: Getter, commit: Value, x: Verified, i: nat)
    requires Lawful(k.c) && ParseCommit(k.c, commit).Ok? && ChainLeads(k, get, commit, x) && StatesLead(k, get, commit, x)
    requires i < |Items(x.effect, "inputs")| && IsFirstMissing(k, get, Objects(Items(x.effect, "inputs")), i)
    ensures CommitIntegrity(k, get, commit) == Err(Resolve(k, get, Field(Items(x.effect, "inputs")[i], "object")).code)
  {
    hide Resolve, ParseCommit, ParseDecision, ParseEffect, CommitIntegrity, BaseStep, ChainLeads, Field, InputsResolve, ConsideredStep, ParentsStep, LinksHold;
    PastChain(k, get, commit, x);
    var inputs := InputsOf(x.effect);
    assert inputs == Items(x.effect, "inputs");
    InputsAreAll(k, get, inputs);
    MissingOfAll(k, get, Objects(inputs), i);
  }

  lemma InputsPass(k: Kernel, get: Getter, x: Verified)
    requires InputsLead(k, get, x.effect)
    ensures InputsResolve(k, get, InputsOf(x.effect)).Ok?
  {
    hide Resolve, Field, InputsResolve, InputsLead, AllInputsResolve;
    InputsSayTheSame(k, get, x.effect);
    InputsResolveExactly(k, get, InputsOf(x.effect));
    InputsEach(k, get, x.effect);
  }

  lemma InputsEach(k: Kernel, get: Getter, effect: Value)
    requires AllInputsResolve(k, get, effect)
    ensures forall i | 0 <= i < |InputsOf(effect)| :: Resolves(k, get, ObjectOf(InputsOf(effect)[i]))
  {}

  function Considered(x: Verified): seq<Value> { Items(Field(x.decision, "predicate"), "considered") }

  /** Then the considered Statements, and after each the objects it is about. */
  lemma MissingStatement(k: Kernel, get: Getter, commit: Value, x: Verified, i: nat)
    requires Lawful(k.c) && ParseCommit(k.c, commit).Ok? && ChainLeads(k, get, commit, x) && StatesLead(k, get, commit, x) && InputsLead(k, get, x.effect)
    requires i < |Considered(x)| && IsFirstUnsupported(k, get, Considered(x), i)
    ensures var statement := Resolve(k, get, Considered(x)[i]);
      && (statement.Err? ==> CommitIntegrity(k, get, commit) == Err(statement.code))
      && (statement.Ok? ==> forall j | 0 <= j < |Items(statement.value, "subjects")| && IsFirstMissing(k, get, Items(statement.value, "subjects"), j) ::
            CommitIntegrity(k, get, commit) == Err(Resolve(k, get, Items(statement.value, "subjects")[j]).code))
  {
    hide Resolve, ParseCommit, ParseDecision, ParseEffect, CommitIntegrity, BaseStep, ChainLeads, Field, InputsResolve, ConsideredStep, ParentsStep, LinksHold,
      DecisionPredicate, DescriptorOfKind, InputsLead, IsFirstUnsupported;
    PastChain(k, get, commit, x);
    InputsPass(k, get, x);
    assert ConsideredOf(x.decision) == Considered(x);
    DecisionHasPredicate(k.c, x.decision);
    ConsideredShape(k.c, x.decision);
    MissingConsidered(k, get, Considered(x), i);
    var statement := Resolve(k, get, Considered(x)[i]);
    if statement.Ok? {
      var subjects := Items(statement.value, "subjects");
      forall j | 0 <= j < |subjects| && IsFirstMissing(k, get, subjects, j) ensures ResolveAll(k, get, subjects) == Err(Resolve(k, get, subjects[j]).code) {
        MissingOfAll(k, get, subjects, j);
      }
    }
  }

  /** And last the parents. */
  lemma MissingParentFails(k: Kernel, get: Getter, commit: Value, x: Verified, i: nat)
    requires Lawful(k.c) && ParseCommit(k.c, commit).Ok? && ChainLeads(k, get, commit, x) && StatesLead(k, get, commit, x)
    requires InputsLead(k, get, x.effect) && ConsideredResolve(k, get, x.decision)
    requires i < |Items(commit, "parents")| && IsFirstMissing(k, get, Items(commit, "parents"), i)
    ensures CommitIntegrity(k, get, commit) == Err(Resolve(k, get, Items(commit, "parents")[i]).code)
  {
    hide Resolve, ParseCommit, ParseDecision, ParseEffect, CommitIntegrity, BaseStep, ChainLeads, Field, InputsResolve, ConsideredStep, ParentsStep, LinksHold,
      DecisionPredicate, DescriptorOfKind, InputsLead, ConsideredResolve, IsConsidered;
    PastChain(k, get, commit, x);
    InputsPass(k, get, x);
    ConsideredSaysTheSame(k, get, x.decision);
    DecisionHasPredicate(k.c, x.decision);
    ConsideredShape(k.c, x.decision);
    ConsideredExactly(k, get, ConsideredOf(x.decision));
    CommitShape(k.c, commit);
    assert ParentsOf(commit) == Items(commit, "parents");
    MissingParent(k, get, ParentsOf(commit), i);
  }

  /** A Decision that refuses breaks the chain in Python too. */
  lemma PyRefused(py: PythonKernel, get: Getter, commit: Value, decision: Value)
    requires Lawful(py.k.c) && AgreesOnStored(py, get) && AgreesOn(py, commit)
    requires ParseCommit(py.k.c, commit).Ok? && Leads(py.k, get, commit, "decision", decision)
    requires !DecisionRecord(decision) || Refuses(decision)
    ensures PyCommitIntegrity(py, get, commit) == Err(INTEGRITY_CHAIN_INVALID)
  {
    hide Resolve, PyResolve, ParseCommit, ParseDecision, Validate, IsDecision, DecisionRecord, Refuses, IsRejected, AgreesOn, PyProposalStep, PyEffectStep, PyReferences;
    SameResolution(py, get, Field(commit, "decision"));
    ParsersGive(py, commit);
    KindsOfRecords(decision);
    if DecisionRecord(decision) {
      ResolvedRecords(py.k, get, Field(commit, "decision"));
      PermitsOrRefuses(py.k.c, decision);
    }
  }
}
