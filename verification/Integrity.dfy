/** Verifying a commit's references: Commit, Decision, Proposal, Effect and their States. */
module Integrity {
  import opened Text
  import opened Values
  import opened Grammar
  import opened Utf8
  import opened Protocol
  import opened Resolver

  datatype Verified = Verified(decision: Value, proposal: Value, effect: Value, parents: seq<Value>)

  function PredicateOf(statement: Value): Value { Field(statement, "predicate") }
  function ConsideredOf(decision: Value): seq<Value> { Elements(Field(PredicateOf(decision), "considered")) }
  function InputsOf(effect: Value): seq<Value> { Elements(Field(effect, "inputs")) }
  function SubjectOf(statement: Value): Value { if SubjectsOf(statement) == [] then Null else SubjectsOf(statement)[0] }

  predicate IsDecision(v: Value) { IsStatement(v) && Field(v, "predicateType") == Str(DECISION) }
  predicate IsProposal(v: Value) { IsStatement(v) && Field(v, "predicateType") == Str(PROPOSAL) }
  predicate IsRejected(decision: Value) { Field(PredicateOf(decision), "outcome") == REJECTED }

  predicate SameField(a: Value, b: Value, name: string) { DescriptorOf(Field(a, name)) == DescriptorOf(Field(b, name)) }

  /** `isExplicitEmptyGenesis` */
  predicate IsEmptyGenesis(v: Value) { v == Obj(map[]) }

  // ---------------------------------------------------------------- steps, in the source's order

  function DecisionStep(k: Kernel, get: Getter, commit: Value): Result<Value> {
    var decision :- Resolve(k, get, Field(commit, "decision"));
    var _ :- Need(IsDecision(decision), INTEGRITY_CHAIN_INVALID);
    var _ :- ParseDecision(k.c, decision);
    var _ :- Need(!IsRejected(decision), INTEGRITY_CHAIN_INVALID);
    Ok(decision)
  }

  function ProposalStep(k: Kernel, get: Getter, decision: Value): Result<Value> {
    var proposal :- Resolve(k, get, SubjectOf(decision));
    var _ :- Need(IsProposal(proposal), INTEGRITY_CHAIN_INVALID);
    var _ :- ParseProposal(k.c, proposal);
    Ok(proposal)
  }

  function EffectStep(k: Kernel, get: Getter, commit: Value, proposal: Value): Result<Value> {
    var effect :- Resolve(k, get, SubjectOf(proposal));
    var _ :- Need(IsEffect(effect), INTEGRITY_CHAIN_INVALID);
    var _ :- ParseEffect(k.c, effect);
    var _ :- Need(SameField(commit, effect, "result"), INTEGRITY_CHAIN_INVALID);
    Ok(effect)
  }

  function BaseStep(k: Kernel, get: Getter, effect: Value): Result<Value> {
    var base :- Resolve(k, get, Field(effect, "base"));
    var _ :- ParseState(k.c, base);
    Ok(base)
  }

  function ResolveAll(k: Kernel, get: Getter, requested: seq<Value>): Check
    decreases |requested|
  {
    if requested == [] then Ok(())
    else
      var _ :- Resolve(k, get, requested[0]);
      ResolveAll(k, get, requested[1..])
  }

  function InputsResolve(k: Kernel, get: Getter, inputs: seq<Value>): Check
    decreases |inputs|
  {
    if inputs == [] then Ok(())
    else
      var _ :- Resolve(k, get, ObjectOf(inputs[0]));
      InputsResolve(k, get, inputs[1..])
  }

  /** `verifyStatementSubjects` */
  function StatementSubjects(k: Kernel, get: Getter, statement: Value): Check {
    var _ :- ParseStatement(k.c, statement);
    ResolveAll(k, get, SubjectsOf(statement))
  }

  function ConsideredStep(k: Kernel, get: Getter, considered: seq<Value>): Check
    decreases |considered|
  {
    if considered == [] then Ok(())
    else
      var statement :- Resolve(k, get, considered[0]);
      var _ :- StatementSubjects(k, get, statement);
      ConsideredStep(k, get, considered[1..])
  }

  function OneParent(k: Kernel, get: Getter, requested: Value): Result<Value> {
    var parent :- Resolve(k, get, requested);
    var _ :- ParseCommit(k.c, parent);
    Ok(parent)
  }

  function ParentsStep(k: Kernel, get: Getter, requested: seq<Value>): Result<seq<Value>>
    decreases |requested|
  {
    if requested == [] then Ok([])
    else
      var parent :- OneParent(k, get, requested[0]);
      var more :- ParentsStep(k, get, requested[1..]);
      Ok([parent] + more)
  }

  predicate IsDeclared(effect: Value, parent: Value) {
    exists i | 0 <= i < |InputsOf(effect)| :: DescriptorOf(ObjectOf(InputsOf(effect)[i])) == DescriptorOf(Field(parent, "result"))
  }

  /** The first parent's Result is the Base, or there is none and the Base is empty; every
      other parent's Result is a declared input. */
  predicate LinksHold(base: Value, effect: Value, parents: seq<Value>) {
    && (parents == [] ==> IsEmptyGenesis(Field(base, "value")))
    && (parents != [] ==> DescriptorOf(Field(parents[0], "result")) == DescriptorOf(Field(effect, "base")))
    && (forall i | 1 <= i < |parents| :: IsDeclared(effect, parents[i]))
  }

  /** The last four steps, given what the chain of four steps yielded. */
  function ReferencesStep(k: Kernel, get: Getter, commit: Value, decision: Value, effect: Value): Result<seq<Value>> {
    var base :- BaseStep(k, get, effect);
    var _ :- Resolve(k, get, Field(commit, "result"));
    var _ :- InputsResolve(k, get, InputsOf(effect));
    var _ :- ConsideredStep(k, get, ConsideredOf(decision));
    var parents :- ParentsStep(k, get, ParentsOf(commit));
    var _ :- Need(LinksHold(base, effect, parents), INTEGRITY_CHAIN_INVALID);
    Ok(parents)
  }

  /** `verifyCommitIntegrity`: the first failing check decides the error. */
  function CommitIntegrity(k: Kernel, get: Getter, commit: Value): Result<Verified> {
    var _ :- ParseCommit(k.c, commit);
    var decision :- DecisionStep(k, get, commit);
    var proposal :- ProposalStep(k, get, decision);
    var effect :- EffectStep(k, get, commit, proposal);
    var parents :- ReferencesStep(k, get, commit, decision, effect);
    Ok(Verified(decision, proposal, effect, parents))
  }

  // ---------------------------------------------------------------- the loops

  method ResolveAllLoop(k: Kernel, get: Getter, requested: seq<Value>) returns (r: Check)
    ensures r == ResolveAll(k, get, requested)
  {
    var i := 0;
    while i < |requested|
      invariant 0 <= i <= |requested|
      invariant ResolveAll(k, get, requested) == ResolveAll(k, get, requested[i..])
    {
      assert requested[i..][1..] == requested[i + 1..];
      var _ :- Resolve(k, get, requested[i]);
      i := i + 1;
    }
    r := Ok(());
  }

  method VerifyStatementSubjects(k: Kernel, get: Getter, statement: Value) returns (r: Check)
    ensures r == StatementSubjects(k, get, statement)
  {
    var _ :- ParseStatement(k.c, statement);
    r := ResolveAllLoop(k, get, SubjectsOf(statement));
  }

  method InputsLoop(k: Kernel, get: Getter, inputs: seq<Value>) returns (r: Check)
    ensures r == InputsResolve(k, get, inputs)
  {
    var i := 0;
    while i < |inputs|
      invariant 0 <= i <= |inputs|
      invariant InputsResolve(k, get, inputs) == InputsResolve(k, get, inputs[i..])
    {
      assert inputs[i..][1..] == inputs[i + 1..];
      var _ :- Resolve(k, get, ObjectOf(inputs[i]));
      i := i + 1;
    }
    r := Ok(());
  }

  method ConsideredLoop(k: Kernel, get: Getter, considered: seq<Value>) returns (r: Check)
    ensures r == ConsideredStep(k, get, considered)
  {
    var i := 0;
    while i < |considered|
      invariant 0 <= i <= |considered|
      invariant ConsideredStep(k, get, considered) == ConsideredStep(k, get, considered[i..])
    {
      assert considered[i..][1..] == considered[i + 1..];
      var statement :- Resolve(k, get, considered[i]);
      var _ :- VerifyStatementSubjects(k, get, statement);
      i := i + 1;
    }
    r := Ok(());
  }

  function Prepend(sofar: seq<Value>, rest: Result<seq<Value>>): Result<seq<Value>> {
    match rest
    case Ok(more) => Ok(sofar + more)
    case Err(code) => Err(code)
  }

  lemma PrependNothing(rest: Result<seq<Value>>, sofar: seq<Value>)
    ensures Prepend([], rest) == rest && Prepend(sofar, Ok([])) == Ok(sofar)
  {
    if rest.Ok? {
      assert [] + rest.value == rest.value;
    }
    assert sofar + [] == sofar;
  }

  lemma ParentsAdvance(k: Kernel, get: Getter, sofar: seq<Value>, requested: seq<Value>)
    requires requested != []
    ensures Prepend(sofar, ParentsStep(k, get, requested)) ==
      match OneParent(k, get, requested[0])
      case Err(code) => Err(code)
      case Ok(parent) => Prepend(sofar + [parent], ParentsStep(k, get, requested[1..]))
  {
    var rest := ParentsStep(k, get, requested[1..]);
    if OneParent(k, get, requested[0]).Ok? && rest.Ok? {
      var parent := OneParent(k, get, requested[0]).value;
      assert sofar + ([parent] + rest.value) == (sofar + [parent]) + rest.value;
    }
  }

  method ParentsLoop(k: Kernel, get: Getter, requested: seq<Value>) returns (r: Result<seq<Value>>)
    ensures r == ParentsStep(k, get, requested)
  {
    var parents: seq<Value> := [];
    var i := 0;
    PrependNothing(ParentsStep(k, get, requested), []);
    assert requested[0..] == requested;
    while i < |requested|
      invariant 0 <= i <= |requested|
      invariant ParentsStep(k, get, requested) == Prepend(parents, ParentsStep(k, get, requested[i..]))
    {
      assert requested[i..][1..] == requested[i + 1..] && requested[i..][0] == requested[i];
      ParentsAdvance(k, get, parents, requested[i..]);
      var parent :- OneParent(k, get, requested[i]);
      parents := parents + [parent];
      i := i + 1;
    }
    assert requested[i..] == [];
    PrependNothing(Ok([]), parents);
    r := Ok(parents);
  }

  method CheckDeclared(effect: Value, parent: Value) returns (found: bool)
    ensures found == IsDeclared(effect, parent)
  {
    var i := 0;
    while i < |InputsOf(effect)|
      invariant 0 <= i <= |InputsOf(effect)|
      invariant forall j | 0 <= j < i :: DescriptorOf(ObjectOf(InputsOf(effect)[j])) != DescriptorOf(Field(parent, "result"))
    {
      if DescriptorOf(ObjectOf(InputsOf(effect)[i])) == DescriptorOf(Field(parent, "result")) {
        return true;
      }
      i := i + 1;
    }
    found := false;
  }

  method CheckLinks(base: Value, effect: Value, parents: seq<Value>) returns (r: Check)
    ensures r == Need(LinksHold(base, effect, parents), INTEGRITY_CHAIN_INVALID)
  {
    if parents == [] && !IsEmptyGenesis(Field(base, "value")) {
      return Err(INTEGRITY_CHAIN_INVALID);
    }
    if parents != [] && DescriptorOf(Field(parents[0], "result")) != DescriptorOf(Field(effect, "base")) {
      return Err(INTEGRITY_CHAIN_INVALID);
    }
    var i := 1;
    while i < |parents|
      invariant 1 <= i
      invariant forall j | 1 <= j < i && j < |parents| :: IsDeclared(effect, parents[j])
    {
      var declared := CheckDeclared(effect, parents[i]);
      if !declared {
        return Err(INTEGRITY_CHAIN_INVALID);
      }
      i := i + 1;
    }
    r := Ok(());
  }

  method VerifyCommitIntegrity(k: Kernel, get: Getter, commit: Value) returns (r: Result<Verified>)
    ensures r == CommitIntegrity(k, get, commit)
  {
    var _ :- ParseCommit(k.c, commit);
    var decision :- DecisionStep(k, get, commit);
    var proposal :- ProposalStep(k, get, decision);
    var effect :- EffectStep(k, get, commit, proposal);
    var base :- BaseStep(k, get, effect);
    var _ :- Resolve(k, get, Field(commit, "result"));
    var _ :- InputsLoop(k, get, InputsOf(effect));
    var _ :- ConsideredLoop(k, get, ConsideredOf(decision));
    var parents :- ParentsLoop(k, get, ParentsOf(commit));
    var _ :- CheckLinks(base, effect, parents);
    r := Ok(Verified(decision, proposal, effect, parents));
  }

  // ---------------------------------------------------------------- what acceptance means

  ghost predicate Resolves(k: Kernel, get: Getter, requested: Value) { Resolve(k, get, requested).Ok? }

  ghost predicate AllResolve(k: Kernel, get: Getter, requested: seq<Value>) {
    forall i | 0 <= i < |requested| :: Resolves(k, get, requested[i])
  }

  ghost predicate AllInputsResolve(k: Kernel, get: Getter, effect: Value) {
    forall i | 0 <= i < |InputsOf(effect)| :: Resolves(k, get, ObjectOf(InputsOf(effect)[i]))
  }

  /** A considered Statement and everything it is about are there. */
  ghost predicate IsConsidered(k: Kernel, get: Getter, requested: Value) {
    Resolves(k, get, requested) && AllResolve(k, get, SubjectsOf(Resolve(k, get, requested).value))
  }

  ghost predicate ParentsAre(k: Kernel, get: Getter, requested: seq<Value>, parents: seq<Value>) {
    && |parents| == |requested|
    && forall i | 0 <= i < |requested| :: Resolve(k, get, requested[i]) == Ok(parents[i])
  }

  /** The Decision lets the commit happen: it accepts, or it overrides. */
  predicate Permits(decision: Value) {
    var outcome := Field(Field(decision, "predicate"), "outcome");
    outcome == Str(Ascii("accepted")) || outcome == Str(Ascii("overridden"))
  }

  predicate Refuses(decision: Value) { Field(Field(decision, "predicate"), "outcome") == Str(Ascii("rejected")) }

  lemma OutcomesApart()
    ensures Ascii("accepted") != Ascii("rejected") && Ascii("overridden") != Ascii("rejected") && Ascii("accepted") != Ascii("overridden")
  {
    assert Ascii("accepted")[0] == 'a' as int && Ascii("rejected")[0] == 'r' as int && Ascii("overridden")[0] == 'o' as int;
  }

  /** A parsed Decision permits or refuses, and not both; the check made is the latter. */
  lemma PermitsOrRefuses(c: NumberCodec, decision: Value)
    requires ParseDecision(c, decision).Ok?
    ensures Permits(decision) <==> !Refuses(decision)
    ensures IsRejected(decision) <==> Refuses(decision)
  {
    hide ParseDecision, DecisionPredicate;
    DecisionHasPredicate(c, decision);
    DecisionOutcome(c, PredicateOf(decision));
    OutcomesApart();
  }

  /** The chain Commit, Decision, Proposal, Effect stands, and its Decision permits it. */
  ghost predicate ChainStands(k: Kernel, get: Getter, commit: Value, x: Verified) {
    && Resolve(k, get, Field(commit, "decision")) == Ok(x.decision) && IsDecision(x.decision) && Permits(x.decision)
    && Resolve(k, get, SubjectOf(x.decision)) == Ok(x.proposal) && IsProposal(x.proposal)
    && Resolve(k, get, SubjectOf(x.proposal)) == Ok(x.effect) && IsEffect(x.effect)
    && SameField(commit, x.effect, "result")
  }

  ghost predicate ReferencesStand(k: Kernel, get: Getter, commit: Value, x: Verified) {
    && Resolves(k, get, Field(x.effect, "base")) && Resolves(k, get, Field(commit, "result"))
    && (forall i | 0 <= i < |ConsideredOf(x.decision)| :: IsConsidered(k, get, ConsideredOf(x.decision)[i]))
    && ParentsAre(k, get, ParentsOf(commit), x.parents)
    && LinksHold(Resolve(k, get, Field(x.effect, "base")).value, x.effect, x.parents)
  }

  ghost predicate Intact(k: Kernel, get: Getter, commit: Value, x: Verified) {
    && ParseCommit(k.c, commit).Ok?
    && ChainStands(k, get, commit, x) && ReferencesStand(k, get, commit, x) && AllInputsResolve(k, get, x.effect)
  }

  lemma ResolvedParses(k: Kernel, get: Getter, requested: Value)
    requires Lawful(k.c) && Resolve(k, get, requested).Ok?
    ensures var v := Resolve(k, get, requested).value;
      && (IsState(v) ==> ParseState(k.c, v).Ok?) && (IsEffect(v) ==> ParseEffect(k.c, v).Ok?)
      && (IsDecision(v) ==> ParseDecision(k.c, v).Ok?) && (IsProposal(v) ==> ParseProposal(k.c, v).Ok?)
      && (IsStatement(v) ==> ParseStatement(k.c, v).Ok?) && (IsCommit(v) ==> ParseCommit(k.c, v).Ok?)
  {
    var v := Resolve(k, get, requested).value;
    ResolvedHasKind(k, get, requested);
    ParseObjectIsOneOfFour(k.c, v);
  }

  /** A descriptor of a kind resolves, if at all, to an object of that kind. */
  lemma ResolvedOfKind(k: Kernel, get: Getter, requested: Value, kind: string)
    requires Lawful(k.c) && Resolve(k, get, requested).Ok? && DescriptorOfKind(k.c, requested, kind).Ok?
    ensures kind == "state" ==> IsState(Resolve(k, get, requested).value)
    ensures kind == "statement" ==> IsStatement(Resolve(k, get, requested).value)
    ensures kind == "commit" ==> IsCommit(Resolve(k, get, requested).value)
    ensures kind == "effect" ==> IsEffect(Resolve(k, get, requested).value)
  {
    ResolvedHasKind(k, get, requested);
    KindsDistinct();
  }

  lemma KindsDistinct()
    ensures ExpectedSchema(Ascii("state")) == Some(STATE_SCHEMA)
    ensures ExpectedSchema(Ascii("effect")) == Some(EFFECT_SCHEMA)
    ensures ExpectedSchema(Ascii("statement")) == Some(STATEMENT_SCHEMA)
    ensures ExpectedSchema(Ascii("commit")) == Some(COMMIT_SCHEMA)
  {
    assert |Ascii("state")| == 5 && |Ascii("effect")| == 6 && |Ascii("statement")| == 9 && |Ascii("commit")| == 6;
    assert Ascii("effect")[0] == 'e' as int && Ascii("commit")[0] == 'c' as int;
  }

  lemma {:induction false} ResolveAllExactly(k: Kernel, get: Getter, requested: seq<Value>)
    ensures ResolveAll(k, get, requested).Ok? <==> AllResolve(k, get, requested)
    decreases |requested|
  {
    if requested != [] {
      ResolveAllExactly(k, get, requested[1..]);
      assert forall i | 0 < i < |requested| :: requested[i] == requested[1..][i - 1];
    }
  }

  lemma {:induction false} InputsResolveExactly(k: Kernel, get: Getter, inputs: seq<Value>)
    ensures InputsResolve(k, get, inputs).Ok? <==> forall i | 0 <= i < |inputs| :: Resolves(k, get, ObjectOf(inputs[i]))
    decreases |inputs|
  {
    if inputs != [] {
      InputsResolveExactly(k, get, inputs[1..]);
      assert forall i | 0 < i < |inputs| :: inputs[i] == inputs[1..][i - 1];
    }
  }

  lemma OneConsidered(k: Kernel, get: Getter, requested: Value)
    requires Lawful(k.c) && DescriptorOfKind(k.c, requested, "statement").Ok?
    ensures Resolve(k, get, requested).Ok? && StatementSubjects(k, get, Resolve(k, get, requested).value).Ok?
      <==> IsConsidered(k, get, requested)
  {
    if Resolve(k, get, requested).Ok? {
      ResolvedOfKind(k, get, requested, "statement");
      ResolvedParses(k, get, requested);
      ResolveAllExactly(k, get, SubjectsOf(Resolve(k, get, requested).value));
    }
  }

  lemma {:induction false} ConsideredExactly(k: Kernel, get: Getter, considered: seq<Value>)
    requires Lawful(k.c) && forall i | 0 <= i < |considered| :: DescriptorOfKind(k.c, considered[i], "statement").Ok?
    ensures ConsideredStep(k, get, considered).Ok? <==> forall i | 0 <= i < |considered| :: IsConsidered(k, get, considered[i])
    decreases |considered|
  {
    if considered != [] {
      OneConsidered(k, get, considered[0]);
      assert forall i | 0 < i < |considered| :: considered[i] == considered[1..][i - 1];
      ConsideredExactly(k, get, considered[1..]);
    }
  }

  lemma OneParentExactly(k: Kernel, get: Getter, requested: Value)
    requires Lawful(k.c) && DescriptorOfKind(k.c, requested, "commit").Ok?
    ensures OneParent(k, get, requested) == Resolve(k, get, requested)
  {
    if Resolve(k, get, requested).Ok? {
      ResolvedOfKind(k, get, requested, "commit");
      ResolvedParses(k, get, requested);
    }
  }

  lemma {:induction false} ParentsCollect(k: Kernel, get: Getter, requested: seq<Value>, parents: seq<Value>)
    ensures ParentsStep(k, get, requested) == Ok(parents) <==>
      |parents| == |requested| && forall i | 0 <= i < |requested| :: OneParent(k, get, requested[i]) == Ok(parents[i])
    decreases |requested|
  {
    if requested != [] {
      var rest := requested[1..];
      assert forall i | 0 < i < |requested| :: requested[i] == rest[i - 1];
      if parents != [] {
        ParentsCollect(k, get, rest, parents[1..]);
        assert parents == [parents[0]] + parents[1..];
        assert forall i | 0 < i < |parents| :: parents[i] == parents[1..][i - 1];
      }
    }
  }

  lemma ParentsExactly(k: Kernel, get: Getter, requested: seq<Value>, parents: seq<Value>)
    requires Lawful(k.c) && forall i | 0 <= i < |requested| :: DescriptorOfKind(k.c, requested[i], "commit").Ok?
    ensures ParentsStep(k, get, requested) == Ok(parents) <==> ParentsAre(k, get, requested, parents)
  {
    ParentsCollect(k, get, requested, parents);
    forall i | 0 <= i < |requested| ensures OneParent(k, get, requested[i]) == Resolve(k, get, requested[i]) {
      OneParentExactly(k, get, requested[i]);
    }
  }

  lemma CommitShape(c: NumberCodec, commit: Value)
    requires ParseCommit(c, commit).Ok?
    ensures forall i | 0 <= i < |ParentsOf(commit)| :: DescriptorOfKind(c, ParentsOf(commit)[i], "commit").Ok?
    ensures DescriptorOfKind(c, Field(commit, "decision"), "statement").Ok?
    ensures DescriptorOfKind(c, Field(commit, "result"), "state").Ok?
  {
    EachPasses(ParentsOf(commit), d => DescriptorOfKind(c, d, "commit"));
  }

  lemma ConsideredShape(c: NumberCodec, decision: Value)
    requires DecisionPredicate(c, PredicateOf(decision)).Ok?
    ensures forall i | 0 <= i < |ConsideredOf(decision)| :: DescriptorOfKind(c, ConsideredOf(decision)[i], "statement").Ok?
  {
    EachPasses(ConsideredOf(decision), d => DescriptorOfKind(c, d, "statement"));
  }

  lemma DecisionHasPredicate(c: NumberCodec, decision: Value)
    requires ParseDecision(c, decision).Ok?
    ensures DecisionPredicate(c, PredicateOf(decision)).Ok?
  {
    StatementHasPredicate(c, decision);
    DecisionBranch(c, decision);
  }

  lemma StatementHasPredicate(c: NumberCodec, statement: Value)
    requires ParseStatement(c, statement).Ok?
    ensures StatementPredicate(c, statement).Ok?
  {}

  lemma DecisionBranch(c: NumberCodec, decision: Value)
    requires StatementPredicate(c, decision).Ok? && Field(decision, "predicateType") == Str(DECISION)
    ensures DecisionPredicate(c, PredicateOf(decision)).Ok? && |SubjectsOf(decision)| == 1
  {
    SchemasDistinct();
  }

  /** What an accepted Decision guarantees: one Statement judged, one of three outcomes, an
      authored rationale for an override, and considered Statements each listed once. */
  lemma DecisionRules(c: NumberCodec, decision: Value)
    requires Lawful(c) && ParseDecision(c, decision).Ok?
    ensures var p := PredicateOf(decision); var rationale := Field(p, "rationale");
      && |SubjectsOf(decision)| == 1 && DescriptorOf(SubjectOf(decision)).kind == Ascii("statement")
      && Field(p, "outcome") in [Str(Ascii("accepted")), OVERRIDDEN, REJECTED]
      && (Field(p, "outcome") == OVERRIDDEN ==>
            Field(rationale, "mode") == Str(Ascii("authored")) && Content(Field(rationale, "value")) != [])
      && (forall i, j | 0 <= i < j < |ConsideredOf(decision)| :: ConsideredOf(decision)[i] != ConsideredOf(decision)[j])
  {
    DecisionHasPredicate(c, decision);
    OneStatementSubject(c, decision);
    hide ParseDecision, DecisionPredicate, StringClaim, DescriptorOfKind;
    DecisionOutcome(c, PredicateOf(decision));
    AuthoredClaim(c, Field(PredicateOf(decision), "rationale"));
    ConsideredShape(c, decision);
    forall d | d in ConsideredOf(decision) ensures InDomain(c, d) {
      var i :| 0 <= i < |ConsideredOf(decision)| && ConsideredOf(decision)[i] == d;
      KindedInDomain(c, d, "statement");
    }
    AdjacentIsGlobal(c, ConsideredOf(decision));
  }

  lemma OneStatementSubject(c: NumberCodec, decision: Value)
    requires ParseDecision(c, decision).Ok?
    ensures |SubjectsOf(decision)| == 1 && DescriptorOf(SubjectOf(decision)).kind == Ascii("statement")
  {
    StatementHasPredicate(c, decision);
    SchemasDistinct();
  }

  lemma KindedInDomain(c: NumberCodec, d: Value, kind: string)
    requires DescriptorOfKind(c, d, kind).Ok?
    ensures InDomain(c, d)
  {}

  lemma DecisionOutcome(c: NumberCodec, p: Value)
    requires DecisionPredicate(c, p).Ok?
    ensures Field(p, "outcome") in [Str(Ascii("accepted")), OVERRIDDEN, REJECTED]
    ensures Field(p, "outcome") == OVERRIDDEN ==> Field(Field(p, "rationale"), "mode") == Str(Ascii("authored"))
    ensures StringClaim(c, Field(p, "rationale")).Ok?
    ensures AdjacentAscending(c, Elements(Field(p, "considered")))
  {}

  /** A claim that is not unspecified has a value; a stated one has evidence. */
  lemma AuthoredClaim(c: NumberCodec, claim: Value)
    requires StringClaim(c, claim).Ok?
    ensures Field(claim, "mode") != Str(Ascii("unspecified")) ==> Content(Field(claim, "value")) != []
    ensures Field(claim, "mode") == Str(Ascii("stated")) ==> Elements(Field(claim, "evidence")) != []
    ensures Field(claim, "mode") == Str(Ascii("authored")) ==> Content(Field(claim, "value")) != []
  {
    assert |Ascii("authored")| == 8 && |Ascii("unspecified")| == 11 && |Ascii("stated")| == 6;
  }

  lemma EffectShape(c: NumberCodec, effect: Value)
    requires ParseEffect(c, effect).Ok?
    ensures DescriptorOfKind(c, Field(effect, "base"), "state").Ok?
    ensures DescriptorOfKind(c, Field(effect, "result"), "state").Ok?
  {}

  lemma DecisionStepExactly(k: Kernel, get: Getter, commit: Value, d: Value)
    requires Lawful(k.c)
    ensures DecisionStep(k, get, commit) == Ok(d) <==>
      Resolve(k, get, Field(commit, "decision")) == Ok(d) && IsDecision(d) && Permits(d)
    ensures DecisionStep(k, get, commit) == Ok(d) ==> ParseDecision(k.c, d).Ok?
  {
    hide Resolve, ParseDecision, IsDecision, IsRejected, Permits, Refuses;
    if Resolve(k, get, Field(commit, "decision")).Ok? {
      var found := Resolve(k, get, Field(commit, "decision")).value;
      ResolvedParses(k, get, Field(commit, "decision"));
      if IsDecision(found) {
        PermitsOrRefuses(k.c, found);
      }
    }
  }

  lemma ProposalStepExactly(k: Kernel, get: Getter, decision: Value, p: Value)
    requires Lawful(k.c)
    ensures ProposalStep(k, get, decision) == Ok(p) <==> Resolve(k, get, SubjectOf(decision)) == Ok(p) && IsProposal(p)
  {
    if Resolve(k, get, SubjectOf(decision)).Ok? {
      ResolvedParses(k, get, SubjectOf(decision));
    }
  }

  lemma EffectStepExactly(k: Kernel, get: Getter, commit: Value, proposal: Value, e: Value)
    requires Lawful(k.c)
    ensures EffectStep(k, get, commit, proposal) == Ok(e) <==>
      Resolve(k, get, SubjectOf(proposal)) == Ok(e) && IsEffect(e) && SameField(commit, e, "result")
    ensures EffectStep(k, get, commit, proposal) == Ok(e) ==> ParseEffect(k.c, e).Ok?
  {
    if Resolve(k, get, SubjectOf(proposal)).Ok? {
      ResolvedParses(k, get, SubjectOf(proposal));
    }
  }

  lemma BaseStepExactly(k: Kernel, get: Getter, effect: Value)
    requires Lawful(k.c) && ParseEffect(k.c, effect).Ok?
    ensures BaseStep(k, get, effect) == Resolve(k, get, Field(effect, "base"))
  {
    if Resolve(k, get, Field(effect, "base")).Ok? {
      EffectShape(k.c, effect);
      ResolvedOfKind(k, get, Field(effect, "base"), "state");
      ResolvedParses(k, get, Field(effect, "base"));
    }
  }

  lemma ReferencesStepExactly(k: Kernel, get: Getter, commit: Value, x: Verified)
    requires Lawful(k.c) && ParseCommit(k.c, commit).Ok? && ParseDecision(k.c, x.decision).Ok? && ParseEffect(k.c, x.effect).Ok?
    ensures ReferencesStep(k, get, commit, x.decision, x.effect) == Ok(x.parents) <==>
      ReferencesStand(k, get, commit, x) && AllInputsResolve(k, get, x.effect)
  {
    hide Resolve, ParseCommit, ParseDecision, ParseEffect, DecisionPredicate, DescriptorOfKind, BaseStep;
    BaseStepExactly(k, get, x.effect);
    InputsResolveExactly(k, get, InputsOf(x.effect));
    DecisionHasPredicate(k.c, x.decision);
    ConsideredShape(k.c, x.decision);
    ConsideredExactly(k, get, ConsideredOf(x.decision));
    CommitShape(k.c, commit);
    ParentsExactly(k, get, ParentsOf(commit), x.parents);
  }

  lemma Stages(k: Kernel, get: Getter, commit: Value, x: Verified)
    ensures CommitIntegrity(k, get, commit) == Ok(x) <==>
      && ParseCommit(k.c, commit).Ok?
      && DecisionStep(k, get, commit) == Ok(x.decision)
      && ProposalStep(k, get, x.decision) == Ok(x.proposal)
      && EffectStep(k, get, commit, x.proposal) == Ok(x.effect)
      && ReferencesStep(k, get, commit, x.decision, x.effect) == Ok(x.parents)
  {
    hide ParseCommit, DecisionStep, ProposalStep, EffectStep, ReferencesStep;
  }

  /** Acceptance is exactly: the chain stands, its Decision permits, every reference
      resolves, and the parents link up. */
  lemma IntegrityExactly(k: Kernel, get: Getter, commit: Value, x: Verified)
    requires Lawful(k.c)
    ensures CommitIntegrity(k, get, commit) == Ok(x) <==> Intact(k, get, commit, x)
  {
    Stages(k, get, commit, x);
    if ParseCommit(k.c, commit).Ok? {
      DecisionStepExactly(k, get, commit, x.decision);
      ProposalStepExactly(k, get, x.decision, x.proposal);
      EffectStepExactly(k, get, commit, x.proposal, x.effect);
      if DecisionStep(k, get, commit) == Ok(x.decision) && EffectStep(k, get, commit, x.proposal) == Ok(x.effect) {
        ReferencesStepExactly(k, get, commit, x);
      }
    }
  }
}
