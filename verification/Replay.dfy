/** Replaying an Effect's definition with a mutation driver, and checking the claimed Result. */
module Replay {
  import opened Text
  import opened Values
  import opened Grammar
  import opened Utf8
  import opened Protocol
  import opened Resolver
  import opened Integrity

  // ---------------------------------------------------------------- drivers

  datatype DriverName = DriverName(protocol: Text, version: Text, specDigest: Text)

  /** A driver's answer; `Unmet` is `ReplayPreconditionFailedError`. */
  datatype Executed = Produced(state: Value) | Unmet | Threw(code: ErrorCode)

  datatype Driver = Driver(name: DriverName, execute: (Value, Value, map<Text, Value>) -> Executed)

  type Drivers = map<Text, Driver>

  function DriverNameOf(ref: Value): DriverName {
    DriverName(Content(Field(ref, "protocol")), Content(Field(ref, "protocolVersion")), Content(Field(ref, "specDigest")))
  }

  /** `mutationDriverKey` */
  function DriverKey(name: DriverName): Text { name.protocol + (ZERO + (name.version + (ZERO + name.specDigest))) }

  function ResolveDriver(drivers: Drivers, name: DriverName): Result<Driver> {
    if DriverKey(name) !in drivers then Err(UNSUPPORTED_SEMANTICS)
    else
      var driver := drivers[DriverKey(name)];
      var _ :- Need(DriverKey(driver.name) == DriverKey(name), INTEGRITY_CHAIN_INVALID);
      Ok(driver)
  }

  // ---------------------------------------------------------------- replay

  predicate Forbidden(definition: Value) {
    definition.Obj? && (Ascii("schema") in definition.m || Ascii("base") in definition.m || Ascii("result") in definition.m)
  }

  function OneInput(k: Kernel, supplied: map<Text, Value>, input: Value): Check {
    if RoleOf(input) !in supplied then Err(INTEGRITY_CHAIN_INVALID)
    else
      var actual :- Describe(k, supplied[RoleOf(input)]);
      Need(actual == DescriptorOf(ObjectOf(input)), INTEGRITY_CHAIN_INVALID)
  }

  function SuppliedInputs(k: Kernel, supplied: map<Text, Value>, inputs: seq<Value>): Check
    decreases |inputs|
  {
    if inputs == [] then Ok(())
    else
      var _ :- OneInput(k, supplied, inputs[0]);
      SuppliedInputs(k, supplied, inputs[1..])
  }

  function Execute(k: Kernel, driver: Driver, base: Value, definition: Value, supplied: map<Text, Value>): Executed {
    match ParseState(k.c, base)
    case Err(code) => Threw(code)
    case Ok(_) =>
      match driver.execute(base, definition, supplied)
      case Produced(state) =>
        (match ParseState(k.c, state)
        case Err(code) => Threw(code)
        case Ok(_) => Produced(state))
      case other => other
  }

  function ReplayChecks(k: Kernel, definition: Value, supplied: map<Text, Value>, drivers: Drivers): Result<Driver> {
    var _ :- Need(!Forbidden(definition), INTEGRITY_CHAIN_INVALID);
    var _ :- ParseDefinition(k.c, definition);
    var inputs := InputsOf(definition);
    var _ :- Need(|supplied| == |inputs|, INTEGRITY_CHAIN_INVALID);
    var _ :- SuppliedInputs(k, supplied, inputs);
    ResolveDriver(drivers, DriverNameOf(Field(definition, "driver")))
  }

  /** `replay` */
  function ReplayOnce(k: Kernel, base: Value, definition: Value, supplied: map<Text, Value>, drivers: Drivers): Executed {
    match ReplayChecks(k, definition, supplied, drivers)
    case Err(code) => Threw(code)
    case Ok(driver) => Execute(k, driver, base, definition, supplied)
  }

  method SuppliedLoop(k: Kernel, supplied: map<Text, Value>, inputs: seq<Value>) returns (r: Check)
    ensures r == SuppliedInputs(k, supplied, inputs)
  {
    var i := 0;
    while i < |inputs|
      invariant 0 <= i <= |inputs|
      invariant SuppliedInputs(k, supplied, inputs) == SuppliedInputs(k, supplied, inputs[i..])
    {
      assert inputs[i..][1..] == inputs[i + 1..];
      var _ :- OneInput(k, supplied, inputs[i]);
      i := i + 1;
    }
    r := Ok(());
  }

  // ---------------------------------------------------------------- verifying an Effect

  /** `inputs.set(role, await resolve(object))`, in order. */
  function InputMap(k: Kernel, get: Getter, inputs: seq<Value>, sofar: map<Text, Value>): Result<map<Text, Value>>
    decreases |inputs|
  {
    if inputs == [] then Ok(sofar)
    else
      var found :- Resolve(k, get, ObjectOf(inputs[0]));
      InputMap(k, get, inputs[1..], sofar[RoleOf(inputs[0]) := found])
  }

  method InputMapLoop(k: Kernel, get: Getter, inputs: seq<Value>) returns (r: Result<map<Text, Value>>)
    ensures r == InputMap(k, get, inputs, map[])
  {
    var found: map<Text, Value> := map[];
    var i := 0;
    while i < |inputs|
      invariant 0 <= i <= |inputs|
      invariant InputMap(k, get, inputs, map[]) == InputMap(k, get, inputs[i..], found)
    {
      assert inputs[i..][1..] == inputs[i + 1..];
      var v :- Resolve(k, get, ObjectOf(inputs[i]));
      found := found[RoleOf(inputs[i]) := v];
      i := i + 1;
    }
    r := Ok(found);
  }

  function StateStep(k: Kernel, get: Getter, requested: Value): Result<Value> {
    var base :- Resolve(k, get, requested);
    var _ :- Need(IsState(base), INTEGRITY_CHAIN_INVALID);
    var _ :- ParseState(k.c, base);
    Ok(base)
  }

  /** The replayed State against the claim; an unmet precondition makes the claim false. */
  function Judge(k: Kernel, effect: Value, replayed: Executed): Result<Value> {
    match replayed
    case Unmet => Err(EFFECT_CLAIM_FALSE)
    case Threw(code) => Err(code)
    case Produced(state) =>
      var described :- Describe(k, state);
      var _ :- Need(described == DescriptorOf(Field(effect, "result")), EFFECT_CLAIM_FALSE);
      Ok(state)
  }

  /** `verifyEffect`: the State the Effect produces. */
  function EffectResult(k: Kernel, get: Getter, drivers: Drivers, effect: Value): Result<Value> {
    var _ :- ParseEffect(k.c, effect);
    var base :- StateStep(k, get, Field(effect, "base"));
    var supplied :- InputMap(k, get, InputsOf(effect), map[]);
    Judge(k, effect, ReplayOnce(k, base, DefinitionOf(effect), supplied, drivers))
  }

  method CheckReplay(k: Kernel, definition: Value, supplied: map<Text, Value>, drivers: Drivers) returns (r: Result<Driver>)
    ensures r == ReplayChecks(k, definition, supplied, drivers)
  {
    if Forbidden(definition) {
      return Err(INTEGRITY_CHAIN_INVALID);
    }
    var _ :- ParseDefinition(k.c, definition);
    if |supplied| != |InputsOf(definition)| {
      return Err(INTEGRITY_CHAIN_INVALID);
    }
    var _ :- SuppliedLoop(k, supplied, InputsOf(definition));
    r := ResolveDriver(drivers, DriverNameOf(Field(definition, "driver")));
  }

  method Replay(k: Kernel, base: Value, definition: Value, supplied: map<Text, Value>, drivers: Drivers) returns (r: Executed)
    ensures r == ReplayOnce(k, base, definition, supplied, drivers)
  {
    var driver := CheckReplay(k, definition, supplied, drivers);
    if driver.Err? {
      return Threw(driver.code);
    }
    r := Execute(k, driver.value, base, definition, supplied);
  }

  method VerifyEffect(k: Kernel, get: Getter, drivers: Drivers, effect: Value) returns (r: Result<Value>)
    ensures r == EffectResult(k, get, drivers, effect)
  {
    var _ :- ParseEffect(k.c, effect);
    var base :- StateStep(k, get, Field(effect, "base"));
    var supplied :- InputMapLoop(k, get, InputsOf(effect));
    var replayed := Replay(k, base, DefinitionOf(effect), supplied, drivers);
    r := Judge(k, effect, replayed);
  }

  // ---------------------------------------------------------------- exactly the declared roles

  function RoleSet(inputs: seq<Value>): set<Text> { set i | 0 <= i < |inputs| :: RoleOf(inputs[i]) }

  lemma {:induction false} RolesCount(inputs: seq<Value>)
    requires forall i, j | 0 <= i < j < |inputs| :: RoleOf(inputs[i]) != RoleOf(inputs[j])
    ensures |RoleSet(inputs)| == |inputs|
    decreases |inputs|
  {
    if inputs != [] {
      var rest := inputs[1..];
      assert forall i | 0 <= i < |rest| :: rest[i] == inputs[i + 1];
      RolesCount(rest);
      forall r ensures r in RoleSet(inputs) <==> r == RoleOf(inputs[0]) || r in RoleSet(rest) {
        if r in RoleSet(inputs) && r != RoleOf(inputs[0]) {
          var i :| 0 <= i < |inputs| && RoleOf(inputs[i]) == r;
          assert rest[i - 1] == inputs[i];
        }
        if r in RoleSet(rest) {
          var i :| 0 <= i < |rest| && RoleOf(rest[i]) == r;
          assert inputs[i + 1] == rest[i];
        }
      }
      assert RoleSet(inputs) == {RoleOf(inputs[0])} + RoleSet(rest);
    }
  }

  lemma {:induction false} SameSizeSubset(a: set<Text>, b: set<Text>)
    requires a <= b && |a| == |b|
    ensures a == b
  {
    assert |b - a| == 0;
  }

  lemma AscendingRolesDiffer(inputs: seq<Value>)
    requires StrictlySorted(ByCodeUnit, Roles(inputs))
    ensures forall i, j | 0 <= i < j < |inputs| :: RoleOf(inputs[i]) != RoleOf(inputs[j])
  {
    forall i, j | 0 <= i < j < |inputs| ensures RoleOf(inputs[i]) != RoleOf(inputs[j]) {
      assert Before(ByCodeUnit, Roles(inputs)[i], Roles(inputs)[j]);
      LexZero(RoleOf(inputs[i]), RoleOf(inputs[j]));
    }
  }

  lemma {:induction false} SuppliedExactly(k: Kernel, supplied: map<Text, Value>, inputs: seq<Value>)
    ensures SuppliedInputs(k, supplied, inputs).Ok? <==> forall i | 0 <= i < |inputs| :: OneInput(k, supplied, inputs[i]).Ok?
    decreases |inputs|
  {
    if inputs != [] {
      SuppliedExactly(k, supplied, inputs[1..]);
      assert forall i | 0 < i < |inputs| :: inputs[i] == inputs[1..][i - 1];
    }
  }

  lemma DefinitionInputs(c: NumberCodec, definition: Value)
    requires ParseDefinition(c, definition).Ok?
    ensures InputsFrom(c, InputsOf(definition), None).Ok?
  {}

  lemma ReplayFacts(k: Kernel, definition: Value, supplied: map<Text, Value>, drivers: Drivers)
    requires ReplayChecks(k, definition, supplied, drivers).Ok?
    ensures ParseDefinition(k.c, definition).Ok? && |supplied| == |InputsOf(definition)|
    ensures SuppliedInputs(k, supplied, InputsOf(definition)).Ok?
  {}

  lemma RolesFill(supplied: map<Text, Value>, inputs: seq<Value>)
    requires StrictlySorted(ByCodeUnit, Roles(inputs)) && |supplied| == |inputs|
    requires forall i | 0 <= i < |inputs| :: RoleOf(inputs[i]) in supplied
    ensures supplied.Keys == RoleSet(inputs)
  {
    AscendingRolesDiffer(inputs);
    RolesCount(inputs);
    SameSizeSubset(RoleSet(inputs), supplied.Keys);
  }

  /** The size test and the per-role lookups together leave no room: a replay that runs got
      exactly the declared roles, each with the object its descriptor names. */
  lemma ReplayGetsExactlyTheDeclared(k: Kernel, definition: Value, supplied: map<Text, Value>, drivers: Drivers)
    requires ReplayChecks(k, definition, supplied, drivers).Ok?
    ensures supplied.Keys == RoleSet(InputsOf(definition))
    ensures forall i | 0 <= i < |InputsOf(definition)| ::
      var input := InputsOf(definition)[i];
      RoleOf(input) in supplied && Describe(k, supplied[RoleOf(input)]) == Ok(DescriptorOf(ObjectOf(input)))
  {
    var inputs := InputsOf(definition);
    ReplayFacts(k, definition, supplied, drivers);
    DefinitionInputs(k.c, definition);
    InputsAscend(k.c, inputs, None);
    SuppliedExactly(k, supplied, inputs);
    forall i | 0 <= i < |inputs|
      ensures RoleOf(inputs[i]) in supplied && Describe(k, supplied[RoleOf(inputs[i])]) == Ok(DescriptorOf(ObjectOf(inputs[i])))
    {
      OneInputFacts(k, supplied, inputs[i]);
    }
    RolesFill(supplied, inputs);
  }

  lemma OneInputFacts(k: Kernel, supplied: map<Text, Value>, input: Value)
    ensures OneInput(k, supplied, input).Ok? <==>
      RoleOf(input) in supplied && Describe(k, supplied[RoleOf(input)]) == Ok(DescriptorOf(ObjectOf(input)))
  {}

  // ---------------------------------------------------------------- what acceptance means

  lemma DefinitionFields(effect: Value)
    ensures var d := DefinitionOf(effect);
      && Field(d, "driver") == Field(effect, "driver") && Field(d, "operations") == Field(effect, "operations")
      && Field(d, "inputs") == Field(effect, "inputs") && !Forbidden(d)
  {
    assert |Ascii("driver")| == 6 && |Ascii("operations")| == 10 && |Ascii("inputs")| == 6;
    assert |Ascii("schema")| == 6 && |Ascii("base")| == 4 && |Ascii("result")| == 6;
    assert Ascii("driver")[0] == 'd' as int && Ascii("inputs")[0] == 'i' as int;
    assert Ascii("schema")[0] == 's' as int && Ascii("result")[0] == 'r' as int;
  }

  /** The effect's inputs as its driver is given them. */
  function ResolvedInputs(k: Kernel, get: Getter, effect: Value): map<Text, Value> {
    match InputMap(k, get, InputsOf(effect), map[])
    case Ok(m) => m
    case Err(_) => map[]
  }

  lemma {:induction false} InputMapResolves(k: Kernel, get: Getter, inputs: seq<Value>, sofar: map<Text, Value>)
    ensures InputMap(k, get, inputs, sofar).Ok? <==> forall i | 0 <= i < |inputs| :: Resolves(k, get, ObjectOf(inputs[i]))
    decreases |inputs|
  {
    if inputs != [] && Resolves(k, get, ObjectOf(inputs[0])) {
      var rest := inputs[1..];
      InputMapResolves(k, get, rest, sofar[RoleOf(inputs[0]) := Resolve(k, get, ObjectOf(inputs[0])).value]);
      assert forall i | 0 < i < |inputs| :: inputs[i] == rest[i - 1];
    }
  }

  lemma {:induction false} InputMapHolds(k: Kernel, get: Getter, inputs: seq<Value>, sofar: map<Text, Value>, i: nat)
    requires InputMap(k, get, inputs, sofar).Ok? && i < |inputs|
    requires forall i, j | 0 <= i < j < |inputs| :: RoleOf(inputs[i]) != RoleOf(inputs[j])
    ensures var m := InputMap(k, get, inputs, sofar).value;
      RoleOf(inputs[i]) in m && Resolve(k, get, ObjectOf(inputs[i])) == Ok(m[RoleOf(inputs[i])])
    decreases |inputs|
  {
    hide Resolve;
    var rest := inputs[1..];
    var role := RoleOf(inputs[0]);
    var sofar' := sofar[role := Resolve(k, get, ObjectOf(inputs[0])).value];
    assert forall i | 0 <= i < |rest| :: rest[i] == inputs[i + 1];
    if i == 0 {
      InputMapKeeps(k, get, rest, sofar', role);
    } else {
      InputMapHolds(k, get, rest, sofar', i - 1);
    }
  }

  lemma {:induction false} InputMapKeeps(k: Kernel, get: Getter, inputs: seq<Value>, sofar: map<Text, Value>, role: Text)
    requires InputMap(k, get, inputs, sofar).Ok? && role in sofar
    requires forall i | 0 <= i < |inputs| :: RoleOf(inputs[i]) != role
    ensures var m := InputMap(k, get, inputs, sofar).value; role in m && m[role] == sofar[role]
    decreases |inputs|
  {
    if inputs != [] {
      InputMapKeeps(k, get, inputs[1..], sofar[RoleOf(inputs[0]) := Resolve(k, get, ObjectOf(inputs[0])).value], role);
    }
  }

  lemma {:induction false} InputMapSize(k: Kernel, get: Getter, inputs: seq<Value>, sofar: map<Text, Value>)
    requires InputMap(k, get, inputs, sofar).Ok?
    requires forall i, j | 0 <= i < j < |inputs| :: RoleOf(inputs[i]) != RoleOf(inputs[j])
    requires forall i | 0 <= i < |inputs| :: RoleOf(inputs[i]) !in sofar
    ensures |InputMap(k, get, inputs, sofar).value| == |sofar| + |inputs|
    decreases |inputs|
  {
    if inputs != [] {
      var rest := inputs[1..];
      var sofar' := sofar[RoleOf(inputs[0]) := Resolve(k, get, ObjectOf(inputs[0])).value];
      assert forall i | 0 <= i < |rest| :: rest[i] == inputs[i + 1];
      OneMoreKey(sofar, RoleOf(inputs[0]), sofar'[RoleOf(inputs[0])]);
      InputMapSize(k, get, rest, sofar');
    }
  }

  lemma OneMoreKey(m: map<Text, Value>, key: Text, v: Value)
    requires key !in m
    ensures |m[key := v]| == |m| + 1
  {
    assert m[key := v].Keys == m.Keys + {key};
  }

  lemma EffectInputsDiffer(c: NumberCodec, effect: Value)
    requires ParseEffect(c, effect).Ok?
    ensures ParseDefinition(c, DefinitionOf(effect)).Ok? && InputsOf(DefinitionOf(effect)) == InputsOf(effect)
    ensures forall i, j | 0 <= i < j < |InputsOf(effect)| :: RoleOf(InputsOf(effect)[i]) != RoleOf(InputsOf(effect)[j])
    ensures forall i | 0 <= i < |InputsOf(effect)| :: InputShape(c, InputsOf(effect)[i]).Ok?
  {
    DefinitionFields(effect);
    EffectHasDefinition(c, effect);
    DefinitionInputs(c, DefinitionOf(effect));
    InputsAscend(c, InputsOf(effect), None);
    AscendingRolesDiffer(InputsOf(effect));
  }

  lemma EffectHasDefinition(c: NumberCodec, effect: Value)
    requires ParseEffect(c, effect).Ok?
    ensures ParseDefinition(c, DefinitionOf(effect)).Ok?
  {
    hide ParseDefinition, DefinitionOf, DescriptorOfKind, InDomain, ClosedRecord;
  }

  /** On inputs it resolved itself, `verifyEffect` never fails the size or descriptor tests. */
  lemma OwnInputsAlwaysMatch(k: Kernel, get: Getter, effect: Value)
    requires Lawful(k.c) && ParseEffect(k.c, effect).Ok? && InputMap(k, get, InputsOf(effect), map[]).Ok?
    ensures |ResolvedInputs(k, get, effect)| == |InputsOf(effect)|
    ensures SuppliedInputs(k, ResolvedInputs(k, get, effect), InputsOf(effect)).Ok?
  {
    var inputs, supplied := InputsOf(effect), ResolvedInputs(k, get, effect);
    EffectInputsDiffer(k.c, effect);
    InputMapSize(k, get, inputs, map[]);
    forall i | 0 <= i < |inputs| ensures OneInput(k, supplied, inputs[i]).Ok? {
      InputMapHolds(k, get, inputs, map[], i);
      ResolvedHasKind(k, get, ObjectOf(inputs[i]));
      OneInputFacts(k, supplied, inputs[i]);
    }
    SuppliedExactly(k, supplied, inputs);
  }

  /** The driver the effect names, when it is registered under its own key. */
  function DriverOf(drivers: Drivers, effect: Value): Result<Driver> {
    ResolveDriver(drivers, DriverNameOf(Field(effect, "driver")))
  }

  lemma ChecksAreTheDriver(k: Kernel, get: Getter, drivers: Drivers, effect: Value)
    requires Lawful(k.c) && ParseEffect(k.c, effect).Ok? && InputMap(k, get, InputsOf(effect), map[]).Ok?
    ensures ReplayChecks(k, DefinitionOf(effect), ResolvedInputs(k, get, effect), drivers) == DriverOf(drivers, effect)
  {
    DefinitionFields(effect);
    EffectInputsDiffer(k.c, effect);
    OwnInputsAlwaysMatch(k, get, effect);
  }

  lemma StateStepExactly(k: Kernel, get: Getter, effect: Value)
    requires Lawful(k.c) && ParseEffect(k.c, effect).Ok?
    ensures StateStep(k, get, Field(effect, "base")) == Resolve(k, get, Field(effect, "base"))
    ensures Resolves(k, get, Field(effect, "base")) ==> ParseState(k.c, Resolve(k, get, Field(effect, "base")).value).Ok?
  {
    if Resolves(k, get, Field(effect, "base")) {
      EffectShape(k.c, effect);
      ResolvedOfKind(k, get, Field(effect, "base"), "state");
      ResolvedParses(k, get, Field(effect, "base"));
    }
  }

  /** The State an effect's Base resolves to. */
  function BaseOf(k: Kernel, get: Getter, effect: Value): Value {
    match Resolve(k, get, Field(effect, "base"))
    case Ok(base) => base
    case Err(_) => Null
  }

  /** The named driver, run on the State and the effect's definition and inputs, gives `state`. */
  ghost predicate Drives(k: Kernel, get: Getter, drivers: Drivers, base: Value, effect: Value, state: Value) {
    && DriverOf(drivers, effect).Ok?
    && DriverOf(drivers, effect).value.execute(base, DefinitionOf(effect), ResolvedInputs(k, get, effect)) == Produced(state)
  }

  /** What an accepted Effect claims: its driver turns its Base into a State with the
      claimed descriptor. */
  ghost predicate ClaimHolds(k: Kernel, get: Getter, drivers: Drivers, effect: Value, state: Value) {
    && ParseEffect(k.c, effect).Ok?
    && Resolves(k, get, Field(effect, "base")) && AllInputsResolve(k, get, effect)
    && Drives(k, get, drivers, BaseOf(k, get, effect), effect, state)
    && ParseState(k.c, state).Ok? && Describe(k, state) == Ok(DescriptorOf(Field(effect, "result")))
  }

  lemma EffectExactly(k: Kernel, get: Getter, drivers: Drivers, effect: Value, state: Value)
    requires Lawful(k.c)
    ensures EffectResult(k, get, drivers, effect) == Ok(state) <==> ClaimHolds(k, get, drivers, effect, state)
  {
    if ParseEffect(k.c, effect).Ok? {
      StateStepExactly(k, get, effect);
      InputMapResolves(k, get, InputsOf(effect), map[]);
      if Resolves(k, get, Field(effect, "base")) && AllInputsResolve(k, get, effect) {
        ChecksAreTheDriver(k, get, drivers, effect);
        ExecuteExactly(k, get, drivers, effect, state);
      }
    }
  }

  lemma ExecuteExactly(k: Kernel, get: Getter, drivers: Drivers, effect: Value, state: Value)
    requires Resolves(k, get, Field(effect, "base")) && ParseState(k.c, BaseOf(k, get, effect)).Ok?
    requires ReplayChecks(k, DefinitionOf(effect), ResolvedInputs(k, get, effect), drivers) == DriverOf(drivers, effect)
    ensures Judge(k, effect, ReplayOnce(k, BaseOf(k, get, effect), DefinitionOf(effect), ResolvedInputs(k, get, effect), drivers)) == Ok(state)
      <==> Drives(k, get, drivers, BaseOf(k, get, effect), effect, state)
           && ParseState(k.c, state).Ok? && Describe(k, state) == Ok(DescriptorOf(Field(effect, "result")))
  {
    hide ParseState, Describe, DefinitionOf, ResolvedInputs, BaseOf, DescriptorOf, Field;
    if DriverOf(drivers, effect).Ok? {
      var driver := DriverOf(drivers, effect).value;
      var replayed := Execute(k, driver, BaseOf(k, get, effect), DefinitionOf(effect), ResolvedInputs(k, get, effect));
      ExecuteProduces(k, driver, BaseOf(k, get, effect), DefinitionOf(effect), ResolvedInputs(k, get, effect), state);
      JudgeExactly(k, effect, replayed, state);
    }
  }

  lemma ExecuteProduces(k: Kernel, driver: Driver, base: Value, definition: Value, supplied: map<Text, Value>, state: Value)
    requires ParseState(k.c, base).Ok?
    ensures Execute(k, driver, base, definition, supplied) == Produced(state)
      <==> driver.execute(base, definition, supplied) == Produced(state) && ParseState(k.c, state).Ok?
  {}

  lemma JudgeExactly(k: Kernel, effect: Value, replayed: Executed, state: Value)
    ensures Judge(k, effect, replayed) == Ok(state)
      <==> replayed == Produced(state) && Describe(k, state) == Ok(DescriptorOf(Field(effect, "result")))
  {}

  /** The claimed Result cannot enter replay: an Effect that differs from an accepted one
      in its claim alone is accepted exactly when it claims the same descriptor. */
  lemma ClaimCannotEnterReplay(k: Kernel, get: Getter, drivers: Drivers, effect: Value, other: Value)
    requires Lawful(k.c) && EffectResult(k, get, drivers, effect).Ok? && ParseEffect(k.c, other).Ok?
    requires DefinitionOf(other) == DefinitionOf(effect) && Field(other, "base") == Field(effect, "base")
    ensures EffectResult(k, get, drivers, other).Ok? <==> SameField(effect, other, "result")
    ensures EffectResult(k, get, drivers, other).Ok? ==> EffectResult(k, get, drivers, other) == EffectResult(k, get, drivers, effect)
  {
    var state := EffectResult(k, get, drivers, effect).value;
    EffectExactly(k, get, drivers, effect, state);
    EffectExactly(k, get, drivers, other, state);
    SameClaim(k, get, drivers, effect, other, state, state);
    if EffectResult(k, get, drivers, other).Ok? {
      var t := EffectResult(k, get, drivers, other).value;
      EffectExactly(k, get, drivers, other, t);
      SameClaim(k, get, drivers, effect, other, state, t);
    }
  }

  lemma SameClaim(k: Kernel, get: Getter, drivers: Drivers, effect: Value, other: Value, s: Value, t: Value)
    requires ParseEffect(k.c, other).Ok? && ClaimHolds(k, get, drivers, effect, s)
    requires DefinitionOf(other) == DefinitionOf(effect) && Field(other, "base") == Field(effect, "base")
    ensures ClaimHolds(k, get, drivers, other, t) <==> t == s && SameField(effect, other, "result")
  {
    SameRun(k, get, effect, other);
    SameDrive(k, get, drivers, effect, other, s, t);
  }

  lemma SameDrive(k: Kernel, get: Getter, drivers: Drivers, effect: Value, other: Value, s: Value, t: Value)
    requires DefinitionOf(other) == DefinitionOf(effect)
    requires Resolves(k, get, Field(effect, "base")) && Drives(k, get, drivers, BaseOf(k, get, effect), effect, s)
    ensures Drives(k, get, drivers, BaseOf(k, get, effect), other, t) <==> s == t
  {
    SameRun(k, get, effect, other);
  }

  lemma SameRun(k: Kernel, get: Getter, effect: Value, other: Value)
    requires DefinitionOf(other) == DefinitionOf(effect)
    ensures Field(other, "driver") == Field(effect, "driver") && InputsOf(other) == InputsOf(effect)
    ensures ResolvedInputs(k, get, other) == ResolvedInputs(k, get, effect)
  {
    DefinitionFields(effect);
    DefinitionFields(other);
  }
}
