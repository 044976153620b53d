/** What verifying an Effect comes to, in the fields of the Effect and of its inputs. */
module EffectRules {
  import opened Text
  import opened Values
  import opened Grammar
  import opened Utf8
  import opened Protocol
  import opened Resolver
  import opened Integrity
  import opened Replay
  import opened PythonVerifier

  // ---------------------------------------------------------------- what the driver is given

  function Inputs(effect: Value): seq<Value> { Elements(Field(effect, "inputs")) }

  function Role(input: Value): Text { Content(Field(input, "role")) }

  /** Exactly the declared roles, each with the object its descriptor resolves to. */
  ghost predicate Supplies(k: Kernel, get: Getter, effect: Value, supplied: map<Text, Value>) {
    var inputs := Inputs(effect);
    && (forall role :: role in supplied <==> exists i | 0 <= i < |inputs| :: Role(inputs[i]) == role)
    && (forall i | 0 <= i < |inputs| :: Role(inputs[i]) in supplied && Resolve(k, get, Field(inputs[i], "object")) == Ok(supplied[Role(inputs[i])]))
  }

  /** Driver, operations and inputs of the Effect: nothing of its base, nor of its result. */
  function Definition(effect: Value): Value {
    Obj(map[Ascii("driver") := Field(effect, "driver"), Ascii("operations") := Field(effect, "operations"), Ascii("inputs") := Field(effect, "inputs")])
  }

  /** Protocol, version and digest of the specification, with zeros between them. */
  function NameKey(protocol: Text, version: Text, specDigest: Text): Text { protocol + [0] + version + [0] + specDigest }

  function DriverKeyOf(effect: Value): Text {
    var d := Field(effect, "driver");
    NameKey(Content(Field(d, "protocol")), Content(Field(d, "protocolVersion")), Content(Field(d, "specDigest")))
  }

  lemma KeysAgree(name: DriverName)
    ensures DriverKey(name) == NameKey(name.protocol, name.version, name.specDigest)
  {}

  /** What the run of the named driver comes to: no driver, one registered under another's
      key, an unmet precondition, an error, no State, or a State with the claimed descriptor
      or another one. */
  function Ran(k: Kernel, drivers: Drivers, effect: Value, base: Value, supplied: map<Text, Value>): Result<Value> {
    var key := DriverKeyOf(effect);
    if key !in drivers then Err(UNSUPPORTED_SEMANTICS)
    else if NameKey(drivers[key].name.protocol, drivers[key].name.version, drivers[key].name.specDigest) != key then Err(INTEGRITY_CHAIN_INVALID)
    else
      match drivers[key].execute(base, Definition(effect), supplied)
      case Unmet => Err(EFFECT_CLAIM_FALSE)
      case Threw(code) => Err(code)
      case Produced(state) =>
        if ParseState(k.c, state).Err? then Err(ParseState(k.c, state).code)
        else if Describe(k, state) == Ok(DescriptorOf(Field(effect, "result"))) then Ok(state)
        else Err(EFFECT_CLAIM_FALSE)
  }

  // ---------------------------------------------------------------- the same said twice

  lemma SuppliedByResolving(k: Kernel, get: Getter, effect: Value)
    requires Lawful(k.c) && ParseEffect(k.c, effect).Ok? && InputMap(k, get, InputsOf(effect), map[]).Ok?
    ensures Supplies(k, get, effect, ResolvedInputs(k, get, effect))
  {
    hide ParseEffect, Resolve, Field, InputMap;
    var inputs, supplied := InputsOf(effect), ResolvedInputs(k, get, effect);
    assert inputs == Inputs(effect);
    EffectInputsDiffer(k.c, effect);
    RolesGiven(k, get, effect);
    forall i | 0 <= i < |inputs|
      ensures Role(inputs[i]) in supplied && Resolve(k, get, Field(inputs[i], "object")) == Ok(supplied[Role(inputs[i])])
    {
      InputMapHolds(k, get, inputs, map[], i);
    }
  }

  lemma RolesGiven(k: Kernel, get: Getter, effect: Value)
    requires Lawful(k.c) && ParseEffect(k.c, effect).Ok? && InputMap(k, get, InputsOf(effect), map[]).Ok?
    ensures forall role :: role in ResolvedInputs(k, get, effect) <==> exists i | 0 <= i < |Inputs(effect)| :: Role(Inputs(effect)[i]) == role
  {
    hide ParseEffect, Resolve, Describe, Field;
    var inputs, supplied := InputsOf(effect), ResolvedInputs(k, get, effect);
    assert inputs == Inputs(effect);
    ParsedEffectRoles(k.c, effect);
    OwnInputsAlwaysMatch(k, get, effect);
    SuppliedExactly(k, supplied, inputs);
    forall i | 0 <= i < |inputs| ensures RoleOf(inputs[i]) in supplied {
      OneInputFacts(k, supplied, inputs[i]);
    }
    RolesFill(supplied, inputs);
    forall role ensures role in RoleSet(inputs) <==> exists i | 0 <= i < |inputs| :: Role(inputs[i]) == role {
      if role in RoleSet(inputs) {
        var i :| 0 <= i < |inputs| && RoleOf(inputs[i]) == role;
        assert Role(inputs[i]) == role;
      }
      if i :| 0 <= i < |inputs| && Role(inputs[i]) == role {
        assert RoleOf(inputs[i]) == role;
      }
    }
  }

  /** There is only one such map. */
  lemma SuppliedOnce(k: Kernel, get: Getter, effect: Value, a: map<Text, Value>, b: map<Text, Value>)
    requires Supplies(k, get, effect, a) && Supplies(k, get, effect, b)
    ensures a == b
  {
    hide Resolve, Field;
    forall role | role in a ensures role in b && a[role] == b[role] {
      var i :| 0 <= i < |Inputs(effect)| && Role(Inputs(effect)[i]) == role;
    }
    assert a.Keys == b.Keys;
  }

  lemma RanJudged(k: Kernel, drivers: Drivers, effect: Value, base: Value, supplied: map<Text, Value>)
    requires ParseState(k.c, base).Ok?
    ensures (match DriverOf(drivers, effect)
             case Err(code) => Judge(k, effect, Threw(code))
             case Ok(driver) => Judge(k, effect, Execute(k, driver, base, DefinitionOf(effect), supplied)))
      == Ran(k, drivers, effect, base, supplied)
  {
    hide ParseState, Describe, DescriptorOf, Field;
    var name := DriverNameOf(Field(effect, "driver"));
    KeysAgree(name);
    if DriverKey(name) in drivers {
      KeysAgree(drivers[DriverKey(name)].name);
      var answer := drivers[DriverKey(name)].execute(base, DefinitionOf(effect), supplied);
      if answer.Produced? && ParseState(k.c, answer.state).Ok? {
        ParsedState(k, answer.state);
      }
    }
  }

  lemma ParsedState(k: Kernel, state: Value)
    requires ParseState(k.c, state).Ok?
    ensures Describe(k, state).Ok?
  {
    hide ParseState, ParseObject, Describe;
    ParseObjectIsOneOfFour(k.c, state);
    DescribeParsed(k, state);
  }

  // ---------------------------------------------------------------- verifying an Effect

  /** Once the Base and the inputs are resolved, the outcome is that of the run. */
  lemma EffectOutcome(k: Kernel, get: Getter, drivers: Drivers, effect: Value, base: Value, supplied: map<Text, Value>)
    requires Lawful(k.c) && ParseEffect(k.c, effect).Ok?
    requires Resolve(k, get, Field(effect, "base")) == Ok(base) && Supplies(k, get, effect, supplied)
    ensures EffectResult(k, get, drivers, effect) == Ran(k, drivers, effect, base, supplied)
  {
    hide ParseEffect, Resolve, Describe, Ran, Judge, Execute, Supplies, DefinitionOf, ParseState, Field;
    assert forall i | 0 <= i < |InputsOf(effect)| :: Resolves(k, get, ObjectOf(InputsOf(effect)[i])) by { EachSupplied(k, get, effect, supplied); }
    InputMapResolves(k, get, InputsOf(effect), map[]);
    SuppliedByResolving(k, get, effect);
    SuppliedOnce(k, get, effect, supplied, ResolvedInputs(k, get, effect));
    StateStepExactly(k, get, effect);
    ChecksAreTheDriver(k, get, drivers, effect);
    RanJudged(k, drivers, effect, base, supplied);
  }

  lemma EachSupplied(k: Kernel, get: Getter, effect: Value, supplied: map<Text, Value>)
    requires Supplies(k, get, effect, supplied)
    ensures forall i | 0 <= i < |InputsOf(effect)| :: Resolves(k, get, ObjectOf(InputsOf(effect)[i]))
  {
    hide Resolve, Field;
    var inputs := InputsOf(effect);
    assert inputs == Inputs(effect);
    forall i | 0 <= i < |inputs| ensures Resolves(k, get, ObjectOf(inputs[i])) {
      assert Resolve(k, get, Field(Inputs(effect)[i], "object")).Ok?;
    }
  }

  /** An Effect is accepted exactly when it parses, its Base and its inputs resolve, and the
      driver it names makes of them a State with the claimed descriptor. */
  lemma EffectExactlyInFields(k: Kernel, get: Getter, drivers: Drivers, effect: Value, state: Value)
    requires Lawful(k.c)
    ensures EffectResult(k, get, drivers, effect) == Ok(state) <==>
      && ParseEffect(k.c, effect).Ok? && Resolve(k, get, Field(effect, "base")).Ok?
      && exists supplied :: Supplies(k, get, effect, supplied)
           && Ran(k, drivers, effect, Resolve(k, get, Field(effect, "base")).value, supplied) == Ok(state)
  {
    hide EffectResult, ParseEffect, Resolve, Ran, Supplies, ParseState, Drives, Field, Describe;
    var base := Resolve(k, get, Field(effect, "base"));
    if EffectResult(k, get, drivers, effect) == Ok(state) {
      EffectExactly(k, get, drivers, effect, state);
      InputMapResolves(k, get, InputsOf(effect), map[]);
      SuppliedByResolving(k, get, effect);
      EffectOutcome(k, get, drivers, effect, base.value, ResolvedInputs(k, get, effect));
    }
    if ParseEffect(k.c, effect).Ok? && base.Ok? {
      if supplied :| Supplies(k, get, effect, supplied) && Ran(k, drivers, effect, base.value, supplied) == Ok(state) {
        EffectOutcome(k, get, drivers, effect, base.value, supplied);
      }
    }
  }

  /** Before the run: an Effect that does not parse, a Base and an input that do not resolve
      fail with their own code, in this order. */
  lemma EffectFailsEarly(k: Kernel, get: Getter, drivers: Drivers, effect: Value)
    requires Lawful(k.c)
    ensures ParseEffect(k.c, effect).Err? ==> EffectResult(k, get, drivers, effect) == Err(ParseEffect(k.c, effect).code)
    ensures ParseEffect(k.c, effect).Ok? ==>
      var base := Resolve(k, get, Field(effect, "base"));
      && (base.Err? ==> EffectResult(k, get, drivers, effect) == Err(base.code))
      && (base.Ok? ==> forall i | 0 <= i < |Inputs(effect)| && IsFirstMissing(k, get, Inputs(effect), i) ::
            EffectResult(k, get, drivers, effect) == Err(Resolve(k, get, Field(Inputs(effect)[i], "object")).code))
  {
    hide ParseEffect, Resolve, Judge, ReplayOnce, ParseState, Field, InputMap, StateStep;
    if ParseEffect(k.c, effect).Ok? {
      StateStepExactly(k, get, effect);
      assert InputsOf(effect) == Inputs(effect);
      forall i | 0 <= i < |Inputs(effect)| && IsFirstMissing(k, get, Inputs(effect), i)
        ensures InputMap(k, get, InputsOf(effect), map[]) == Err(Resolve(k, get, Field(Inputs(effect)[i], "object")).code)
      {
        FirstMissing(k, get, Inputs(effect), map[], i);
      }
    }
  }

  ghost predicate IsFirstMissing(k: Kernel, get: Getter, inputs: seq<Value>, i: nat)
    requires i < |inputs|
  {
    Resolve(k, get, Field(inputs[i], "object")).Err? && forall j | 0 <= j < i :: Resolve(k, get, Field(inputs[j], "object")).Ok?
  }

  lemma {:induction false} FirstMissing(k: Kernel, get: Getter, inputs: seq<Value>, sofar: map<Text, Value>, i: nat)
    requires i < |inputs| && IsFirstMissing(k, get, inputs, i)
    ensures InputMap(k, get, inputs, sofar) == Err(Resolve(k, get, Field(inputs[i], "object")).code)
    decreases |inputs|
  {
    hide Resolve;
    if i > 0 {
      var rest := inputs[1..];
      assert Resolve(k, get, ObjectOf(inputs[0])).Ok?;
      assert forall j | 0 <= j < |rest| :: rest[j] == inputs[j + 1];
      FirstMissing(k, get, rest, sofar[RoleOf(inputs[0]) := Resolve(k, get, ObjectOf(inputs[0])).value], i - 1);
    }
  }
}
