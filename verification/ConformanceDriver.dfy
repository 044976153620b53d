/** The conformance string driver: a concrete mutation driver over string States. */
module ConformanceDriver {
  import opened Text
  import opened Values
  import opened Grammar
  import opened Protocol
  import opened Resolver
  import opened Integrity
  import opened Replay

  predicate IsStringOp(op: Value) {
    && op.Obj? && op.m.Keys == Names(["op", "value"]) && Field(op, "value").Str?
    && (IsTest(op) || IsReplace(op))
  }

  predicate IsTest(op: Value) { Field(op, "op") == Str(Ascii("test")) }
  predicate IsReplace(op: Value) { Field(op, "op") == Str(Ascii("replace")) }
  function Operand(op: Value): Text { Content(Field(op, "value")) }

  lemma TestIsNotReplace(op: Value)
    ensures !(IsTest(op) && IsReplace(op))
  {
    assert |Ascii("test")| == 4 && |Ascii("replace")| == 7;
  }

  // ---------------------------------------------------------------- operation by operation

  datatype Run = Done(value: Text) | TestFailed | BadOperation

  function RunFrom(value: Text, operations: seq<Value>): Run
    decreases |operations|
  {
    if operations == [] then Done(value)
    else
      var op := operations[0];
      if !IsStringOp(op) then BadOperation
      else if IsTest(op) then
        if value != Operand(op) then TestFailed else RunFrom(value, operations[1..])
      else RunFrom(Operand(op), operations[1..])
  }

  function StringState(codec: Value, value: Text): Value {
    Obj(map[Ascii("schema") := Str(STATE_SCHEMA), Ascii("codec") := codec, Ascii("value") := Str(value)])
  }

  /** `ConformanceStringDriver.execute` */
  function StringExecute(codec: Value, base: Value, definition: Value, inputs: map<Text, Value>): Executed {
    if Field(base, "codec") != codec || !Field(base, "value").Str? then Threw(UNSUPPORTED_MEDIA_TYPE)
    else if InputsOf(definition) != [] || inputs != map[] then Threw(UNSUPPORTED_SEMANTICS)
    else
      match RunFrom(Field(base, "value").s, Elements(Field(definition, "operations")))
      case BadOperation => Threw(SCHEMA_INVALID)
      case TestFailed => Unmet
      case Done(value) => Produced(StringState(Field(base, "codec"), value))
  }

  class ConformanceStringDriver {
    const codec: Value

    constructor (codec: Value)
      ensures this.codec == codec
    {
      this.codec := codec;
    }

    method Execute(base: Value, definition: Value, inputs: map<Text, Value>) returns (r: Executed)
      ensures r == StringExecute(codec, base, definition, inputs)
    {
      if Field(base, "codec") != codec || !Field(base, "value").Str? {
        return Threw(UNSUPPORTED_MEDIA_TYPE);
      }
      if InputsOf(definition) != [] || inputs != map[] {
        return Threw(UNSUPPORTED_SEMANTICS);
      }
      var operations := Elements(Field(definition, "operations"));
      var value := Field(base, "value").s;
      var index := 0;
      while index < |operations|
        invariant 0 <= index <= |operations|
        invariant RunFrom(Field(base, "value").s, operations) == RunFrom(value, operations[index..])
      {
        var operation := operations[index];
        assert operations[index..][0] == operation && operations[index..][1..] == operations[index + 1..];
        TestIsNotReplace(operation);
        if !(operation.Obj? && operation.m.Keys == Names(["op", "value"])) {
          return Threw(SCHEMA_INVALID);
        }
        if !Field(operation, "value").Str? {
          return Threw(SCHEMA_INVALID);
        }
        if IsTest(operation) {
          if value != Operand(operation) {
            return Unmet;
          }
        } else if IsReplace(operation) {
          value := Operand(operation);
        } else {
          return Threw(SCHEMA_INVALID);
        }
        index := index + 1;
      }
      r := Produced(StringState(Field(base, "codec"), value));
    }
  }

  // ---------------------------------------------------------------- what a run means

  /** The string in force before operation `i`: the operand of the last replace before it,
      or the base string. */
  function InForce(base: Text, operations: seq<Value>, i: nat): Text
    requires i <= |operations|
  {
    if i == 0 then base
    else if IsReplace(operations[i - 1]) then Operand(operations[i - 1])
    else InForce(base, operations, i - 1)
  }

  predicate TestsHold(base: Text, operations: seq<Value>) {
    forall i | 0 <= i < |operations| && IsTest(operations[i]) :: InForce(base, operations, i) == Operand(operations[i])
  }

  predicate AllStringOps(operations: seq<Value>) { forall i | 0 <= i < |operations| :: IsStringOp(operations[i]) }

  lemma {:induction false} InForceTail(base: Text, operations: seq<Value>, i: nat)
    requires 0 < i <= |operations|
    ensures InForce(base, operations, i) ==
      InForce(if IsReplace(operations[0]) then Operand(operations[0]) else base, operations[1..], i - 1)
  {
    if i > 1 {
      InForceTail(base, operations, i - 1);
      assert operations[1..][i - 2] == operations[i - 1];
    }
  }

  /** A run succeeds exactly when every operation is one the driver knows and every test
      names the string in force there; it ends with the last string put in place. */
  lemma {:induction false} RunExactly(base: Text, operations: seq<Value>, value: Text)
    ensures RunFrom(base, operations) == Done(value) <==>
      AllStringOps(operations) && TestsHold(base, operations) && value == InForce(base, operations, |operations|)
    decreases |operations|
  {
    if operations != [] {
      var op, rest := operations[0], operations[1..];
      var next := if IsReplace(op) then Operand(op) else base;
      TestIsNotReplace(op);
      RunExactly(next, rest, value);
      forall i | 0 < i <= |operations| ensures InForce(base, operations, i) == InForce(next, rest, i - 1) {
        InForceTail(base, operations, i);
      }
      assert forall i | 0 < i < |operations| :: operations[i] == rest[i - 1];
      TestsHoldTail(base, operations, next);
    }
  }

  lemma TestsHoldTail(base: Text, operations: seq<Value>, next: Text)
    requires operations != []
    requires forall i | 0 < i <= |operations| :: InForce(base, operations, i) == InForce(next, operations[1..], i - 1)
    ensures TestsHold(base, operations) <==>
      TestsHold(next, operations[1..]) && (IsTest(operations[0]) ==> base == Operand(operations[0]))
    ensures AllStringOps(operations) <==> AllStringOps(operations[1..]) && IsStringOp(operations[0])
  {
    var rest := operations[1..];
    assert forall i | 0 <= i < |rest| :: rest[i] == operations[i + 1];
    assert forall i | 0 < i < |operations| :: operations[i] == rest[i - 1];
    if TestsHold(base, operations) {
      forall i | 0 <= i < |rest| && IsTest(rest[i]) ensures InForce(next, rest, i) == Operand(rest[i]) {
        assert IsTest(operations[i + 1]);
        assert InForce(base, operations, i + 1) == InForce(next, rest, i);
      }
      assert InForce(base, operations, 0) == base;
    }
    if TestsHold(next, rest) && (IsTest(operations[0]) ==> base == Operand(operations[0])) {
      forall i | 0 <= i < |operations| && IsTest(operations[i]) ensures InForce(base, operations, i) == Operand(operations[i]) {
        if i > 0 {
          assert IsTest(rest[i - 1]);
        }
      }
    }
  }

  /** The first operation at which the run stops: one it does not know, or a test that names
      another string than the one in force. */
  predicate StopsAt(base: Text, operations: seq<Value>, i: nat)
    requires i < |operations|
  {
    && (!IsStringOp(operations[i]) || (IsTest(operations[i]) && InForce(base, operations, i) != Operand(operations[i])))
    && AllStringOps(operations[..i]) && TestsHold(base, operations[..i])
  }

  lemma {:induction false} InForceFront(base: Text, operations: seq<Value>, n: nat, i: nat)
    requires i <= n <= |operations|
    ensures InForce(base, operations[..n], i) == InForce(base, operations, i)
    decreases i
  {
    if i > 0 {
      InForceFront(base, operations, n, i - 1);
    }
  }

  lemma {:induction false} RunStopsAt(base: Text, operations: seq<Value>, i: nat)
    requires i < |operations| && StopsAt(base, operations, i)
    ensures RunFrom(base, operations) == if IsStringOp(operations[i]) then TestFailed else BadOperation
    decreases |operations|
  {
    var op, rest := operations[0], operations[1..];
    TestIsNotReplace(op);
    if i > 0 {
      var front := operations[..i];
      var next := if IsReplace(op) then Operand(op) else base;
      assert front[0] == op && IsStringOp(front[0]);
      assert InForce(base, front, 0) == base;
      forall j | 0 < j <= i ensures InForce(base, front, j) == InForce(next, front[1..], j - 1) {
        InForceTail(base, front, j);
      }
      TestsHoldTail(base, front, next);
      assert front[1..] == rest[..i - 1];
      InForceTail(base, operations, i);
      RunStopsAt(next, rest, i - 1);
    }
  }

  /** What the driver answers: another codec or a value that is no string, inputs, the first
      operation it does not know, the first test that fails, or the State with the last
      string. */
  lemma DriverAnswers(codec: Value, base: Value, definition: Value, inputs: map<Text, Value>)
    ensures var answer, operations := StringExecute(codec, base, definition, inputs), Elements(Field(definition, "operations"));
      var ready := Field(base, "codec") == codec && Field(base, "value").Str?;
      && (!ready ==> answer == Threw(UNSUPPORTED_MEDIA_TYPE))
      && (ready && (Elements(Field(definition, "inputs")) != [] || inputs != map[]) ==> answer == Threw(UNSUPPORTED_SEMANTICS))
      && (ready && Elements(Field(definition, "inputs")) == [] && inputs == map[] ==>
            var s := Field(base, "value").s;
            && (AllStringOps(operations) && TestsHold(s, operations) ==>
                  answer == Produced(Obj(map[Ascii("schema") := Str(Ascii("t3x/state/v1")), Ascii("codec") := codec,
                                             Ascii("value") := Str(InForce(s, operations, |operations|))])))
            && (forall i | 0 <= i < |operations| && StopsAt(s, operations, i) ::
                  answer == if IsStringOp(operations[i]) then Unmet else Threw(SCHEMA_INVALID)))
  {
    hide StopsAt, AllStringOps, TestsHold, IsStringOp;
    if Field(base, "value").Str? {
      var s, operations := Field(base, "value").s, Elements(Field(definition, "operations"));
      RunExactly(s, operations, InForce(s, operations, |operations|));
      forall i | 0 <= i < |operations| && StopsAt(s, operations, i)
        ensures RunFrom(s, operations) == if IsStringOp(operations[i]) then TestFailed else BadOperation
      {
        RunStopsAt(s, operations, i);
      }
    }
  }
}
