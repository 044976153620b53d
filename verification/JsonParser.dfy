/** The strict JSON parser as the class it is: one cursor that every method advances. */
module JsonParser {
  import opened Text
  import opened Values
  import opened Grammar
  import opened JsonReader

  /** A returned value, or the code of the error thrown. */
  datatype Outcome<+T> = Done(value: T) | Raised(code: ErrorCode)

  class StrictJsonParser {
    const rd: Reader
    const source: Text
    var position: nat

    constructor (rd: Reader, source: Text)
      ensures this.rd == rd && this.source == source && position == 0
    {
      this.rd := rd;
      this.source := source;
      position := 0;
    }

    ghost predicate Valid()
      reads this
    {
      position <= |source|
    }

    ghost function Rest(): Text
      reads this
      requires Valid()
    {
      source[position..]
    }

    /** The call did what the specification says of the input it was given. */
    ghost predicate Did<T>(spec: Read<T>, r: Outcome<T>)
      reads this
    {
      Valid() && match spec
        case Got(v, rest) => r == Done(v) && Rest() == rest
        case Failed(code) => r == Raised(code)
    }

    method Parse() returns (r: Outcome<Value>)
      requires position == 0
      modifies this
      ensures match ReadDocument(rd, source)
        case Got(v, _) => r == Done(v) && position == |source|
        case Failed(code) => r == Raised(code)
    {
      assert Rest() == source;
      SkipWhitespace();
      r := ParseValue();
      if r.Done? {
        SkipWhitespace();
        if position != |source| {
          r := Raised(SchemaInvalid);
        }
      }
    }

    method ParseValue() returns (r: Outcome<Value>)
      requires Valid()
      modifies this
      ensures Did(ReadValue(rd, old(Rest())), r)
      ensures r.Done? ==> old(position) < position
      decreases |source| - position, 1
    {
      if position == |source| {
        return Raised(SchemaInvalid);
      }
      var character := source[position];
      if character == 0x22 {
        var s := ParseString();
        match s {
          case Done(t) => return Done(Str(t));
          case Raised(code) => return Raised(code);
        }
      }
      if character == 0x7B {
        r := ParseObject();
      } else if character == 0x5B {
        r := ParseArray();
      } else if character == 0x74 {
        r := ParseLiteral([0x74, 0x72, 0x75, 0x65], Bool(true));
      } else if character == 0x66 {
        r := ParseLiteral([0x66, 0x61, 0x6C, 0x73, 0x65], Bool(false));
      } else if character == 0x6E {
        r := ParseLiteral([0x6E, 0x75, 0x6C, 0x6C], Null);
      } else if character == 0x2D || IsDigit(character) {
        r := ParseNumber();
      } else {
        r := Raised(SchemaInvalid);
      }
    }

    method ParseObject() returns (r: Outcome<Value>)
      requires Valid() && position < |source| && source[position] == 0x7B
      modifies this
      ensures Did(ReadValue(rd, old(Rest())), r)
      ensures r.Done? ==> old(position) < position
      decreases |source| - position, 0
    {
      hide ReadKey, ReadItems, ReadString, ReadNumber, ReadLiteral;
      ghost var start := position;
      position := position + 1;
      assert Rest() == old(Rest())[1..];
      SkipWhitespace();
      var result: map<Text, Value> := map[];
      var keys: set<Text> := {};
      var closed := Consume(0x7D);
      if closed {
        return Done(Obj(result));
      }
      ghost var goal := ReadMembers(rd, Rest(), result);
      assert ReadValue(rd, old(Rest())) == goal;
      hide ReadValue, SkipSpace;
      while true
        invariant Valid() && start < position
        invariant keys == result.Keys
        invariant goal == ReadMembers(rd, Rest(), result)
        decreases |source| - position
      {
        var k := ParseKey(keys);
        if k.Raised? {
          return Raised(k.code);
        }
        var key := k.value;
        keys := keys + {key};
        var v := ParseValue();
        if v.Raised? {
          return v;
        }
        result := result[key := v.value];
        var end := ParseSeparator();
        if end.Raised? {
          return Raised(end.code);
        }
        if end.value {
          return Done(Obj(result));
        }
      }
    }

    /** The part of the object loop after a value: whether the object ends there. */
    method ParseSeparator() returns (r: Outcome<bool>)
      requires Valid()
      modifies this
      ensures Valid() && old(position) <= position
      ensures var s := SkipSpace(old(Rest()));
        if s != [] && s[0] == 0x7D then r == Done(true) && Rest() == s[1..]
        else if s != [] && s[0] == 0x2C then r == Done(false) && Rest() == SkipSpace(s[1..])
        else r == Raised(SchemaInvalid)
    {
      SkipWhitespace();
      var closed := Consume(0x7D);
      if closed {
        return Done(true);
      }
      var comma := Consume(0x2C);
      if !comma {
        return Raised(SchemaInvalid);
      }
      SkipWhitespace();
      r := Done(false);
    }

    /** The part of the object loop from the key to the start of its value. */
    method ParseKey(keys: set<Text>) returns (r: Outcome<Text>)
      requires Valid()
      modifies this
      ensures Did(ReadKey(rd, old(Rest()), keys), r)
      ensures r.Done? ==> old(position) < position
    {
      if position == |source| || source[position] != 0x22 {
        return Raised(SchemaInvalid);
      }
      r := ParseString();
      if r.Raised? {
        return;
      }
      if r.value in keys {
        return Raised(SchemaInvalid);
      }
      SkipWhitespace();
      var colon := Consume(0x3A);
      if !colon {
        return Raised(SchemaInvalid);
      }
      SkipWhitespace();
    }

    method ParseArray() returns (r: Outcome<Value>)
      requires Valid() && position < |source| && source[position] == 0x5B
      modifies this
      ensures Did(ReadValue(rd, old(Rest())), r)
      ensures r.Done? ==> old(position) < position
      decreases |source| - position, 0
    {
      ghost var start := position;
      position := position + 1;
      assert Rest() == old(Rest())[1..];
      SkipWhitespace();
      var result: seq<Value> := [];
      var closed := Consume(0x5D);
      if closed {
        return Done(Arr(result));
      }
      ghost var goal := ReadItems(rd, Rest(), result);
      while true
        invariant Valid() && start < position
        invariant goal == ReadItems(rd, Rest(), result)
        decreases |source| - position
      {
        var v := ParseValue();
        if v.Raised? {
          return v;
        }
        result := result + [v.value];
        SkipWhitespace();
        closed := Consume(0x5D);
        if closed {
          return Done(Arr(result));
        }
        var comma := Consume(0x2C);
        if !comma {
          return Raised(SchemaInvalid);
        }
        SkipWhitespace();
      }
    }

    method ParseString() returns (r: Outcome<Text>)
      requires Valid() && position < |source|
      modifies this
      ensures Did(ReadString(rd, old(Rest())), r)
      ensures r.Done? ==> old(position) < position
    {
      var start := position;
      position := position + 1;
      assert Rest() == old(Rest())[1..];
      var closed := ScanToQuote();
      if !closed {
        return Raised(SchemaInvalid);
      }
      var slice := source[start..position];
      assert slice == old(Rest())[..position - start];
      assert Rest() == old(Rest())[position - start..];
      var decoded := DecodeLiteral(slice);
      if decoded.None? {
        return Raised(SchemaInvalid);
      }
      var ok := CheckWellFormed(decoded.value);
      if rd.unicode && !ok {
        return Raised(NonCanonical);
      }
      return Done(decoded.value);
    }

    /** The scan loop of `parseString`: on success the cursor is just after the quote. */
    method ScanToQuote() returns (closed: bool)
      requires Valid()
      modifies this
      ensures Valid() && old(position) <= position
      ensures closed == Scan(old(Rest())).Some?
      ensures closed ==> position == old(position) + Scan(old(Rest())).value
    {
      hide CharLength;
      ghost var start := position;
      while position < |source|
        invariant start <= position <= |source|
        invariant Scan(source[start..]) == Shift(position - start, Scan(source[position..]))
        decreases |source| - position
      {
        ScanStep(source, start, position);
        if source[position] == 0x22 {
          position := position + 1;
          return true;
        }
        var advanced := SkipCharacter();
        if !advanced {
          return false;
        }
      }
      assert source[position..] == [];
      return false;
    }

    /** One pass of the scan loop over a character that is not the closing quote. */
    method SkipCharacter() returns (ok: bool)
      requires Valid() && position < |source|
      modifies this
      ensures ok == (CharLength(source[old(position)..]) > 0)
      ensures Valid() && old(position) <= position
      ensures ok ==> position == old(position) + CharLength(source[old(position)..])
    {
      var code := source[position];
      ghost var here := Rest();
      assert here[0] == code;
      if code < 0x20 {
        return false;
      }
      if code == 0x5C {
        position := position + 1;
        assert position < |source| ==> here[1] == source[position];
        if position < |source| && source[position] == 0x75 {
          var digits := source[position + 1..if position + 5 <= |source| then position + 5 else |source|];
          assert forall i | 0 <= i < |digits| :: digits[i] == here[i + 2];
          if !(|digits| == 4 && IsHex(digits[0]) && IsHex(digits[1]) && IsHex(digits[2]) && IsHex(digits[3])) {
            return false;
          }
          position := position + 5;
          return true;
        }
        if position == |source| || !IsEscapeLetter(source[position]) {
          return false;
        }
      }
      position := position + 1;
      return true;
    }

    method ParseNumber() returns (r: Outcome<Value>)
      requires Valid()
      modifies this
      ensures Did(ReadNumber(rd, old(Rest())), r)
      ensures r.Done? ==> old(position) < position
    {
      var n := MatchNumber(source[position..]);
      if n == 0 {
        return Raised(SchemaInvalid);
      }
      var lexeme := source[position..][..n];
      position := position + n;
      assert Rest() == old(Rest())[n..];
      var value := rd.num.read(lexeme);
      if value.None? {
        return Raised(NonCanonical);
      }
      return Done(Num(value.value));
    }

    method ParseLiteral(literal: Text, value: Value) returns (r: Outcome<Value>)
      requires Valid() && literal != []
      modifies this
      ensures Did(ReadLiteral(old(Rest()), literal, value), r)
      ensures r.Done? ==> old(position) < position
    {
      if position + |literal| > |source| || source[position..position + |literal|] != literal {
        assert position + |literal| <= |source| ==> Rest()[..|literal|] == source[position..position + |literal|];
        return Raised(SchemaInvalid);
      }
      assert Rest()[..|literal|] == source[position..position + |literal|];
      position := position + |literal|;
      assert Rest() == old(Rest())[|literal|..];
      return Done(value);
    }

    method SkipWhitespace()
      requires Valid()
      modifies this
      ensures Valid() && old(position) <= position
      ensures Rest() == SkipSpace(old(Rest()))
    {
      while position < |source| && IsSpace(source[position])
        invariant old(position) <= position <= |source|
        invariant SkipSpace(Rest()) == SkipSpace(old(Rest()))
        decreases |source| - position
      {
        assert source[position + 1..] == Rest()[1..];
        position := position + 1;
      }
    }

    method Consume(character: CodeUnit) returns (found: bool)
      requires Valid()
      modifies this
      ensures Valid()
      ensures found == (old(Rest()) != [] && old(Rest())[0] == character)
      ensures found ==> position == old(position) + 1 && Rest() == old(Rest())[1..]
      ensures !found ==> position == old(position)
    {
      if position == |source| || source[position] != character {
        return false;
      }
      assert source[position + 1..] == Rest()[1..];
      position := position + 1;
      return true;
    }
  }
}
