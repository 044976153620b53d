/** Which of its two codes the strict parser fails with: text that is JSON with distinct
    keys, and merely outside the I-JSON domain, is never called invalid. */
module JsonFailures {
  import opened Text
  import opened Values
  import opened Grammar
  import opened JsonReader
  import opened JsonTheorems

  /** The reader that takes every number and every string: of the conditions beyond the
      grammar only distinct keys are left. */
  function Lenient(rd: Reader): Reader {
    Reader(NumberCodec(rd.num.dom, rd.num.show, (t: Text) => Some(if rd.num.read(t).Some? then rd.num.read(t).value else 0.0)), false)
  }

  /** The text is a JSON document in which no object has a key twice. */
  ghost predicate IsJson(rd: Reader, s: Text) { exists d :: DocumentOk(Lenient(rd), d) && DocumentText(d) == s }

  /** Where the lenient reading fails, both do; where it succeeds the strict one reads as
      far, unless it meets something outside the domain. */
  predicate Alike<T>(strict: Read<T>, lenient: Read<T>) {
    match lenient
    case Failed(code) => code == SchemaInvalid && strict.Failed?
    case Got(_, rest) => if strict.Got? then strict.rest == rest else strict.code == NonCanonical
  }

  lemma StringAlike(rd: Reader, s: Text)
    requires s != []
    ensures Alike(ReadString(rd, s), ReadString(Lenient(rd), s))
    ensures ReadString(rd, s).Got? ==> ReadString(rd, s) == ReadString(Lenient(rd), s)
  {}

  lemma KeyAlike(rd: Reader, s: Text, known: set<Text>)
    ensures Alike(ReadKey(rd, s, known), ReadKey(Lenient(rd), s, known))
    ensures ReadKey(rd, s, known).Got? ==> ReadKey(rd, s, known) == ReadKey(Lenient(rd), s, known)
  {
    if s != [] {
      StringAlike(rd, s);
    }
  }

  lemma NumberAlike(rd: Reader, s: Text)
    ensures Alike(ReadNumber(rd, s), ReadNumber(Lenient(rd), s))
  {}

  lemma LiteralAlike(s: Text, name: Text, v: Value)
    ensures Alike(ReadLiteral(s, name, v), ReadLiteral(s, name, v))
  {}

  lemma {:induction false} ValueAlike(rd: Reader, s: Text)
    ensures Alike(ReadValue(rd, s), ReadValue(Lenient(rd), s))
    decreases |s|, 0
  {
    hide ReadString, ReadMembers, ReadItems, ReadNumber, ReadLiteral, Lenient, SkipSpace;
    if s != [] {
      var after := SkipSpace(s[1..]);
      NumberAlike(rd, s);
      LiteralAlike(s, [0x74, 0x72, 0x75, 0x65], Bool(true));
      LiteralAlike(s, [0x66, 0x61, 0x6C, 0x73, 0x65], Bool(false));
      LiteralAlike(s, [0x6E, 0x75, 0x6C, 0x6C], Null);
      if s[0] == 0x22 {
        StringAlike(rd, s);
      } else if s[0] == 0x7B {
        MembersAlike(rd, after, map[], map[]);
      } else if s[0] == 0x5B {
        ItemsAlike(rd, after, [], []);
      }
    }
  }

  lemma {:induction false} ItemsAlike(rd: Reader, s: Text, a: seq<Value>, b: seq<Value>)
    ensures Alike(ReadItems(rd, s, a), ReadItems(Lenient(rd), s, b))
    decreases |s|, 1
  {
    ValueAlike(rd, s);
    var strict, lenient := ReadValue(rd, s), ReadValue(Lenient(rd), s);
    if strict.Got? && lenient.Got? {
      var s1 := SkipSpace(strict.rest);
      if s1 != [] && s1[0] == 0x2C {
        ItemsAlike(rd, SkipSpace(s1[1..]), a + [strict.value], b + [lenient.value]);
      }
    } else if lenient.Got? {
      ItemsFailOrRead(Lenient(rd), s, b);
    }
  }

  /** A lenient reading fails with one code only. */
  lemma {:induction false} ItemsFailOrRead(rd: Reader, s: Text, sofar: seq<Value>)
    requires !rd.unicode && forall t: Text :: rd.num.read(t).Some?
    ensures ReadItems(rd, s, sofar).Failed? ==> ReadItems(rd, s, sofar).code == SchemaInvalid
    decreases |s|, 1
  {
    ValueFailOrRead(rd, s);
    if ReadValue(rd, s).Got? {
      var s1 := SkipSpace(ReadValue(rd, s).rest);
      if s1 != [] && s1[0] == 0x2C {
        ItemsFailOrRead(rd, SkipSpace(s1[1..]), sofar + [ReadValue(rd, s).value]);
      }
    }
  }

  lemma {:induction false} MembersFailOrRead(rd: Reader, s: Text, sofar: map<Text, Value>)
    requires !rd.unicode && forall t: Text :: rd.num.read(t).Some?
    ensures ReadMembers(rd, s, sofar).Failed? ==> ReadMembers(rd, s, sofar).code == SchemaInvalid
    decreases |s|, 1
  {
    var key := ReadKey(rd, s, sofar.Keys);
    if key.Got? {
      ValueFailOrRead(rd, key.rest);
      var v := ReadValue(rd, key.rest);
      if v.Got? {
        var s2 := SkipSpace(v.rest);
        if s2 != [] && s2[0] == 0x2C {
          MembersFailOrRead(rd, SkipSpace(s2[1..]), sofar[key.value := v.value]);
        }
      }
    }
  }

  lemma {:induction false} ValueFailOrRead(rd: Reader, s: Text)
    requires !rd.unicode && forall t: Text :: rd.num.read(t).Some?
    ensures ReadValue(rd, s).Failed? ==> ReadValue(rd, s).code == SchemaInvalid
    decreases |s|, 0
  {
    if s != [] {
      var after := SkipSpace(s[1..]);
      if s[0] == 0x7B {
        MembersFailOrRead(rd, after, map[]);
      } else if s[0] == 0x5B {
        ItemsFailOrRead(rd, after, []);
      }
    }
  }

  lemma {:induction false} MembersAlike(rd: Reader, s: Text, a: map<Text, Value>, b: map<Text, Value>)
    requires a.Keys == b.Keys
    ensures Alike(ReadMembers(rd, s, a), ReadMembers(Lenient(rd), s, b))
    decreases |s|, 1
  {
    hide ReadKey;
    KeyAlike(rd, s, a.Keys);
    var key, other := ReadKey(rd, s, a.Keys), ReadKey(Lenient(rd), s, b.Keys);
    if key.Got? && other.Got? {
      ValueAlike(rd, key.rest);
      var strict, lenient := ReadValue(rd, key.rest), ReadValue(Lenient(rd), key.rest);
      if strict.Got? && lenient.Got? {
        var s2 := SkipSpace(strict.rest);
        var a', b' := a[key.value := strict.value], b[key.value := lenient.value];
        assert a'.Keys == a.Keys + {key.value} && b'.Keys == b.Keys + {key.value};
        if s2 != [] && s2[0] == 0x2C {
          MembersAlike(rd, SkipSpace(s2[1..]), a', b');
        }
      } else if lenient.Got? {
        MembersFailOrRead(Lenient(rd), s, b);
      }
    } else if other.Got? {
      MembersFailOrRead(Lenient(rd), s, b);
    }
  }

  /** JSON text with distinct keys is read, or refused as not canonical; it is never called
      invalid. Other text is refused, and with every number finite and surrogates let
      through, always as invalid. */
  lemma FailureCodes(rd: Reader, s: Text)
    ensures IsJson(rd, s) ==> ReadDocument(rd, s).Got? || ReadDocument(rd, s) == Failed(NonCanonical)
    ensures !IsJson(rd, s) ==> ReadDocument(rd, s).Failed?
    ensures !IsJson(rd, s) ==> ReadDocument(Lenient(rd), s) == Failed(SchemaInvalid)
  {
    hide ReadValue;
    var body := SkipSpace(s);
    AcceptsExactlyTheGrammar(Lenient(rd), s);
    ValueAlike(rd, body);
    ValueFailOrRead(Lenient(rd), body);
  }
}
