/** What the strict JSON parser computes, as a function of the remaining input. That it
    accepts exactly the grammar's texts is proved in JsonTheorems. */
module JsonReader {
  import opened Text
  import opened Values
  import opened Grammar

  datatype ErrorCode = SchemaInvalid | NonCanonical

  datatype Read<+T> = Got(value: T, rest: Text) | Failed(code: ErrorCode)

  // ---------------------------------------------------------------- tokens

  function SkipSpace(s: Text): (r: Text)
    ensures |r| <= |s|
  {
    if s != [] && IsSpace(s[0]) then SkipSpace(s[1..]) else s
  }

  function ReadLiteral(s: Text, literal: Text, v: Value): Read<Value> {
    if |s| >= |literal| && s[..|literal|] == literal then Got(v, s[|literal|..])
    else Failed(SchemaInvalid)
  }

  function DigitRun(s: Text): (n: nat)
    ensures n <= |s| && AllDigits(s[..n])
    ensures n < |s| ==> !IsDigit(s[n])
  {
    if s != [] && IsDigit(s[0]) then
      var n := DigitRun(s[1..]);
      assert s[..n + 1] == [s[0]] + s[1..][..n];
      n + 1
    else 0
  }

  /** (0 | [1-9][0-9]*), or 0 for no match. */
  function MatchWhole(s: Text): (n: nat)
    ensures n <= |s|
  {
    if s == [] then 0 else if s[0] == 0x30 then 1 else DigitRun(s)
  }

  /** (\.[0-9]+)? */
  function MatchFrac(s: Text): (n: nat)
    ensures n <= |s|
  {
    if s != [] && s[0] == 0x2E && DigitRun(s[1..]) > 0 then 1 + DigitRun(s[1..]) else 0
  }

  /** ([eE][+-]?[0-9]+)? */
  function MatchExp(s: Text): (n: nat)
    ensures n <= |s|
  {
    if s != [] && (s[0] == 0x65 || s[0] == 0x45) then
      var sign := if |s| > 1 && (s[1] == 0x2B || s[1] == 0x2D) then 1 else 0;
      var run := DigitRun(s[1 + sign..]);
      if run > 0 then 1 + sign + run else 0
    else 0
  }

  function MatchTail(s: Text): (n: nat)
    ensures n <= |s|
  {
    MatchFrac(s) + MatchExp(s[MatchFrac(s)..])
  }

  function MatchUnsigned(s: Text): (n: nat)
    ensures n <= |s|
  {
    if MatchWhole(s) == 0 then 0 else MatchWhole(s) + MatchTail(s[MatchWhole(s)..])
  }

  /** Length of the longest number at the head of `s`; 0 when there is none. */
  function MatchNumber(s: Text): (n: nat)
    ensures n <= |s|
  {
    if s != [] && s[0] == 0x2D then
      if MatchUnsigned(s[1..]) == 0 then 0 else 1 + MatchUnsigned(s[1..])
    else MatchUnsigned(s)
  }

  function ReadNumber(rd: Reader, s: Text): (r: Read<Value>)
    ensures r.Got? ==> |r.rest| < |s|
  {
    var n := MatchNumber(s);
    if n == 0 then Failed(SchemaInvalid)
    else
      match rd.num.read(s[..n])
      case None => Failed(NonCanonical)
      case Some(x) => Got(Num(x), s[n..])
  }

  // ---------------------------------------------------------------- strings

  /** Length of the character or escape at the head of a string body, 0 if malformed. */
  function CharLength(s: Text): (n: nat)
    requires s != []
    ensures n <= |s|
  {
    if s[0] < 0x20 then 0
    else if s[0] != 0x5C then 1
    else if |s| > 1 && s[1] == 0x75 then
      if |s| >= 6 && IsHex(s[2]) && IsHex(s[3]) && IsHex(s[4]) && IsHex(s[5]) then 6 else 0
    else if |s| > 1 && IsEscapeLetter(s[1]) then 2
    else 0
  }

  /** The scan loop: from just after the opening quote to just after the closing one. */
  function Scan(s: Text): (n: Option<nat>)
    ensures n.Some? ==> 0 < n.value <= |s| && s[n.value - 1] == 0x22
  {
    if s == [] then None
    else if s[0] == 0x22 then Some(1)
    else if CharLength(s) == 0 then None
    else Shift(CharLength(s), Scan(s[CharLength(s)..]))
  }

  lemma ScanStep(source: Text, start: nat, i: nat)
    requires start <= i < |source|
    requires Scan(source[start..]) == Shift(i - start, Scan(source[i..]))
    ensures source[i] == 0x22 ==> Scan(source[start..]) == Some(i - start + 1)
    ensures source[i] != 0x22 && CharLength(source[i..]) == 0 ==> Scan(source[start..]) == None
    ensures source[i] != 0x22 && CharLength(source[i..]) > 0 ==>
      var j := i + CharLength(source[i..]);
      Scan(source[start..]) == Shift(j - start, Scan(source[j..]))
  {
    hide CharLength;
    var here := source[i..];
    assert here[0] == source[i];
    assert source[i + CharLength(here)..] == here[CharLength(here)..];
  }

  function Shift(k: nat, n: Option<nat>): Option<nat> {
    if n.None? then None else Some(k + n.value)
  }

  /** `JSON.parse` on a string literal: the decoded string, or None where it throws. */
  function DecodeLiteral(s: Text): Option<Text> {
    if s != [] && s[0] == 0x22 then DecodeBody(s[1..]) else None
  }

  function DecodeBody(s: Text): Option<Text> {
    if s == [] then None
    else if s[0] == 0x22 then if |s| == 1 then Some([]) else None
    else if s[0] == 0x5C then
      if |s| < 2 then None
      else if s[1] == 0x75 then
        if |s| < 6 || !(IsHex(s[2]) && IsHex(s[3]) && IsHex(s[4]) && IsHex(s[5])) then None
        else Prepend(HexUnit(s[2], s[3], s[4], s[5]), DecodeBody(s[6..]))
      else if IsEscapeLetter(s[1]) then Prepend(EscapeMeaning(s[1]), DecodeBody(s[2..]))
      else None
    else if s[0] < 0x20 then None
    else Prepend(s[0], DecodeBody(s[1..]))
  }

  function Prepend(u: CodeUnit, t: Option<Text>): Option<Text> {
    if t.None? then None else Some([u] + t.value)
  }

  /** `parseString`, with the opening quote at the head of `s`. */
  function ReadString(rd: Reader, s: Text): (r: Read<Text>)
    requires s != []
    ensures r.Got? ==> |r.rest| < |s|
  {
    match Scan(s[1..])
    case None => Failed(SchemaInvalid)
    case Some(n) =>
      match DecodeLiteral(s[..n + 1])
      case None => Failed(SchemaInvalid)
      case Some(t) => if StringAllowed(rd, t) then Got(t, s[n + 1..]) else Failed(NonCanonical)
  }

  // ---------------------------------------------------------------- values

  function ReadValue(rd: Reader, s: Text): (r: Read<Value>)
    ensures r.Got? ==> |r.rest| < |s|
    decreases |s|, 0
  {
    if s == [] then Failed(SchemaInvalid)
    else if s[0] == 0x22 then
      match ReadString(rd, s)
      case Got(t, rest) => Got(Str(t), rest)
      case Failed(code) => Failed(code)
    else if s[0] == 0x7B then
      var after := SkipSpace(s[1..]);
      if after != [] && after[0] == 0x7D then Got(Obj(map[]), after[1..])
      else ReadMembers(rd, after, map[])
    else if s[0] == 0x5B then
      var after := SkipSpace(s[1..]);
      if after != [] && after[0] == 0x5D then Got(Arr([]), after[1..])
      else ReadItems(rd, after, [])
    else if s[0] == 0x74 then ReadLiteral(s, [0x74, 0x72, 0x75, 0x65], Bool(true))
    else if s[0] == 0x66 then ReadLiteral(s, [0x66, 0x61, 0x6C, 0x73, 0x65], Bool(false))
    else if s[0] == 0x6E then ReadLiteral(s, [0x6E, 0x75, 0x6C, 0x6C], Null)
    else if s[0] == 0x2D || IsDigit(s[0]) then ReadNumber(rd, s)
    else Failed(SchemaInvalid)
  }

  /** The array loop, entered where an item must start, with the items read so far. */
  function ReadItems(rd: Reader, s: Text, sofar: seq<Value>): (r: Read<Value>)
    ensures r.Got? ==> |r.rest| < |s|
    decreases |s|, 1
  {
    match ReadValue(rd, s)
    case Failed(code) => Failed(code)
    case Got(v, rest) =>
      var s1 := SkipSpace(rest);
      if s1 == [] then Failed(SchemaInvalid)
      else if s1[0] == 0x5D then Got(Arr(sofar + [v]), s1[1..])
      else if s1[0] == 0x2C then ReadItems(rd, SkipSpace(s1[1..]), sofar + [v])
      else Failed(SchemaInvalid)
  }

  /** A key not met before, its colon, and the white space after it. */
  function ReadKey(rd: Reader, s: Text, known: set<Text>): (r: Read<Text>)
    ensures r.Got? ==> |r.rest| < |s|
  {
    if s == [] || s[0] != 0x22 then Failed(SchemaInvalid)
    else
      match ReadString(rd, s)
      case Failed(code) => Failed(code)
      case Got(key, rest) =>
        var s1 := SkipSpace(rest);
        if key in known then Failed(SchemaInvalid)
        else if s1 == [] || s1[0] != 0x3A then Failed(SchemaInvalid)
        else Got(key, SkipSpace(s1[1..]))
  }

  /** The object loop, entered where a key must start, with the members read so far. */
  function ReadMembers(rd: Reader, s: Text, sofar: map<Text, Value>): (r: Read<Value>)
    ensures r.Got? ==> |r.rest| < |s|
    decreases |s|, 1
  {
    match ReadKey(rd, s, sofar.Keys)
    case Failed(code) => Failed(code)
    case Got(key, rest) =>
      match ReadValue(rd, rest)
      case Failed(code) => Failed(code)
      case Got(v, rest') =>
        var s2 := SkipSpace(rest');
        if s2 == [] then Failed(SchemaInvalid)
        else if s2[0] == 0x7D then Got(Obj(sofar[key := v]), s2[1..])
        else if s2[0] == 0x2C then ReadMembers(rd, SkipSpace(s2[1..]), sofar[key := v])
        else Failed(SchemaInvalid)
  }

  /** `StrictJsonParser.parse` on a whole source text. */
  function ReadDocument(rd: Reader, s: Text): Read<Value> {
    match ReadValue(rd, SkipSpace(s))
    case Failed(code) => Failed(code)
    case Got(v, rest) => if SkipSpace(rest) == [] then Got(v, []) else Failed(SchemaInvalid)
  }
}
