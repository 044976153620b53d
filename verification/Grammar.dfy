/** The JSON grammar of RFC 8259, sections 2 to 7, as concrete syntax trees: a text is
    derivable when it is the text of some tree. Nothing here looks at the parser. */
module Grammar {
  import opened Text
  import opened Values

  // ---------------------------------------------------------------- characters

  predicate IsSpace(u: int) { u == 0x20 || u == 0x0A || u == 0x0D || u == 0x09 }
  predicate IsDigit(u: int) { 0x30 <= u <= 0x39 }
  predicate IsHex(u: int) { IsDigit(u) || 0x41 <= u <= 0x46 || 0x61 <= u <= 0x66 }
  predicate AllSpace(s: Text) { forall i | 0 <= i < |s| :: IsSpace(s[i]) }
  predicate AllDigits(s: Text) { forall i | 0 <= i < |s| :: IsDigit(s[i]) }

  function HexValue(u: int): (n: int)
    requires IsHex(u)
    ensures 0 <= n < 16
  {
    if IsDigit(u) then u - 0x30 else if u <= 0x46 then u - 0x37 else u - 0x57
  }

  function HexUnit(a: int, b: int, c: int, d: int): CodeUnit
    requires IsHex(a) && IsHex(b) && IsHex(c) && IsHex(d)
  {
    HexValue(a) * 0x1000 + HexValue(b) * 0x100 + HexValue(c) * 0x10 + HexValue(d)
  }

  /** The eight letters that may follow a backslash alone. */
  predicate IsEscapeLetter(u: int) {
    u == 0x22 || u == 0x5C || u == 0x2F || u == 0x62 || u == 0x66 || u == 0x6E || u == 0x72 || u == 0x74
  }

  function EscapeMeaning(u: int): CodeUnit
    requires IsEscapeLetter(u)
  {
    if u == 0x62 then 0x08 else if u == 0x66 then 0x0C else if u == 0x6E then 0x0A
    else if u == 0x72 then 0x0D else if u == 0x74 then 0x09 else u
  }

  // ---------------------------------------------------------------- strings (section 7)

  datatype Char =
    | Plain(u: CodeUnit)
    | Escape(letter: CodeUnit)
    | Unicode(h0: CodeUnit, h1: CodeUnit, h2: CodeUnit, h3: CodeUnit)

  predicate CharOk(c: Char) {
    match c
    case Plain(u) => u >= 0x20 && u != 0x22 && u != 0x5C
    case Escape(l) => IsEscapeLetter(l)
    case Unicode(a, b, c, d) => IsHex(a) && IsHex(b) && IsHex(c) && IsHex(d)
  }

  function CharText(c: Char): (t: Text)
    ensures t != []
  {
    match c
    case Plain(u) => [u]
    case Escape(l) => [0x5C, l]
    case Unicode(a, b, c, d) => [0x5C, 0x75, a, b, c, d]
  }

  function CharMeaning(c: Char): CodeUnit
    requires CharOk(c)
  {
    match c
    case Plain(u) => u
    case Escape(l) => EscapeMeaning(l)
    case Unicode(a, b, c, d) => HexUnit(a, b, c, d)
  }

  predicate CharsOk(cs: seq<Char>) { forall i | 0 <= i < |cs| :: CharOk(cs[i]) }

  /** The text of the characters, followed by `rest`. */
  function CharsText(cs: seq<Char>, rest: Text): Text {
    if cs == [] then rest else CharText(cs[0]) + CharsText(cs[1..], rest)
  }

  function CharsMeaning(cs: seq<Char>): Text
    requires CharsOk(cs)
  {
    if cs == [] then [] else [CharMeaning(cs[0])] + CharsMeaning(cs[1..])
  }

  /** The quoted string, followed by `rest`. */
  function StringText(cs: seq<Char>, rest: Text): Text { [0x22] + CharsText(cs, [0x22] + rest) }

  // ---------------------------------------------------------------- numbers (section 6)

  datatype Exponent = NoExponent | Exponent(e: CodeUnit, sign: Text, digits: Text)

  /** `frac == []` stands for no fraction part. */
  datatype Number = Number(neg: bool, whole: Text, frac: Text, exp: Exponent)

  predicate NumberOk(n: Number) {
    && n.whole != [] && AllDigits(n.whole) && (n.whole[0] == 0x30 ==> |n.whole| == 1)
    && AllDigits(n.frac)
    && (n.exp.Exponent? ==>
          && (n.exp.e == 0x65 || n.exp.e == 0x45)
          && (n.exp.sign == [] || n.exp.sign == [0x2B] || n.exp.sign == [0x2D])
          && n.exp.digits != [] && AllDigits(n.exp.digits))
  }

  function SignText(n: Number): Text { if n.neg then [0x2D] else [] }
  function FracText(n: Number): Text { if n.frac == [] then [] else [0x2E] + n.frac }
  function ExpText(n: Number): Text {
    if n.exp.NoExponent? then [] else [n.exp.e] + n.exp.sign + n.exp.digits
  }
  function TailText(n: Number): Text { FracText(n) + ExpText(n) }
  function UnsignedText(n: Number): Text { n.whole + TailText(n) }
  function NumberText(n: Number): Text { SignText(n) + UnsignedText(n) }

  ghost predicate IsNumberText(s: Text) { exists n :: NumberOk(n) && NumberText(n) == s }

  /** What ECMAScript promises of number printing and reading: a finite number prints
      as a JSON number that reads back as that number, and reading yields finite numbers. */
  ghost predicate Lawful(c: NumberCodec) {
    && (forall r :: c.dom(r) ==> IsNumberText(c.show(r)) && c.read(c.show(r)) == Some(r))
    && (forall s: Text :: c.read(s).Some? ==> c.dom(c.read(s).value))
  }

  // ---------------------------------------------------------------- values (sections 2 to 5)

  /** White space is kept where the grammar's structural tokens put it: after an opening
      bracket, around a colon, before and after a comma, before a closing bracket. */
  datatype Tree =
    | TNull | TTrue | TFalse
    | TNumber(n: Number)
    | TString(cs: seq<Char>)
    | TNoItems(w: Text)
    | TItems(w: Text, items: Items)
    | TNoMembers(w: Text)
    | TMembers(w: Text, members: Members)

  datatype Items =
    | LastItem(v: Tree, w: Text)
    | MoreItems(v: Tree, w: Text, w': Text, rest: Items)

  datatype Members =
    | LastMember(key: seq<Char>, wk: Text, wc: Text, v: Tree, w: Text)
    | MoreMembers(key: seq<Char>, wk: Text, wc: Text, v: Tree, w: Text, w': Text, rest: Members)

  /** The tree is a derivation of the grammar. */
  predicate Derivable(t: Tree) {
    match t
    case TNumber(n) => NumberOk(n)
    case TString(cs) => CharsOk(cs)
    case TNoItems(w) => AllSpace(w)
    case TItems(w, items) => AllSpace(w) && DerivableItems(items)
    case TNoMembers(w) => AllSpace(w)
    case TMembers(w, ms) => AllSpace(w) && DerivableMembers(ms)
    case _ => true
  }

  predicate DerivableItems(it: Items) {
    && Derivable(it.v) && AllSpace(it.w)
    && (it.MoreItems? ==> AllSpace(it.w') && DerivableItems(it.rest))
  }

  predicate DerivableMembers(ms: Members) {
    && CharsOk(ms.key) && AllSpace(ms.wk) && AllSpace(ms.wc) && Derivable(ms.v) && AllSpace(ms.w)
    && (ms.MoreMembers? ==> AllSpace(ms.w') && DerivableMembers(ms.rest))
  }

  /** The text derived by the tree, followed by `rest`; likewise for items up to and with
      the closing bracket, and for members up to and with the closing brace. */
  function TreeText(t: Tree, rest: Text): Text {
    match t
    case TNull => [0x6E, 0x75, 0x6C, 0x6C] + rest
    case TTrue => [0x74, 0x72, 0x75, 0x65] + rest
    case TFalse => [0x66, 0x61, 0x6C, 0x73, 0x65] + rest
    case TNumber(n) => NumberText(n) + rest
    case TString(cs) => StringText(cs, rest)
    case TNoItems(w) => [0x5B] + (w + ([0x5D] + rest))
    case TItems(w, items) => [0x5B] + (w + ItemsText(items, rest))
    case TNoMembers(w) => [0x7B] + (w + ([0x7D] + rest))
    case TMembers(w, ms) => [0x7B] + (w + MembersText(ms, rest))
  }

  function ItemsText(it: Items, rest: Text): Text {
    var next := if it.LastItem? then [0x5D] + rest else [0x2C] + (it.w' + ItemsText(it.rest, rest));
    TreeText(it.v, it.w + next)
  }

  function MembersText(ms: Members, rest: Text): Text {
    var next := if ms.LastMember? then [0x7D] + rest else [0x2C] + (ms.w' + MembersText(ms.rest, rest));
    StringText(ms.key, ms.wk + ([0x3A] + (ms.wc + TreeText(ms.v, ms.w + next))))
  }

  // ---------------------------------------------------------------- meaning

  /** How number texts are read, and whether unpaired surrogates are refused. */
  datatype Reader = Reader(num: NumberCodec, unicode: bool)

  predicate StringAllowed(rd: Reader, s: Text) { rd.unicode ==> WellFormed(s) }

  /** The I-JSON conditions beyond the grammar: finite numbers, paired surrogates (where
      the reader asks for them), and no two members of one object with the same
      decoded key. `seen` holds the keys already met in the same object. */
  predicate Allowed(rd: Reader, t: Tree)
    requires Derivable(t)
  {
    match t
    case TNumber(n) => rd.num.read(NumberText(n)).Some?
    case TString(cs) => StringAllowed(rd, CharsMeaning(cs))
    case TItems(_, items) => AllowedItems(rd, items)
    case TMembers(_, ms) => AllowedMembers(rd, ms, {})
    case _ => true
  }

  predicate AllowedItems(rd: Reader, it: Items)
    requires DerivableItems(it)
  {
    Allowed(rd, it.v) && (it.MoreItems? ==> AllowedItems(rd, it.rest))
  }

  predicate AllowedMembers(rd: Reader, ms: Members, seen: set<Text>)
    requires DerivableMembers(ms)
  {
    var k := CharsMeaning(ms.key);
    && StringAllowed(rd, k) && k !in seen && Allowed(rd, ms.v)
    && (ms.MoreMembers? ==> AllowedMembers(rd, ms.rest, seen + {k}))
  }

  function Meaning(rd: Reader, t: Tree): Value
    requires Derivable(t) && Allowed(rd, t)
  {
    match t
    case TNull => Null
    case TTrue => Bool(true)
    case TFalse => Bool(false)
    case TNumber(n) => Num(rd.num.read(NumberText(n)).value)
    case TString(cs) => Str(CharsMeaning(cs))
    case TNoItems(_) => Arr([])
    case TItems(_, items) => Arr(ItemsMeaning(rd, items))
    case TNoMembers(_) => Obj(map[])
    case TMembers(_, ms) =>
      var none: map<Text, Value> := map[];
      assert none.Keys == {};
      Obj(MembersMeaning(rd, ms, none))
  }

  function ItemsMeaning(rd: Reader, it: Items): seq<Value>
    requires DerivableItems(it) && AllowedItems(rd, it)
  {
    [Meaning(rd, it.v)] + if it.LastItem? then [] else ItemsMeaning(rd, it.rest)
  }

  function MembersMeaning(rd: Reader, ms: Members, sofar: map<Text, Value>): map<Text, Value>
    requires DerivableMembers(ms) && AllowedMembers(rd, ms, sofar.Keys)
  {
    var now := sofar[CharsMeaning(ms.key) := Meaning(rd, ms.v)];
    assert now.Keys == sofar.Keys + {CharsMeaning(ms.key)};
    if ms.LastMember? then now else MembersMeaning(rd, ms.rest, now)
  }

  /** JSON-text = ws value ws. */
  datatype Document = Document(before: Text, t: Tree, after: Text)

  predicate DocumentOk(rd: Reader, d: Document) {
    AllSpace(d.before) && AllSpace(d.after) && Derivable(d.t) && Allowed(rd, d.t)
  }

  function DocumentText(d: Document): Text { d.before + TreeText(d.t, d.after) }
}
