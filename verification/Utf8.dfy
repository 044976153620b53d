/** UTF-8 (RFC 3629) between texts and bytes, and the order of encoded texts. */
module Utf8 {
  import opened Text

  type Byte = n: int | 0 <= n < 0x100
  type Bytes = seq<Byte>

  predicate IsScalar(c: int) { !IsHigh(c) && !IsLow(c) }
  predicate AllScalar(cs: seq<CodePoint>) { forall i | 0 <= i < |cs| :: IsScalar(cs[i]) }

  // ---------------------------------------------------------------- encoding

  function EncodePoint(c: CodePoint): (bs: Bytes)
    ensures bs != []
  {
    if c < 0x80 then [c]
    else if c < 0x800 then [0xC0 + c / 0x40, 0x80 + c % 0x40]
    else if c < 0x10000 then [0xE0 + c / 0x40 / 0x40, 0x80 + c / 0x40 % 0x40, 0x80 + c % 0x40]
    else [0xF0 + c / 0x40 / 0x40 / 0x40, 0x80 + c / 0x40 / 0x40 % 0x40, 0x80 + c / 0x40 % 0x40, 0x80 + c % 0x40]
  }

  function EncodePoints(cs: seq<CodePoint>): Bytes {
    if cs == [] then [] else EncodePoint(cs[0]) + EncodePoints(cs[1..])
  }

  /** `TextEncoder.encode`: an unpaired surrogate is written as U+FFFD. */
  function Encode(s: Text): Bytes { EncodePoints(Replaced(CodePoints(s))) }

  function Replaced(cs: seq<CodePoint>): seq<CodePoint> {
    if cs == [] then [] else [if IsScalar(cs[0]) then cs[0] else 0xFFFD] + Replaced(cs[1..])
  }

  // ---------------------------------------------------------------- decoding

  predicate IsContinuation(b: int) { 0x80 <= b < 0xC0 }

  datatype Head = Malformed | Head(c: CodePoint, width: nat)

  /** The code point encoded at the head of `bs`; overlong forms, surrogates and values
      beyond U+10FFFF are malformed. */
  function DecodePoint(bs: Bytes): (h: Head)
    requires bs != []
    ensures h.Head? ==> 0 < h.width <= |bs|
  {
    var b: int := bs[0];
    var b1: int := if |bs| > 1 then bs[1] else 0;
    var b2: int := if |bs| > 2 then bs[2] else 0;
    var b3: int := if |bs| > 3 then bs[3] else 0;
    if b < 0x80 then Head(b, 1)
    else if 0xC2 <= b < 0xE0 && IsContinuation(b1) then Head((b - 0xC0) * 0x40 + (b1 - 0x80), 2)
    else if 0xE0 <= b < 0xF0 && IsContinuation(b1) && IsContinuation(b2) then
      var c := ((b - 0xE0) * 0x40 + (b1 - 0x80)) * 0x40 + (b2 - 0x80);
      if c >= 0x800 && IsScalar(c) then Head(c, 3) else Malformed
    else if 0xF0 <= b < 0xF8 && IsContinuation(b1) && IsContinuation(b2) && IsContinuation(b3) then
      var c := (((b - 0xF0) * 0x40 + (b1 - 0x80)) * 0x40 + (b2 - 0x80)) * 0x40 + (b3 - 0x80);
      if 0x10000 <= c < 0x110000 then Head(c, 4) else Malformed
    else Malformed
  }

  function DecodePoints(bs: Bytes): Option<seq<CodePoint>> {
    if bs == [] then Some([])
    else
      match DecodePoint(bs)
      case Malformed => None
      case Head(c, width) =>
        match DecodePoints(bs[width..])
        case None => None
        case Some(cs) => Some([c] + cs)
  }

  /** A fatal `TextDecoder`: None where it throws. One leading byte order mark is dropped. */
  function Decode(bs: Bytes): Option<Text> {
    match DecodePoints(bs)
    case None => None
    case Some(cs) => Some(Units(if cs != [] && cs[0] == 0xFEFF then cs[1..] else cs))
  }

  // ---------------------------------------------------------------- inverses

  lemma DecodeEncodedPoint(c: CodePoint, rest: Bytes)
    requires IsScalar(c)
    ensures DecodePoint(EncodePoint(c) + rest) == Head(c, |EncodePoint(c)|)
  {
    var bs := EncodePoint(c) + rest;
    assert forall i | 0 <= i < |EncodePoint(c)| :: bs[i] == EncodePoint(c)[i];
  }

  lemma EncodeDecodedPoint(bs: Bytes)
    requires bs != [] && DecodePoint(bs).Head?
    ensures var h := DecodePoint(bs); IsScalar(h.c) && EncodePoint(h.c) == bs[..h.width]
  {
    var width := DecodePoint(bs).width;
    var b0: int := bs[0];
    if width == 2 {
      var b1: int := bs[1];
      Regain(b0 - 0xC0, b1 - 0x80);
    } else if width == 3 {
      var b1: int, b2: int := bs[1], bs[2];
      Regain(b0 - 0xE0, b1 - 0x80);
      Regain((b0 - 0xE0) * 0x40 + (b1 - 0x80), b2 - 0x80);
    } else if width == 4 {
      var b1: int, b2: int, b3: int := bs[1], bs[2], bs[3];
      Regain(b0 - 0xF0, b1 - 0x80);
      Regain((b0 - 0xF0) * 0x40 + (b1 - 0x80), b2 - 0x80);
      Regain(((b0 - 0xF0) * 0x40 + (b1 - 0x80)) * 0x40 + (b2 - 0x80), b3 - 0x80);
    }
  }

  lemma Regain(high: int, low: int)
    requires 0 <= low < 0x40
    ensures (high * 0x40 + low) / 0x40 == high && (high * 0x40 + low) % 0x40 == low
  {}

  lemma {:induction false} DecodeEncodedPoints(cs: seq<CodePoint>)
    requires AllScalar(cs)
    ensures DecodePoints(EncodePoints(cs)) == Some(cs)
  {
    if cs != [] {
      var rest := EncodePoints(cs[1..]);
      DecodeEncodedPoint(cs[0], rest);
      DecodeEncodedPoints(cs[1..]);
      assert (EncodePoint(cs[0]) + rest)[|EncodePoint(cs[0])|..] == rest;
      assert cs == [cs[0]] + cs[1..];
    }
  }

  lemma {:induction false} EncodeDecodedPoints(bs: Bytes)
    requires DecodePoints(bs).Some?
    ensures AllScalar(DecodePoints(bs).value) && EncodePoints(DecodePoints(bs).value) == bs
  {
    if bs != [] {
      var c, width, tail := DecodedHead(bs);
      EncodeDecodedPoints(bs[width..]);
      EncodePush(c, tail);
    }
  }

  lemma DecodedHead(bs: Bytes) returns (c: CodePoint, width: nat, tail: seq<CodePoint>)
    requires bs != [] && DecodePoints(bs).Some?
    ensures 0 < width <= |bs| && DecodePoints(bs[width..]) == Some(tail)
    ensures DecodePoints(bs).value == [c] + tail
    ensures IsScalar(c) && bs == EncodePoint(c) + bs[width..]
  {
    EncodeDecodedPoint(bs);
    c, width := DecodePoint(bs).c, DecodePoint(bs).width;
    tail := DecodePoints(bs[width..]).value;
    assert bs == bs[..width] + bs[width..];
  }

  lemma EncodePush(c: CodePoint, cs: seq<CodePoint>)
    requires IsScalar(c) && AllScalar(cs)
    ensures AllScalar([c] + cs) && EncodePoints([c] + cs) == EncodePoint(c) + EncodePoints(cs)
  {
    assert ([c] + cs)[1..] == cs;
  }

  lemma {:induction false} WellFormedHasScalars(s: Text)
    ensures WellFormed(s) <==> AllScalar(CodePoints(s))
  {
    if s != [] {
      var k := if StartsWithPair(s) then 2 else 1;
      WellFormedHasScalars(s[k..]);
      ScalarsPush(CodePoints(s)[0], CodePoints(s[k..]));
    }
  }

  lemma ScalarsPush(c: CodePoint, cs: seq<CodePoint>)
    ensures AllScalar([c] + cs) <==> IsScalar(c) && AllScalar(cs)
  {
    var all := [c] + cs;
    assert forall i | 0 <= i < |cs| :: all[i + 1] == cs[i];
    if AllScalar(all) {
      forall i | 0 <= i < |cs| ensures IsScalar(cs[i]) {
        assert IsScalar(all[i + 1]);
      }
      assert IsScalar(all[0]);
    }
  }

  lemma {:induction false} CodePointsOfUnits(cs: seq<CodePoint>)
    requires AllScalar(cs)
    ensures CodePoints(Units(cs)) == cs
  {
    if cs != [] {
      CodePointsOfUnits(cs[1..]);
      var s := Units(cs);
      var u := UnitsOf(cs[0]);
      assert s[|u|..] == Units(cs[1..]);
      assert s[0] == u[0];
      if |u| == 2 {
        assert s[1] == u[1];
        assert Pair(s[0], s[1]) == cs[0];
      }
    }
  }

  lemma {:induction false} ReplacedScalars(cs: seq<CodePoint>)
    requires AllScalar(cs)
    ensures Replaced(cs) == cs
  {
    if cs != [] {
      ReplacedScalars(cs[1..]);
    }
  }

  /** Decoding the encoding of a well-formed text that does not start with a byte order
      mark gives the text back. */
  lemma DecodeOfEncode(s: Text)
    requires WellFormed(s) && (s == [] || s[0] != 0xFEFF)
    ensures Decode(Encode(s)) == Some(s)
  {
    WellFormedHasScalars(s);
    ReplacedScalars(CodePoints(s));
    DecodeEncodedPoints(CodePoints(s));
    UnitsOfCodePoints(s);
  }

  lemma MarkBytes()
    ensures EncodePoint(0xFEFF) == [0xEF, 0xBB, 0xBF]
  {}

  lemma EncodeMarked(cs: seq<CodePoint>)
    ensures EncodePoints([0xFEFF] + cs) == [0xEF, 0xBB, 0xBF] + EncodePoints(cs)
  {
    hide EncodePoint;
    MarkBytes();
    assert ([0xFEFF] + cs)[1..] == cs;
  }

  /** A byte order mark before the encoding is dropped, and no more than one. */
  lemma DecodeDropsMark(s: Text)
    requires WellFormed(s)
    ensures Decode([0xEF, 0xBB, 0xBF] + Encode(s)) == Some(s)
  {
    hide EncodePoint, EncodePoints, DecodePoint, DecodePoints, WellFormed, CodePoints, Units, Replaced;
    var cs := CodePoints(s);
    WellFormedHasScalars(s);
    ReplacedScalars(cs);
    ScalarsPush(0xFEFF, cs);
    EncodeMarked(cs);
    DecodeEncodedPoints([0xFEFF] + cs);
    UnitsOfCodePoints(s);
    assert ([0xFEFF] + cs)[1..] == cs;
  }

  /** Whatever decodes is the encoding of a well-formed text, up to the byte order mark. */
  lemma EncodeOfDecode(bs: Bytes)
    requires Decode(bs).Some?
    ensures WellFormed(Decode(bs).value)
    ensures bs == Encode(Decode(bs).value) || bs == EncodePoint(0xFEFF) + Encode(Decode(bs).value)
  {
    EncodeDecodedPoints(bs);
    var cs := DecodePoints(bs).value;
    var kept := if cs != [] && cs[0] == 0xFEFF then cs[1..] else cs;
    CodePointsOfUnits(kept);
    WellFormedHasScalars(Units(kept));
    ReplacedScalars(kept);
  }

  /** Distinct well-formed texts have distinct encodings. */
  lemma EncodeInjective(s: Text, t: Text)
    requires WellFormed(s) && WellFormed(t) && Encode(s) == Encode(t)
    ensures s == t
  {
    WellFormedHasScalars(s);
    WellFormedHasScalars(t);
    ReplacedScalars(CodePoints(s));
    ReplacedScalars(CodePoints(t));
    DecodeEncodedPoints(CodePoints(s));
    DecodeEncodedPoints(CodePoints(t));
    CodePointsInjective(s, t);
  }

  // ---------------------------------------------------------------- order

  lemma LexHead(x: int, a: seq<int>, y: int, b: seq<int>)
    ensures Lex([x] + a, [y] + b) == if x < y then -1 else if x > y then 1 else Lex(a, b)
  {
    assert ([x] + a)[1..] == a && ([y] + b)[1..] == b;
  }

  lemma LexFirstDifference(a: seq<int>, b: seq<int>, x: seq<int>, y: seq<int>, i: nat)
    requires i < |a| && i < |b| && a[..i] == b[..i] && a[i] < b[i]
    ensures Lex(a + x, b + y) == -1
  {
    LexSamePrefix(a[..i], a[i..] + x, b[i..] + y);
    LexHead(a[i], a[i + 1..] + x, b[i], b[i + 1..] + y);
    assert a + x == a[..i] + (a[i..] + x) && b + y == b[..i] + (b[i..] + y);
    assert a[i..] + x == [a[i]] + (a[i + 1..] + x) && b[i..] + y == [b[i]] + (b[i + 1..] + y);
  }

  /** Base-64 digits compare from the left. */
  lemma DigitOrder(c: int, d: int)
    requires 0 <= c < d
    ensures c / 0x40 <= d / 0x40
    ensures c / 0x40 == d / 0x40 ==> c % 0x40 < d % 0x40
  {}

  lemma FirstDifference(c: CodePoint, d: CodePoint) returns (i: nat)
    requires c < d
    ensures i < |EncodePoint(c)| && i < |EncodePoint(d)|
    ensures EncodePoint(c)[..i] == EncodePoint(d)[..i] && EncodePoint(c)[i] < EncodePoint(d)[i]
  {
    var a, b := EncodePoint(c), EncodePoint(d);
    DigitOrder(c, d);
    if c / 0x40 < d / 0x40 {
      DigitOrder(c / 0x40, d / 0x40);
      if c / 0x40 / 0x40 < d / 0x40 / 0x40 {
        DigitOrder(c / 0x40 / 0x40, d / 0x40 / 0x40);
      }
    }
    i := if a[0] < b[0] then 0 else if a[1] < b[1] then 1 else if a[2] < b[2] then 2 else 3;
  }

  /** A smaller code point has a smaller encoding, whatever follows. */
  lemma EncodedPointOrder(c: CodePoint, d: CodePoint, x: Bytes, y: Bytes)
    requires c < d
    ensures Lex(EncodePoint(c) + x, EncodePoint(d) + y) == -1
  {
    hide EncodePoint;
    var i := FirstDifference(c, d);
    LexFirstDifference(EncodePoint(c), EncodePoint(d), x, y, i);
  }

  predicate IsTail(b: int) { 0x80 <= b <= 0xBF }

  /** What a byte carries beside its mark. */
  function Bits(b: int, mark: int): int { b - mark }

  /** The four forms (RFC 3629, section 3): the length by the size of the code point, the
      marks on every byte, and the payload bits in order. */
  lemma EncodingForms(c: CodePoint)
    ensures var b := EncodePoint(c);
      if c < 0x80 then b == [c]
      else if c < 0x800 then |b| == 2 && 0xC0 <= b[0] <= 0xDF && IsTail(b[1]) && c == Bits(b[0], 0xC0) * 0x40 + Bits(b[1], 0x80)
      else if c < 0x10000 then
        |b| == 3 && 0xE0 <= b[0] <= 0xEF && IsTail(b[1]) && IsTail(b[2])
        && c == (Bits(b[0], 0xE0) * 0x40 + Bits(b[1], 0x80)) * 0x40 + Bits(b[2], 0x80)
      else
        |b| == 4 && 0xF0 <= b[0] <= 0xF7 && IsTail(b[1]) && IsTail(b[2]) && IsTail(b[3])
        && c == ((Bits(b[0], 0xF0) * 0x40 + Bits(b[1], 0x80)) * 0x40 + Bits(b[2], 0x80)) * 0x40 + Bits(b[3], 0x80)
  {}

  /** Byte order of UTF-8 is code point order (RFC 3629, section 1). */
  lemma {:induction false} EncodingKeepsOrder(a: seq<CodePoint>, b: seq<CodePoint>)
    ensures Lex(EncodePoints(a), EncodePoints(b)) == Lex(a, b)
  {
    if a != [] && b != [] {
      var x, y := EncodePoints(a[1..]), EncodePoints(b[1..]);
      if a[0] == b[0] {
        LexSamePrefix(EncodePoint(a[0]), x, y);
        EncodingKeepsOrder(a[1..], b[1..]);
      } else if a[0] < b[0] {
        EncodedPointOrder(a[0], b[0], x, y);
      } else {
        EncodedPointOrder(b[0], a[0], y, x);
        LexAntisymmetric(EncodePoints(b), EncodePoints(a));
      }
    }
  }

  /** On well-formed texts `compareCodepoints` agrees with byte comparison of the encodings. */
  lemma ByteOrderIsCodePointOrder(s: Text, t: Text)
    requires WellFormed(s) && WellFormed(t)
    ensures Lex(Encode(s), Encode(t)) == Lex(CodePoints(s), CodePoints(t))
  {
    WellFormedHasScalars(s);
    WellFormedHasScalars(t);
    ReplacedScalars(CodePoints(s));
    ReplacedScalars(CodePoints(t));
    EncodingKeepsOrder(CodePoints(s), CodePoints(t));
  }

  /** The byte loop of `compareCanonicalValues`: the first difference, else the lengths. */
  method CompareBytes(left: Bytes, right: Bytes) returns (r: int)
    ensures r < 0 <==> Lex(left, right) < 0
    ensures r == 0 <==> left == right
    ensures r > 0 <==> Lex(left, right) > 0
  {
    var length := if |left| < |right| then |left| else |right|;
    var i := 0;
    while i < length
      invariant 0 <= i <= length
      invariant left[..i] == right[..i]
      invariant Lex(left, right) == Lex(left[i..], right[i..])
    {
      var difference: int := (left[i] as int) - (right[i] as int);
      if difference != 0 {
        LexZero(left, right);
        return difference;
      }
      assert left[i..][1..] == left[i + 1..] && right[i..][1..] == right[i + 1..];
      assert left[..i + 1] == left[..i] + [left[i]] && right[..i + 1] == right[..i] + [right[i]];
      i := i + 1;
    }
    LexZero(left, right);
    assert left[..i] == right[..i];
    return |left| - |right|;
  }
}
