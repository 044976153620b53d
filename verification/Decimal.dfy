/** Decimal printing and reading of natural numbers, and a number codec built on them. */
module Decimal {
  import opened Text
  import opened Values
  import opened Grammar

  /** The decimal digits of `n`, without leading zeros. */
  function Digits(n: nat): (d: Text)
    ensures d != [] && AllDigits(d)
    ensures d[0] == 0x30 ==> |d| == 1
  {
    if n < 10 then [0x30 + n] else Digits(n / 10) + [0x30 + n % 10]
  }

  /** The number a digit string denotes, leading zeros allowed. */
  function Natural(d: Text): nat
    requires AllDigits(d)
  {
    if d == [] then 0 else Natural(d[..|d| - 1]) * 10 + (d[|d| - 1] - 0x30)
  }

  lemma {:induction false} NaturalOfDigits(n: nat)
    ensures Natural(Digits(n)) == n
  {
    if n >= 10 {
      NaturalOfDigits(n / 10);
      assert Digits(n)[..|Digits(n)| - 1] == Digits(n / 10);
    } else {
      assert Digits(n)[..0] == [];
    }
  }

  /** 2^53 - 1 */
  const MAX_SAFE_INTEGER: nat := 9007199254740991

  predicate SafeInteger(r: real) {
    r == r.Floor as real && -(MAX_SAFE_INTEGER as real) <= r <= MAX_SAFE_INTEGER as real
  }

  function ShowInteger(r: real): Text {
    if r.Floor < 0 then [0x2D] + Digits(-r.Floor) else Digits(r.Floor)
  }

  function ReadInteger(s: Text): Option<real> {
    var neg := s != [] && s[0] == 0x2D;
    var d := if neg then s[1..] else s;
    if AllDigits(d) && Natural(d) <= MAX_SAFE_INTEGER then
      Some(if neg then -(Natural(d) as real) else Natural(d) as real)
    else None
  }

  /** Number printing and reading restricted to the safe integers. */
  function IntegerCodec(): NumberCodec {
    NumberCodec(SafeInteger, ShowInteger, ReadInteger)
  }

  lemma ShownIntegerIsANumber(r: real)
    ensures IsNumberText(ShowInteger(r))
  {
    var m := if r.Floor < 0 then -r.Floor else r.Floor;
    var n := Number(r.Floor < 0, Digits(m), [], NoExponent);
    assert TailText(n) == [];
    assert UnsignedText(n) == Digits(m);
    assert NumberText(n) == ShowInteger(r);
  }

  lemma ReadShownInteger(r: real)
    requires SafeInteger(r)
    ensures ReadInteger(ShowInteger(r)) == Some(r)
  {
    var m := if r.Floor < 0 then -r.Floor else r.Floor;
    NaturalOfDigits(m);
    assert m as real == if r.Floor < 0 then -r else r;
    assert m <= MAX_SAFE_INTEGER;
    if r.Floor < 0 {
      assert ShowInteger(r)[1..] == Digits(m);
    } else {
      assert ShowInteger(r)[0] == Digits(m)[0] && IsDigit(Digits(m)[0]);
    }
  }

  lemma ReadIntegerIsSafe(s: Text)
    requires ReadInteger(s).Some?
    ensures SafeInteger(ReadInteger(s).value)
  {
    var neg := s != [] && s[0] == 0x2D;
    var n: int := Natural(if neg then s[1..] else s);
    assert (n as real).Floor == n && ((-n) as real).Floor == -n;
    assert -(n as real) == (-n) as real;
  }

  /** The codec laws hold of decimal integers, so they ask for nothing impossible. */
  lemma IntegerCodecIsLawful()
    ensures Lawful(IntegerCodec())
  {
    var c := IntegerCodec();
    forall r | c.dom(r) ensures IsNumberText(c.show(r)) && c.read(c.show(r)) == Some(r) {
      ShownIntegerIsANumber(r);
      ReadShownInteger(r);
    }
    forall s: Text | c.read(s).Some? ensures c.dom(c.read(s).value) {
      ReadIntegerIsSafe(s);
    }
  }
}
