/** Text as the source sees it: sequences of UTF-16 code units, their code points,
    and the two total orders the repository sorts object keys by. */
module Text {

  type CodeUnit = n: int | 0 <= n < 0x10000
  type Text = seq<CodeUnit>

  datatype Option<+T> = None | Some(value: T)

  predicate IsHigh(u: int) { 0xD800 <= u <= 0xDBFF }
  predicate IsLow(u: int) { 0xDC00 <= u <= 0xDFFF }

  /** Every high surrogate is followed by a low one, and no low one stands alone. */
  predicate WellFormed(s: Text)
  {
    if s == [] then true
    else if IsHigh(s[0]) then |s| > 1 && IsLow(s[1]) && WellFormed(s[2..])
    else !IsLow(s[0]) && WellFormed(s[1..])
  }

  predicate NoSurrogates(s: Text) {
    forall u <- s :: !IsHigh(u) && !IsLow(u)
  }

  /** The check made on every string before it is printed and after it is parsed. */
  method CheckWellFormed(s: Text) returns (ok: bool)
    ensures ok == WellFormed(s)
  {
    var i := 0;
    while i < |s|
      invariant 0 <= i <= |s|
      invariant WellFormed(s) == WellFormed(s[i..])
    {
      var code := s[i];
      if IsHigh(code) {
        if !(i + 1 < |s| && IsLow(s[i + 1])) {
          return false;
        }
        assert s[i..][2..] == s[i + 2..];
        i := i + 2;
      } else {
        if IsLow(code) {
          return false;
        }
        assert s[i..][1..] == s[i + 1..];
        i := i + 1;
      }
    }
    assert s[i..] == [];
    ok := true;
  }

  lemma {:induction false} WellFormedConcat(a: Text, b: Text)
    requires WellFormed(a)
    ensures WellFormed(a + b) == WellFormed(b)
  {
    if a == [] {
      assert a + b == b;
    } else {
      var step := if IsHigh(a[0]) then 2 else 1;
      assert (a + b)[step..] == a[step..] + b;
      WellFormedConcat(a[step..], b);
    }
  }

  lemma {:induction false} WithoutSurrogatesIsWellFormed(s: Text)
    requires NoSurrogates(s)
    ensures WellFormed(s)
  {
    if s != [] {
      WithoutSurrogatesIsWellFormed(s[1..]);
    }
  }

  // ---------------------------------------------------------------- code points

  type CodePoint = n: int | 0 <= n < 0x110000

  function Pair(high: int, low: int): (c: CodePoint)
    requires IsHigh(high) && IsLow(low)
    ensures c >= 0x10000
  {
    0x10000 + (high - 0xD800) * 0x400 + (low - 0xDC00)
  }

  predicate StartsWithPair(s: Text) { |s| > 1 && IsHigh(s[0]) && IsLow(s[1]) }

  /** String iteration: a surrogate pair yields one code point, any other unit itself. */
  function CodePoints(s: Text): seq<CodePoint> {
    if s == [] then []
    else if StartsWithPair(s) then [Pair(s[0], s[1])] + CodePoints(s[2..])
    else [s[0] as CodePoint] + CodePoints(s[1..])
  }

  function UnitsOf(c: CodePoint): Text {
    if c < 0x10000 then [c]
    else [0xD800 + (c - 0x10000) / 0x400, 0xDC00 + (c - 0x10000) % 0x400]
  }

  function Units(cs: seq<CodePoint>): Text {
    if cs == [] then [] else UnitsOf(cs[0]) + Units(cs[1..])
  }

  lemma {:induction false} UnitsOfCodePoints(s: Text)
    ensures Units(CodePoints(s)) == s
  {
    if s == [] {
    } else if StartsWithPair(s) {
      UnitsOfCodePoints(s[2..]);
      assert CodePoints(s)[1..] == CodePoints(s[2..]);
      assert UnitsOf(Pair(s[0], s[1])) == s[..2];
    } else {
      UnitsOfCodePoints(s[1..]);
      assert CodePoints(s)[1..] == CodePoints(s[1..]);
    }
  }

  /** No two texts, ill-formed ones included, have the same code points. */
  lemma CodePointsInjective(a: Text, b: Text)
    requires CodePoints(a) == CodePoints(b)
    ensures a == b
  {
    UnitsOfCodePoints(a);
    UnitsOfCodePoints(b);
  }

  lemma {:induction false} CodePointsWithoutSurrogates(s: Text)
    requires NoSurrogates(s)
    ensures CodePoints(s) == s
  {
    if s != [] {
      CodePointsWithoutSurrogates(s[1..]);
    }
  }

  // ---------------------------------------------------------------- lexicographic order

  /** Three-way lexicographic comparison. */
  function Lex(a: seq<int>, b: seq<int>): int {
    if a == [] && b == [] then 0
    else if a == [] then -1
    else if b == [] then 1
    else if a[0] != b[0] then if a[0] < b[0] then -1 else 1
    else Lex(a[1..], b[1..])
  }

  lemma {:induction false} LexZero(a: seq<int>, b: seq<int>)
    ensures Lex(a, b) == 0 <==> a == b
  {
    if a != [] && b != [] && a[0] == b[0] {
      LexZero(a[1..], b[1..]);
      assert a == [a[0]] + a[1..] && b == [b[0]] + b[1..];
    }
  }

  /** `i` is the first place where the two differ: the one ends there, or has the smaller
      element. */
  predicate PartsAt(a: seq<int>, b: seq<int>, i: nat)
    requires i <= |a| && i < |b|
  {
    (forall j | 0 <= j < i :: a[j] == b[j]) && (i < |a| ==> a[i] < b[i])
  }

  predicate ComesBefore(a: seq<int>, b: seq<int>) { exists i | 0 <= i <= |a| && i < |b| :: PartsAt(a, b, i) }

  /** The comparison is negative exactly where the first sequence comes first: at the first
      place where they differ it has the smaller element, or has ended. */
  lemma {:induction false} LexExactly(a: seq<int>, b: seq<int>)
    ensures Lex(a, b) < 0 <==> ComesBefore(a, b)
    ensures Lex(a, b) > 0 <==> ComesBefore(b, a)
    decreases |a|
  {
    if a == [] || b == [] || a[0] != b[0] {
      assert b != [] && (a == [] || a[0] < b[0]) ==> PartsAt(a, b, 0);
      assert a != [] && (b == [] || b[0] < a[0]) ==> PartsAt(b, a, 0);
    } else {
      LexExactly(a[1..], b[1..]);
      ComesBeforeTail(a, b);
      ComesBeforeTail(b, a);
    }
  }

  lemma ComesBeforeTail(a: seq<int>, b: seq<int>)
    requires a != [] && b != [] && a[0] == b[0]
    ensures ComesBefore(a, b) <==> ComesBefore(a[1..], b[1..])
  {
    if i: nat :| i <= |a| && i < |b| && PartsAt(a, b, i) {
      assert i > 0 && PartsAt(a[1..], b[1..], i - 1);
    }
    if i: nat :| i <= |a[1..]| && i < |b[1..]| && PartsAt(a[1..], b[1..], i) {
      assert PartsAt(a, b, i + 1);
    }
  }

  lemma {:induction false} LexAntisymmetric(a: seq<int>, b: seq<int>)
    ensures Lex(b, a) == -Lex(a, b)
  {
    if a != [] && b != [] && a[0] == b[0] {
      LexAntisymmetric(a[1..], b[1..]);
    }
  }

  lemma {:induction false} LexTransitive(a: seq<int>, b: seq<int>, c: seq<int>)
    requires Lex(a, b) <= 0 && Lex(b, c) <= 0
    ensures Lex(a, c) <= 0
    ensures Lex(a, b) < 0 || Lex(b, c) < 0 ==> Lex(a, c) < 0
  {
    if a != [] && b != [] && c != [] && a[0] == b[0] && b[0] == c[0] {
      LexTransitive(a[1..], b[1..], c[1..]);
    }
  }

  lemma {:induction false} LexSamePrefix(p: seq<int>, a: seq<int>, b: seq<int>)
    ensures Lex(p + a, p + b) == Lex(a, b)
  {
    if p == [] {
      assert p + a == a && p + b == b;
    } else {
      assert (p + a)[1..] == p[1..] + a && (p + b)[1..] == p[1..] + b;
      LexSamePrefix(p[1..], a, b);
    }
  }

  // ---------------------------------------------------------------- key orders

  /** Transition sorts keys by code unit, YOps by code point. */
  datatype KeyOrder = ByCodeUnit | ByCodePoint

  function SortKey(o: KeyOrder, s: Text): seq<int> {
    match o
    case ByCodeUnit => s
    case ByCodePoint => CodePoints(s)
  }

  predicate Before(o: KeyOrder, a: Text, b: Text) {
    Lex(SortKey(o, a), SortKey(o, b)) < 0
  }

  lemma BeforeTotal(o: KeyOrder, a: Text, b: Text)
    ensures !(Before(o, a, b) && Before(o, b, a))
    ensures Before(o, a, b) || Before(o, b, a) || a == b
    ensures !Before(o, a, a)
  {
    LexAntisymmetric(SortKey(o, a), SortKey(o, b));
    LexZero(SortKey(o, a), SortKey(o, b));
    LexZero(SortKey(o, a), SortKey(o, a));
    if SortKey(o, a) == SortKey(o, b) && o == ByCodePoint {
      CodePointsInjective(a, b);
    }
  }

  lemma BeforeTransitive(o: KeyOrder, a: Text, b: Text, c: Text)
    requires Before(o, a, b) && Before(o, b, c)
    ensures Before(o, a, c)
  {
    LexTransitive(SortKey(o, a), SortKey(o, b), SortKey(o, c));
  }

  /** `compareCodepoints`: two string iterators advanced in step. */
  method CompareCodepoints(a: Text, b: Text) returns (r: int)
    ensures r == Lex(CodePoints(a), CodePoints(b))
  {
    var i, j := 0, 0;
    while true
      invariant 0 <= i <= |a| && 0 <= j <= |b|
      invariant Lex(CodePoints(a), CodePoints(b)) == Lex(CodePoints(a[i..]), CodePoints(b[j..]))
      decreases |a| - i
    {
      if i == |a| && j == |b| {
        return 0;
      }
      if i == |a| {
        return -1;
      }
      if j == |b| {
        return 1;
      }
      var ac, iNext := NextCodePoint(a, i);
      var bc, jNext := NextCodePoint(b, j);
      if ac != bc {
        return if ac < bc then -1 else 1;
      }
      assert CodePoints(a[i..])[1..] == CodePoints(a[iNext..]);
      assert CodePoints(b[j..])[1..] == CodePoints(b[jNext..]);
      i, j := iNext, jNext;
    }
  }

  method NextCodePoint(s: Text, i: nat) returns (c: CodePoint, next: nat)
    requires i < |s|
    ensures i < next <= |s|
    ensures CodePoints(s[i..]) == [c] + CodePoints(s[next..])
  {
    if i + 1 < |s| && IsHigh(s[i]) && IsLow(s[i + 1]) {
      assert s[i..][2..] == s[i + 2..];
      return Pair(s[i], s[i + 1]), i + 2;
    }
    assert s[i..][1..] == s[i + 1..];
    return s[i], i + 1;
  }

  /** `compareCodepoints` is a total order, and two strings tie only when they are
      the same string, unpaired surrogates included. */
  lemma CompareCodepointsIsATotalOrder(a: Text, b: Text, c: Text)
    ensures Lex(CodePoints(a), CodePoints(b)) == 0 <==> a == b
    ensures Lex(CodePoints(b), CodePoints(a)) == -Lex(CodePoints(a), CodePoints(b))
    ensures Lex(CodePoints(a), CodePoints(b)) <= 0 && Lex(CodePoints(b), CodePoints(c)) <= 0
            ==> Lex(CodePoints(a), CodePoints(c)) <= 0
  {
    LexZero(CodePoints(a), CodePoints(b));
    if CodePoints(a) == CodePoints(b) {
      CodePointsInjective(a, b);
    }
    LexAntisymmetric(CodePoints(a), CodePoints(b));
    if Lex(CodePoints(a), CodePoints(b)) <= 0 && Lex(CodePoints(b), CodePoints(c)) <= 0 {
      LexTransitive(CodePoints(a), CodePoints(b), CodePoints(c));
    }
  }

  // ---------------------------------------------------------------- sorted key lists

  predicate StrictlySorted(o: KeyOrder, ks: seq<Text>) {
    forall i, j | 0 <= i < j < |ks| :: Before(o, ks[i], ks[j])
  }

  predicate IsLeast(o: KeyOrder, s: set<Text>, x: Text) {
    x in s && forall k <- s :: k != x ==> Before(o, x, k)
  }

  lemma {:induction false} LeastExists(o: KeyOrder, s: set<Text>) returns (least: Text)
    requires s != {}
    ensures IsLeast(o, s, least)
  {
    var x :| x in s;
    if s == {x} {
      return x;
    }
    var y := LeastExists(o, s - {x});
    BeforeTotal(o, x, y);
    if Before(o, x, y) {
      forall k | k in s && k != x ensures Before(o, x, k) {
        if k != y {
          BeforeTransitive(o, x, y, k);
        }
      }
      return x;
    }
    return y;
  }

  lemma LeastUnique(o: KeyOrder, s: set<Text>, x: Text, y: Text)
    requires IsLeast(o, s, x) && IsLeast(o, s, y)
    ensures x == y
  {
    BeforeTotal(o, x, y);
  }

  function Least(o: KeyOrder, s: set<Text>): (least: Text)
    requires s != {}
    ensures IsLeast(o, s, least)
  {
    assert exists x :: IsLeast(o, s, x) by {
      var x := LeastExists(o, s);
    }
    assert forall x, y | IsLeast(o, s, x) && IsLeast(o, s, y) :: x == y by {
      forall x, y | IsLeast(o, s, x) && IsLeast(o, s, y) ensures x == y { LeastUnique(o, s, x, y); }
    }
    var x :| IsLeast(o, s, x);
    x
  }

  lemma NothingSorted(o: KeyOrder)
    ensures StrictlySorted(o, [])
  {}

  lemma LeastIsMember(o: KeyOrder, s: set<Text>, least: Text)
    requires IsLeast(o, s, least)
    ensures least in s
  {}

  lemma LeastFirst(o: KeyOrder, s: set<Text>, least: Text, rest: seq<Text>)
    requires IsLeast(o, s, least) && StrictlySorted(o, rest)
    requires forall k :: k in rest <==> k in s - {least}
    ensures StrictlySorted(o, [least] + rest)
    ensures forall k :: k in [least] + rest <==> k in s
  {
    hide Before;
    forall i | 0 <= i < |rest| ensures rest[i] in s && rest[i] != least {
      assert rest[i] in rest;
    }
  }

  /** `Object.keys(record).sort()`: the members of `s` in ascending order. */
  function SortedKeys(o: KeyOrder, s: set<Text>): (ks: seq<Text>)
    ensures forall k :: k in ks <==> k in s
    ensures |ks| == |s|
    ensures StrictlySorted(o, ks)
  {
    hide IsLeast, StrictlySorted, Least;
    if s == {} then
      NothingSorted(o);
      []
    else
      var least := Least(o, s);
      LeastIsMember(o, s, least);
      var rest := SortedKeys(o, s - {least});
      LeastFirst(o, s, least, rest);
      [least] + rest
  }

  /** A set has exactly one strictly ascending listing. */
  lemma {:induction false} SortedListingUnique(o: KeyOrder, a: seq<Text>, b: seq<Text>)
    requires StrictlySorted(o, a) && StrictlySorted(o, b)
    requires forall k :: k in a <==> k in b
    ensures a == b
  {
    if a != [] { assert a[0] in a; }
    if b != [] { assert b[0] in b; }
    if a != [] && b != [] {
      if a[0] != b[0] {
        assert a[0] in b && b[0] in a;
        BeforeTotal(o, a[0], b[0]);
        assert false;
      }
      forall k ensures k in a[1..] <==> k in b[1..] {
        BeforeTotal(o, a[0], a[0]);
        if k in a[1..] { assert k in a && Before(o, a[0], k); assert k in b; }
        if k in b[1..] { assert k in b && Before(o, b[0], k); assert k in a; }
      }
      SortedListingUnique(o, a[1..], b[1..]);
    }
  }
}
