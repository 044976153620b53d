/** YOps paths: the strict parser, the permissive one, and the printer. */
module YPath {
  import opened Text
  import opened Grammar
  import opened Decimal

  datatype Segment =
    | Key(value: Text)
    | Index(n: nat)
    | Match(key: Text, expected: Text)

  datatype PathError = UnclosedQuote | InvalidEscape | InvalidIndexSyntax | InvalidMatchSyntax | IndexOutOfRange

  datatype ParseResult = PathOk(segments: seq<Segment>) | PathFailed(code: PathError)

  const SLASH: CodeUnit := 0x2F
  const QUOTE: CodeUnit := 0x22
  const BACKSLASH: CodeUnit := 0x5C
  const LEFT: CodeUnit := 0x5B
  const RIGHT: CodeUnit := 0x5D
  const EQUALS: CodeUnit := 0x3D

  // ---------------------------------------------------------------- one raw segment

  /** Units before the first `u`, all of them if there is none. */
  function Until(u: CodeUnit, s: Text): (n: nat)
    ensures n <= |s| && (n < |s| ==> s[n] == u)
    ensures forall i | 0 <= i < n :: s[i] != u
  {
    if s == [] || s[0] == u then 0 else 1 + Until(u, s[1..])
  }

  predicate Lacks(s: Text, u: CodeUnit) { forall i | 0 <= i < |s| :: s[i] != u }

  function Inside(raw: Text): Text
    requires |raw| >= 2
  {
    raw[1..|raw| - 1]
  }

  predicate Bracketed(raw: Text) { |raw| >= 2 && raw[0] == LEFT && raw[|raw| - 1] == RIGHT }

  /** ^\[(\d+)\]$ */
  predicate LooksLikeIndex(raw: Text) {
    Bracketed(raw) && Inside(raw) != [] && AllDigits(Inside(raw))
  }

  /** ^\[([^=\]]+)=([^\]]*)\]$ */
  predicate LooksLikeMatch(raw: Text) {
    Bracketed(raw) && Lacks(Inside(raw), RIGHT) && 0 < Until(EQUALS, Inside(raw)) < |Inside(raw)|
  }

  function MatchOf(raw: Text): Segment
    requires LooksLikeMatch(raw)
  {
    var body := Inside(raw);
    Match(body[..Until(EQUALS, body)], body[Until(EQUALS, body) + 1..])
  }

  /** `classifyStrictRawSegment` */
  function ClassifyStrict(raw: Text): ParseResult {
    if raw == [] || raw[0] != LEFT then PathOk([Key(raw)])
    else if LooksLikeIndex(raw) then
      if Natural(Inside(raw)) <= MAX_SAFE_INTEGER then PathOk([Index(Natural(Inside(raw)))])
      else PathFailed(IndexOutOfRange)
    else if LooksLikeMatch(raw) then PathOk([MatchOf(raw)])
    else if Until(EQUALS, raw) < |raw| then PathFailed(InvalidMatchSyntax)
    else PathFailed(InvalidIndexSyntax)
  }

  /** `classifyRawSegment`; `round` is what `parseInt` makes of an integer beyond the safe range. */
  function ClassifyLoose(round: nat -> nat, raw: Text): Segment {
    if LooksLikeIndex(raw) then
      var n := Natural(Inside(raw));
      Index(if n <= MAX_SAFE_INTEGER then n else round(n))
    else if LooksLikeMatch(raw) then MatchOf(raw)
    else Key(raw)
  }

  // ---------------------------------------------------------------- the strict parser

  datatype Quoted = QuotedOk(value: Text, rest: Text) | QuotedFailed(code: PathError)

  /** From just after an opening quote; `value` is decoded so far. */
  function ReadQuoted(s: Text, value: Text): (q: Quoted)
    ensures q.QuotedOk? ==> |q.rest| < |s|
  {
    if s == [] then QuotedFailed(UnclosedQuote)
    else if s[0] == BACKSLASH then
      if |s| < 2 then QuotedFailed(InvalidEscape)
      else if s[1] == QUOTE || s[1] == BACKSLASH then ReadQuoted(s[2..], value + [s[1]])
      else QuotedFailed(InvalidEscape)
    else if s[0] == QUOTE then QuotedOk(value, s[1..])
    else ReadQuoted(s[1..], value + [s[0]])
  }

  /** The segment loop, at the start of a segment, with the segments read so far. */
  function ReadSegments(s: Text, sofar: seq<Segment>): ParseResult
    decreases |s|, 1
  {
    if s == [] then PathOk(sofar + [Key([])])
    else if s[0] == QUOTE then
      match ReadQuoted(s[1..], [])
      case QuotedFailed(code) => PathFailed(code)
      case QuotedOk(value, rest) => AfterSegment(rest, sofar, Key(value))
    else
      var n := Until(SLASH, s);
      match ClassifyStrict(s[..n])
      case PathFailed(code) => PathFailed(code)
      case PathOk(segments) =>
        if n == |s| then PathOk(sofar + segments) else ReadSegments(s[n + 1..], sofar + segments)
  }

  /** After a quoted segment: a separator, the end, or text that is glued to the key. Glued
      text that ends the path leaves the loop at the end of input once more, where an empty
      key is pushed. */
  function AfterSegment(s: Text, sofar: seq<Segment>, last: Segment): ParseResult
    requires last.Key?
    decreases |s|, 0
  {
    if s == [] then PathOk(sofar + [last])
    else
      var n := Until(SLASH, s);
      var glued := Key(last.value + s[..n]);
      if n == |s| then PathOk(sofar + [glued] + [Key([])])
      else ReadSegments(s[n + 1..], sofar + [glued])
  }

  /** `tryParsePath` */
  function TryParse(path: Text): ParseResult {
    if path == [] then PathOk([]) else ReadSegments(path, [])
  }

  // ---------------------------------------------------------------- the permissive parser

  /** `path.split('/')` */
  function Split(path: Text): (pieces: seq<Text>)
    ensures pieces != []
  {
    var n := Until(SLASH, path);
    if n == |path| then [path] else [path[..n]] + Split(path[n + 1..])
  }

  function Legacy(round: nat -> nat, pieces: seq<Text>): seq<Segment> {
    if pieces == [] then [] else [ClassifyLoose(round, pieces[0])] + Legacy(round, pieces[1..])
  }

  /** `parsePath` */
  function Parse(round: nat -> nat, path: Text): seq<Segment> {
    match TryParse(path)
    case PathOk(segments) => segments
    case PathFailed(_) => Legacy(round, Split(path))
  }

  // ---------------------------------------------------------------- the printer

  predicate Reserved(u: CodeUnit) {
    u == SLASH || u == QUOTE || u == BACKSLASH || u == LEFT || u == RIGHT || u == EQUALS
  }

  predicate PlainKey(k: Text) { k != [] && forall i | 0 <= i < |k| :: !Reserved(k[i]) }

  /** Backslashes doubled, then quotes escaped. */
  function EscapeKey(k: Text): Text {
    if k == [] then []
    else (if k[0] == QUOTE || k[0] == BACKSLASH then [BACKSLASH, k[0]] else [k[0]]) + EscapeKey(k[1..])
  }

  /** `formatPathSegment` */
  function FormatSegment(seg: Segment): Text {
    match seg
    case Index(n) => [LEFT] + Digits(n) + [RIGHT]
    case Match(k, v) => [LEFT] + (k + [EQUALS] + v) + [RIGHT]
    case Key(k) => if PlainKey(k) then k else [QUOTE] + (EscapeKey(k) + [QUOTE])
  }

  /** `formatPathSegments` */
  function Format(segments: seq<Segment>): Text {
    if segments == [] then []
    else if |segments| == 1 then FormatSegment(segments[0])
    else FormatSegment(segments[0]) + ([SLASH] + Format(segments[1..]))
  }

  // ---------------------------------------------------------------- round trip

  /** The segments a parse can produce: safe indices, and matches whose key and value
      could stand between the brackets. */
  predicate Printable(seg: Segment) {
    match seg
    case Key(_) => true
    case Index(n) => n <= MAX_SAFE_INTEGER
    case Match(k, v) =>
      && k != [] && Lacks(k, EQUALS) && Lacks(k, RIGHT) && Lacks(k, SLASH)
      && Lacks(v, RIGHT) && Lacks(v, SLASH)
  }

  predicate AllPrintable(segments: seq<Segment>) { forall i | 0 <= i < |segments| :: Printable(segments[i]) }

  lemma {:induction false} UntilAt(u: CodeUnit, a: Text, b: Text)
    requires Lacks(a, u) && (b != [] ==> b[0] == u)
    ensures Until(u, a + b) == |a|
  {
    if a == [] {
      assert a + b == b;
    } else {
      assert (a + b)[1..] == a[1..] + b;
      UntilAt(u, a[1..], b);
    }
  }

  lemma {:induction false} ReadEscaped(k: Text, rest: Text, value: Text)
    ensures ReadQuoted(EscapeKey(k) + ([QUOTE] + rest), value) == QuotedOk(value + k, rest)
  {
    var s := EscapeKey(k) + ([QUOTE] + rest);
    if k == [] {
      assert s == [QUOTE] + rest && value + k == value;
    } else {
      var tail := EscapeKey(k[1..]) + ([QUOTE] + rest);
      var head := if k[0] == QUOTE || k[0] == BACKSLASH then [BACKSLASH, k[0]] else [k[0]];
      assert s == head + tail;
      assert s[|head|..] == tail;
      ReadEscaped(k[1..], rest, value + [k[0]]);
      assert value + [k[0]] + k[1..] == value + k;
    }
  }

  lemma ClassifyIndex(n: nat)
    requires n <= MAX_SAFE_INTEGER
    ensures var raw := FormatSegment(Index(n)); ClassifyStrict(raw) == PathOk([Index(n)]) && Lacks(raw, SLASH)
  {
    hide Natural, Digits, LooksLikeMatch, Until;
    var raw := FormatSegment(Index(n));
    assert Inside(raw) == Digits(n);
    NaturalOfDigits(n);
    assert forall i | 0 <= i < |Digits(n)| :: raw[i + 1] == Digits(n)[i];
    assert forall i | 0 < i < |raw| - 1 :: raw[i] == Digits(n)[i - 1] && IsDigit(Digits(n)[i - 1]);
  }

  lemma ClassifyMatch(k: Text, v: Text)
    requires Printable(Match(k, v))
    ensures var raw := FormatSegment(Match(k, v)); ClassifyStrict(raw) == PathOk([Match(k, v)]) && Lacks(raw, SLASH)
  {
    var raw := FormatSegment(Match(k, v));
    var body := k + [EQUALS] + v;
    assert Inside(raw) == body;
    assert body == k + ([EQUALS] + v);
    UntilAt(EQUALS, k, [EQUALS] + v);
    assert body[..|k|] == k && body[|k| + 1..] == v;
    assert body[|k|] == EQUALS && !IsDigit(EQUALS);
    assert Lacks(body, RIGHT) && Lacks(body, SLASH);
    assert forall i | 0 < i < |raw| - 1 :: raw[i] == body[i - 1];
  }

  lemma ReadQuotedKey(k: Text, rest: Text, sofar: seq<Segment>)
    requires rest != [] ==> rest[0] == SLASH
    ensures ReadSegments([QUOTE] + (EscapeKey(k) + ([QUOTE] + rest)), sofar) ==
      if rest == [] then PathOk(sofar + [Key(k)]) else ReadSegments(rest[1..], sofar + [Key(k)])
  {
    var body := EscapeKey(k) + ([QUOTE] + rest);
    assert ([QUOTE] + body)[1..] == body;
    ReadEscaped(k, rest, []);
    assert [] + k == k;
    if rest != [] {
      assert Until(SLASH, rest) == 0 && k + rest[..0] == k;
    }
  }

  lemma ReadRawSegment(raw: Text, seg: Segment, rest: Text, sofar: seq<Segment>)
    requires rest != [] ==> rest[0] == SLASH
    requires raw != [] && raw[0] != QUOTE && Lacks(raw, SLASH) && ClassifyStrict(raw) == PathOk([seg])
    ensures ReadSegments(raw + rest, sofar) ==
      if rest == [] then PathOk(sofar + [seg]) else ReadSegments(rest[1..], sofar + [seg])
  {
    var s := raw + rest;
    UntilAt(SLASH, raw, rest);
    assert s[0] == raw[0];
    assert s[..|raw|] == raw;
    assert rest != [] ==> s[|raw| + 1..] == rest[1..];
  }

  /** One printed segment is read back, whether or not more follow. */
  lemma ReadPrintedSegment(seg: Segment, rest: Text, sofar: seq<Segment>)
    requires Printable(seg) && (rest != [] ==> rest[0] == SLASH)
    ensures ReadSegments(FormatSegment(seg) + rest, sofar) ==
      if rest == [] then PathOk(sofar + [seg]) else ReadSegments(rest[1..], sofar + [seg])
  {
    if seg.Key? {
      ReadPrintedKey(seg.value, rest, sofar);
    } else {
      ReadBracketed(seg, rest, sofar);
    }
  }

  lemma ReadBracketed(seg: Segment, rest: Text, sofar: seq<Segment>)
    requires !seg.Key? && Printable(seg) && (rest != [] ==> rest[0] == SLASH)
    ensures ReadSegments(FormatSegment(seg) + rest, sofar) ==
      if rest == [] then PathOk(sofar + [seg]) else ReadSegments(rest[1..], sofar + [seg])
  {
    hide ReadSegments;
    if seg.Index? {
      ClassifyIndex(seg.n);
    } else {
      ClassifyMatch(seg.key, seg.expected);
    }
    ReadRawSegment(FormatSegment(seg), seg, rest, sofar);
  }

  lemma ReadPrintedKey(k: Text, rest: Text, sofar: seq<Segment>)
    requires rest != [] ==> rest[0] == SLASH
    ensures ReadSegments(FormatSegment(Key(k)) + rest, sofar) ==
      if rest == [] then PathOk(sofar + [Key(k)]) else ReadSegments(rest[1..], sofar + [Key(k)])
  {
    if PlainKey(k) {
      hide ReadSegments;
      PlainIsKey(k);
      ReadRawSegment(k, Key(k), rest, sofar);
    } else {
      hide ReadSegments, EscapeKey, PlainKey;
      ReadQuotedKey(k, rest, sofar);
      QuotedAround(EscapeKey(k), rest);
    }
  }

  lemma PlainIsKey(k: Text)
    requires PlainKey(k)
    ensures Lacks(k, SLASH) && k[0] != QUOTE && ClassifyStrict(k) == PathOk([Key(k)])
  {}

  lemma QuotedAround(body: Text, rest: Text)
    ensures ([QUOTE] + (body + [QUOTE])) + rest == [QUOTE] + (body + ([QUOTE] + rest))
  {}

  lemma FormatSegmentNonEmpty(seg: Segment)
    ensures FormatSegment(seg) != []
  {}

  lemma FormatCons(seg: Segment, more: seq<Segment>)
    ensures Format([seg] + more) == FormatSegment(seg) + if more == [] then [] else [SLASH] + Format(more)
  {
    assert ([seg] + more)[1..] == more;
    if more == [] {
      assert FormatSegment(seg) + [] == FormatSegment(seg);
    }
  }

  lemma {:induction false} ReadPrinted(seg: Segment, more: seq<Segment>, sofar: seq<Segment>)
    requires Printable(seg) && AllPrintable(more)
    ensures ReadSegments(Format([seg] + more), sofar) == PathOk(sofar + ([seg] + more))
    decreases |more|
  {
    FormatCons(seg, more);
    var rest := if more == [] then [] else [SLASH] + Format(more);
    ReadPrintedSegment(seg, rest, sofar);
    if more == [] {
      assert [seg] + more == [seg];
    } else {
      assert rest[1..] == Format(more);
      ReadPrinted(more[0], more[1..], sofar + [seg]);
      assert [more[0]] + more[1..] == more;
      assert sofar + [seg] + more == sofar + ([seg] + more);
    }
  }

  lemma {:induction false} FormatNonEmpty(segments: seq<Segment>)
    requires segments != []
    ensures Format(segments) != []
  {
    FormatSegmentNonEmpty(segments[0]);
  }

  /** Every list of printable segments is what its printed path parses to. */
  lemma ParseOfFormat(segments: seq<Segment>)
    requires AllPrintable(segments)
    ensures TryParse(Format(segments)) == PathOk(segments)
  {
    if segments != [] {
      ReadPrinted(segments[0], segments[1..], []);
      FormatNonEmpty(segments);
      assert [segments[0]] + segments[1..] == segments;
      assert [] + segments == segments;
    }
  }

  // ---------------------------------------------------------------- what a parse yields

  lemma ClassifiedIsPrintable(raw: Text)
    requires Lacks(raw, SLASH) && ClassifyStrict(raw).PathOk?
    ensures AllPrintable(ClassifyStrict(raw).segments)
  {
    if raw != [] && raw[0] == LEFT && !LooksLikeIndex(raw) {
      var body := Inside(raw);
      assert forall i | 0 <= i < |body| :: body[i] == raw[i + 1];
      var e := Until(EQUALS, body);
      var v := body[e + 1..];
      assert forall i | 0 <= i < |v| :: v[i] == body[e + 1 + i];
    }
  }

  lemma {:induction false} ReadSegmentsPrintable(s: Text, sofar: seq<Segment>)
    requires AllPrintable(sofar) && ReadSegments(s, sofar).PathOk?
    ensures AllPrintable(ReadSegments(s, sofar).segments) && ReadSegments(s, sofar).segments != []
    decreases |s|
  {
    if s == [] {
    } else if s[0] == QUOTE {
      var q := ReadQuoted(s[1..], []);
      var n := Until(SLASH, q.rest);
      if q.rest != [] && n < |q.rest| {
        ReadSegmentsPrintable(q.rest[n + 1..], sofar + [Key(q.value + q.rest[..n])]);
      }
    } else {
      var n := Until(SLASH, s);
      assert Lacks(s[..n], SLASH);
      ClassifiedIsPrintable(s[..n]);
      var segments := ClassifyStrict(s[..n]).segments;
      if n < |s| {
        ReadSegmentsPrintable(s[n + 1..], sofar + segments);
      }
    }
  }

  /** Printing the segments of a parsed path and parsing again gives the same segments,
      for keys with any characters and for the empty key. */
  lemma FormatOfParseRoundTrips(path: Text)
    requires TryParse(path).PathOk?
    ensures TryParse(Format(TryParse(path).segments)) == TryParse(path)
  {
    if path != [] {
      ReadSegmentsPrintable(path, []);
    }
    ParseOfFormat(TryParse(path).segments);
  }

  /** The segment lists with a path are exactly the printable ones. */
  lemma ParsedExactlyThePrintable(segments: seq<Segment>)
    ensures AllPrintable(segments) <==> exists path :: TryParse(path) == PathOk(segments)
  {
    if AllPrintable(segments) {
      ParseOfFormat(segments);
    }
    forall path | TryParse(path) == PathOk(segments) ensures AllPrintable(segments) {
      if path != [] {
        ReadSegmentsPrintable(path, []);
      }
    }
  }

  // ---------------------------------------------------------------- agreement with split

  predicate NoQuotedPiece(pieces: seq<Text>) {
    forall i | 0 <= i < |pieces| :: pieces[i] != [] ==> pieces[i][0] != QUOTE
  }

  lemma {:induction false} StrictIsSplit(round: nat -> nat, s: Text, sofar: seq<Segment>)
    requires NoQuotedPiece(Split(s)) && ReadSegments(s, sofar).PathOk?
    ensures ReadSegments(s, sofar).segments == sofar + Legacy(round, Split(s))
    decreases |s|
  {
    var n := Until(SLASH, s);
    assert Split(s)[0] == s[..n];
    if s != [] {
      assert n > 0 ==> s[..n][0] == s[0];
      var segments := ClassifyStrict(s[..n]).segments;
      assert segments == [ClassifyLoose(round, s[..n])];
      if n < |s| {
        var pieces, more := Split(s), Split(s[n + 1..]);
        assert pieces[1..] == more;
        assert forall i | 0 <= i < |more| :: more[i] == pieces[i + 1];
        StrictIsSplit(round, s[n + 1..], sofar + segments);
      }
    }
  }

  /** Where no slash-separated piece starts with a quote, `parsePath` is the legacy
      split-and-classify. */
  lemma PermissiveIsSplit(round: nat -> nat, path: Text)
    requires path != [] && NoQuotedPiece(Split(path))
    ensures Parse(round, path) == Legacy(round, Split(path))
  {
    if TryParse(path).PathOk? {
      StrictIsSplit(round, path, []);
    }
  }

  /** A quoted segment with text glued to its end gains a trailing empty key. */
  lemma GluedTextAddsAnEmptyKey(k: Text, glued: Text)
    requires glued != [] && Lacks(glued, SLASH)
    ensures TryParse([QUOTE] + (EscapeKey(k) + ([QUOTE] + glued))) == PathOk([Key(k + glued), Key([])])
  {
    var body := EscapeKey(k) + ([QUOTE] + glued);
    assert ([QUOTE] + body)[1..] == body;
    ReadEscaped(k, glued, []);
    UntilAt(SLASH, glued, []);
    assert glued + [] == glued;
    assert [] + k == k;
    assert glued[..|glued|] == glued;
    assert AfterSegment(glued, [], Key(k)) == PathOk([] + [Key(k + glued)] + [Key([])]);
  }

  /** `a/[12]/"/\""`: a key, an index in decimal, and a quoted key with a slash and an
      escaped quote. */
  lemma SegmentsSpelled()
    ensures TryParse([0x61, 0x2F, 0x5B, 0x31, 0x32, 0x5D, 0x2F, 0x22, 0x2F, 0x5C, 0x22, 0x22]) == PathOk([Key([0x61]), Index(12), Key([0x2F, 0x22])])
  {
    hide ReadSegments, ClassifyStrict;
    var quoted, index, key := [0x22, 0x2F, 0x5C, 0x22, 0x22], [0x5B, 0x31, 0x32, 0x5D], [0x61];
    SpelledKey();
    SpelledIndex();
    SpelledQuoted([] + [Key([0x61])] + [Index(12)]);
    PieceThen(index, quoted, [] + [Key([0x61])], Index(12));
    PieceThen(key, index + ([SLASH] + quoted), [], Key([0x61]));
    assert key + ([SLASH] + (index + ([SLASH] + quoted))) == [0x61, 0x2F, 0x5B, 0x31, 0x32, 0x5D, 0x2F, 0x22, 0x2F, 0x5C, 0x22, 0x22];
    assert [] + [Key([0x61])] + [Index(12)] + [Key([0x2F, 0x22])] == [Key([0x61]), Index(12), Key([0x2F, 0x22])];
  }

  /** A piece that is not quoted, a slash and more. */
  lemma PieceThen(raw: Text, more: Text, sofar: seq<Segment>, seg: Segment)
    requires raw != [] && raw[0] != QUOTE && Lacks(raw, SLASH) && ClassifyStrict(raw) == PathOk([seg])
    ensures ReadSegments(raw + ([SLASH] + more), sofar) == ReadSegments(more, sofar + [seg])
  {
    hide ClassifyStrict;
    var s := raw + ([SLASH] + more);
    UntilAt(SLASH, raw, [SLASH] + more);
    assert s[0] == raw[0] && s[..|raw|] == raw && s[|raw| + 1..] == more;
  }

  lemma SpelledKey()
    ensures ClassifyStrict([0x61]) == PathOk([Key([0x61])]) && Lacks([0x61], SLASH)
  {}

  lemma SpelledQuoted(sofar: seq<Segment>)
    ensures ReadSegments([0x22, 0x2F, 0x5C, 0x22, 0x22], sofar) == PathOk(sofar + [Key([0x2F, 0x22])])
  {
    var s := [0x2F, 0x5C, 0x22, 0x22];
    assert s[1..] == [0x5C, 0x22, 0x22] && [0x5C, 0x22, 0x22][2..] == [0x22] && [0x22][1..] == [];
    assert [] + [0x2F] == [0x2F] && [0x2F] + [0x22] == [0x2F, 0x22];
    assert ReadQuoted([0x22], [0x2F, 0x22]) == QuotedOk([0x2F, 0x22], []);
    assert ReadQuoted([0x5C, 0x22, 0x22], [0x2F]) == QuotedOk([0x2F, 0x22], []);
    assert ReadQuoted(s, []) == QuotedOk([0x2F, 0x22], []);
    assert [0x22, 0x2F, 0x5C, 0x22, 0x22][1..] == s;
  }

  lemma SpelledIndex()
    ensures ClassifyStrict([0x5B, 0x31, 0x32, 0x5D]) == PathOk([Index(12)]) && Lacks([0x5B, 0x31, 0x32, 0x5D], SLASH)
  {
    var raw := [0x5B, 0x31, 0x32, 0x5D];
    assert Inside(raw) == [0x31, 0x32];
    assert [0x31, 0x32][..1] == [0x31] && [0x31][..0] == [];
    assert Natural([0x31]) == 1;
    assert Natural([0x31, 0x32]) == 12;
  }

  // ---------------------------------------------------------------- a key glued on with a slash

  /** The key stands for itself as the last piece of a path. */
  predicate GluesAsKey(k: Text) {
    Lacks(k, SLASH) && (k == [] || (k[0] != QUOTE && k[0] != LEFT))
  }

  /** The path's last segment is a quoted one with text glued to it. */
  predicate EndsGlued(s: Text)
    decreases |s|
  {
    if s == [] then false
    else if s[0] == QUOTE then
      match ReadQuoted(s[1..], [])
      case QuotedFailed(_) => false
      case QuotedOk(_, rest) =>
        if rest == [] then false
        else Until(SLASH, rest) == |rest| || EndsGlued(rest[Until(SLASH, rest) + 1..])
    else Until(SLASH, s) < |s| && EndsGlued(s[Until(SLASH, s) + 1..])
  }

  lemma {:induction false} ReadQuotedMore(s: Text, value: Text, more: Text)
    requires ReadQuoted(s, value).QuotedOk?
    ensures ReadQuoted(s + more, value) == QuotedOk(ReadQuoted(s, value).value, ReadQuoted(s, value).rest + more)
    decreases |s|
  {
    var t := s + more;
    assert t[0] == s[0] && t[1..] == s[1..] + more;
    if s[0] == BACKSLASH {
      assert t[1] == s[1] && t[2..] == s[2..] + more;
      ReadQuotedMore(s[2..], value + [s[1]], more);
    } else if s[0] != QUOTE {
      ReadQuotedMore(s[1..], value + [s[0]], more);
    }
  }

  lemma {:induction false} UntilMore(s: Text, more: Text)
    ensures Until(SLASH, s) < |s| ==> Until(SLASH, s + more) == Until(SLASH, s)
    ensures Until(SLASH, s) == |s| && more != [] && more[0] == SLASH ==> Until(SLASH, s + more) == |s|
    decreases |s|
  {
    if s == [] {
      assert s + more == more;
    } else {
      assert (s + more)[0] == s[0] && (s + more)[1..] == s[1..] + more;
      UntilMore(s[1..], more);
    }
  }

  /** The last piece, read as the key it is. */
  lemma ReadLastKey(k: Text, sofar: seq<Segment>)
    requires GluesAsKey(k)
    ensures ReadSegments(k, sofar) == PathOk(sofar + [Key(k)])
  {
    if k != [] {
      assert Until(SLASH, k) == |k| && k[..|k|] == k;
    }
  }

  lemma PieceAndRest(s: Text, n: nat, more: Text)
    requires n < |s|
    ensures (s + more)[..n] == s[..n] && (s + more)[n + 1..] == s[n + 1..] + more
  {}

  lemma WholePiece(s: Text, k: Text)
    ensures (s + ([SLASH] + k))[..|s|] == s && (s + ([SLASH] + k))[|s| + 1..] == k
  {}

  function WithoutLast(r: ParseResult): seq<Segment>
    requires r.PathOk? && r.segments != []
  {
    r.segments[..|r.segments| - 1]
  }

  /** Gluing a key on adds that key; where the path ends in glued text, the empty key that
      the parser adds there is not read any more. */
  lemma {:induction false} ReadGlued(s: Text, k: Text, sofar: seq<Segment>)
    requires ReadSegments(s, sofar).PathOk? && GluesAsKey(k)
    ensures ReadSegments(s, sofar).segments != []
    ensures ReadSegments(s + ([SLASH] + k), sofar) == PathOk(
      (if EndsGlued(s) then WithoutLast(ReadSegments(s, sofar)) else ReadSegments(s, sofar).segments) + [Key(k)])
    decreases |s|, 1
  {
    var more := [SLASH] + k;
    var t := s + more;
    if s == [] {
      assert t == more && more[1..] == k && more[..0] == [];
      ReadLastKey(k, sofar + [Key([])]);
    } else if s[0] == QUOTE {
      assert t[0] == QUOTE && t[1..] == s[1..] + more;
      ReadQuotedMore(s[1..], [], more);
      var q := ReadQuoted(s[1..], []);
      AfterGlued(q.rest, k, sofar, q.value);
    } else {
      RawGlued(s, k, sofar);
      var n := Until(SLASH, s);
      if n < |s| {
        ReadGlued(s[n + 1..], k, sofar + ClassifyStrict(s[..n]).segments);
      }
    }
  }

  lemma RawGlued(s: Text, k: Text, sofar: seq<Segment>)
    requires s != [] && s[0] != QUOTE && ReadSegments(s, sofar).PathOk? && GluesAsKey(k)
    ensures var n := Until(SLASH, s);
      && ClassifyStrict(s[..n]).PathOk?
      && ReadSegments(s + ([SLASH] + k), sofar) ==
        if n < |s| then ReadSegments(s[n + 1..] + ([SLASH] + k), sofar + ClassifyStrict(s[..n]).segments)
        else PathOk(sofar + ClassifyStrict(s[..n]).segments + [Key(k)])
  {
    var n := Until(SLASH, s);
    UntilMore(s, [SLASH] + k);
    assert (s + ([SLASH] + k))[0] == s[0];
    if n < |s| {
      PieceAndRest(s, n, [SLASH] + k);
    } else {
      WholePiece(s, k);
      assert s[..n] == s;
      ReadLastKey(k, sofar + ClassifyStrict(s).segments);
    }
  }

  lemma {:induction false} AfterGlued(rest: Text, k: Text, sofar: seq<Segment>, value: Text)
    requires AfterSegment(rest, sofar, Key(value)).PathOk? && GluesAsKey(k)
    ensures var r := AfterSegment(rest, sofar, Key(value));
      var glued := rest != [] && (Until(SLASH, rest) == |rest| || EndsGlued(rest[Until(SLASH, rest) + 1..]));
      && r.segments != []
      && AfterSegment(rest + ([SLASH] + k), sofar, Key(value)) == PathOk((if glued then WithoutLast(r) else r.segments) + [Key(k)])
    decreases |rest|, 0
  {
    hide ClassifyStrict, ReadQuoted;
    if rest == [] {
      AfterNothing(k, sofar, value);
    } else {
      var n := Until(SLASH, rest);
      var last := Key(value + rest[..n]);
      if n < |rest| {
        AfterPiece(rest, k, sofar, value);
        ReadGlued(rest[n + 1..], k, sofar + [last]);
      } else {
        AfterAllGlued(rest, k, sofar, value);
      }
    }
  }

  lemma AfterNothing(k: Text, sofar: seq<Segment>, value: Text)
    requires GluesAsKey(k)
    ensures AfterSegment([] + ([SLASH] + k), sofar, Key(value)) == PathOk(sofar + [Key(value)] + [Key(k)])
  {
    hide ReadSegments;
    var t := [] + ([SLASH] + k);
    assert t == [SLASH] + k && t[1..] == k && t[..0] == [] && value + [] == value;
    ReadLastKey(k, sofar + [Key(value)]);
  }

  lemma AfterPiece(rest: Text, k: Text, sofar: seq<Segment>, value: Text)
    requires Until(SLASH, rest) < |rest|
    ensures var n := Until(SLASH, rest);
      AfterSegment(rest + ([SLASH] + k), sofar, Key(value)) ==
        ReadSegments(rest[n + 1..] + ([SLASH] + k), sofar + [Key(value + rest[..n])])
  {
    hide ReadSegments;
    UntilMore(rest, [SLASH] + k);
    PieceAndRest(rest, Until(SLASH, rest), [SLASH] + k);
  }

  lemma AfterAllGlued(rest: Text, k: Text, sofar: seq<Segment>, value: Text)
    requires rest != [] && Until(SLASH, rest) == |rest| && GluesAsKey(k)
    ensures AfterSegment(rest + ([SLASH] + k), sofar, Key(value)) == PathOk(sofar + [Key(value + rest)] + [Key(k)])
    ensures WithoutLast(AfterSegment(rest, sofar, Key(value))) == sofar + [Key(value + rest)]
  {
    hide ReadSegments;
    UntilMore(rest, [SLASH] + k);
    WholePiece(rest, k);
    assert rest[..|rest|] == rest;
    ReadLastKey(k, sofar + [Key(value + rest)]);
  }

  // ---------------------------------------------------------------- the parser's loop

  /** The quoted-segment loop: the cursor starts just after the opening quote. */
  method ScanQuoted(path: Text, start: nat) returns (value: Text, i: nat, failure: Option<PathError>)
    requires start <= |path|
    ensures match ReadQuoted(path[start..], [])
      case QuotedFailed(code) => failure == Some(code)
      case QuotedOk(v, rest) => failure == None && value == v && start < i <= |path| && path[i..] == rest
  {
    i, value := start, [];
    while i < |path|
      invariant start <= i <= |path|
      invariant ReadQuoted(path[start..], []) == ReadQuoted(path[i..], value)
    {
      var c := path[i];
      assert path[i..][1..] == path[i + 1..];
      if c == BACKSLASH {
        if i + 1 >= |path| {
          return value, i, Some(InvalidEscape);
        }
        var next := path[i + 1];
        assert path[i..][1] == next && path[i..][2..] == path[i + 2..];
        if next == QUOTE || next == BACKSLASH {
          value := value + [next];
          i := i + 2;
          continue;
        }
        return value, i, Some(InvalidEscape);
      }
      if c == QUOTE {
        return value, i + 1, None;
      }
      value := value + [c];
      i := i + 1;
    }
    assert path[i..] == [];
    return value, i, Some(UnclosedQuote);
  }

  /** Advance the cursor to the next separator or the end. */
  method ScanToSlash(path: Text, start: nat) returns (i: nat)
    requires start <= |path|
    ensures start <= i <= |path| && i == start + Until(SLASH, path[start..])
  {
    i := start;
    while i < |path| && path[i] != SLASH
      invariant start <= i <= |path|
      invariant Until(SLASH, path[start..]) == i - start + Until(SLASH, path[i..])
    {
      assert path[i..][1..] == path[i + 1..];
      i := i + 1;
    }
  }

  /** Where the loop stands after a segment that ended at `end`. */
  function NextStart(path: Text, end: nat): (i: nat)
    requires end <= |path|
    ensures i <= |path|
  {
    if end < |path| then end + 1 else end
  }

  lemma QuotedFailureStep(path: Text, i: nat, sofar: seq<Segment>)
    requires i < |path| && path[i] == QUOTE && ReadQuoted(path[i + 1..], []).QuotedFailed?
    ensures ReadSegments(path[i..], sofar) == PathFailed(ReadQuoted(path[i + 1..], []).code)
  {
    assert path[i..][1..] == path[i + 1..];
  }

  lemma QuotedStep(path: Text, i: nat, next: nat, value: Text, sofar: seq<Segment>)
    requires i < next <= |path| && path[i] == QUOTE
    requires ReadQuoted(path[i + 1..], []) == QuotedOk(value, path[next..])
    ensures next == |path| ==> ReadSegments(path[i..], sofar) == PathOk(sofar + [Key(value)])
    ensures next < |path| ==>
      var end := next + Until(SLASH, path[next..]);
      ReadSegments(path[i..], sofar) == ReadSegments(path[NextStart(path, end)..], sofar + [Key(value + path[next..end])])
  {
    assert path[i..][1..] == path[i + 1..];
    assert ReadSegments(path[i..], sofar) == AfterSegment(path[next..], sofar, Key(value));
    if next < |path| {
      GluedStep(path, next, value, sofar);
    }
  }

  lemma GluedStep(path: Text, next: nat, value: Text, sofar: seq<Segment>)
    requires next < |path|
    ensures var end := next + Until(SLASH, path[next..]);
      AfterSegment(path[next..], sofar, Key(value)) ==
        ReadSegments(path[NextStart(path, end)..], sofar + [Key(value + path[next..end])])
  {
    var n := Until(SLASH, path[next..]);
    assert path[next..][..n] == path[next..next + n];
    if next + n < |path| {
      assert path[next..][n + 1..] == path[next + n + 1..];
    } else {
      assert path[next + n..] == [];
    }
  }

  lemma RawStep(path: Text, i: nat, sofar: seq<Segment>)
    requires i < |path| && path[i] != QUOTE
    ensures var end := i + Until(SLASH, path[i..]);
      var raw := ClassifyStrict(path[i..end]);
      ReadSegments(path[i..], sofar) ==
        if raw.PathFailed? then raw
        else if end == |path| then PathOk(sofar + raw.segments)
        else ReadSegments(path[end + 1..], sofar + raw.segments)
  {
    var n := Until(SLASH, path[i..]);
    assert path[i..][..n] == path[i..i + n];
    if i + n < |path| {
      assert path[i..][n + 1..] == path[i + n + 1..];
    }
  }

  /** `tryParsePath`: one cursor over the path, segments pushed as they are read. */
  method TryParsePath(path: Text) returns (r: ParseResult)
    ensures r == TryParse(path)
  {
    hide ReadQuoted, ClassifyStrict, Until;
    if path == [] {
      return PathOk([]);
    }
    var segments: seq<Segment> := [];
    var i := 0;
    assert path[0..] == path;
    ghost var goal := TryParse(path);
    while i < |path|
      invariant 0 <= i <= |path|
      invariant goal == ReadSegments(path[i..], segments)
      decreases |path| - i
    {
      if path[i] == QUOTE {
        assert path[i..][0] == QUOTE && path[i..][1..] == path[i + 1..];
        var value, next, failure := ScanQuoted(path, i + 1);
        if failure.Some? {
          QuotedFailureStep(path, i, segments);
          return PathFailed(failure.value);
        }
        QuotedStep(path, i, next, value, segments);
        i := next;
        if i == |path| {
          return PathOk(segments + [Key(value)]);
        }
        var end := ScanToSlash(path, i);
        segments := segments + [Key(value + path[i..end])];
        i := NextStart(path, end);
      } else {
        RawStep(path, i, segments);
        var end := ScanToSlash(path, i);
        var classified := ClassifyStrict(path[i..end]);
        if classified.PathFailed? {
          return classified;
        }
        segments := segments + classified.segments;
        if end == |path| {
          return PathOk(segments);
        }
        i := end + 1;
      }
    }
    assert path[i..] == [];
    return PathOk(segments + [Key([])]);
  }
}
