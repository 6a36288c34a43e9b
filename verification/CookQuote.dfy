// Quoting is undone by cooking: a text cut into quoted strings of either kind, its bytes written
// in any of the ways, and with white space and comments between the strings, is cooked back to
// that text; and strings that break off are refused.
module CookQuote {
  import opened CText
  import opened CTypes
  import opened CookSpec
  import opened CookWritten

  /** What may stand between two quoted strings. */
  datatype Gap = Blank(c: Byte) | LineComment(body: seq<Byte>) | BlockComment(body: seq<Byte>)

  ghost predicate IsGap(g: Gap) {
    match g
    case Blank(c) => 8 <= c <= 13 || c == 32
    case LineComment(body) => NL !in body
    case BlockComment(body) => forall i :: 0 <= i < |body| ==> !EndsComment(body, i)
  }

  function GapText(g: Gap): seq<Byte> {
    match g
    case Blank(c) => [c]
    case LineComment(body) => [SLASH, SLASH] + body + [NL]
    case BlockComment(body) => [SLASH, STAR] + body + [STAR, SLASH]
  }

  function GapsText(gaps: seq<Gap>): seq<Byte> {
    if gaps == [] then [] else GapText(gaps[0]) + GapsText(gaps[1..])
  }

  /** A quoted string and what stands between it and the next one. */
  datatype Part = Part(quote: Byte, chars: seq<Written>, gaps: seq<Gap>)

  /** Any character but the backslash may quote the first string; only two go on. */
  ghost predicate IsPart(part: Part) {
    && part.quote != 0 && part.quote != BACKSLASH
    && MayWriteAll(part.chars, part.quote, part.quote)
    && forall i :: 0 <= i < |part.gaps| ==> IsGap(part.gaps[i])
  }

  ghost predicate AreParts(parts: seq<Part>) {
    && (forall i :: 0 <= i < |parts| ==> IsPart(parts[i]))
    && (forall i :: 1 <= i < |parts| ==> parts[i].quote == QUOTE || parts[i].quote == APOSTROPHE)
  }

  /** A part without its opening quote. */
  function PartText(part: Part): seq<Byte> {
    Sources(part.chars) + ([part.quote] + GapsText(part.gaps))
  }

  function PartsText(parts: seq<Part>): seq<Byte> {
    if parts == [] then [] else [parts[0].quote] + (PartText(parts[0]) + PartsText(parts[1..]))
  }

  ghost function TextOf(part: Part): seq<Byte>
    requires IsPart(part)
  {
    Meanings(part.chars, part.quote, part.quote)
  }

  ghost function Texts(parts: seq<Part>): seq<Byte>
    requires AreParts(parts)
  {
    if parts == [] then [] else TextOf(parts[0]) + Texts(parts[1..])
  }

  function PartLines(part: Part): nat {
    LinesOf(part.chars) + NewlinesIn(GapsText(part.gaps))
  }

  function PartsLines(parts: seq<Part>): nat {
    if parts == [] then 0 else PartLines(parts[0]) + PartsLines(parts[1..])
  }

  // ------------------------------------------------------------------------ gaps

  lemma AddLinesTwice(m: nat, n: nat, j: Joint)
    ensures AddLines(m, AddLines(n, j)) == AddLines(m + n, j)
  {
  }

  lemma {:induction false} IndexIs(s: seq<Byte>, c: Byte, p: nat, i: nat)
    requires p <= i < |s| && s[i] == c && forall k :: p <= k < i ==> s[k] != c
    ensures IndexOf(s, c, p) == i
    decreases i - p
  {
    if p < i { IndexIs(s, c, p + 1, i); }
  }

  lemma {:induction false} CommentEndIs(s: seq<Byte>, p: nat, i: nat)
    requires p <= i < |s| && EndsComment(s, i) && forall k :: p <= k < i ==> !EndsComment(s, k)
    ensures CommentEnd(s, p) == i
    decreases i - p
  {
    if p < i { CommentEndIs(s, p + 1, i); }
  }

  lemma {:induction false} NoNewlines(t: seq<Byte>)
    requires NL !in t
    ensures NewlinesIn(t) == 0
  {
    if t != [] { NoNewlines(t[1..]); }
  }

  /** A comment or a blank is skipped, and its newlines are counted. */
  lemma JointGap(s: seq<Byte>, p: nat, g: Gap, end: nat)
    requires IsGap(g) && At(s, p, GapText(g)) && end == p + |GapText(g)| < |s|
    ensures JointAt(s, p) == AddLines(NewlinesIn(GapText(g)), JointAt(s, end))
  {
    match g
    case Blank(c) =>
      AtIndex(s, p, [c], 0);
      assert NewlinesIn([c]) == if c == NL then 1 else 0;
    case LineComment(body) => JointLineComment(s, p, body, end);
    case BlockComment(body) => JointBlockComment(s, p, body, end);
  }

  lemma JointLineComment(s: seq<Byte>, p: nat, body: seq<Byte>, end: nat)
    requires NL !in body
    requires var x := [SLASH, SLASH] + body + [NL]; At(s, p, x) && end == p + |x| < |s|
    ensures var x := [SLASH, SLASH] + body + [NL];
            JointAt(s, p) == AddLines(NewlinesIn(x), JointAt(s, end))
  {
    var x, i := [SLASH, SLASH] + body + [NL], end - 1;
    AtIndex(s, p, x, 0);
    AtIndex(s, p, x, 1);
    AtIndex(s, p, x, |x| - 1);
    forall k | p <= k < i ensures s[k] != NL {
      AtIndex(s, p, x, k - p);
      assert k - p >= 2 ==> x[k - p] == body[k - p - 2];
    }
    IndexIs(s, NL, p, i);
    var slashes := [SLASH, SLASH] + body;
    NewlinesConcat(slashes, [NL]);
    NoNewlines(slashes);
    assert NewlinesIn([NL]) == 1;
  }

  lemma JointBlockComment(s: seq<Byte>, p: nat, body: seq<Byte>, end: nat)
    requires forall i :: 0 <= i < |body| ==> !EndsComment(body, i)
    requires var x := [SLASH, STAR] + body + [STAR, SLASH]; At(s, p, x) && end == p + |x| < |s|
    ensures var x := [SLASH, STAR] + body + [STAR, SLASH];
            JointAt(s, p) == AddLines(NewlinesIn(x), JointAt(s, end))
  {
    var x, i := [SLASH, STAR] + body + [STAR, SLASH], end - 2;
    AtIndex(s, p, x, 0);
    AtIndex(s, p, x, 1);
    AtIndex(s, p, x, |x| - 2);
    AtIndex(s, p, x, |x| - 1);
    forall k | p + 2 <= k < i ensures !EndsComment(s, k) {
      AtIndex(s, p, x, k - p);
      AtIndex(s, p, x, k + 1 - p);
      assert !EndsComment(body, k - p - 2);
    }
    CommentEndIs(s, p + 2, i);
    var open := [SLASH, STAR] + body;
    AtConcat(s, p, open, [STAR, SLASH], i);
    var slice := s[p..i];
    forall k | 0 <= k < |open| ensures slice[k] == open[k] {
      AtIndex(s, p, open, k);
    }
    assert slice == open;
    NewlinesConcat(open, [STAR, SLASH]);
    NoNewlines([STAR, SLASH]);
  }

  lemma {:induction false} JointGaps(s: seq<Byte>, p: nat, gaps: seq<Gap>, end: nat)
    requires forall i :: 0 <= i < |gaps| ==> IsGap(gaps[i])
    requires At(s, p, GapsText(gaps)) && end == p + |GapsText(gaps)| < |s|
    ensures JointAt(s, p) == AddLines(NewlinesIn(GapsText(gaps)), JointAt(s, end))
    decreases |gaps|
  {
    if gaps == [] {
      assert AddLines(0, JointAt(s, p)) == JointAt(s, p);
    } else {
      var g, rest := GapText(gaps[0]), GapsText(gaps[1..]);
      var p1 := p + |g|;
      AtConcat(s, p, g, rest, p1);
      NewlinesConcat(g, rest);
      JointGap(s, p, gaps[0], p1);
      JointGaps(s, p1, gaps[1..], end);
      JointTwice(s, p, p1, end, NewlinesIn(g), NewlinesIn(rest));
    }
  }

  lemma JointTwice(s: seq<Byte>, p: nat, p1: nat, p2: nat, m: nat, n: nat)
    requires p <= p1 <= p2 <= |s|
    requires JointAt(s, p) == AddLines(m, JointAt(s, p1))
    requires JointAt(s, p1) == AddLines(n, JointAt(s, p2))
    ensures JointAt(s, p) == AddLines(m + n, JointAt(s, p2))
  {
    AddLinesTwice(m, n, JointAt(s, p2));
  }

  // -------------------------------------------------------------------- all strings

  /** Behind the last gap something else follows, be it the end of the buffer. */
  ghost predicate EndsStrings(s: seq<Byte>, p: nat) {
    && p < |s| && !(8 <= s[p] <= 13) && s[p] != 32
    && s[p] != QUOTE && s[p] != APOSTROPHE && s[p] != SLASH
  }

  /** Behind the last gap a slash starts no comment, or one that does not end. */
  ghost predicate BreaksOff(s: seq<Byte>, p: nat) {
    && p + 1 < |s| && s[p] == SLASH
    && (|| (s[p + 1] != SLASH && s[p + 1] != STAR)
        || (s[p + 1] == SLASH && forall i :: p <= i < |s| ==> s[i] != NL)
        || (s[p + 1] == STAR && forall i :: p + 2 <= i < |s| ==> !EndsComment(s, i)))
  }

  lemma {:induction false} NoIndex(s: seq<Byte>, c: Byte, p: nat)
    requires p <= |s| && forall i :: p <= i < |s| ==> s[i] != c
    ensures IndexOf(s, c, p) == |s|
    decreases |s| - p
  {
    if p < |s| { NoIndex(s, c, p + 1); }
  }

  lemma {:induction false} NoCommentEnd(s: seq<Byte>, p: nat)
    requires p <= |s| && forall i :: p <= i < |s| ==> !EndsComment(s, i)
    ensures CommentEnd(s, p) == |s|
    decreases |s| - p
  {
    if p < |s| { NoCommentEnd(s, p + 1); }
  }

  lemma JointBreaks(s: seq<Byte>, p: nat)
    requires BreaksOff(s, p)
    ensures JointAt(s, p) == Broken(0)
  {
    if s[p + 1] == SLASH {
      NoIndex(s, NL, p);
    } else if s[p + 1] == STAR {
      NoCommentEnd(s, p + 2);
    }
  }

  /** Cooking the quoted parts gives the text that they were made of, the position behind them,
      and their number of lines; it fails when a comment behind them breaks off; and it goes on
      in another string. */
  lemma {:induction false} CookUndoesQuoting(s: seq<Byte>, p: nat, parts: seq<Part>, end: nat)
    requires parts != [] && AreParts(parts) && At(s, p, PartsText(parts))
    requires end == p + |PartsText(parts)| < |s|
    ensures EndsStrings(s, end) ==>
              Lex(s, p + 1, parts[0].quote) == Cooked(Texts(parts), end, PartsLines(parts))
    ensures BreaksOff(s, end) ==> Lex(s, p + 1, parts[0].quote) == Malformed(PartsLines(parts))
    ensures s[end] == QUOTE || s[end] == APOSTROPHE ==>
              Lex(s, p + 1, parts[0].quote)
              == Prefix(Texts(parts), PartsLines(parts), Lex(s, end + 1, s[end]))
    decreases |parts|
  {
    hide Lex, NewlinesIn, PartText, At, IsPart, TextOf, PartLines, EndsStrings, BreaksOff;
    var part, p1 := parts[0], p + 1;
    var p2 := p1 + |PartText(part)|;
    PartsSplit(s, p, parts, p1, p2);
    CookPart(s, p1, part, p2);
    if |parts| == 1 {
      assert parts[1..] == [] && p2 == end;
      NothingMore(TextOf(part));
      if EndsStrings(s, end) { CookLast(s, p1, part, p2); }
      if BreaksOff(s, end) { CookBreaks(s, p1, part, p2); }
      if s[end] == QUOTE || s[end] == APOSTROPHE { CookNext(s, p1, part, p2); }
    } else {
      FirstQuote(s, p2, parts[1..]);
      CookUndoesQuoting(s, p2, parts[1..], end);
      CookNext(s, p1, part, p2);
      PrefixPrefix(TextOf(part), PartLines(part), Texts(parts[1..]), PartsLines(parts[1..]),
                   if s[end] == QUOTE || s[end] == APOSTROPHE then Lex(s, end + 1, s[end])
                   else Malformed(0));
    }
  }

  /** A last string without its closing quote makes the whole text malformed. */
  lemma LastStringEndsEarly(s: seq<Byte>, p: nat, parts: seq<Part>, q: Byte, ws: seq<Written>,
                            p1: nat, end: nat)
    requires parts != [] && AreParts(parts) && (q == QUOTE || q == APOSTROPHE)
    requires At(s, p, PartsText(parts) + ([q] + Sources(ws)))
    requires p1 == p + |PartsText(parts)| && end == p1 + 1 + |Sources(ws)| < |s|
    requires MayWriteAll(ws, q, s[end])
    requires s[end] == 0 || (s[end] == BACKSLASH && end + 1 < |s| && s[end + 1] == 0)
    ensures Lex(s, p + 1, parts[0].quote) == Malformed(PartsLines(parts) + LinesOf(ws))
  {
    hide Lex, At, PartsText, Sources;
    AtConcat(s, p, PartsText(parts), [q] + Sources(ws), p1);
    AtConcat(s, p1, [q], Sources(ws), p1 + 1);
    AtIndex(s, p1, [q], 0);
    CookUndoesQuoting(s, p, parts, p1);
    NoClosingQuote(s, p1 + 1, q, ws, end);
  }

  /** The text of the parts: an opening quote, the first part, and the other parts. */
  lemma PartsSplit(s: seq<Byte>, p: nat, parts: seq<Part>, p1: nat, p2: nat)
    requires parts != [] && At(s, p, PartsText(parts))
    requires p1 == p + 1 && p2 == p1 + |PartText(parts[0])|
    ensures At(s, p1, PartText(parts[0])) && At(s, p2, PartsText(parts[1..]))
    ensures p + |PartsText(parts)| == p2 + |PartsText(parts[1..])|
  {
    var part, x, rest := parts[0], PartText(parts[0]), PartsText(parts[1..]);
    AtConcat(s, p, [part.quote], x + rest, p1);
    AtConcat(s, p1, x, rest, p2);
  }

  lemma FirstQuote(s: seq<Byte>, p: nat, parts: seq<Part>)
    requires parts != [] && At(s, p, PartsText(parts))
    ensures p < |s| && s[p] == parts[0].quote
  {
    AtIndex(s, p, PartsText(parts), 0);
  }

  /** A part is lexed up to what follows its gaps. */
  lemma CookPart(s: seq<Byte>, p: nat, part: Part, end: nat)
    requires IsPart(part) && At(s, p, PartText(part)) && end == p + |PartText(part)| < |s|
    ensures exists p1, m, n :: PartLexed(s, p, part, end, p1, m, n)
  {
    hide Lex, JointAt, GapsText, Sources, Meanings, MayWriteAll;
    var q, e, g := part.quote, Sources(part.chars), GapsText(part.gaps);
    var p0, p1 := p + |e|, p + |e| + 1;
    AtConcat(s, p, e, [q] + g, p0);
    AtConcat(s, p0, [q], g, p1);
    AtIndex(s, p0, [q], 0);
    LexWritten(s, p, q, part.chars, p0);
    JointGaps(s, p1, part.gaps, end);
    assert PartLexed(s, p, part, end, p1, LinesOf(part.chars), NewlinesIn(g));
  }

  /** The text of the part with m lines, its closing quote before p1, and gaps with n. */
  ghost predicate PartLexed(s: seq<Byte>, p: nat, part: Part, end: nat, p1: nat, m: nat, n: nat)
    requires IsPart(part)
  {
    && p < p1 <= end < |s| && m + n == PartLines(part)
    && s[p1 - 1] == part.quote
    && Lex(s, p, part.quote) == Prefix(TextOf(part), m, Lex(s, p1 - 1, part.quote))
    && JointAt(s, p1) == AddLines(n, JointAt(s, end))
  }

  lemma CookLast(s: seq<Byte>, p: nat, part: Part, end: nat)
    requires IsPart(part) && exists p1, m, n :: PartLexed(s, p, part, end, p1, m, n)
    requires EndsStrings(s, end)
    ensures Lex(s, p, part.quote) == Cooked(TextOf(part), end, PartLines(part))
  {
    hide TextOf, PartLines;
    var p1, m, n :| PartLexed(s, p, part, end, p1, m, n);
    assert JointAt(s, p1) == Stop(end, n);
    NothingMore(TextOf(part));
  }

  lemma CookBreaks(s: seq<Byte>, p: nat, part: Part, end: nat)
    requires IsPart(part) && exists p1, m, n :: PartLexed(s, p, part, end, p1, m, n)
    requires BreaksOff(s, end)
    ensures Lex(s, p, part.quote) == Malformed(PartLines(part))
  {
    hide TextOf, PartLines, JointAt, BreaksOff;
    var p1, m, n :| PartLexed(s, p, part, end, p1, m, n);
    JointBreaks(s, end);
    assert JointAt(s, p1) == Broken(n);
  }

  lemma CookNext(s: seq<Byte>, p: nat, part: Part, end: nat)
    requires IsPart(part) && exists p1, m, n :: PartLexed(s, p, part, end, p1, m, n)
    requires s[end] == QUOTE || s[end] == APOSTROPHE
    ensures Lex(s, p, part.quote) ==
            Prefix(TextOf(part), PartLines(part), Lex(s, end + 1, s[end]))
  {
    hide JointAt, Lex, TextOf, PartLines;
    var p1, m, n :| PartLexed(s, p, part, end, p1, m, n);
    QuoteNext(s, p1, end, n);
    PrefixPrefix(TextOf(part), m, [], n, Lex(s, end + 1, s[end]));
    NothingMore(TextOf(part));
  }

  /** From a closing quote over the gaps into the next string. */
  lemma QuoteNext(s: seq<Byte>, p1: nat, end: nat, n: nat)
    requires 0 < p1 <= end < |s| && JointAt(s, p1) == AddLines(n, JointAt(s, end))
    requires s[end] == QUOTE || s[end] == APOSTROPHE
    ensures Lex(s, p1 - 1, s[p1 - 1]) == Prefix([], n, Lex(s, end + 1, s[end]))
  {
    hide Lex;
    assert JointAt(s, end) == More(s[end], end + 1, 0);
    LexCloses(s, p1, end, n);
  }

  lemma LexCloses(s: seq<Byte>, p1: nat, end: nat, n: nat)
    requires 0 < p1 <= end < |s| && JointAt(s, p1) == More(s[end], end + 1, n)
    ensures Lex(s, p1 - 1, s[p1 - 1]) == Prefix([], n, Lex(s, end + 1, s[end]))
  {
    hide JointAt;
  }
}
