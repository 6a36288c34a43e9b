// The ways to write bytes between quotes, and that each is read back as what it means.
module CookWritten {
  import opened CText
  import opened CTypes
  import opened CookSpec

  /** A byte as it is, behind a backslash, or as the letter of an escape; one to three octal
      digits; x and up to two hexadecimal digits; an escaped carriage return with its newline. A
      backslash before a newline writes nothing, and one before an ordinary character between
      apostrophes is kept. */
  datatype Written =
    | Plain(c: Byte)
    | Slash(c: Byte)
    | Letter(c: Byte)
    | Octal(d: seq<Byte>)
    | Hex(x: Byte, d: seq<Byte>)
    | CrLf
    | Dropped
    | Kept(c: Byte)

  predicate IsOctal(c: Byte) { 48 <= c <= 55 }

  predicate IsHex(c: Byte) { 48 <= c <= 57 || 65 <= c <= 70 || 97 <= c <= 102 }

  function OctalValue(c: Byte): nat
    requires IsOctal(c)
  {
    c - 48
  }

  function HexValue(c: Byte): nat
    requires IsHex(c)
  {
    if c <= 57 then c - 48 else if c <= 70 then c - 65 + 10 else c - 97 + 10
  }

  /** The way of writing can be used between quotes q in front of the character next. */
  ghost predicate MayWrite(w: Written, q: Byte, next: Byte) {
    match w
    case Plain(c) => c != 0 && c != q && c != BACKSLASH
    case Slash(c) =>
      if q == APOSTROPHE then c == BACKSLASH || c == APOSTROPHE || c == HASH
      else
        && c != 0 && c != NL && (c == CR ==> next != NL)
        && c != 88 && c != 120 && !IsOctal(c) && LetterByte(c) == 0
    case Letter(c) => q != APOSTROPHE && LetterByte(c) != 0
    case Octal(d) =>
      && q != APOSTROPHE && 1 <= |d| <= 3 && (forall i :: 0 <= i < |d| ==> IsOctal(d[i]))
      && (|d| < 3 ==> !IsOctal(next))
    case Hex(x, d) =>
      && q != APOSTROPHE && (x == 88 || x == 120) && |d| <= 2
      && (forall i :: 0 <= i < |d| ==> IsHex(d[i])) && (|d| < 2 ==> !IsHex(next))
    case CrLf => q != APOSTROPHE
    case Dropped => true
    case Kept(c) =>
      && q == APOSTROPHE && c != 0 && c != NL
      && c != BACKSLASH && c != APOSTROPHE && c != HASH
  }

  /** The control characters that the letters stand for; 0 for a letter that is none of them. */
  function LetterByte(c: Byte): Byte {
    if c == 97 then 7
    else if c == 98 then 8
    else if c == 102 then 12
    else if c == 110 then NL
    else if c == 114 then CR
    else if c == 116 then 9
    else if c == 118 then 11
    else 0
  }

  /** The characters that the constants and the letters stand for. */
  lemma Characters()
    ensures Bytes("\n\r\"#'*/\\") == [NL, CR, QUOTE, HASH, APOSTROPHE, STAR, SLASH, BACKSLASH]
    ensures var t := Bytes("abfnrtv");
            && LetterByte(t[0]) == 7 && LetterByte(t[1]) == 8 && LetterByte(t[2]) == 12
            && LetterByte(t[3]) == '\n' as int && LetterByte(t[4]) == '\r' as int
            && LetterByte(t[5]) == '\t' as int && LetterByte(t[6]) == 11
    ensures Bytes("xX") == [120, 88] && Bytes("07") == [48, 55] && Bytes("09afAF") == [48, 57, 97, 102, 65, 70]
  {
  }

  function Source(w: Written): (e: seq<Byte>)
    ensures e != []
  {
    match w
    case Plain(c) => [c]
    case Slash(c) => [BACKSLASH, c]
    case Letter(c) => [BACKSLASH, c]
    case Octal(d) => [BACKSLASH] + d
    case Hex(x, d) => [BACKSLASH, x] + d
    case CrLf => [BACKSLASH, CR, NL]
    case Dropped => [BACKSLASH, NL]
    case Kept(c) => [BACKSLASH, c]
  }

  /** Octal digits by their places, up to the largest byte. */
  function OctalByte(d: seq<Byte>): Byte
    requires 1 <= |d| <= 3 && forall i :: 0 <= i < |d| ==> IsOctal(d[i])
  {
    var v :=
      if |d| == 1 then OctalValue(d[0])
      else if |d| == 2 then OctalValue(d[0]) * 8 + OctalValue(d[1])
      else OctalValue(d[0]) * 64 + OctalValue(d[1]) * 8 + OctalValue(d[2]);
    if v > 255 then 255 else v
  }

  /** What is written. */
  ghost function Meaning(w: Written, q: Byte, next: Byte): seq<Byte>
    requires MayWrite(w, q, next)
  {
    match w
    case Plain(c) => [c]
    case Slash(c) => [c]
    case Letter(c) => [LetterByte(c)]
    case Octal(d) => [OctalByte(d)]
    case Hex(x, d) =>
      if |d| == 0 then [x]
      else if |d| == 1 then [HexValue(d[0])]
      else [HexValue(d[0]) * 16 + HexValue(d[1])]
    case CrLf => [NL]
    case Dropped => []
    case Kept(c) => [BACKSLASH, c]
  }

  /** The lines that are counted: not that of an escaped carriage return and newline. */
  function Lines(w: Written): nat {
    if w == Dropped || w == Plain(NL) then 1 else 0
  }

  // ------------------------------------------------------------------------ sequences

  function Sources(ws: seq<Written>): seq<Byte> {
    if ws == [] then [] else Source(ws[0]) + Sources(ws[1..])
  }

  /** The character behind the first one written, when last stands behind all of them. */
  function Behind(ws: seq<Written>, last: Byte): Byte
    requires ws != []
  {
    if |ws| == 1 then last else Source(ws[1])[0]
  }

  ghost predicate MayWriteAll(ws: seq<Written>, q: Byte, last: Byte) {
    ws == [] || (MayWrite(ws[0], q, Behind(ws, last)) && MayWriteAll(ws[1..], q, last))
  }

  ghost function Meanings(ws: seq<Written>, q: Byte, last: Byte): seq<Byte>
    requires MayWriteAll(ws, q, last)
  {
    if ws == [] then [] else Meaning(ws[0], q, Behind(ws, last)) + Meanings(ws[1..], q, last)
  }

  function LinesOf(ws: seq<Written>): nat {
    if ws == [] then 0 else Lines(ws[0]) + LinesOf(ws[1..])
  }

  /** Between double quotes every text can be written, and between apostrophes every text
      without NUL. */
  lemma {:induction false} EveryTextWritten(t: seq<Byte>, q: Byte, last: Byte)
      returns (ws: seq<Written>)
    requires q == QUOTE || (q == APOSTROPHE && 0 !in t)
    ensures MayWriteAll(ws, q, last) && Meanings(ws, q, last) == t
  {
    ws := [];
    if t != [] {
      var rest := EveryTextWritten(t[1..], q, last);
      var v := t[0];
      var w := if q == QUOTE then Octal([48 + v / 64, 48 + v / 8 % 8, 48 + v % 8])
               else if v == q || v == BACKSLASH then Slash(v) else Plain(v);
      ws := [w] + rest;
      assert ws[1..] == rest && t == [v] + t[1..];
      PlacesOf(v);
      assert Meaning(w, q, Behind(ws, last)) == [v];
    }
  }

  lemma PlacesOf(v: Byte)
    ensures v / 64 < 8 && v / 64 * 64 + v / 8 % 8 * 8 + v % 8 == v
  {
  }

  // ------------------------------------------------------------------------ reading

  lemma NothingBefore(c: Cooked)
    ensures Prefix([], 0, c) == c
  {
  }

  /** What is written between quotes is lexed back to what it means, counting its lines. */
  lemma {:induction false} LexWritten(s: seq<Byte>, p: nat, q: Byte, ws: seq<Written>, end: nat)
    requires At(s, p, Sources(ws)) && end == p + |Sources(ws)| < |s|
    requires q != BACKSLASH && MayWriteAll(ws, q, s[end])
    ensures Lex(s, p, q) == Prefix(Meanings(ws, q, s[end]), LinesOf(ws), Lex(s, end, q))
    decreases |ws|
  {
    hide Lex, MayWrite, Meaning, At, Source;
    if ws == [] {
      NothingBefore(Lex(s, p, q));
    } else {
      var e, rest := Source(ws[0]), Sources(ws[1..]);
      var p1 := p + |e|;
      AtConcat(s, p, e, rest, p1);
      BehindIs(s, p1, ws, end);
      LexOne(s, p, q, ws[0], p1);
      LexWritten(s, p1, q, ws[1..], end);
      PrefixPrefix(Meaning(ws[0], q, s[p1]), Lines(ws[0]), Meanings(ws[1..], q, s[end]),
                   LinesOf(ws[1..]), Lex(s, end, q));
    }
  }

  lemma BehindIs(s: seq<Byte>, p1: nat, ws: seq<Written>, end: nat)
    requires ws != [] && At(s, p1, Sources(ws[1..])) && end == p1 + |Sources(ws[1..])| < |s|
    ensures s[p1] == Behind(ws, s[end])
  {
    if |ws| > 1 {
      var rest := Sources(ws[1..]);
      assert rest == Source(ws[1]) + Sources(ws[1..][1..]);
      AtIndex(s, p1, rest, 0);
    }
  }

  lemma LexOne(s: seq<Byte>, p: nat, q: Byte, w: Written, end: nat)
    requires At(s, p, Source(w)) && end == p + |Source(w)| < |s|
    requires q != BACKSLASH && MayWrite(w, q, s[end])
    ensures Lex(s, p, q) == Prefix(Meaning(w, q, s[end]), Lines(w), Lex(s, end, q))
  {
    hide Lex, At;
    AtIndex(s, p, Source(w), 0);
    if w.Plain? {
      LexPlain(s, p, q);
    } else {
      AtIndex(s, p, Source(w), 1);
      if w.Dropped? {
        LexDropped(s, p, q);
      } else if q != APOSTROPHE {
        EscapeIs(s, p, q, w);
        LexEscaped(s, p, q, |Source(w)| - 1, Meaning(w, q, s[end])[0]);
      } else if w.Kept? {
        LexKept(s, p);
      } else {
        LexSlash(s, p);
      }
    }
  }

  lemma LexPlain(s: seq<Byte>, p: nat, q: Byte)
    requires p < |s| && s[p] != 0 && s[p] != q && s[p] != BACKSLASH
    ensures Lex(s, p, q) == Prefix([s[p]], if s[p] == NL then 1 else 0, Lex(s, p + 1, q))
  {
  }

  lemma LexDropped(s: seq<Byte>, p: nat, q: Byte)
    requires p + 1 < |s| && s[p] == BACKSLASH != q && s[p + 1] == NL
    ensures Lex(s, p, q) == Prefix([], 1, Lex(s, p + 2, q))
  {
  }

  lemma LexSlash(s: seq<Byte>, p: nat)
    requires p + 1 < |s| && s[p] == BACKSLASH
    requires s[p + 1] == BACKSLASH || s[p + 1] == APOSTROPHE || s[p + 1] == HASH
    ensures Lex(s, p, APOSTROPHE) == Prefix([s[p + 1]], 0, Lex(s, p + 2, APOSTROPHE))
  {
  }

  lemma LexKept(s: seq<Byte>, p: nat)
    requires p + 1 < |s| && s[p] == BACKSLASH && s[p + 1] != NL && s[p + 1] != 0
    requires s[p + 1] != BACKSLASH && s[p + 1] != APOSTROPHE && s[p + 1] != HASH
    ensures Lex(s, p, APOSTROPHE) == Prefix([BACKSLASH, s[p + 1]], 0, Lex(s, p + 2, APOSTROPHE))
  {
    LexPlain(s, p + 1, APOSTROPHE);
    PrefixPrefix([BACKSLASH], 0, [s[p + 1]], 0, Lex(s, p + 2, APOSTROPHE));
  }

  lemma LexEscaped(s: seq<Byte>, p: nat, q: Byte, n: nat, byte: Byte)
    requires p + 1 < |s| && s[p] == BACKSLASH != q && s[p + 1] != NL && q != APOSTROPHE
    requires EscapeAt(s, p + 1) == Escape(n, byte) && n > 0
    ensures Lex(s, p, q) == Prefix([byte], 0, Lex(s, p + 1 + n, q))
  {
  }

  // ------------------------------------------------------------------------ escapes

  /** Every escape takes its whole source up and stands for the byte that it means. */
  lemma EscapeIs(s: seq<Byte>, p: nat, q: Byte, w: Written)
    requires At(s, p, Source(w)) && p + |Source(w)| < |s|
    requires MayWrite(w, q, s[p + |Source(w)|]) && q != APOSTROPHE && !w.Plain? && !w.Dropped?
    ensures EscapeAt(s, p + 1)
            == Escape(|Source(w)| - 1, Meaning(w, q, s[p + |Source(w)|])[0])
    ensures s[p + 1] != NL
  {
    hide EscapeAt;
    AtIndex(s, p, Source(w), 1);
    match w {
      case Octal(d) =>
        AtConcat(s, p, [BACKSLASH], d, p + 1);
        OctalIs(s, p + 1, d);
      case Hex(x, d) =>
        AtConcat(s, p, [BACKSLASH, x], d, p + 2);
        HexIs(s, p + 1, d);
      case CrLf =>
        AtIndex(s, p, Source(w), 2);
        CarriageReturn(s, p + 1);
      case Slash(_) => ShortIs(s, p + 1);
      case Letter(_) => ShortIs(s, p + 1);
    }
  }

  lemma ShortIs(s: seq<Byte>, p: nat)
    requires p + 1 < |s| && s[p] != 0 && s[p] != 88 && s[p] != 120 && !IsOctal(s[p])
    requires s[p] == CR ==> s[p + 1] != NL
    ensures EscapeAt(s, p) == Escape(1, if LetterByte(s[p]) != 0 then LetterByte(s[p]) else s[p])
  {
  }

  lemma CarriageReturn(s: seq<Byte>, p: nat)
    requires p + 1 < |s| && s[p] == CR && s[p + 1] == NL
    ensures EscapeAt(s, p) == Escape(2, NL)
  {
  }

  lemma OctalIs(s: seq<Byte>, p: nat, d: seq<Byte>)
    requires 1 <= |d| <= 3 && At(s, p, d) && p + |d| < |s|
    requires (forall i :: 0 <= i < |d| ==> IsOctal(d[i])) && (|d| < 3 ==> !IsOctal(s[p + |d|]))
    ensures EscapeAt(s, p) == Escape(|d|, OctalByte(d))
  {
    hide Run, Number;
    forall i | p <= i < p + |d| ensures s[i] == d[i - p] && IsDigit(s[i], 8) {
      AtIndex(s, p, d, i - p);
    }
    ReadDigits(s, p, |d|, 3, 8);
  }

  lemma HexIs(s: seq<Byte>, p: nat, d: seq<Byte>)
    requires |d| <= 2 && At(s, p + 1, d) && p + 1 + |d| < |s| && (s[p] == 88 || s[p] == 120)
    requires (forall i :: 0 <= i < |d| ==> IsHex(d[i])) && (|d| < 2 ==> !IsHex(s[p + 1 + |d|]))
    ensures EscapeAt(s, p) == Escape(|d| + 1, if |d| == 0 then s[p] else if |d| == 1 then HexValue(d[0])
                                              else HexValue(d[0]) * 16 + HexValue(d[1]))
  {
    hide Run, Number, EscapeAt, IsHex, HexValue, IsDigit, DigitValue;
    var b := p + 1;
    forall i | b <= i < b + |d|
      ensures s[i] == d[i - b] && IsDigit(s[i], 16) && DigitValue(s[i]) == HexValue(d[i - b]) < 16
    {
      AtIndex(s, b, d, i - b);
      HexDigitIs(d[i - b]);
    }
    HexDigitIs(s[b + |d|]);
    ReadDigits(s, b, |d|, 2, 16);
    HexEscape(s, p, |d|);
  }

  lemma HexDigitIs(c: Byte)
    ensures IsHex(c) <==> IsDigit(c, 16)
    ensures IsHex(c) ==> DigitValue(c) == HexValue(c) < 16
  {
  }

  lemma HexEscape(s: seq<Byte>, p: nat, n: nat)
    requires p < |s| && (s[p] == 88 || s[p] == 120) && n == Run(s, p + 1, 2, 16)
    ensures EscapeAt(s, p) == if n == 0 then Escape(1, s[p])
                              else Escape(n + 1, Number(s, p + 1, n, 16) % 256)
  {
    hide Run, Number;
  }

  /** At most three digits in front of something else, or as many as there may be. */
  lemma ReadDigits(s: seq<Byte>, p: nat, n: nat, max: nat, radix: nat)
    requires n <= max <= 3 && p + n < |s| && forall i :: p <= i < p + n ==> IsDigit(s[i], radix)
    requires n < max ==> !IsDigit(s[p + n], radix)
    ensures Run(s, p, max, radix) == n
    ensures n == 0 ==> Number(s, p, n, radix) == 0
    ensures n == 1 ==> Number(s, p, n, radix) == DigitValue(s[p])
    ensures n == 2 ==> Number(s, p, n, radix) == DigitValue(s[p]) * radix + DigitValue(s[p + 1])
    ensures n == 3 ==> Number(s, p, n, radix)
                       == (DigitValue(s[p]) * radix + DigitValue(s[p + 1])) * radix + DigitValue(s[p + 2])
  {
    if n > 0 { DigitsRun(s, p, n, max, radix); }
    if n >= 1 { assert Number(s, p, 0, radix) == 0 && Number(s, p, 1, radix) == DigitValue(s[p]); }
    if n >= 2 {
      assert Number(s, p, 2, radix) == Number(s, p, 1, radix) * radix + DigitValue(s[p + 1]);
    }
  }

  lemma {:induction false} DigitsRun(s: seq<Byte>, p: nat, n: nat, max: nat, radix: nat)
    requires n <= max && p + n < |s| && forall i :: p <= i < p + n ==> IsDigit(s[i], radix)
    requires n < max ==> !IsDigit(s[p + n], radix)
    ensures Run(s, p, max, radix) == n
    decreases n
  {
    if n > 0 { DigitsRun(s, p + 1, n - 1, max - 1, radix); }
  }

  // ------------------------------------------------------------------- strings that end early

  /** A string that ends before its closing quote, perhaps behind a backslash. */
  lemma NoClosingQuote(s: seq<Byte>, p: nat, q: Byte, ws: seq<Written>, end: nat)
    requires At(s, p, Sources(ws)) && end == p + |Sources(ws)| < |s|
    requires q != 0 && q != BACKSLASH && MayWriteAll(ws, q, s[end])
    requires s[end] == 0 || (s[end] == BACKSLASH && end + 1 < |s| && s[end + 1] == 0)
    ensures Lex(s, p, q) == Malformed(LinesOf(ws))
  {
    LexWritten(s, p, q, ws, end);
    if s[end] != 0 {
      assert q == APOSTROPHE ==> Lex(s, end + 1, q) == Malformed(0);
    }
  }
}
