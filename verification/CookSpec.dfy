// What the quoted strings of a configuration file mean: a lexer on unchanging text, and the
// quoting that it undoes.
module CookSpec {
  import opened CText
  import opened CTypes

  const NL: Byte := 10
  const CR: Byte := 13
  const QUOTE: Byte := 34       // '"'
  const HASH: Byte := 35
  const APOSTROPHE: Byte := 39
  const STAR: Byte := 42
  const SLASH: Byte := 47
  const BACKSLASH: Byte := 92

  // -------------------------------------------------------------------- escapes

  /** The characters that an escape takes up behind its backslash, and the byte it stands for;
      none at the end of the string. */
  datatype Escape = Escape(count: nat, byte: Byte)

  function EscapeAt(s: seq<Byte>, p: nat): (e: Escape)
    requires p < |s|
    ensures p + e.count <= |s|
  {
    var c := s[p];
    if c == 0 then Escape(0, 0)
    else if c == CR && p + 1 < |s| && s[p + 1] == NL then Escape(2, NL)
    else if c == 97 then Escape(1, 7)
    else if c == 98 then Escape(1, 8)
    else if c == 102 then Escape(1, 12)
    else if c == 110 then Escape(1, NL)
    else if c == 114 then Escape(1, CR)
    else if c == 116 then Escape(1, 9)
    else if c == 118 then Escape(1, 11)
    else if c == 88 || c == 120 then
      var n := Run(s, p + 1, 2, 16);
      if n == 0 then Escape(1, c) else Escape(n + 1, Number(s, p + 1, n, 16) % 256)
    else if IsDigit(c, 8) then
      var n := Run(s, p, 3, 8);
      var v := Number(s, p, n, 8);
      Escape(n, if v > 255 then 255 else v)
    else Escape(1, c)
  }

  // ------------------------------------------------------- between quoted strings

  /** What follows a closing quote: another quoted string, the end, or a bad comment. */
  datatype Joint =
    | More(quote: Byte, next: nat, lines: nat)
    | Stop(next: nat, lines: nat)
    | Broken(lines: nat)

  function AddLines(n: nat, j: Joint): Joint {
    match j
    case More(q, next, lines) => More(q, next, n + lines)
    case Stop(next, lines) => Stop(next, n + lines)
    case Broken(lines) => Broken(n + lines)
  }

  /** The first c at p or behind it, or |s|. */
  function IndexOf(s: seq<Byte>, c: Byte, p: nat): (i: nat)
    requires p <= |s|
    ensures p <= i <= |s|
    decreases |s| - p
  {
    if p == |s| || s[p] == c then p else IndexOf(s, c, p + 1)
  }

  predicate EndsComment(s: seq<Byte>, i: nat) {
    i + 1 < |s| && s[i] == STAR && s[i + 1] == SLASH
  }

  /** The first end of a block comment at p or behind it, or |s|. */
  function CommentEnd(s: seq<Byte>, p: nat): (i: nat)
    requires p <= |s|
    ensures p <= i <= |s| && (i < |s| ==> EndsComment(s, i))
    decreases |s| - p
  {
    if p == |s| || EndsComment(s, p) then p else CommentEnd(s, p + 1)
  }

  function NewlinesIn(s: seq<Byte>): nat {
    if s == [] then 0 else (if s[0] == NL then 1 else 0) + NewlinesIn(s[1..])
  }

  lemma {:induction false} NewlinesConcat(a: seq<Byte>, b: seq<Byte>)
    ensures NewlinesIn(a + b) == NewlinesIn(a) + NewlinesIn(b)
  {
    if a == [] {
      assert a + b == b;
    } else {
      assert (a + b)[1..] == a[1..] + b;
      NewlinesConcat(a[1..], b);
    }
  }

  function JointAt(s: seq<Byte>, p: nat): Joint
    requires p <= |s|
    decreases |s| - p
  {
    if p == |s| then Stop(p, 0)
    else if IsWhite(s[p]) then AddLines(if s[p] == NL then 1 else 0, JointAt(s, p + 1))
    else if s[p] == QUOTE || s[p] == APOSTROPHE then More(s[p], p + 1, 0)
    else if s[p] == SLASH then
      if p + 1 < |s| && s[p + 1] == SLASH then
        var i := IndexOf(s, NL, p);
        if i == |s| || i == p then Broken(0) else JointAt(s, i)
      else if p + 1 < |s| && s[p + 1] == STAR then
        var i := CommentEnd(s, p + 2);
        if i == |s| then Broken(0) else AddLines(NewlinesIn(s[p..i]), JointAt(s, i + 2))
      else Broken(0)
    else Stop(p, 0)
  }

  lemma {:induction false} JointBounds(s: seq<Byte>, p: nat)
    requires p <= |s|
    ensures var j := JointAt(s, p);
            && (j.More? ==> p < j.next <= |s|)
            && (j.Stop? ==> p <= j.next <= |s|)
            && (j.More? ==> j.quote == QUOTE || j.quote == APOSTROPHE)
            && (IsString(s) && p < |s| && !j.Broken? ==> j.next < |s|)
    decreases |s| - p
  {
    hide IndexOf, CommentEnd;
    if p < |s| {
      if IsWhite(s[p]) {
        JointBounds(s, p + 1);
      } else if s[p] == SLASH && p + 1 < |s| && s[p + 1] == SLASH {
        var i := IndexOf(s, NL, p);
        if i < |s| && i != p { JointBounds(s, i); }
      } else if s[p] == SLASH && p + 1 < |s| && s[p + 1] == STAR {
        var i := CommentEnd(s, p + 2);
        if i < |s| { JointBounds(s, i + 2); }
      }
    }
  }

  // -------------------------------------------------------------------- the lexer

  /** The text of the strings, the position behind them and the lines counted; or not well formed. */
  datatype Cooked = Cooked(text: seq<Byte>, next: nat, lines: nat) | Malformed(lines: nat)

  /** More text and lines in front of a result. */
  function Prefix(text: seq<Byte>, lines: nat, c: Cooked): Cooked {
    match c
    case Cooked(t, next, n) => Cooked(text + t, next, lines + n)
    case Malformed(n) => Malformed(lines + n)
  }

  lemma PrefixPrefix(a: seq<Byte>, m: nat, b: seq<Byte>, n: nat, c: Cooked)
    ensures Prefix(a, m, Prefix(b, n, c)) == Prefix(a + b, m + n, c)
  {
    if c.Cooked? {
      assert a + (b + c.text) == (a + b) + c.text;
    }
  }

  lemma NothingMore(a: seq<Byte>)
    ensures a + [] == a
  {
  }

  /** The quoted strings from position p on, inside a string quoted with q. */
  function Lex(s: seq<Byte>, p: nat, q: Byte): Cooked
    requires p <= |s|
    decreases |s| - p
  {
    if p == |s| then Malformed(0)
    else if s[p] == q then
      JointBounds(s, p + 1);
      match JointAt(s, p + 1)
      case More(q', next, lines) => Prefix([], lines, Lex(s, next, q'))
      case Stop(next, lines) => Cooked([], next, lines)
      case Broken(lines) => Malformed(lines)
    else if s[p] == 0 then Malformed(0)
    else if s[p] != BACKSLASH || p + 1 == |s| then
      Prefix([s[p]], if s[p] == NL then 1 else 0, Lex(s, p + 1, q))
    else if s[p + 1] == NL then Prefix([], 1, Lex(s, p + 2, q))
    else if q != APOSTROPHE then
      var e := EscapeAt(s, p + 1);
      if e.count == 0 then Malformed(0) else Prefix([e.byte], 0, Lex(s, p + 1 + e.count, q))
    else if s[p + 1] == BACKSLASH || s[p + 1] == APOSTROPHE || s[p + 1] == HASH then
      Prefix([s[p + 1]], 0, Lex(s, p + 2, q))
    else Prefix([BACKSLASH], 0, Lex(s, p + 1, q))
  }
}
