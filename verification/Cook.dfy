// ao_string_cook: quoted strings are concatenated and their escapes replaced, in place.
module Cook {
  import opened CText
  import opened CTypes
  import opened CookSpec

  /** The buffer still holds s at position from and behind it. */
  ghost predicate Holds(z: array<Byte>, s: seq<Byte>, from: nat)
    reads z
  {
    z.Length == |s| && forall i :: from <= i < |s| ==> z[i] == s[i]
  }

  /** strchr (z + p, c), for a c that is not NUL. */
  method StrChr(z: array<Byte>, p: nat, c: Byte, ghost s: seq<Byte>) returns (i: nat)
    requires IsString(s) && Holds(z, s, p) && p < |s| && c != 0
    ensures i == IndexOf(s, c, p)
  {
    i := p;
    while z[i] != c
      invariant p <= i < |s| && IndexOf(s, c, p) == IndexOf(s, c, i)
      decreases |s| - i
    {
      if z[i] == 0 {
        assert IndexOf(s, c, i + 1) == |s|;
        return z.Length;
      }
      i := i + 1;
    }
  }

  /** strstr (z + p, "*" "/") */
  method StrStr(z: array<Byte>, p: nat, ghost s: seq<Byte>) returns (i: nat)
    requires IsString(s) && Holds(z, s, p) && p < |s|
    ensures i == CommentEnd(s, p)
  {
    i := p;
    while z[i] != STAR || z[i + 1] != SLASH
      invariant p <= i < |s| && CommentEnd(s, p) == CommentEnd(s, i)
      decreases |s| - i
    {
      if z[i] == 0 {
        assert CommentEnd(s, i + 1) == |s|;
        return z.Length;
      }
      i := i + 1;
    }
  }

  lemma NextNewline(s: seq<Byte>, p: nat, i: nat)
    requires p <= i < |s|
    ensures NewlinesIn(s[p..i + 1]) == NewlinesIn(s[p..i]) + if s[i] == NL then 1 else 0
  {
    assert s[p..i + 1] == s[p..i] + [s[i]];
    NewlinesConcat(s[p..i], [s[i]]);
  }

  /** What the scan from p on finds is what it finds from ps on, after so many lines. */
  ghost predicate JointState(s: seq<Byte>, p: nat, ps: nat, lines: nat) {
    p <= ps < |s| && AddLines(lines, JointAt(s, ps)) == JointAt(s, p)
  }

  lemma AfterWhite(s: seq<Byte>, p: nat, ps: nat, lines: nat)
    requires IsString(s) && JointState(s, p, ps, lines) && IsWhite(s[ps])
    ensures JointState(s, p, ps + 1, if s[ps] == NL then lines + 1 else lines)
  {
  }

  lemma AfterLineComment(s: seq<Byte>, p: nat, ps: nat, lines: nat, i: nat)
    requires IsString(s) && JointState(s, p, ps, lines)
    requires s[ps] == SLASH && s[ps + 1] == SLASH && i == IndexOf(s, NL, ps)
    ensures if i == |s| then JointAt(s, p) == Broken(lines) else ps < i && JointState(s, p, i, lines)
  {
  }

  lemma AfterBlockComment(s: seq<Byte>, p: nat, ps: nat, lines: nat, i: nat)
    requires IsString(s) && JointState(s, p, ps, lines)
    requires s[ps] == SLASH && s[ps + 1] == STAR && i == CommentEnd(s, ps + 2)
    ensures if i == |s| then JointAt(s, p) == Broken(lines)
            else ps < i && JointState(s, p, i + 2, lines + NewlinesIn(s[ps..i]))
  {
  }

  lemma JointEnds(s: seq<Byte>, p: nat, ps: nat, lines: nat)
    requires IsString(s) && JointState(s, p, ps, lines) && !IsWhite(s[ps])
    ensures s[ps] == QUOTE || s[ps] == APOSTROPHE ==> JointAt(s, p) == More(s[ps], ps + 1, lines)
    ensures s[ps] != QUOTE && s[ps] != APOSTROPHE && s[ps] != SLASH ==>
            JointAt(s, p) == Stop(ps, lines)
    ensures s[ps] == SLASH && s[ps + 1] != SLASH && s[ps + 1] != STAR ==>
            JointAt(s, p) == Broken(lines)
  {
  }

  /** contiguous_quote, from behind the closing quote on. */
  method ContiguousQuote(z: array<Byte>, p: nat, ghost s: seq<Byte>) returns (j: Joint)
    requires IsString(s) && Holds(z, s, p) && p < |s|
    ensures j == JointAt(s, p)
  {
    hide JointAt, IsWhite;
    var ps: nat, lines: nat := p, 0;
    while true
      invariant JointState(s, p, ps, lines)
      decreases |s| - ps
    {
      ps, lines := SkipWhite(z, p, ps, lines, s);
      JointEnds(s, p, ps, lines);
      if z[ps] == QUOTE || z[ps] == APOSTROPHE {
        return More(z[ps], ps + 1, lines);
      }
      if z[ps] != SLASH {
        return Stop(ps, lines);
      }
      if z[ps + 1] == SLASH {
        var i := StrChr(z, ps, NL, s);
        AfterLineComment(s, p, ps, lines, i);
        if i == z.Length {
          return Broken(lines);
        }
        ps := i;
      } else if z[ps + 1] == STAR {
        var i := StrStr(z, ps + 2, s);
        AfterBlockComment(s, p, ps, lines, i);
        if i == z.Length {
          return Broken(lines);
        }
        var n := CountLines(z, ps, i, s);
        ps, lines := i + 2, lines + n;
      } else {
        return Broken(lines);
      }
    }
  }

  method SkipWhite(z: array<Byte>, ghost p: nat, ps0: nat, lines0: nat, ghost s: seq<Byte>)
      returns (ps: nat, lines: nat)
    requires IsString(s) && Holds(z, s, p) && JointState(s, p, ps0, lines0)
    ensures JointState(s, p, ps, lines) && ps0 <= ps && !IsWhite(s[ps])
  {
    ps, lines := ps0, lines0;
    while IsWhite(z[ps])
      invariant ps0 <= ps && JointState(s, p, ps, lines)
      decreases |s| - ps
    {
      AfterWhite(s, p, ps, lines);
      lines := if z[ps] == NL then lines + 1 else lines;
      ps := ps + 1;
    }
  }

  method CountLines(z: array<Byte>, from: nat, to: nat, ghost s: seq<Byte>) returns (n: nat)
    requires Holds(z, s, from) && from <= to <= |s|
    ensures n == NewlinesIn(s[from..to])
  {
    var ps := from;
    n := 0;
    while ps < to
      invariant from <= ps <= to && n == NewlinesIn(s[from..ps])
    {
      NextNewline(s, from, ps);
      n := if z[ps] == NL then n + 1 else n;
      ps := ps + 1;
    }
  }

  // -------------------------------------------------------------------- escapes

  /** ct digits are read, which make up val. */
  ghost predicate DigitsRead(s: seq<Byte>, p: nat, max: nat, radix: nat, ct: nat, val: nat) {
    && ct <= max && p + ct < |s|
    && Run(s, p, max, radix) == ct + Run(s, p + ct, max - ct, radix)
    && val == Number(s, p, ct, radix)
  }

  lemma NextDigit(s: seq<Byte>, p: nat, max: nat, radix: nat, ct: nat, val: nat)
    requires IsString(s) && radix <= 16 && DigitsRead(s, p, max, radix, ct, val)
    requires ct < max && IsDigit(s[p + ct], radix)
    ensures DigitsRead(s, p, max, radix, ct + 1, val * radix + DigitValue(s[p + ct]))
  {
    hide Number, Run, DigitValue;
    var k := ct + 1;
    assert p + k < |s| by { LetterBeforeEnd(s, p + ct, radix); }
    RunStep(s, p + ct, max - ct, radix);
    NumberStep(s, p, ct, radix);
  }

  lemma LetterBeforeEnd(s: seq<Byte>, p: nat, radix: nat)
    requires IsString(s) && p < |s| && radix <= 16 && IsDigit(s[p], radix)
    ensures p + 1 < |s|
  {
  }

  lemma RunStep(s: seq<Byte>, p: nat, max: nat, radix: nat)
    requires 0 < max && p < |s| && IsDigit(s[p], radix)
    ensures Run(s, p, max, radix) == 1 + Run(s, p + 1, max - 1, radix)
  {
  }

  lemma NumberStep(s: seq<Byte>, p: nat, n: nat, radix: nat)
    requires p + n < |s|
    ensures Number(s, p, n + 1, radix) == Number(s, p, n, radix) * radix + DigitValue(s[p + n])
  {
  }

  /** At most max digits at p, and the number that they make up. */
  method ReadDigits(z: array<Byte>, p: nat, max: nat, radix: nat, ghost s: seq<Byte>)
      returns (ct: nat, val: nat)
    requires IsString(s) && Holds(z, s, p) && p < |s| && radix <= 16
    ensures ct == Run(s, p, max, radix) && p + ct < |s| && val == Number(s, p, ct, radix)
  {
    ct, val := 0, 0;
    while ct < max && IsDigit(z[p + ct], radix)
      invariant DigitsRead(s, p, max, radix, ct, val)
      decreases max - ct
    {
      NextDigit(s, p, max, radix, ct, val);
      val := val * radix + DigitValue(z[p + ct]);
      ct := ct + 1;
    }
  }

  /** ao_string_cook_escape_char, with a newline for an escaped newline. */
  method EscapeChar(z: array<Byte>, p: nat, ghost s: seq<Byte>) returns (e: Escape)
    requires IsString(s) && Holds(z, s, p) && p < |s|
    ensures e == EscapeAt(s, p) && (e.count > 0 ==> p + e.count < |s|)
  {
    var c := z[p];
    if c == 0 {
      return Escape(0, 0);
    } else if c == CR {
      if z[p + 1] != NL { return Escape(1, CR); }
      return Escape(2, NL);
    } else if c == NL {
      return Escape(1, NL);
    } else if c == 97 {
      return Escape(1, 7);
    } else if c == 98 {
      return Escape(1, 8);
    } else if c == 102 {
      return Escape(1, 12);
    } else if c == 110 {
      return Escape(1, NL);
    } else if c == 114 {
      return Escape(1, CR);
    } else if c == 116 {
      return Escape(1, 9);
    } else if c == 118 {
      return Escape(1, 11);
    } else if c == 120 || c == 88 {
      if IsDigit(z[p + 1], 16) {
        var ct, val := ReadDigits(z, p + 1, 2, 16, s);
        return Escape(ct + 1, val % 256);
      }
      return Escape(1, c);
    } else if IsDigit(c, 8) {
      var ct, val := ReadDigits(z, p, 3, 8, s);
      return Escape(ct, if val > 0xFF then 0xFF else val);
    }
    return Escape(1, c);
  }

  // ---------------------------------------------------------------- the in-place loop

  /** The text cooked so far is at the front of the buffer, strictly before the read position,
      and the rest of the input is untouched and completes the result. */
  ghost predicate CookState(z: array<Byte>, s: seq<Byte>, d: nat, p: nat, q: Byte, lines: nat,
                            whole: Cooked)
    reads z
  {
    && d < p < |s| && Holds(z, s, p)
    && whole == Prefix(z[..d], lines, Lex(s, p, q))
  }

  /** A backslash in front of position p. */
  lemma LexEscape(s: seq<Byte>, p: nat, q: Byte, text: seq<Byte>, lines: nat, whole: Cooked)
    requires IsString(s) && 0 < p < |s| && s[p - 1] == BACKSLASH != q
    requires whole == Prefix(text, lines, Lex(s, p - 1, q))
    ensures var c, e := s[p], EscapeAt(s, p);
            if c == NL then whole == Prefix(text, lines + 1, Lex(s, p + 1, q))
            else if q != APOSTROPHE then
              if e.count == 0 then whole == Malformed(lines)
              else whole == Prefix(text + [e.byte], lines, Lex(s, p + e.count, q))
            else if c == BACKSLASH || c == APOSTROPHE || c == HASH then
              whole == Prefix(text + [c], lines, Lex(s, p + 1, q))
            else whole == Prefix(text + [BACKSLASH], lines, Lex(s, p, q))
  {
    var c, e := s[p], EscapeAt(s, p);
    if c == NL {
      PrefixPrefix(text, lines, [], 1, Lex(s, p + 1, q));
      NothingMore(text);
    } else if q != APOSTROPHE {
      PrefixPrefix(text, lines, [e.byte], 0, Lex(s, p + e.count, q));
    } else if c == BACKSLASH || c == APOSTROPHE || c == HASH {
      PrefixPrefix(text, lines, [c], 0, Lex(s, p + 1, q));
    } else {
      PrefixPrefix(text, lines, [BACKSLASH], 0, Lex(s, p, q));
    }
  }

  /** A closing quote at position p. */
  lemma LexJoint(s: seq<Byte>, p: nat, q: Byte, text: seq<Byte>, lines: nat, whole: Cooked)
    requires IsString(s) && p + 1 < |s| && s[p] == q
    requires whole == Prefix(text, lines, Lex(s, p, q))
    ensures match JointAt(s, p + 1)
            case More(q', next, n) =>
              p < next < |s| && q' != 0 && whole == Prefix(text, lines + n, Lex(s, next, q'))
            case Stop(next, n) => p < next < |s| && whole == Cooked(text, next, lines + n)
            case Broken(n) => whole == Malformed(lines + n)
  {
    JointBounds(s, p + 1);
    NothingMore(text);
    match JointAt(s, p + 1)
    case More(q', next, n) => PrefixPrefix(text, lines, [], n, Lex(s, next, q'));
    case _ =>
  }

  /** Copy one character, or replace one escape; without success the string ends too early. */
  method CookStep(z: array<Byte>, d0: nat, p0: nat, q: Byte, lines0: nat,
                  ghost s: seq<Byte>, ghost whole: Cooked)
      returns (ok: bool, d: nat, p: nat, lines: nat)
    requires IsString(s) && CookState(z, s, d0, p0, q, lines0, whole) && s[p0] != q
    modifies z
    ensures if ok then CookState(z, s, d, p, q, lines, whole) && p0 < p
            else whole == Malformed(lines)
  {
    ghost var text := z[..d0];
    d, p, lines := d0, p0, lines0;
    var c := z[p];
    z[d] := c;
    d, p := d + 1, p + 1;
    assert z[..d] == text + [c];
    if c == 0 {
      return false, d, p, lines;
    }
    if c == BACKSLASH {
      ok, d, p, lines := EscapeStep(z, d, p, q, lines, s, text, whole);
      return;
    }
    if c == NL {
      lines := lines + 1;
    }
    PrefixPrefix(text, lines0, [c], lines - lines0, Lex(s, p, q));
    ok := true;
  }

  /** The character behind a backslash, which is copied already. */
  method EscapeStep(z: array<Byte>, d0: nat, p0: nat, q: Byte, lines0: nat,
                    ghost s: seq<Byte>, ghost text: seq<Byte>, ghost whole: Cooked)
      returns (ok: bool, d: nat, p: nat, lines: nat)
    requires IsString(s) && 0 < d0 < p0 < |s| && Holds(z, s, p0)
    requires z[..d0] == text + [BACKSLASH] && s[p0 - 1] == BACKSLASH != q
    requires whole == Prefix(text, lines0, Lex(s, p0 - 1, q))
    modifies z
    ensures if ok then CookState(z, s, d, p, q, lines, whole) && p0 <= p
            else whole == Malformed(lines)
  {
    LexEscape(s, p0, q, text, lines0, whole);
    d, p, lines, ok := d0, p0, lines0, true;
    if z[p] == NL {
      p, d, lines := p + 1, d - 1, lines + 1;
      assert z[..d] == text;
    } else if q != APOSTROPHE {
      var e := EscapeChar(z, p, s);
      if e.count == 0 {
        return false, d, p, lines;
      }
      z[d - 1] := e.byte;
      p := p + e.count;
      assert z[..d] == text + [e.byte];
    } else if z[p] == BACKSLASH || z[p] == APOSTROPHE || z[p] == HASH {
      z[d - 1] := z[p];
      p := p + 1;
      assert z[..d] == text + [s[p - 1]];
    }
  }

  /** What ao_string_cook leaves in the buffer z and returns, when the input was s and c is
      what its quoted strings mean. */
  ghost predicate IsResult(z: seq<Byte>, s: seq<Byte>, c: Cooked, r: Option<nat>, lines: nat) {
    && |z| == |s| && lines == c.lines
    && match c
       case Cooked(text, next, _) =>
         && r == Some(next) && |text| < next <= |s|
         && z[..|text|] == text && z[|text|] == 0 && z[next..] == s[next..]
       case Malformed(_) => r == None
  }

  /** At a closing quote: end the text, for now, and look for another quoted string. */
  method CloseQuote(z: array<Byte>, d: nat, p: nat, q: Byte, ghost lines: nat,
                    ghost s: seq<Byte>, ghost whole: Cooked)
      returns (j: Joint)
    requires IsString(s) && CookState(z, s, d, p, q, lines, whole) && s[p] == q && q != 0
    modifies z
    ensures match j
            case More(q', next, n) =>
              p < next && q' != 0 && CookState(z, s, d, next, q', lines + n, whole)
            case Stop(next, n) => IsResult(z[..], s, whole, Some(next), lines + n)
            case Broken(n) => IsResult(z[..], s, whole, None, lines + n)
  {
    ghost var text := z[..d];
    z[d] := 0;
    assert z[..d] == text && p + 1 < |s|;
    j := ContiguousQuote(z, p + 1, s);
    LexJoint(s, p, q, text, lines, whole);
    assert forall i :: p < i < |s| ==> z[..][i] == s[i];
  }

  /** ao_string_cook, on the buffer from the opening quote up to its NUL: z.Length - 1 is the
      position of that NUL, so that no byte behind it is read. */
  method StringCook(z: array<Byte>, lnct: nat) returns (r: Option<nat>, lines: nat)
    requires IsString(z[..]) && z[0] != 0
    modifies z
    ensures IsResult(z[..], old(z[..]), Prefix([], lnct, Lex(old(z[..]), 1, old(z[0]))), r, lines)
  {
    ghost var s, whole := z[..], Prefix([], lnct, Lex(z[..], 1, z[0]));
    var q, d: nat, p: nat := z[0], 0, 1;
    lines := lnct;
    assert z[..0] == [];
    while true
      invariant CookState(z, s, d, p, q, lines, whole) && q != 0
      decreases |s| - p
    {
      if z[p] == q {
        var j := CloseQuote(z, d, p, q, lines, s, whole);
        match j {
          case More(q', next, n) => q, p, lines := q', next, lines + n;
          case Stop(next, n) => return Some(next), lines + n;
          case Broken(n) => return None, lines + n;
        }
      } else {
        var ok;
        ok, d, p, lines := CookStep(z, d, p, q, lines, s, whole);
        if !ok {
          return None, lines;
        }
      }
    }
  }
}
