// C strings, the character classes of the option library, and the digits that strtoul reads.
module CText {
  import opened CTypes

  /** The bytes of an ASCII text. */
  function Bytes(t: string): (b: seq<Byte>)
    ensures |b| == |t|
    ensures forall i :: 0 <= i < |t| ==> b[i] == t[i] as int % 256
  {
    seq(|t|, i requires 0 <= i < |t| => t[i] as int % 256)
  }

  /** A C string with its terminator. */
  ghost predicate IsString(s: seq<Byte>) {
    s != [] && s[|s| - 1] == 0 && forall i :: 0 <= i < |s| - 1 ==> s[i] != 0
  }

  /** The class WHITESPACE, which also holds the backspace. */
  predicate IsWhite(c: Byte) { 8 <= c <= 13 || c == 32 }

  function DigitValue(c: Byte): (v: nat) {
    if 48 <= c <= 57 then c - 48
    else if 65 <= c <= 70 then c - 55
    else if 97 <= c <= 102 then c - 87
    else 99
  }

  predicate IsDigit(c: Byte, radix: nat) { DigitValue(c) < radix }

  /** The digits of all radices up to sixteen, in both cases, and nothing else. */
  lemma DigitCharacters(c: Byte, v: nat)
    requires v < 16
    ensures DigitValue(c) == v
            <==> c == "0123456789abcdef"[v] as int || c == "0123456789ABCDEF"[v] as int
  {
  }

  /** The white space of the option library. */
  lemma WhiteCharacters(c: Byte)
    ensures IsWhite(c) <==> c == 8 || c in Bytes("\t\n\U{B}\U{C}\r ")
  {
    var b := Bytes("\t\n\U{B}\U{C}\r ");
    assert b == [9, 10, 11, 12, 13, 32];
  }

  /** The number of digits at p, but at most max of them. */
  function Run(s: seq<Byte>, p: nat, max: nat, radix: nat): (n: nat)
    ensures n <= max && (n == 0 || p + n <= |s|)
    decreases max
  {
    if max > 0 && p < |s| && IsDigit(s[p], radix) then 1 + Run(s, p + 1, max - 1, radix) else 0
  }

  /** strtoul on n digits. */
  function Number(s: seq<Byte>, p: nat, n: nat, radix: nat): nat
    requires p + n <= |s|
  {
    if n == 0 then 0 else Number(s, p, n - 1, radix) * radix + DigitValue(s[p + n - 1])
  }

  // -------------------------------------------------------------------- positions

  /** x stands at position p of s. */
  ghost predicate At(s: seq<Byte>, p: nat, x: seq<Byte>) {
    p + |x| <= |s| && forall i :: 0 <= i < |x| ==> SameAt(s, p, x, i)
  }

  ghost predicate SameAt(s: seq<Byte>, p: nat, x: seq<Byte>, i: nat) {
    i < |x| && p + i < |s| && s[p + i] == x[i]
  }

  lemma AtConcat(s: seq<Byte>, p: nat, a: seq<Byte>, b: seq<Byte>, p': nat)
    requires At(s, p, a + b) && p' == p + |a|
    ensures At(s, p, a) && At(s, p', b)
  {
    forall i | 0 <= i < |a| ensures SameAt(s, p, a, i) {
      assert SameAt(s, p, a + b, i);
    }
    forall i | 0 <= i < |b| ensures SameAt(s, p', b, i) {
      assert SameAt(s, p, a + b, |a| + i);
    }
  }

  lemma AtIndex(s: seq<Byte>, p: nat, x: seq<Byte>, i: nat)
    requires At(s, p, x) && i < |x|
    ensures s[p + i] == x[i]
  {
    assert SameAt(s, p, x, i);
  }

  // ------------------------------------------------------------------------ digits

  lemma {:induction false} RunIs(s: seq<Byte>, p: nat, n: nat, max: nat, radix: nat)
    requires p + n < |s| && n < max && !IsDigit(s[p + n], radix)
    requires forall i :: p <= i < p + n ==> IsDigit(s[i], radix)
    ensures Run(s, p, max, radix) == n
    decreases n
  {
    if n > 0 { RunIs(s, p + 1, n - 1, max - 1, radix); }
  }

  lemma {:induction false} NumberAt(s: seq<Byte>, p: nat, d: seq<Byte>, n: nat, radix: nat)
    requires At(s, p, d) && n <= |d|
    ensures Number(s, p, n, radix) == Number(d, 0, n, radix)
    decreases n
  {
    if n > 0 {
      NumberAt(s, p, d, n - 1, radix);
      AtIndex(s, p, d, n - 1);
    }
  }
}
