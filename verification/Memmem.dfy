// memmem and strcasestr: the two users of the Two-Way search.
module Memmem {
  import opened CTypes
  import opened Words
  import opened Search
  import opened TwoWay
  import opened Memchr

  const LONG_NEEDLE_THRESHOLD := 32

  /** Dropping k letters of the text that cannot start a match. */
  lemma MatchAfter(t: Word, w: Word, k: nat, r: Option<nat>)
    requires k <= |t| && NoMatchIn(t, w, 0, k)
    requires IsFirstMatch(t[k..], w, r)
    ensures IsFirstMatch(t, w, if r.Some? then Some(k + r.value) else None)
  {
    forall j | k <= j ensures Occurs(t, w, j) <==> Occurs(t[k..], w, j - k) {
      if j + |w| <= |t| {
        assert t[k..][j - k..j - k + |w|] == t[j..j + |w|];
      }
    }
  }

  lemma NoFirstByte(t: Word, w: Word, k: nat)
    requires w != [] && k <= |t| && w[0] !in t[..k]
    ensures NoMatchIn(t, w, 0, k)
  {
    forall j | 0 <= j < k ensures !Occurs(t, w, j) {
      assert t[j] == t[..k][j] != w[0];
      if Occurs(t, w, j) { OccursLetter(t, w, j, 0); }
    }
  }

  /** memmem: the haystack lies at the given address, and memchr reads longwords of size bytes. */
  method Memmem(address: nat, haystackStart: seq<Byte>, needle: seq<Byte>,
                size: nat, bigEndian: bool)
      returns (r: Option<nat>)
    requires |haystackStart| <= SIZE_MAX && |needle| <= SIZE_MAX
    requires 4 <= size && IsPowerOfTwo(size)
    ensures r == FirstOccurrence(haystackStart, needle)
  {
    ghost var t: Word, w: Word := haystackStart, needle;
    var same := (c: Byte) => c;
    if |needle| == 0 {
      return Some(0);
    }
    if |haystackStart| < |needle| {
      return None;
    }
    assert Fold(same, needle) == w;
    ghost var compares, looked;
    if |needle| < LONG_NEEDLE_THRESHOLD {
      var found := Memchr.Memchr(address, haystackStart, needle[0], |haystackStart|, size, bigEndian);
      var k := if found.Some? then found.value else |haystackStart|;
      NoFirstByte(t, w, k);
      if found.None? || |needle| == 1 {
        OneByte(t, w, found);
        return found;
      }
      var haystack := haystackStart[k..];
      if |haystack| < |needle| {
        MatchAfter(t, w, k, None);
        FirstMatchIsNaive(t, w, None, 0);
        return None;
      }
      assert Text(Known, same, haystack) == t[k..];
      r, compares, looked := ShortNeedle(Known, same, haystack, |haystack|, needle);
      MatchAfter(t, w, k, r);
      r := if r.Some? then Some(k + r.value) else None;
    } else {
      assert Text(Known, same, haystackStart) == t;
      r, compares, looked := LongNeedle(Known, same, haystackStart, |haystackStart|, needle);
    }
    FirstMatchIsNaive(t, w, r, 0);
  }

  /** memchr decides alone when it finds nothing, or when the needle is a single byte. */
  lemma OneByte(t: Word, w: Word, r: Option<nat>)
    requires w != [] && (r.Some? ==> |w| == 1 && r.value < |t| && t[r.value] == w[0])
    requires NoMatchIn(t, w, 0, if r.Some? then r.value else |t|)
    ensures FirstOccurrence(t, w) == r
  {
    if r.Some? {
      assert Occurs(t, w, r.value);
    }
    FirstMatchIsNaive(t, w, r, 0);
  }
}

module Strcasestr {
  import opened CTypes
  import opened Search
  import opened TwoWay
  import Memmem

  /** A string without its first character. */
  lemma BehindFirst(f: Byte -> Byte, h: seq<Byte>)
    requires IsHaystack(NulTerminated, h) && h[0] != 0
    ensures IsHaystack(NulTerminated, h[1..])
    ensures Text(NulTerminated, f, h[1..]) == Text(NulTerminated, f, h)[1..]
  {
    assert h[1..][..|h| - 2] == h[1..|h| - 1] == h[..|h| - 1][1..];
  }

  /** A string without its terminator. */
  lemma BeforeNul(f: Byte -> Byte, s: seq<Byte>)
    requires IsHaystack(NulTerminated, s)
    ensures Fold(f, s[..|s| - 1]) == Text(NulTerminated, f, s)
  {
  }

  /** strcasestr, with TOLOWER any function that maps NUL and only NUL to NUL. */
  method Strcasestr(haystackStart: seq<Byte>, needleStart: seq<Byte>, toLower: Byte -> Byte)
      returns (r: Option<nat>)
    requires IsHaystack(NulTerminated, haystackStart) && IsHaystack(NulTerminated, needleStart)
    requires forall c :: toLower(c) == 0 <==> c == 0
    ensures r == FirstOccurrence(Text(NulTerminated, toLower, haystackStart),
                                 Text(NulTerminated, toLower, needleStart))
  {
    ghost var t := Text(NulTerminated, toLower, haystackStart);
    ghost var w := Text(NulTerminated, toLower, needleStart);
    var i, ok := 0, true;
    while haystackStart[i] != 0 && needleStart[i] != 0
      invariant i <= |t| && i <= |w|
      invariant ok <==> t[..i] == w[..i]
      decreases |t| - i
    {
      assert t[..i + 1] == t[..i] + [t[i]] && w[..i + 1] == w[..i] + [w[i]];
      ok := ok && toLower(haystackStart[i]) == toLower(needleStart[i]);
      i := i + 1;
    }
    if needleStart[i] != 0 {
      return None;
    }
    assert i == |w| && w[..i] == w;
    if ok {
      return Some(0);
    }
    assert !Occurs(t, w, 0);
    var needle, haystack := needleStart[..i], haystackStart[1..];
    BehindFirst(toLower, haystackStart);
    BeforeNul(toLower, needleStart);
    ghost var compares, looked;
    if |needle| < Memmem.LONG_NEEDLE_THRESHOLD {
      r, compares, looked := ShortNeedle(NulTerminated, toLower, haystack, |needle| - 1, needle);
    } else {
      r, compares, looked := LongNeedle(NulTerminated, toLower, haystack, |needle| - 1, needle);
    }
    Memmem.MatchAfter(t, w, 1, r);
    r := if r.Some? then Some(1 + r.value) else None;
    FirstMatchIsNaive(t, w, r, 0);
  }
}
