// What base64 encoding and decoding mean: whole strings, groups and streams of groups
// (RFC 4648, section 4).
module Base64Spec {
  import opened Arith
  import opened CTypes
  import opened Machine

  const PAD: Byte := 61      // '='
  const NEWLINE: Byte := 10  // '\n'

  // ------------------------------------------------------------------ the alphabet

  /** b64c: the character for a value below 64. */
  function ToChar(v: nat): (c: Byte)
    requires v < 64
    ensures c != PAD && c != NEWLINE && FromChar(c) == v
  {
    if v < 26 then 65 + v
    else if v < 52 then 97 + (v - 26)
    else if v < 62 then 48 + (v - 52)
    else if v == 62 then 43 else 47
  }

  /** b64: the value of a character, or -1. */
  function FromChar(c: Byte): (v: int)
    ensures -1 <= v < 64
  {
    if 65 <= c <= 90 then c - 65
    else if 97 <= c <= 122 then c - 97 + 26
    else if 48 <= c <= 57 then c - 48 + 52
    else if c == 43 then 62
    else if c == 47 then 63 else -1
  }

  predicate IsBase64(c: Byte) { 0 <= FromChar(c) }

  lemma AlphabetIsBijective(c: Byte, v: nat)
    requires v < 64
    ensures FromChar(c) == v <==> c == ToChar(v)
  {
  }

  // -------------------------------------------------------------------- encoding

  /** ((a << shift) + (b >> (8 - shift))) & 0x3f, with the shifts given as factors. */
  function Sextet(a: int, b: int, up: int, down: nat): (v: nat)
    requires 1 <= down
    ensures v < 64
  {
    (a * up + b / down) % 64
  }

  /** Byte k of s, or 0 behind its end. */
  function ByteAt(s: seq<Byte>, k: nat): Byte {
    if k < |s| then s[k] else 0
  }

  /** The k-th character of the group that starts s. */
  function EncodedChar(s: seq<Byte>, k: nat): (c: Byte)
    requires s != [] && k < 4
    ensures c != NEWLINE
  {
    match k
    case 0 => ToChar(s[0] / 4)
    case 1 => ToChar(Sextet(s[0], ByteAt(s, 1), 16, 16))
    case 2 => if |s| > 1 then ToChar(Sextet(s[1], ByteAt(s, 2), 4, 64)) else PAD
    case _ => if |s| > 2 then ToChar(s[2] % 64) else PAD
  }

  function EncodedGroup(s: seq<Byte>): (g: seq<Byte>)
    requires s != []
    ensures |g| == 4
  {
    seq(4, k requires 0 <= k < 4 => EncodedChar(s, k))
  }

  function AfterGroup(s: seq<Byte>): seq<Byte> {
    if |s| <= 3 then [] else s[3..]
  }

  function Encoded(s: seq<Byte>): (e: seq<Byte>)
    ensures |e| == (|s| + 2) / 3 * 4
    decreases |s|
  {
    if s == [] then [] else EncodedGroup(s) + Encoded(AfterGroup(s))
  }

  // -------------------------------------------------------------------- decoding

  /** What decode_4 writes with enough room, and whether it succeeds. */
  datatype Group = Group(bytes: seq<Byte>, ok: bool)

  /** How many characters of the alphabet s starts with. */
  function Digits(s: seq<Byte>): (n: nat)
    ensures n <= |s|
    ensures forall k :: 0 <= k < n ==> IsBase64(s[k])
    ensures n < |s| ==> !IsBase64(s[n])
  {
    if s == [] || !IsBase64(s[0]) then 0 else 1 + Digits(s[1..])
  }

  /** Byte k of a group: the low bits of character k, then the high bits of the next. */
  function Octet(s: seq<Byte>, k: nat): (b: Byte)
    requires k < 3 && k + 1 < |s| && IsBase64(s[k]) && IsBase64(s[k + 1])
  {
    var high, low := FromChar(s[k]), FromChar(s[k + 1]);
    match k
    case 0 => high * 4 + low / 16
    case 1 => high % 16 * 16 + low / 4
    case _ => high % 4 * 64 + low
  }

  function Octets(s: seq<Byte>, n: nat): (b: seq<Byte>)
    requires n <= 3 && n < |s| && forall k :: 0 <= k <= n ==> IsBase64(s[k])
    ensures |b| == n && forall k :: 0 <= k < n ==> b[k] == Octet(s, k)
  {
    seq(n, k requires 0 <= k < n => Octet(s, k))
  }

  /** The sums above are what decode_4 computes with shifts, masks and ors, in an int of w bits:
      e stands for 4, so that no power is unrolled. */
  lemma OctetIsOr(s: seq<Byte>, k: nat, e: nat, w: nat)
    requires k < 3 && k + 1 < |s| && IsBase64(s[k]) && IsBase64(s[k + 1]) && e == 4 && 16 <= w
    ensures var high, low := FromChar(s[k]), FromChar(s[k + 1]);
            match k
            case 0 => Octet(s, 0) == Bitwise(Or, ShiftLeft(high, e - 2, w), low / 16, w)
            case 1 => Octet(s, 1) ==
                      Bitwise(Or, Bitwise(And, ShiftLeft(high, e, w), 0xf0, w), low / 4, w)
            case _ => Octet(s, 2) ==
                      Bitwise(Or, Bitwise(And, ShiftLeft(high, e + 2, w), 0xc0, w), low, w)
  {
    hide Bitwise, ShiftLeft;
    var high, low := FromChar(s[k]), FromChar(s[k + 1]);
    match k
    case 0 => ShiftThenOr(high, low / 16, e, w);
    case 1 => MaskThenOr(high, low / 4, e, e, w, e);
    case _ => MaskThenOr(high, low, e + 2, e - 2, w, e);
  }

  lemma ShiftThenOr(high: nat, low: nat, e: nat, w: nat)
    requires e == 4 && 16 <= w && high < 64 && low < 4
    ensures Bitwise(Or, ShiftLeft(high, e - 2, w), low, w) == 4 * high + low
  {
    hide Bitwise, ShiftLeft, Pow2;
    SmallPowers(e, w);
    ShiftLeftFits(high, e - 2, w);
    OrCommutes(4 * high, low, w);
    OrDisjoint(low, high, e - 2, w - (e - 2));
  }

  lemma MaskThenOr(high: nat, low: nat, s: nat, m: nat, w: nat, e: nat)
    requires e == 4 && 16 <= w && high < 64 && ((s == e && m == e) || (s == e + 2 && m == e - 2))
    requires low < if s == e then 16 else 64
    ensures var p, q := if s == e then 16 else 64, if s == e then 16 else 4;
            Bitwise(Or, Bitwise(And, ShiftLeft(high, s, w), p * (q - 1), w), low, w)
            == p * (high % q) + low
  {
    hide Bitwise, ShiftLeft, Pow2;
    SmallPowers(e, w);
    ShiftAndMask(high, s, m, w);
    OrCommutes(Pow2(s) * (high % Pow2(m)), low, w);
    OrDisjoint(low, high % Pow2(m), s, w - s);
  }

  lemma SmallPowers(e: nat, w: nat)
    requires e == 4 && 16 <= w
    ensures Pow2(e - 2) == 4 && Pow2(e) == 16 && Pow2(e + 2) == 64
    ensures 4096 <= Pow2(w) && 64 <= Pow2(w - (e - 2)) && 64 <= Pow2(w - e) && 64 <= Pow2(w - (e + 2))
  {
    var f := e - 3;
    assert Pow2(f) == 2 && Pow2(f + 1) == 4 && Pow2(f + 2) == 8 && Pow2(f + 3) == 16;
    assert Pow2(f + 4) == 32 && Pow2(f + 5) == 64;
    Pow2Sum(f + 5, f + 5);
    Pow2Monotone(f + 5 + f + 5, w);
    Pow2Monotone(f + 5, w - (e - 2));
    Pow2Monotone(f + 5, w - e);
    Pow2Monotone(f + 5, w - (e + 2));
  }

  /** Padding may stand behind the n-th character of a group that ends the input s. */
  predicate IsPadded(s: seq<Byte>, n: nat) {
    |s| == 4 && forall k :: n <= k < 4 ==> s[k] == PAD
  }

  /** decode_4 on the input s: one group of it, padded only when s ends with that group.
      A group of n characters makes n - 1 bytes. */
  function DecodedGroup(s: seq<Byte>): (g: Group)
    ensures |g.bytes| <= 3 && (g.ok ==> 4 <= |s|) && (!g.ok ==> |g.bytes| <= 2)
  {
    var n := Digits(s);
    if n < 2 then Group([], false)
    else if n < 4 then Group(Octets(s, n - 1), IsPadded(s, n))
    else Group(Octets(s, 3), true)
  }

  /** The bytes decoded, the characters left over, and whether no group was invalid. */
  datatype Decoded = Decoded(bytes: seq<Byte>, rest: seq<Byte>, ok: bool)

  /** Group by group, each group padded or not: what a context makes of a stream. */
  function Stream(p: seq<Byte>): (d: Decoded)
    ensures d.ok ==> |d.rest| < 4
  {
    if |p| < 4 then Decoded([], p, true)
    else
      var g := DecodedGroup(p[..4]);
      if !g.ok then Decoded(g.bytes, p, false)
      else
        var d := Stream(p[4..]);
        Decoded(g.bytes + d.bytes, d.rest, d.ok)
  }

  /** The whole input as one unit, where only the last group may be padded. */
  function Unit(p: seq<Byte>): Decoded {
    if p == [] then Decoded([], [], true)
    else
      var g := DecodedGroup(p);
      if !g.ok then Decoded(g.bytes, p, false)
      else
        var d := Unit(p[4..]);
        Decoded(g.bytes + d.bytes, d.rest, d.ok)
  }

  /** The input without its newlines. */
  function Strip(s: seq<Byte>): (r: seq<Byte>)
    ensures |r| <= |s| && NEWLINE !in r
  {
    if s == [] then []
    else if s[0] == NEWLINE then Strip(s[1..]) else [s[0]] + Strip(s[1..])
  }

  /** What fits into the room that there is. */
  function Truncate(s: seq<Byte>, room: nat): (r: seq<Byte>)
    ensures r <= s && |r| == if |s| <= room then |s| else room
  {
    if |s| <= room then s else s[..room]
  }

  /** Decoding p makes at most three bytes from each four characters. */
  lemma {:induction false} StreamSize(p: seq<Byte>)
    ensures |Stream(p).bytes| <= 3 * (|p| / 4)
    ensures Stream(p).ok ==> |Stream(p).rest| == |p| % 4
  {
    if 4 <= |p| {
      StreamSize(p[4..]);
      QuarterStep(|p|);
    }
  }

  lemma QuarterStep(n: nat)
    requires 4 <= n
    ensures n / 4 == (n - 4) / 4 + 1 && n % 4 == (n - 4) % 4
  {
  }

  lemma {:induction false} UnitSize(p: seq<Byte>)
    ensures |Unit(p).bytes| <= 3 * ((|p| + 3) / 4)
  {
    if p != [] && DecodedGroup(p).ok { UnitSize(p[4..]); }
  }

  // ------------------------------------------------------------ streams and chunks

  lemma {:induction false} StripConcat(a: seq<Byte>, b: seq<Byte>)
    ensures Strip(a + b) == Strip(a) + Strip(b)
  {
    if a == [] {
      assert a + b == b;
    } else {
      assert (a + b)[1..] == a[1..] + b;
      StripConcat(a[1..], b);
    }
  }

  lemma {:induction false} StripNothing(s: seq<Byte>)
    requires NEWLINE !in s
    ensures Strip(s) == s
  {
    if s != [] { StripNothing(s[1..]); }
  }

  /** A stream can be cut anywhere: the characters left over start the next part. */
  lemma {:induction false} StreamConcat(a: seq<Byte>, b: seq<Byte>)
    requires Stream(a).ok
    ensures var d, e := Stream(a), Stream(Stream(a).rest + b);
            Stream(a + b) == Decoded(d.bytes + e.bytes, e.rest, e.ok)
  {
    var e := Stream(Stream(a).rest + b);
    if |a| < 4 {
      assert [] + e.bytes == e.bytes;
    } else {
      assert (a + b)[..4] == a[..4] && (a + b)[4..] == a[4..] + b;
      var g, d := DecodedGroup(a[..4]), Stream(a[4..]);
      StreamConcat(a[4..], b);
      Associative(g.bytes, d.bytes, e.bytes);
      assert Stream(a + b) == Decoded(g.bytes + (d.bytes + e.bytes), e.rest, e.ok);
      assert Stream(a).bytes == g.bytes + d.bytes;
    }
  }

  lemma Associative(a: seq<Byte>, b: seq<Byte>, c: seq<Byte>)
    ensures a + (b + c) == (a + b) + c
  {
  }

  /** Once a group is invalid, more input changes neither the output nor the verdict. */
  lemma {:induction false} StreamFailure(a: seq<Byte>, b: seq<Byte>)
    requires !Stream(a).ok
    ensures !Stream(a + b).ok && Stream(a + b).bytes == Stream(a).bytes
  {
    assert (a + b)[..4] == a[..4] && (a + b)[4..] == a[4..] + b;
    if DecodedGroup(a[..4]).ok { StreamFailure(a[4..], b); }
  }

  function Concat(chunks: seq<seq<Byte>>): seq<Byte> {
    if chunks == [] then [] else chunks[0] + Concat(chunks[1..])
  }

  /** Chunks fed one after the other, the left-over characters of each carried to the next;
      the first invalid group stops the feeding. */
  function Feed(carried: seq<Byte>, chunks: seq<seq<Byte>>): Decoded
    decreases |chunks|
  {
    if chunks == [] then Decoded([], carried, true)
    else
      var d := Stream(carried + Strip(chunks[0]));
      if !d.ok then d
      else
        var e := Feed(d.rest, chunks[1..]);
        Decoded(d.bytes + e.bytes, e.rest, e.ok)
  }

  /** Decoding does not depend on how the stream is cut into chunks. */
  lemma {:induction false} ChunkingIrrelevant(carried: seq<Byte>, chunks: seq<seq<Byte>>)
    requires |carried| < 4
    ensures var f, d := Feed(carried, chunks), Stream(carried + Strip(Concat(chunks)));
            f.bytes == d.bytes && f.ok == d.ok && (f.ok ==> f.rest == d.rest)
    decreases |chunks|
  {
    if chunks == [] {
      assert carried + Strip(Concat(chunks)) == carried;
    } else {
      var a, b := carried + Strip(chunks[0]), Strip(Concat(chunks[1..]));
      StripConcat(chunks[0], Concat(chunks[1..]));
      assert carried + Strip(Concat(chunks)) == a + b;
      if Stream(a).ok {
        ChunkingIrrelevant(Stream(a).rest, chunks[1..]);
        StreamConcat(a, b);
      } else {
        StreamFailure(a, b);
      }
    }
  }

  // -------------------------------------------------------------------- round trip

  /** The value that EncodedChar puts into a character. */
  lemma CharValue(s: seq<Byte>, k: nat)
    requires s != [] && k <= |s| && k < 4
    ensures FromChar(EncodedChar(s, k)) ==
            match k
            case 0 => s[0] / 4
            case 1 => Sextet(s[0], ByteAt(s, 1), 16, 16)
            case 2 => Sextet(s[1], ByteAt(s, 2), 4, 64)
            case _ => s[2] % 64
  {
  }

  /** A sextet takes the low bits of a and the high bits of b. */
  lemma SextetSplit(a: Byte, b: Byte)
    ensures Sextet(a, b, 16, 16) == a % 4 * 16 + b / 16
    ensures Sextet(a, b, 4, 64) == a % 16 * 4 + b / 64
  {
    DivideUnique(a * 16 + b / 16, 64, a / 4, a % 4 * 16 + b / 16);
    DivideUnique(a * 4 + b / 64, 64, a / 16, a % 16 * 4 + b / 64);
  }

  lemma SextetsJoin(a: Byte, b: Byte, c: Byte)
    ensures a / 4 * 4 + Sextet(a, b, 16, 16) / 16 == a
    ensures Sextet(a, b, 16, 16) % 16 * 16 + Sextet(b, c, 4, 64) / 4 == b
    ensures Sextet(b, c, 4, 64) % 4 * 64 + c % 64 == c
  {
    SextetSplit(a, b);
    SextetSplit(b, c);
  }

  lemma OctetRoundTrip(s: seq<Byte>, k: nat)
    requires k < 3 && k < |s|
    ensures var g := EncodedGroup(s);
            IsBase64(g[k]) && IsBase64(g[k + 1]) && Octet(g, k) == s[k]
  {
    CharValue(s, k);
    CharValue(s, k + 1);
    SextetsJoin(s[0], ByteAt(s, 1), ByteAt(s, 2));
  }

  lemma PaddingRoundTrip(s: seq<Byte>, k: nat)
    requires s != [] && |s| < k < 4
    ensures EncodedGroup(s)[k] == PAD
  {
  }

  /** Encoded characters give the bytes back, and the padding is in the right place. */
  lemma GroupRoundTrip(s: seq<Byte>, more: seq<Byte>)
    requires s != [] && (|s| <= 2 ==> more == [])
    ensures DecodedGroup(EncodedGroup(s) + more) == Group(if |s| <= 3 then s else s[..3], true)
  {
    var g, n := EncodedGroup(s), if |s| < 3 then |s| else 3;
    var e := g + more;
    assert forall k :: 0 <= k < 4 ==> e[k] == g[k];
    OctetRoundTrip(s, 0);
    if 1 < n { OctetRoundTrip(s, 1); }
    if 2 < n { OctetRoundTrip(s, 2); }
    if n < 3 {
      PaddingRoundTrip(s, n + 1);
      PaddingRoundTrip(s, 3);
    }
    GroupOf(e, s[..n]);
  }

  /** A group from the characters it consists of. */
  lemma GroupOf(e: seq<Byte>, b: seq<Byte>)
    requires 1 <= |b| <= 3 && 4 <= |e|
    requires forall k :: 0 <= k <= |b| ==> IsBase64(e[k])
    requires forall k :: 0 <= k < |b| ==> Octet(e, k) == b[k]
    requires |b| < 3 ==> IsPadded(e, |b| + 1)
    ensures DecodedGroup(e) == Group(b, true)
  {
    assert Octets(e, |b|) == b;
    if |b| < 3 {
      assert e[|b| + 1] == PAD;
      assert Digits(e) == |b| + 1;
    } else {
      assert Digits(e) >= 4;
    }
  }

  lemma GroupAndMore(g: seq<Byte>, more: seq<Byte>)
    requires |g| == 4
    ensures (g + more)[..4] == g == g + [] && (g + more)[4..] == more
  {
  }

  /** The first group of an encoded string, as bytes and as characters. */
  lemma EncodedStep(s: seq<Byte>)
    requires s != []
    ensures var e, more := Encoded(s), Encoded(AfterGroup(s));
            && e[4..] == more && |e| >= 4
            && DecodedGroup(e).ok && DecodedGroup(e[..4]) == DecodedGroup(e)
            && DecodedGroup(e).bytes + AfterGroup(s) == s
  {
    var g, more := EncodedGroup(s), Encoded(AfterGroup(s));
    GroupAndMore(g, more);
    GroupRoundTrip(s, []);
    GroupRoundTrip(s, more);
  }

  lemma {:induction false} StreamRoundTrip(s: seq<Byte>)
    ensures Stream(Encoded(s)) == Decoded(s, [], true)
    decreases |s|
  {
    if s != [] {
      EncodedStep(s);
      StreamRoundTrip(AfterGroup(s));
    }
  }

  lemma {:induction false} UnitRoundTrip(s: seq<Byte>)
    ensures Unit(Encoded(s)) == Decoded(s, [], true)
    decreases |s|
  {
    if s != [] {
      EncodedStep(s);
      UnitRoundTrip(AfterGroup(s));
    }
  }

  lemma {:induction false} EncodedHasNoNewline(s: seq<Byte>)
    ensures NEWLINE !in Encoded(s)
    decreases |s|
  {
    if s != [] {
      EncodedHasNoNewline(AfterGroup(s));
      forall c | c in EncodedGroup(s) ensures c != NEWLINE {
        var k :| 0 <= k < 4 && EncodedGroup(s)[k] == c;
        assert c == EncodedChar(s, k);
      }
    }
  }

  /** Newlines inserted anywhere into encoded text, cut into any chunks: the bytes come back. */
  lemma WrappedRoundTrip(s: seq<Byte>, chunks: seq<seq<Byte>>)
    requires Strip(Concat(chunks)) == Encoded(s)
    ensures Feed([], chunks) == Decoded(s, [], true)
  {
    ChunkingIrrelevant([], chunks);
    assert [] + Strip(Concat(chunks)) == Encoded(s);
    StreamRoundTrip(s);
  }
}
