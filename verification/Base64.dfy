// The base64 codec: encoding and decoding into a bounded buffer, and the decoding context that
// carries an unfinished group from one call to the next.
module Base64 {
  import opened CTypes
  import opened Base64Spec

  // ------------------------------------------------------------- the output buffer

  /** The first o bytes of the buffer are s, and behind them it is as it was. */
  ghost predicate Holds(out: array<Byte>, o: nat, s: seq<Byte>, was: seq<Byte>)
    reads out
  {
    && o == |s| <= out.Length == |was|
    && out[..o] == s
    && forall i :: o <= i < out.Length ==> out[i] == was[i]
  }

  /** *out++ = c */
  method Put(out: array<Byte>, o: nat, c: Byte, ghost s: seq<Byte>, ghost was: seq<Byte>)
    requires Holds(out, o, s, was) && o < out.Length
    modifies out
    ensures Holds(out, o + 1, s + [c], was)
  {
    out[o] := c;
  }

  // -------------------------------------------------------------------- encoding

  /** base64_encode_fast: in is a multiple of three bytes and out has the exact size. */
  method EncodeFast(input: seq<Byte>, out: array<Byte>)
    requires |input| % 3 == 0 && |input| / 3 * 4 <= out.Length
    modifies out
    ensures Holds(out, |input| / 3 * 4, Encoded(input), old(out[..]))
  {
    hide Encoded, EncodedGroup, ToChar, Sextet;
    var rest, o := input, 0;
    ghost var k, done, was := |input| / 3, [], out[..];
    while rest != []
      invariant |rest| == 3 * k && o + 4 * k == |input| / 3 * 4
      invariant Holds(out, o, done, was) && done + Encoded(rest) == Encoded(input)
      decreases |rest|
    {
      ghost var g := EncodedGroup(rest);
      FullGroup(rest);
      Put(out, o, ToChar(rest[0] / 4), done, was);
      Put(out, o + 1, ToChar(Sextet(rest[0], rest[1], 16, 16)), done + [g[0]], was);
      Put(out, o + 2, ToChar(Sextet(rest[1], rest[2], 4, 64)), done + [g[0]] + [g[1]], was);
      Put(out, o + 3, ToChar(rest[2] % 64), done + [g[0]] + [g[1]] + [g[2]], was);
      FourCharacters(done, g, Encoded(rest[3..]));
      done, k := done + g, k - 1;
      rest, o := rest[3..], o + 4;
    }
  }

  lemma FullGroup(s: seq<Byte>)
    requires 3 <= |s|
    ensures EncodedGroup(s)[0] == ToChar(s[0] / 4)
    ensures EncodedGroup(s)[1] == ToChar(Sextet(s[0], s[1], 16, 16))
    ensures EncodedGroup(s)[2] == ToChar(Sextet(s[1], s[2], 4, 64))
    ensures EncodedGroup(s)[3] == ToChar(s[2] % 64)
    ensures Encoded(s) == EncodedGroup(s) + Encoded(s[3..])
  {
    assert ByteAt(s, 1) == s[1] && ByteAt(s, 2) == s[2];
    GroupChar(s, 0);
    GroupChar(s, 1);
    GroupChar(s, 2);
    GroupChar(s, 3);
    assert AfterGroup(s) == s[3..];
  }

  lemma GroupChar(s: seq<Byte>, k: nat)
    requires s != [] && k < 4
    ensures EncodedGroup(s)[k] == EncodedChar(s, k)
  {
  }

  lemma FourCharacters(s: seq<Byte>, g: seq<Byte>, more: seq<Byte>)
    requires |g| == 4
    ensures s + [g[0]] + [g[1]] + [g[2]] + [g[3]] == s + g
    ensures s + (g + more) == s + g + more
  {
  }

  /** base64_encode: as many characters as fit, and a NUL when there is room for it. */
  method Encode(input: seq<Byte>, out: array<Byte>, outLen: nat)
    requires outLen <= out.Length
    modifies out
    ensures var e := Encoded(input);
            if |e| < outLen then Holds(out, |e| + 1, e + [0], old(out[..]))
            else Holds(out, outLen, e[..outLen], old(out[..]))
  {
    if outLen % 4 == 0 && |input| == outLen / 4 * 3 {
      EncodeFast(input, out);
      return;
    }
    var rest, o, left := input, 0, outLen;
    ghost var e, done, was := Encoded(input), [], out[..];
    while rest != [] && left != 0
      invariant o + left == outLen && Holds(out, o, done, was)
      invariant EncodeState(e, done, rest, left)
      decreases left
    {
      ghost var room := left;
      o, left := EncodeStep(rest, out, o, left, done, was);
      TruncateConcat(e, rest, done, room, left);
      done := done + Truncate(EncodedGroup(rest), room);
      rest := AfterGroup(rest);
    }
    if left != 0 {
      assert done + [] == done;
      Put(out, o, 0, done, was);
    }
  }

  /** done is written, and the encoding of rest would complete it unless the room is used up. */
  ghost predicate EncodeState(e: seq<Byte>, done: seq<Byte>, rest: seq<Byte>, left: nat) {
    done <= e && (done + Encoded(rest) == e || left == 0)
  }

  lemma TruncateConcat(e: seq<Byte>, rest: seq<Byte>, done: seq<Byte>, room: nat, left: nat)
    requires rest != [] && EncodeState(e, done, rest, room) && room != 0
    requires |Truncate(EncodedGroup(rest), room)| + left == room
    ensures EncodeState(e, done + Truncate(EncodedGroup(rest), room), AfterGroup(rest), left)
  {
    var g, more := EncodedGroup(rest), Encoded(AfterGroup(rest));
    var t := Truncate(g, room);
    Associative(done, g, more);
    assert done + t <= done + g <= e;
    if |g| <= room {
      assert t == g;
    }
  }

  /** One round of the loop of base64_encode. */
  method EncodeStep(s: seq<Byte>, out: array<Byte>, start: nat, room: nat,
                    ghost done: seq<Byte>, ghost was: seq<Byte>)
      returns (o: nat, left: nat)
    requires s != [] && room != 0 && start + room <= out.Length
    requires Holds(out, start, done, was)
    modifies out
    ensures o + left == start + room
    ensures Holds(out, o, done + Truncate(EncodedGroup(s), room), was)
  {
    var inLen := |s|;
    o, left := start, room;
    ghost var g := EncodedGroup(s);
    Put(out, o, ToChar(s[0] / 4), done, was);
    o, left := o + 1, left - 1;
    assert g[..1] == [g[0]];
    if left == 0 { return; }
    inLen := inLen - 1;
    Put(out, o, ToChar(Sextet(s[0], if inLen != 0 then s[1] else 0, 16, 16)), done + g[..1], was);
    o, left := o + 1, left - 1;
    NextCharacter(done, g, 1);
    if left == 0 { return; }
    if inLen != 0 {
      inLen := inLen - 1;
      Put(out, o, ToChar(Sextet(s[1], if inLen != 0 then s[2] else 0, 4, 64)), done + g[..2], was);
    } else {
      Put(out, o, PAD, done + g[..2], was);
    }
    o, left := o + 1, left - 1;
    NextCharacter(done, g, 2);
    if left == 0 { return; }
    Put(out, o, if inLen != 0 then ToChar(s[2] % 64) else PAD, done + g[..3], was);
    o, left := o + 1, left - 1;
    NextCharacter(done, g, 3);
    assert g[..4] == g;
  }

  lemma NextCharacter(done: seq<Byte>, g: seq<Byte>, k: nat)
    requires k < |g|
    ensures done + g[..k] + [g[k]] == done + g[..k + 1]
  {
  }

  // -------------------------------------------------------------------- decoding

  /** The first o bytes of the buffer are s; behind its first limit bytes it is as it was. */
  ghost predicate Wrote(out: array<Byte>, o: nat, s: seq<Byte>, limit: nat, was: seq<Byte>)
    reads out
  {
    && o == |s| <= limit <= out.Length == |was|
    && out[..o] == s
    && forall i :: limit <= i < out.Length ==> out[i] == was[i]
  }

  /** if (*outleft) { *out++ = c; --*outleft; } */
  method PutIfRoom(out: array<Byte>, start: nat, room: nat, c: Byte,
                   ghost s: seq<Byte>, ghost was: seq<Byte>)
      returns (o: nat, left: nat)
    requires Wrote(out, start, s, start + room, was)
    modifies out
    ensures left == (if room == 0 then 0 else room - 1) && o + left == start + room
    ensures Wrote(out, o, s + Truncate([c], room), start + room, was)
  {
    o, left := start, room;
    if left != 0 {
      out[o] := c;
      o, left := o + 1, left - 1;
    } else {
      assert s + Truncate([c], room) == s;
    }
  }

  /** decode_4. */
  method Decode4(s: seq<Byte>, out: array<Byte>, start: nat, room: nat,
                 ghost done: seq<Byte>, ghost was: seq<Byte>)
      returns (ok: bool, o: nat, left: nat)
    requires Wrote(out, start, done, start + room, was)
    modifies out
    ensures ok == DecodedGroup(s).ok && o + left == start + room
    ensures Wrote(out, o, done + Truncate(DecodedGroup(s).bytes, room), start + room, was)
  {
    o, left := start, room;
    if |s| < 2 || !IsBase64(s[0]) || !IsBase64(s[1]) {
      NoBytes(s, done, room);
      return false, o, left;
    }
    o, left := PutIfRoom(out, o, left, Octet(s, 0), done, was);
    OneByte(s, done, room);
    if |s| == 2 { return false, o, left; }
    if s[2] == PAD {
      if |s| != 4 { return false, o, left; }
      if s[3] != PAD { return false, o, left; }
    } else {
      if !IsBase64(s[2]) { return false, o, left; }
      o, left := PutIfRoom(out, o, left, Octet(s, 1), done + Truncate(Octets(s, 1), room), was);
      TwoBytes(s, done, room);
      if |s| == 3 { return false, o, left; }
      if s[3] == PAD {
        if |s| != 4 { return false, o, left; }
      } else {
        if !IsBase64(s[3]) { return false, o, left; }
        o, left := PutIfRoom(out, o, left, Octet(s, 2), done + Truncate(Octets(s, 2), room), was);
        ThreeBytes(s, done, room);
      }
    }
    return true, o, left;
  }

  lemma NoBytes(s: seq<Byte>, done: seq<Byte>, room: nat)
    requires |s| < 2 || !IsBase64(s[0]) || !IsBase64(s[1])
    ensures !DecodedGroup(s).ok && done + Truncate(DecodedGroup(s).bytes, room) == done
  {
  }

  lemma OneByte(s: seq<Byte>, done: seq<Byte>, room: nat)
    requires 2 <= |s| && IsBase64(s[0]) && IsBase64(s[1])
    ensures Octets(s, 1) == [Octet(s, 0)]
    ensures |s| == 2 || !IsBase64(s[2]) ==>
            DecodedGroup(s) == Group(Octets(s, 1), |s| == 4 && s[2] == PAD && s[3] == PAD)
  {
    if |s| == 2 || !IsBase64(s[2]) {
      assert Digits(s) == 2;
    }
  }

  lemma TwoBytes(s: seq<Byte>, done: seq<Byte>, room: nat)
    requires 3 <= |s| && IsBase64(s[0]) && IsBase64(s[1]) && IsBase64(s[2])
    ensures AddTruncated(done, Octets(s, 1), Octet(s, 1), room) == done + Truncate(Octets(s, 2), room)
    ensures |s| == 3 || !IsBase64(s[3]) ==>
            DecodedGroup(s) == Group(Octets(s, 2), |s| == 4 && s[3] == PAD)
  {
    assert Octets(s, 2) == Octets(s, 1) + [Octet(s, 1)];
    TruncateNext(done, Octets(s, 1), Octet(s, 1), room);
    if |s| == 3 || !IsBase64(s[3]) {
      assert Digits(s) == 3;
    }
  }

  lemma ThreeBytes(s: seq<Byte>, done: seq<Byte>, room: nat)
    requires 4 <= |s| && forall k :: 0 <= k < 4 ==> IsBase64(s[k])
    ensures AddTruncated(done, Octets(s, 2), Octet(s, 2), room) == done + Truncate(Octets(s, 3), room)
    ensures DecodedGroup(s) == Group(Octets(s, 3), true)
  {
    assert Octets(s, 3) == Octets(s, 2) + [Octet(s, 2)];
    TruncateNext(done, Octets(s, 2), Octet(s, 2), room);
    assert Digits(s) >= 4;
  }

  ghost function AddTruncated(done: seq<Byte>, b: seq<Byte>, c: Byte, room: nat): seq<Byte> {
    done + Truncate(b, room) + Truncate([c], if room <= |b| then 0 else room - |b|)
  }

  lemma TruncateNext(done: seq<Byte>, b: seq<Byte>, c: Byte, room: nat)
    ensures AddTruncated(done, b, c, room) == done + Truncate(b + [c], room)
  {
  }

  // ---------------------------------------------------------------------- contexts

  /** struct base64_decode_context: the characters of an unfinished group. */
  class DecodeContext {
    var i: nat
    const buf: array<Byte>

    ghost predicate Valid()
      reads this, buf
    {
      i <= 4 && buf.Length == 4
    }

    /** The characters carried to the next call; a full buffer has been decoded. */
    ghost function Carried(): (c: seq<Byte>)
      requires Valid()
      reads this, buf
      ensures |c| < 4
    {
      if i == 4 then [] else buf[..i]
    }

    /** base64_decode_ctx_init. */
    constructor ()
      ensures Valid() && Carried() == [] && fresh(buf)
    {
      i := 0;
      buf := new Byte[4];
    }

    /** get_4: the next four characters that are no newlines, or what there is. */
    method Get4(input: seq<Byte>, p: nat) returns (nonNl: seq<Byte>, newP: nat)
      requires Valid() && p <= |input|
      modifies this, buf
      ensures Valid()
      ensures var pending := old(Carried()) + Strip(input[p..]);
              if 4 <= |pending|
              then nonNl == pending[..4] && Carried() == [] && p < newP <= |input|
                   && Strip(input[newP..]) == pending[4..]
              else nonNl == pending && Carried() == pending && newP == |input|
    {
      if i == 4 {
        i := 0;
      }
      if i == 0 {
        if 4 <= |input| - p && NEWLINE !in input[p..p + 4] {
          FourWithoutNewline(input, p);
          assert [] + Strip(input[p..]) == Strip(input[p..]);
          return input[p..p + 4], p + 4;
        }
      }
      newP := Fill(input, p);
      nonNl := buf[..i];
    }

    /** The loop of get_4: copy up to 4 - i characters that are no newlines into the buffer. */
    method Fill(input: seq<Byte>, p: nat) returns (newP: nat)
      requires Valid() && i < 4 && p <= |input|
      modifies this, buf
      ensures Valid()
      ensures var pending := old(buf[..i]) + Strip(input[p..]);
              if 4 <= |pending|
              then i == 4 && buf[..4] == pending[..4] && p < newP <= |input|
                   && Strip(input[newP..]) == pending[4..]
              else i == |pending| && buf[..i] == pending && newP == |input|
    {
      ghost var pending := buf[..i] + Strip(input[p..]);
      newP := p;
      while newP < |input|
        invariant Valid() && i < 4 && p <= newP <= |input|
        invariant buf[..i] + Strip(input[newP..]) == pending
      {
        var c := input[newP];
        ghost var kept := buf[..i];
        StripNext(input, newP);
        newP := newP + 1;
        if c != NEWLINE {
          buf[i] := c;
          i := i + 1;
          assert buf[..i] == kept + [c];
          Associative(kept, [c], Strip(input[newP..]));
          if i == 4 {
            GroupAndMore(buf[..4], Strip(input[newP..]));
            return;
          }
        }
      }
      assert buf[..i] + [] == buf[..i];
    }
  }

  lemma StripNext(s: seq<Byte>, p: nat)
    requires p < |s|
    ensures Strip(s[p..]) == (if s[p] == NEWLINE then [] else [s[p]]) + Strip(s[p + 1..])
  {
    assert s[p..][1..] == s[p + 1..];
  }

  lemma FourWithoutNewline(s: seq<Byte>, p: nat)
    requires p + 4 <= |s| && NEWLINE !in s[p..p + 4]
    ensures Strip(s[p..]) == s[p..p + 4] + Strip(s[p + 4..])
  {
    StripNothing(s[p..p + 4]);
    StripConcat(s[p..p + 4], s[p + 4..]);
    assert s[p..] == s[p..p + 4] + s[p + 4..];
  }

  // ------------------------------------------------------------- base64_decode_ctx

  function Prepend(b: seq<Byte>, d: Decoded): Decoded {
    Decoded(b + d.bytes, d.rest, d.ok)
  }

  /** A decoded group in front of what is decoded after it. */
  lemma PrependGroup(b: seq<Byte>, g: seq<Byte>, d: Decoded)
    ensures Prepend(b, Prepend(g, d)) == Prepend(b + g, d)
  {
    Associative(b, g, d.bytes);
  }

  lemma TruncateSum(b: seq<Byte>, g: seq<Byte>, room: nat)
    ensures var t := Truncate(b, room);
            t + Truncate(g, room - |t|) == Truncate(b + g, room)
  {
  }

  /** A group that decode_4 accepts has no newline in it, and reads the same on its own. */
  lemma GoodGroup(s: seq<Byte>)
    requires DecodedGroup(s).ok
    ensures 4 <= |s| && NEWLINE !in s[..4] && DecodedGroup(s[..4]) == DecodedGroup(s)
  {
    var g := s[..4];
    if Digits(s) < 4 {
      assert g == s;
      forall k | 0 <= k < 4 ensures g[k] != NEWLINE {
        if Digits(s) <= k { assert s[k] == PAD; }
      }
    } else {
      assert forall k :: 0 <= k < 4 ==> IsBase64(g[k]);
      assert Digits(g) == 4;
      assert Octets(g, 3) == Octets(s, 3);
    }
  }

  lemma StreamGroup(s: seq<Byte>, p: nat)
    requires p <= |s| && DecodedGroup(s[p..]).ok
    ensures p + 4 <= |s|
    ensures Stream(Strip(s[p..])) ==
            Prepend(DecodedGroup(s[p..]).bytes, Stream(Strip(s[p + 4..])))
    ensures Unit(s[p..]) == Prepend(DecodedGroup(s[p..]).bytes, Unit(s[p + 4..]))
  {
    GoodGroup(s[p..]);
    assert s[p..][..4] == s[p..p + 4] && s[p..][4..] == s[p + 4..];
    FourWithoutNewline(s, p);
    GroupAndMore(s[p..p + 4], Strip(s[p + 4..]));
  }

  /** Having decoded the bytes b up to position p, what is left to decode at p completes them to
      what b0 and the input from start on decode to: with and without a context. */
  ghost predicate SameDecoding(input: seq<Byte>, b0: seq<Byte>, start: nat, b: seq<Byte>, p: nat) {
    && start <= p <= |input|
    && Prepend(b0, Stream(Strip(input[start..]))) == Prepend(b, Stream(Strip(input[p..])))
    && Prepend(b0, Unit(input[start..])) == Prepend(b, Unit(input[p..]))
  }

  lemma NextGroup(input: seq<Byte>, b0: seq<Byte>, start: nat, b: seq<Byte>, p: nat)
    requires SameDecoding(input, b0, start, b, p) && DecodedGroup(input[p..]).ok
    ensures SameDecoding(input, b0, start, b + DecodedGroup(input[p..]).bytes, p + 4)
  {
    var g := DecodedGroup(input[p..]).bytes;
    StreamGroup(input, p);
    PrependGroup(b, g, Stream(Strip(input[p + 4..])));
    PrependGroup(b, g, Unit(input[p + 4..]));
  }

  /** The buffer after a group that was rejected, with outleft before and after it. */
  ghost predicate Rejected(out: array<Byte>, o: nat, left: nat, saved: nat, b: seq<Byte>,
                           g: Group, limit: nat, was: seq<Byte>)
    reads out
  {
    && !g.ok && o + left == limit && left <= saved <= limit
    && Wrote(out, o, Truncate(b + g.bytes, limit), limit, was)
    && Wrote(out, limit - saved, Truncate(b, limit), limit, was)
    && (g.bytes == [] ==> o == limit - saved)
  }

  /** One call of decode_4 in the inner loop. */
  method FastStep(s: seq<Byte>, out: array<Byte>, o0: nat, left0: nat, ghost b: seq<Byte>,
                  ghost limit: nat, ghost was: seq<Byte>)
      returns (ok: bool, o: nat, left: nat)
    requires o0 + left0 == limit && Wrote(out, o0, Truncate(b, limit), limit, was)
    modifies out
    ensures ok == DecodedGroup(s).ok && o + left == limit
    ensures Wrote(out, o, Truncate(b + DecodedGroup(s).bytes, limit), limit, was)
    ensures !ok ==> Rejected(out, o, left, left0, b, DecodedGroup(s), limit, was)
  {
    ghost var t, g := Truncate(b, limit), DecodedGroup(s).bytes;
    TruncateSum(b, g, limit);
    ok, o, left := Decode4(s, out, o0, left0, t, was);
    RolledBack(out, o, t, g, b, limit, was);
  }

  /** The inner loop: decode groups until one is not valid, which may be partly written. */
  method FastGroups(input: seq<Byte>, start: nat, out: array<Byte>, o0: nat, left0: nat,
                    ghost b0: seq<Byte>, ghost limit: nat, ghost was: seq<Byte>)
      returns (p: nat, o: nat, left: nat, saved: nat, ghost b: seq<Byte>)
    requires start <= |input| && o0 + left0 == limit
    requires Wrote(out, o0, Truncate(b0, limit), limit, was)
    modifies out
    ensures SameDecoding(input, b0, start, b, p)
    ensures Rejected(out, o, left, saved, b, DecodedGroup(input[p..]), limit, was)
  {
    p, o, left, b := start, o0, left0, b0;
    while true
      invariant SameDecoding(input, b0, start, b, p) && o + left == limit
      invariant Wrote(out, o, Truncate(b, limit), limit, was)
      decreases |input| - p
    {
      saved := left;
      var ok;
      ok, o, left := FastStep(input[p..], out, o, left, b, limit, was);
      if !ok {
        return;
      }
      NextGroup(input, b0, start, b, p);
      p, b := p + 4, b + DecodedGroup(input[p..]).bytes;
    }
  }

  lemma RolledBack(out: array<Byte>, o: nat, t: seq<Byte>, g: seq<Byte>, b: seq<Byte>,
                   limit: nat, was: seq<Byte>)
    requires t == Truncate(b, limit) && |t| <= o
    requires Wrote(out, o, Truncate(b + g, limit), limit, was)
    ensures Wrote(out, |t|, t, limit, was)
    ensures g == [] ==> o == |t|
  {
    assert t <= Truncate(b + g, limit);
    assert out[..|t|] == out[..o][..|t|];
    assert b + [] == b;
  }

  /** base64_decode_ctx without a context: newlines are garbage, the input is one unit. */
  method DecodeUnit(input: seq<Byte>, out: array<Byte>, outLen: nat) returns (ok: bool, written: nat)
    requires outLen <= out.Length
    modifies out
    ensures var d := Unit(input);
            ok == d.ok && Wrote(out, written, Truncate(d.bytes, outLen), outLen, old(out[..]))
  {
    var p, o, left, saved;
    ghost var b, was := [], out[..];
    p, o, left, saved, b := FastGroups(input, 0, out, 0, outLen, [], outLen, was);
    assert input[0..] == input;
    PrependNothing(Unit(input));
    if p == |input| {
      assert Unit(input[p..]).bytes == [] && b + [] == b;
      return true, o;
    }
    o, left := o - (saved - left), saved;
    ok, o, left := FastStep(input[p..], out, o, left, b, outLen, was);
    return ok, o;
  }

  lemma PrependNothing(d: Decoded)
    ensures Prepend([], d) == d
  {
  }

  /** b is decoded, and what is carried and the input from p on are left to decode. */
  ghost predicate StreamState(carried: seq<Byte>, input: seq<Byte>, p: nat, b: seq<Byte>,
                              whole: Decoded) {
    p <= |input| && whole == Prepend(b, Stream(carried + Strip(input[p..])))
  }

  lemma StartState(carried: seq<Byte>, input: seq<Byte>)
    ensures StreamState(carried, input, 0, [], Stream(carried + Strip(input)))
  {
    assert input[0..] == input;
    PrependNothing(Stream(carried + Strip(input)));
  }

  /** The inner loop went from p to p', with nothing carried. */
  lemma FastState(input: seq<Byte>, p: nat, b: seq<Byte>, p': nat, b': seq<Byte>, whole: Decoded)
    requires StreamState([], input, p, b, whole) && SameDecoding(input, b, p, b', p')
    ensures StreamState([], input, p', b', whole)
  {
    NothingCarried(Strip(input[p..]));
    NothingCarried(Strip(input[p'..]));
  }

  lemma NothingCarried(s: seq<Byte>)
    ensures [] + s == s
  {
  }

  lemma SkipNewline(carried: seq<Byte>, input: seq<Byte>, p: nat, b: seq<Byte>, whole: Decoded)
    requires StreamState(carried, input, p, b, whole) && p < |input| && input[p] == NEWLINE
    ensures StreamState(carried, input, p + 1, b, whole)
  {
    StripNext(input, p);
    NothingCarried(Strip(input[p + 1..]));
  }

  /** The input is used up and what is left is no whole group: that is carried. */
  lemma UsedUp(carried: seq<Byte>, input: seq<Byte>, p: nat, b: seq<Byte>, whole: Decoded)
    requires StreamState(carried, input, p, b, whole)
    requires |carried + Strip(input[p..])| < 4
    ensures whole == Decoded(b, carried + Strip(input[p..]), true)
  {
    assert b + [] == b;
  }

  /** The group that get_4 returned was decoded, or it was not valid. */
  lemma TakeGroup(carried: seq<Byte>, input: seq<Byte>, p: nat, b: seq<Byte>, whole: Decoded,
                  p': nat)
    requires StreamState(carried, input, p, b, whole) && p' <= |input|
    requires 4 <= |carried + Strip(input[p..])|
    requires Strip(input[p'..]) == (carried + Strip(input[p..]))[4..]
    ensures var g := DecodedGroup((carried + Strip(input[p..]))[..4]);
            if g.ok then StreamState([], input, p', b + g.bytes, whole)
            else whole.bytes == b + g.bytes && !whole.ok
  {
    var pending := carried + Strip(input[p..]);
    var g := DecodedGroup(pending[..4]);
    NothingCarried(Strip(input[p'..]));
    if g.ok {
      PrependGroup(b, g.bytes, Stream(pending[4..]));
    }
  }

  /** One round of the main loop on a chunk; over says that it ends the call. */
  method StreamRound(ctx: DecodeContext, fast: bool, input: seq<Byte>, p0: nat, out: array<Byte>,
                     o0: nat, left0: nat, ghost b0: seq<Byte>, ghost whole: Decoded,
                     ghost limit: nat, ghost was: seq<Byte>)
      returns (over: bool, ok: bool, p: nat, o: nat, left: nat, ghost b: seq<Byte>)
    requires ctx.Valid() && out != ctx.buf
    requires StreamState(ctx.Carried(), input, p0, b0, whole) && (fast ==> ctx.Carried() == [])
    requires o0 + left0 == limit && Wrote(out, o0, Truncate(b0, limit), limit, was)
    modifies ctx, ctx.buf, out
    ensures ctx.Valid()
    ensures !over ==> StreamState(ctx.Carried(), input, p, b, whole) && p0 < p <= |input|
    ensures !over ==> o + left == limit && Wrote(out, o, Truncate(b, limit), limit, was)
    ensures !over ==> ctx.Carried() == old(ctx.Carried()) || ctx.Carried() == []
    ensures over ==> ok == whole.ok && (ok ==> ctx.Carried() == whole.rest)
    ensures over ==> Wrote(out, o, Truncate(whole.bytes, limit), limit, was)
  {
    ghost var carried := ctx.Carried();
    var saved;
    p, o, left, saved, b := FastPart(fast, carried, input, p0, out, o0, left0, b0, whole, limit, was);
    assert ctx.Carried() == carried;
    if p == |input| {
      UsedUp(carried, input, p, b, whole);
      return true, true, p, o, left, b;
    }
    if input[p] == NEWLINE {
      SkipNewline(carried, input, p, b, whole);
      return false, true, p + 1, o, left, b;
    }
    o, left := o - (saved - left), saved;
    over, ok, p, o, left, b := SlowGroup(ctx, input, p, out, o, left, b, whole, limit, was);
  }

  /** The part of the round with the inner loop, which is left out while a group is carried. */
  method FastPart(fast: bool, ghost carried: seq<Byte>, input: seq<Byte>, p0: nat,
                  out: array<Byte>, o0: nat, left0: nat, ghost b0: seq<Byte>,
                  ghost whole: Decoded, ghost limit: nat, ghost was: seq<Byte>)
      returns (p: nat, o: nat, left: nat, saved: nat, ghost b: seq<Byte>)
    requires StreamState(carried, input, p0, b0, whole) && (fast ==> carried == [])
    requires o0 + left0 == limit && Wrote(out, o0, Truncate(b0, limit), limit, was)
    modifies out
    ensures StreamState(carried, input, p, b, whole) && p0 <= p
    ensures o + left == limit && left <= saved <= limit
    ensures Wrote(out, limit - saved, Truncate(b, limit), limit, was)
    ensures p == |input| || input[p] == NEWLINE ==> Wrote(out, o, Truncate(b, limit), limit, was)
  {
    p, o, left, saved, b := p0, o0, left0, left0, b0;
    if fast {
      p, o, left, saved, b := FastGroups(input, p0, out, o0, left0, b0, limit, was);
      FastState(input, p0, b0, p, b, whole);
      NoGroupHere(input[p..]);
    }
  }

  lemma NoGroupHere(s: seq<Byte>)
    ensures s == [] || s[0] == NEWLINE ==> DecodedGroup(s).bytes == []
  {
  }

  /** The part of the round that goes through get_4. */
  method SlowGroup(ctx: DecodeContext, input: seq<Byte>, p0: nat, out: array<Byte>,
                   o0: nat, left0: nat, ghost b0: seq<Byte>, ghost whole: Decoded,
                   ghost limit: nat, ghost was: seq<Byte>)
      returns (over: bool, ok: bool, p: nat, o: nat, left: nat, ghost b: seq<Byte>)
    requires ctx.Valid() && out != ctx.buf && p0 < |input|
    requires StreamState(ctx.Carried(), input, p0, b0, whole)
    requires o0 + left0 == limit && Wrote(out, o0, Truncate(b0, limit), limit, was)
    modifies ctx, ctx.buf, out
    ensures ctx.Valid()
    ensures !over ==> StreamState(ctx.Carried(), input, p, b, whole) && p0 < p <= |input|
    ensures !over ==> o + left == limit && Wrote(out, o, Truncate(b, limit), limit, was)
    ensures !over ==> ctx.Carried() == []
    ensures over ==> ok == whole.ok && (ok ==> ctx.Carried() == whole.rest)
    ensures over ==> Wrote(out, o, Truncate(whole.bytes, limit), limit, was)
  {
    ghost var carried := ctx.Carried();
    var nonNl;
    nonNl, p := ctx.Get4(input, p0);
    o, left, b := o0, left0, b0;
    if nonNl == [] || |nonNl| < 4 {
      UsedUp(carried, input, p0, b, whole);
      return true, true, p, o, left, b;
    }
    TakeGroup(carried, input, p0, b, whole, p);
    ok, o, left := FastStep(nonNl, out, o, left, b, limit, was);
    over := !ok;
    b := b + DecodedGroup(nonNl).bytes;
  }

  /** base64_decode_ctx with a context and an empty input: what is carried is flushed. */
  method Flush(ctx: DecodeContext, out: array<Byte>, outLen: nat) returns (ok: bool, written: nat)
    requires ctx.Valid() && out != ctx.buf && outLen <= out.Length
    modifies ctx, ctx.buf, out
    ensures ctx.Valid() && ctx.Carried() == old(ctx.Carried())
    ensures ok == (old(ctx.Carried()) == [])
    ensures var g := DecodedGroup(old(ctx.Carried()));
            Wrote(out, written, Truncate(g.bytes, outLen), outLen, old(out[..]))
  {
    var nonNl, p, left;
    nonNl, p := ctx.Get4([], 0);
    assert nonNl == old(ctx.Carried()) == ctx.Carried();
    if nonNl == [] {
      return true, 0;
    }
    ok, written, left := FastStep(nonNl, out, 0, outLen, [], outLen, out[..]);
    NothingCarried(DecodedGroup(nonNl).bytes);
  }

  /** base64_decode_ctx with a context: the next chunk of a stream. */
  method DecodeChunk(ctx: DecodeContext, input: seq<Byte>, out: array<Byte>, outLen: nat)
      returns (ok: bool, written: nat)
    requires ctx.Valid() && out != ctx.buf && outLen <= out.Length && input != []
    modifies ctx, ctx.buf, out
    ensures ctx.Valid()
    ensures var d := Stream(old(ctx.Carried()) + Strip(input));
            && ok == d.ok && (ok ==> ctx.Carried() == d.rest)
            && Wrote(out, written, Truncate(d.bytes, outLen), outLen, old(out[..]))
  {
    var fast, over := ctx.i == 0, false;
    var p: nat, o: nat, left: nat := 0, 0, outLen;
    ghost var b, was, whole := [], out[..], Stream(ctx.Carried() + Strip(input));
    StartState(ctx.Carried(), input);
    while true
      invariant ctx.Valid() && (fast ==> ctx.Carried() == [])
      invariant StreamState(ctx.Carried(), input, p, b, whole)
      invariant o + left == outLen && Wrote(out, o, Truncate(b, outLen), outLen, was)
      decreases |input| - p
    {
      over, ok, p, o, left, b :=
        StreamRound(ctx, fast, input, p, out, o, left, b, whole, outLen, was);
      if over {
        return ok, o;
      }
    }
  }

  /** base64_decode_ctx. */
  method DecodeCtx(ctx: DecodeContext?, input: seq<Byte>, out: array<Byte>, outLen: nat)
      returns (ok: bool, written: nat)
    requires outLen <= out.Length && (ctx != null ==> ctx.Valid() && out != ctx.buf)
    modifies out, if ctx == null then {} else {ctx, ctx.buf}
    ensures ctx == null ==>
            var d := Unit(input);
            ok == d.ok && Wrote(out, written, Truncate(d.bytes, outLen), outLen, old(out[..]))
    ensures ctx != null ==> ctx.Valid()
    ensures ctx != null && input != [] ==>
            var d := Stream(old(ctx.Carried()) + Strip(input));
            && ok == d.ok && (ok ==> ctx.Carried() == d.rest)
            && Wrote(out, written, Truncate(d.bytes, outLen), outLen, old(out[..]))
    ensures ctx != null && input == [] ==>
            && ok == (old(ctx.Carried()) == []) && ctx.Carried() == old(ctx.Carried())
            && Wrote(out, written, Truncate(DecodedGroup(old(ctx.Carried())).bytes, outLen),
                     outLen, old(out[..]))
  {
    if ctx == null {
      ok, written := DecodeUnit(input, out, outLen);
    } else if input == [] {
      ok, written := Flush(ctx, out, outLen);
    } else {
      ok, written := DecodeChunk(ctx, input, out, outLen);
    }
  }
}
