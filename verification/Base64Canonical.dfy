// When encoding gives back what was decoded: the decoder accepts any pad bits, the encoder
// writes zeros (the canonical form of RFC 4648, section 3.5).
module Base64Canonical {
  import opened CTypes
  import opened Base64Spec

  /** The bits of the last character before the padding that no byte takes up are zero. */
  predicate ZeroPadBits(s: seq<Byte>) {
    var n := |s|;
    4 <= n ==>
      && (s[n - 2] == PAD ==> FromChar(s[n - 3]) % 16 == 0)
      && (s[n - 2] != PAD && s[n - 1] == PAD ==> FromChar(s[n - 2]) % 4 == 0)
  }

  /** Each sextet is found again in the octets that it went into. */
  lemma SplitOctets(v0: nat, v1: nat, v2: nat, v3: nat)
    requires v0 < 64 && v1 < 64 && v2 < 64 && v3 < 64
    ensures (v0 * 4 + v1 / 16) / 4 == v0
    ensures (v0 * 4 + v1 / 16) % 4 * 16 + (v1 % 16 * 16 + v2 / 4) / 16 == v1
    ensures (v1 % 16 * 16 + v2 / 4) % 16 * 4 + (v2 % 4 * 64 + v3) / 64 == v2
    ensures (v2 % 4 * 64 + v3) % 64 == v3
  {
  }

  /** Which characters the bytes of a group are encoded to. */
  lemma CharsOf(e: seq<Byte>, c: seq<Byte>)
    requires e != [] && |c| == 4
    requires e[0] / 4 == FromChar(c[0])
    ensures var v1 := e[0] % 4 * 16 + ByteAt(e, 1) / 16;
            EncodedGroup(e)[0] == c[0] && (EncodedGroup(e)[1] == c[1] <==> FromChar(c[1]) == v1)
    ensures var v2 := ByteAt(e, 1) % 16 * 4 + ByteAt(e, 2) / 64;
            EncodedGroup(e)[2] == c[2] <==> if |e| > 1 then FromChar(c[2]) == v2 else c[2] == PAD
    ensures EncodedGroup(e)[3] == c[3]
            <==> if |e| > 2 then FromChar(c[3]) == e[2] % 64 else c[3] == PAD
  {
    hide FromChar, ToChar, Sextet;
    SextetSplit(e[0], ByteAt(e, 1));
    SextetSplit(ByteAt(e, 1), ByteAt(e, 2));
    AlphabetIsBijective(c[0], e[0] / 4);
    AlphabetIsBijective(c[1], Sextet(e[0], ByteAt(e, 1), 16, 16));
    if |e| > 1 { AlphabetIsBijective(c[2], Sextet(e[1], ByteAt(e, 2), 4, 64)); }
    if |e| > 2 { AlphabetIsBijective(c[3], e[2] % 64); }
  }

  /** The four characters of an unpadded group are encoded again, whatever bytes follow. */
  lemma FullGroupAgain(s: seq<Byte>, more: seq<Byte>)
    requires Digits(s) >= 4
    ensures EncodedGroup(Octets(s, 3) + more) == s[..4]
    ensures AfterGroup(Octets(s, 3) + more) == more
  {
    hide Digits, FromChar, EncodedGroup, ToChar;
    var e, c := Octets(s, 3) + more, s[..4];
    assert c[0] == s[0] && c[1] == s[1] && c[2] == s[2] && c[3] == s[3] && e[3..] == more;
    SplitOctets(FromChar(s[0]), FromChar(s[1]), FromChar(s[2]), FromChar(s[3]));
    CharsOf(e, c);
    Four(EncodedGroup(e), c);
  }

  lemma Four(a: seq<Byte>, b: seq<Byte>)
    requires |a| == |b| == 4
    ensures a == b <==> a[0] == b[0] && a[1] == b[1] && a[2] == b[2] && a[3] == b[3]
  {
  }

  /** The last group, with n characters before its padding. */
  lemma PaddedGroupAgain(s: seq<Byte>, n: nat)
    requires Digits(s) == n && 2 <= n < 4 && IsPadded(s, n)
    ensures Encoded(Octets(s, n - 1)) == s <==> ZeroPadBits(s)
  {
    hide Digits, FromChar, EncodedGroup, ToChar;
    var b := Octets(s, n - 1);
    assert Encoded(b) == EncodedGroup(b) + [] == EncodedGroup(b);
    SplitOctets(FromChar(s[0]), FromChar(s[1]), if n == 3 then FromChar(s[2]) else 0, 0);
    CharsOf(b, s);
    Four(EncodedGroup(b), s);
  }

  /** Encoding what was decoded as a unit gives the input back if and only if its pad bits are
      zero. */
  lemma {:induction false} UnitAgain(s: seq<Byte>)
    requires Unit(s).ok
    ensures Encoded(Unit(s).bytes) == s <==> ZeroPadBits(s)
    decreases |s|
  {
    if s != [] {
      var n := Digits(s);
      if n < 4 {
        assert s[4..] == [] && DecodedGroup(s).bytes + [] == Octets(s, n - 1);
        PaddedGroupAgain(s, n);
      } else {
        var rest := s[4..];
        UnitAgain(rest);
        FullGroupAgain(s, Unit(rest).bytes);
        assert s == s[..4] + rest;
        PadBitsBehind(s);
      }
    }
  }

  lemma PadBitsBehind(s: seq<Byte>)
    requires Digits(s) >= 4 && Unit(s[4..]).ok
    ensures ZeroPadBits(s) <==> ZeroPadBits(s[4..])
  {
    hide Digits, FromChar;
    assert IsBase64(s[2]) && IsBase64(s[3]);
    PadIsNoDigit();
    assert s[4..] != [] ==> DecodedGroup(s[4..]).ok;
    BehindFour(s);
  }

  lemma PadIsNoDigit()
    ensures !IsBase64(PAD)
  {
  }

  lemma BehindFour(s: seq<Byte>)
    requires |s| == 4 || 8 <= |s|
    requires |s| == 4 ==> s[2] != PAD && s[3] != PAD
    ensures ZeroPadBits(s) <==> ZeroPadBits(s[4..])
  {
    hide FromChar;
    var rest, n := s[4..], |s|;
    if 8 <= n {
      assert rest[n - 4 - 3] == s[n - 3] && rest[n - 4 - 2] == s[n - 2] && rest[n - 4 - 1] == s[n - 1];
    }
  }

  /** Encoding what was decoded as a stream gives the stream back if and only if it is also a
      unit, padded in its last group only, and its pad bits are zero. */
  lemma StreamAgain(s: seq<Byte>)
    requires Stream(s).ok && Stream(s).rest == []
    ensures Encoded(Stream(s).bytes) == s <==> Unit(s).ok && ZeroPadBits(s)
  {
    UnitRoundTrip(Stream(s).bytes);
    if Unit(s).ok {
      UnitIsStream(s);
      UnitAgain(s);
    }
  }

  lemma {:induction false} UnitIsStream(s: seq<Byte>)
    requires Unit(s).ok
    ensures Stream(s) == Unit(s)
    decreases |s|
  {
    if s != [] {
      GroupAlone(s);
      UnitIsStream(s[4..]);
    }
  }

  /** A valid group of a unit reads the same on its own. */
  lemma GroupAlone(s: seq<Byte>)
    requires DecodedGroup(s).ok
    ensures 4 <= |s| && DecodedGroup(s[..4]) == DecodedGroup(s)
  {
    if Digits(s) >= 4 {
      DigitsAlone(s, 4);
    } else {
      assert s[..4] == s;
    }
  }

  lemma {:induction false} DigitsAlone(s: seq<Byte>, n: nat)
    requires n <= Digits(s)
    ensures Digits(s[..n]) == n
  {
    if n > 0 {
      assert s[..n][1..] == s[1..][..n - 1];
      DigitsAlone(s[1..], n - 1);
    }
  }

  /** "QR==" is decoded to one byte, which is encoded as "QQ==". */
  lemma NotCanonical()
    ensures var s: seq<Byte> := [81, 82, PAD, PAD]; Unit(s).ok && Encoded(Unit(s).bytes) != s
  {
    var s: seq<Byte> := [81, 82, PAD, PAD];
    assert Digits(s[2..]) == 0 && s[1..][1..] == s[2..] && Digits(s[1..]) == 1 && Digits(s) == 2;
    assert IsPadded(s, 2) && s[4..] == [];
    UnitAgain(s);
  }
}
