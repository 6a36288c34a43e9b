// The alphabet of RFC 4648, section 4, character by character, and a text that shows it.
module Base64Alphabet {
  import opened CTypes
  import opened CText
  import opened Base64Spec

  const ALPHABET: string :=
    "ABCDEFGHIJKLMNOPQRSTUVWXYZ" + "abcdefghijklmnopqrstuvwxyz" + "0123456789" + "+/"

  /** Each value is written as its character of the alphabet. */
  lemma ToCharIs(v: nat)
    requires v < 64
    ensures |ALPHABET| == 64 && ToChar(v) == ALPHABET[v] as int
  {
    if v < 26 {
      Capitals(v);
    } else if v < 52 {
      SmallLetters(v - 26);
    }
  }

  lemma Capitals(i: nat)
    requires i < 26
    ensures "ABCDEFGHIJKLMNOPQRSTUVWXYZ"[i] as int == 65 + i
  {
  }

  lemma SmallLetters(i: nat)
    requires i < 26
    ensures "abcdefghijklmnopqrstuvwxyz"[i] as int == 97 + i
  {
  }

  /** Each character of the alphabet is read as its place there, and no other character is. */
  lemma FromCharIs(c: Byte)
    ensures |ALPHABET| == 64
    ensures forall v :: 0 <= v < 64 ==> (FromChar(c) == v <==> ALPHABET[v] as int == c)
    ensures FromChar(c) == -1 <==> forall v :: 0 <= v < 64 ==> ALPHABET[v] as int != c
  {
    forall v | 0 <= v < 64 ensures FromChar(c) == v <==> ALPHABET[v] as int == c {
      ToCharIs(v);
      AlphabetIsBijective(c, v);
    }
    ToCharIs(0);
    if FromChar(c) >= 0 { assert ALPHABET[FromChar(c)] as int == c; }
  }

  /** Padding and newlines. */
  lemma OtherCharacters()
    ensures Bytes("=\n") == [PAD, NEWLINE]
  {
  }

  /** Two bytes whose characters include the last two of the alphabet and padding. */
  lemma LastTwoValues()
    ensures Encoded([0xFB, 0xFF]) == Bytes("+/8=")
    ensures Unit(Bytes("+/8=")) == Decoded([0xFB, 0xFF], [], true)
  {
    var s: seq<Byte> := [0xFB, 0xFF];
    assert Encoded(s) == EncodedGroup(s) + Encoded(AfterGroup(s)) == EncodedGroup(s);
    SextetSplit(0xFB, 0xFF);
    SextetSplit(0xFF, 0);
    UnitRoundTrip(s);
  }

  /** Which groups are valid: two characters of the alphabet, and then two more, or one and "=",
      or "==", the last two only at the end of the input. */
  lemma ValidGroup(s: seq<Byte>)
    ensures DecodedGroup(s).ok <==>
              && 4 <= |s| && IsBase64(s[0]) && IsBase64(s[1])
              && if s[2] == '=' as int then |s| == 4 && s[3] == '=' as int
                 else IsBase64(s[2]) && (IsBase64(s[3]) || (|s| == 4 && s[3] == '=' as int))
  {
    FirstDigits(s);
    assert !IsBase64('=' as int);
  }

  /** What an invalid group leaves: a byte for the first two characters of the alphabet, and one
      more for the third. */
  lemma InvalidGroup(s: seq<Byte>)
    requires !DecodedGroup(s).ok
    ensures DecodedGroup(s).bytes ==
            if |s| < 2 || !IsBase64(s[0]) || !IsBase64(s[1]) then []
            else if |s| == 2 || !IsBase64(s[2]) then [Octet(s, 0)]
            else [Octet(s, 0), Octet(s, 1)]
  {
    FirstDigits(s);
  }

  lemma FirstDigits(s: seq<Byte>)
    ensures 2 <= Digits(s) <==> AllDigits(s, 2)
    ensures 3 <= Digits(s) <==> AllDigits(s, 3)
    ensures 4 <= Digits(s) <==> AllDigits(s, 4)
  {
    DigitsAre(s, 2);
    DigitsAre(s, 3);
    DigitsAre(s, 4);
  }

  ghost predicate AllDigits(s: seq<Byte>, n: nat) {
    n <= |s| && forall i :: 0 <= i < n ==> IsBase64(s[i])
  }

  lemma DigitsAre(s: seq<Byte>, n: nat)
    ensures n <= Digits(s) <==> AllDigits(s, n)
  {
  }
}
