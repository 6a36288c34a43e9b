// memchr a word at a time: the test for a zero byte, the constants it needs, and the search.
module Memchr {
  import opened Arith
  import opened Machine
  import opened CTypes

  /** m copies of the byte b. */
  function Repeat(b: Byte, m: nat): nat {
    if m == 0 then 0 else b + 256 * Repeat(b, m - 1)
  }

  /** One of the m bytes of x is b. */
  predicate HasByte(x: nat, b: Byte, m: nat) {
    m > 0 && (x % 256 == b || HasByte(x / 256, b, m - 1))
  }

  lemma HasByteStep(x: Byte, x': nat, b: Byte, m: nat)
    ensures HasByte(x + 256 * x', b, m + 1) <==> x == b || HasByte(x', b, m)
  {
  }

  /** ((x - repeated_one) & ~x) & (repeated_one << 7) in a word of n bits. */
  function ZeroTest(x: nat, ones: nat, n: nat): nat
    requires x < Pow2(n) && ones < Pow2(n)
  {
    Bitwise(And, Bitwise(And, Subtract(x, ones, n), Complement(x, n), n), ShiftLeft(ones, 7, n), n)
  }

  // ------------------------------------------------------------------ the zero test

  /** e is the number of bits of a byte, which the proofs do not unroll. */
  ghost predicate IsByte(e: nat) {
    1 <= e && Pow2(e) == 256 && Pow2(e - 1) == 128
  }

  lemma ByteBits() returns (e: nat)
    ensures e == 8 && IsByte(e)
  {
    e := 8;
    assert Pow2(7) == 128;
  }

  lemma ByteAndMore(e: nat, n: nat)
    requires IsByte(e)
    ensures Pow2(e + n) == 256 * Pow2(n)
  {
    Pow2Sum(e, n);
  }

  /** The operators byte by byte. */
  lemma SplitByte(op: Op, x: Byte, x': nat, y: Byte, y': nat, e: nat, n: nat)
    requires IsByte(e)
    ensures Bitwise(op, x + 256 * x', y + 256 * y', e + n) ==
            Bitwise(op, x, y, e) + 256 * Bitwise(op, x', y', n)
    ensures Bitwise(op, x, y, e) < 256
  {
    SplitBits(op, x, x', y, y', e, n);
    DoubledValue(x', e);
    DoubledValue(y', e);
    DoubledValue(Bitwise(op, x', y', n), e);
  }

  lemma {:induction false} RepeatFits(b: Byte, m: nat, w: nat)
    requires w == 8 * m
    ensures Repeat(b, m) < Pow2(w)
  {
    if m > 0 {
      var e := ByteBits();
      RepeatFits(b, m - 1, w - e);
      ByteAndMore(e, w - e);
    }
  }

  lemma {:induction false} Repeat128(m: nat)
    ensures Repeat(128, m) == 128 * Repeat(1, m)
  {
    if m > 0 { Repeat128(m - 1); }
  }

  lemma HighBits(m: nat, w: nat)
    requires w == 8 * m
    ensures Repeat(1, m) < Pow2(w) && ShiftLeft(Repeat(1, m), 7, w) == Repeat(128, m)
  {
    RepeatFits(1, m, w);
    RepeatFits(128, m, w);
    Repeat128(m);
    var e := ByteBits();
    ShiftLeftFits(Repeat(1, m), e - 1, w);
  }

  /** The masked word from its low byte and the others; in the low byte the mask is 0x80. */
  lemma MaskedStep(u: Byte, u': nat, v: Byte, v': nat, h: nat, e: nat, n: nat, w: nat)
    requires IsByte(e) && w == e + n
    ensures Bitwise(And, Bitwise(And, u + 256 * u', v + 256 * v', w), 128 + 256 * h, w) ==
            (if u >= 128 && v >= 128 then 128 else 0)
            + 256 * Bitwise(And, Bitwise(And, u', v', n), h, n)
  {
    hide Bitwise;
    var l, r := Bitwise(And, u, v, e), Bitwise(And, u', v', n);
    SplitByte(And, u, u', v, v', e, n);
    assert Bitwise(And, u + 256 * u', v + 256 * v', w) == l + 256 * r;
    SplitByte(And, l, r, 128, h, e, n);
    TopOfAnd(u, v, e - 1);
    AndTopBit(l, e - 1);
  }

  lemma ComplementBytes(x: Byte, x': nat, e: nat, n: nat, w: nat)
    requires IsByte(e) && x' < Pow2(n) && w == e + n
    ensures x + 256 * x' < Pow2(w)
    ensures Complement(x + 256 * x', w) == 255 - x + 256 * Complement(x', n)
  {
    ByteAndMore(e, n);
    ComplementValue(x + 256 * x', w);
    ComplementValue(x', n);
  }

  /** The subtraction of 1 from the low byte, with or without a borrow from the others. */
  lemma SubtractBytes(x: Byte, x': nat, ones: nat, e: nat, n: nat, w: nat)
      returns (u: Byte, u': nat)
    requires IsByte(e) && x' < Pow2(n) && ones < Pow2(n) && w == e + n
    ensures x + 256 * x' < Pow2(w) && 1 + 256 * ones < Pow2(w)
    ensures Subtract(x + 256 * x', 1 + 256 * ones, w) == u + 256 * u'
    ensures if x == 0 then u == 255 else u == x - 1 && u' == Subtract(x', ones, n)
  {
    ByteAndMore(e, n);
    if x != 0 {
      u, u' := x - 1, Subtract(x', ones, n);
    } else {
      u, u' := 255, if ones < x' then x' - ones - 1 else x' - ones - 1 + Pow2(n);
    }
  }

  /** The test is nonzero exactly when some byte of the word is zero. */
  lemma {:induction false} ZeroTestFindsZero(x: nat, m: nat, w: nat)
    requires w == 8 * m && x < Pow2(w)
    ensures Repeat(1, m) < Pow2(w)
    ensures ZeroTest(x, Repeat(1, m), w) != 0 <==> HasByte(x, 0, m)
  {
    HighBits(m, w);
    if m > 0 {
      var e := ByteBits();
      var n := w - e;
      ByteAndMore(e, n);
      HighBits(m - 1, n);
      var x0, x', ones, h := x % 256, x / 256, Repeat(1, m - 1), Repeat(128, m - 1);
      ZeroTestFindsZero(x', m - 1, n);
      HasByteStep(x0, x', 0, m - 1);
      ZeroTestStep(x0, x', ones, h, e, n, w);
    }
  }

  lemma ZeroTestStep(x: Byte, x': nat, ones: nat, h: nat, e: nat, n: nat, w: nat)
    requires IsByte(e) && w == e + n && x' < Pow2(n) && ones < Pow2(n)
    requires ShiftLeft(ones, 7, n) == h && ShiftLeft(1 + 256 * ones, 7, w) == 128 + 256 * h
    ensures x + 256 * x' < Pow2(w) && 1 + 256 * ones < Pow2(w)
    ensures var t := ZeroTest(x + 256 * x', 1 + 256 * ones, w);
            if x == 0 then t != 0 else t == 256 * ZeroTest(x', ones, n)
  {
    var u, u' := SubtractBytes(x, x', ones, e, n, w);
    ComplementBytes(x, x', e, n, w);
    var c, y: Byte := Complement(x', n), 255 - x;
    var r := Bitwise(And, Bitwise(And, u', c, n), h, n);
    assert ZeroTest(x + 256 * x', 1 + 256 * ones, w) ==
           Bitwise(And, Bitwise(And, u + 256 * u', y + 256 * c, w), 128 + 256 * h, w);
    MaskedStep(u, u', y, c, h, e, n, w);
    if x != 0 {
      assert r == ZeroTest(x', ones, n);
    } else {
      assert u == 255 && y == 255;
    }
  }

  lemma LowAndHigh(l: Byte, h: nat)
    ensures (l + 256 * h) % 256 == l && (l + 256 * h) / 256 == h
  {
  }

  lemma XorByte(x: Byte, x': nat, b: Byte, y: nat, e: nat, n: nat)
    requires IsByte(e)
    ensures var r := Bitwise(Xor, x + 256 * x', b + 256 * y, e + n);
            (r % 256 == 0 <==> x == b) && r / 256 == Bitwise(Xor, x', y, n)
  {
    SplitByte(Xor, x, x', b, y, e, n);
    XorZero(x, b, e);
    LowAndHigh(Bitwise(Xor, x, b, e), Bitwise(Xor, x', y, n));
  }

  /** Exclusive or with copies of b turns the test for b into the test for zero. */
  lemma {:induction false} XorFindsByte(x: nat, b: Byte, m: nat, w: nat)
    requires w == 8 * m
    ensures HasByte(Bitwise(Xor, x, Repeat(b, m), w), 0, m) <==> HasByte(x, b, m)
  {
    if m > 0 {
      var e := ByteBits();
      var n, x0, x' := w - e, x % 256, x / 256;
      XorFindsByte(x', b, m - 1, n);
      HasByteStep(x0, x', b, m - 1);
      XorByte(x0, x', b, Repeat(b, m - 1), e, n);
    }
  }

  // -------------------------------------------------------------------- the constants

  lemma {:induction false} RepeatSum(b: Byte, k: nat, m: nat)
    ensures Repeat(b, k + m) == Repeat(b, k) + Pow2(8 * k) * Repeat(b, m)
  {
    if k > 0 {
      RepeatSum(b, k - 1, m);
      var e := ByteBits();
      ByteAndMore(e, 8 * (k - 1));
      assert 8 * k == e + 8 * (k - 1);
      TimesAssociative(256, Pow2(8 * (k - 1)), Repeat(b, m));
      assert k + m - 1 == k - 1 + m;
    }
  }

  /** x |= x << s doubles the number of copies, when s is the width of x. */
  lemma Doubling(b: Byte, m: nat, s: nat, width: nat)
    requires s == 8 * m && 2 * m <= width
    ensures var x := Repeat(b, m);
            && x * Pow2(s) < Pow2(8 * width)
            && Bitwise(Or, x, x * Pow2(s), 8 * width) == Repeat(b, 2 * m)
  {
    var x, n := Repeat(b, m), 8 * (width - m);
    RepeatFits(b, m, s);
    RepeatSum(b, m, m);
    RepeatFits(b, m + m, s + s);
    Pow2Monotone(s + s, 8 * width);
    Pow2Monotone(s, n);
    assert s + n == 8 * width;
    assert x * Pow2(s) == Pow2(s) * x;
    OrDisjoint(x, x, s, n);
  }

  predicate IsPowerOfTwo(n: nat) {
    n == 1 || (n > 1 && n % 2 == 0 && IsPowerOfTwo(n / 2))
  }

  lemma {:induction false} DoubleFits(k: nat, m: nat)
    requires IsPowerOfTwo(k) && IsPowerOfTwo(m) && k < m
    ensures 2 * k <= m && IsPowerOfTwo(2 * k)
  {
    if k > 1 { DoubleFits(k / 2, m / 2); }
  }

  /** One assignment x |= x << s, on a copy of b in each of the low m bytes. */
  lemma DoublingStep(b: Byte, m: nat, s: nat, size: nat, w: nat)
    requires s == 8 * m && w == 8 * size && 2 * m <= size
    ensures var x := Repeat(b, m);
            Bitwise(Or, x, ShiftLeft(x, s, w), w) == Repeat(b, 2 * m)
  {
    Doubling(b, m, s, size);
    ShiftLeftFits(Repeat(b, m), s, w);
  }

  /** The same with the shift by 32 done in two steps. */
  lemma DoublingTwice(b: Byte, m: nat, s: nat, s': nat, size: nat, w: nat)
    requires s + s' == 8 * m && w == 8 * size && 2 * m <= size
    ensures var x := Repeat(b, m);
            Bitwise(Or, x, ShiftLeft(ShiftLeft(x, s, w), s', w), w) == Repeat(b, 2 * m)
  {
    Doubling(b, m, s + s', size);
    ShiftTwice(Repeat(b, m), s, s', w);
  }

  lemma FourCopies(b: Byte)
    ensures Repeat(b, 1) == b && Repeat(b, 4) == 0x01010101 * b
  {
    assert Repeat(b, 1) == b;
    assert Repeat(b, 2) == b + 256 * Repeat(b, 1);
    assert Repeat(b, 3) == b + 256 * Repeat(b, 2);
    assert Repeat(b, 4) == b + 256 * Repeat(b, 3);
  }

  lemma FourBytes() returns (t: nat)
    ensures t == 32 && Pow2(t) == 0x1_0000_0000
  {
    var e := ByteBits();
    ByteAndMore(e, e);
    ByteAndMore(e, e + e);
    t := e + (e + (e + e));
    ByteAndMore(e, e + (e + e));
  }

  /** A longword is wider than 32 bits exactly when its largest value is above 0xffffffff. */
  lemma WiderThan32(w: nat)
    ensures 0xFFFF_FFFF < Pow2(w) - 1 <==> 32 < w
  {
    var t := FourBytes();
    if t < w { Pow2Monotone(t + 1, w); } else { Pow2Monotone(w, t); }
  }

  /** repeated_one and repeated_c for a longword of size bytes. */
  method RepeatedBytes(c: Byte, size: nat) returns (repeatedOne: nat, repeatedC: nat)
    requires 4 <= size && IsPowerOfTwo(size)
    ensures repeatedOne == Repeat(1, size) && repeatedC == Repeat(c, size)
  {
    var w := 8 * size;
    FourCopies(1);
    FourCopies(c);
    WiderThan32(w);
    repeatedOne := 0x01010101;
    DoublingStep(c, 1, 8, size, w);
    repeatedC := Bitwise(Or, c, ShiftLeft(c, 8, w), w);
    assert repeatedC == Repeat(c, 2);
    DoublingStep(c, 2, 16, size, w);
    repeatedC := Bitwise(Or, repeatedC, ShiftLeft(repeatedC, 16, w), w);
    assert repeatedC == Repeat(c, 4);
    if 0xFFFF_FFFF < Pow2(w) - 1 {
      DoubleFits(4, size);
      DoublingTwice(1, 4, 31, 1, size, w);
      DoublingTwice(c, 4, 31, 1, size, w);
      repeatedOne := Bitwise(Or, repeatedOne, ShiftLeft(ShiftLeft(repeatedOne, 31, w), 1, w), w);
      repeatedC := Bitwise(Or, repeatedC, ShiftLeft(ShiftLeft(repeatedC, 31, w), 1, w), w);
      if 8 < size {
        repeatedOne, repeatedC := DoubleToWidth(repeatedOne, repeatedC, c, size);
      }
    }
  }

  /** The loop for longwords of more than 8 bytes. */
  method DoubleToWidth(one: nat, other: nat, ghost c: Byte, size: nat)
      returns (repeatedOne: nat, repeatedC: nat)
    requires 8 < size && IsPowerOfTwo(size)
    requires one == Repeat(1, 8) && other == Repeat(c, 8)
    ensures repeatedOne == Repeat(1, size) && repeatedC == Repeat(c, size)
  {
    repeatedOne, repeatedC := one, other;
    var w, i := 8 * size, 64;
    ghost var k := 8;
    while i < size * 8
      invariant i == 8 * k && 1 <= k <= size && IsPowerOfTwo(k)
      invariant repeatedOne == Repeat(1, k) && repeatedC == Repeat(c, k)
    {
      DoubleFits(k, size);
      DoublingStep(1, k, i, size, w);
      DoublingStep(c, k, i, size, w);
      repeatedOne := Bitwise(Or, repeatedOne, ShiftLeft(repeatedOne, i, w), w);
      repeatedC := Bitwise(Or, repeatedC, ShiftLeft(repeatedC, i, w), w);
      i, k := i * 2, 2 * k;
    }
  }

  // -------------------------------------------------------------------- the search

  /** The word that m bytes in memory make up, in either byte order. */
  function Load(s: seq<Byte>, bigEndian: bool): (x: nat) {
    if s == [] then 0
    else if bigEndian then s[|s| - 1] + 256 * Load(s[..|s| - 1], bigEndian)
    else s[0] + 256 * Load(s[1..], bigEndian)
  }

  lemma {:induction false} LoadFits(s: seq<Byte>, bigEndian: bool)
    ensures Load(s, bigEndian) < Pow2(8 * |s|)
  {
    if s != [] {
      var e := ByteBits();
      var m := |s| - 1;
      ByteAndMore(e, 8 * m);
      assert e + 8 * m == 8 * |s|;
      LoadFits(if bigEndian then s[..m] else s[1..], bigEndian);
    }
  }

  lemma {:induction false} LoadHasByte(s: seq<Byte>, bigEndian: bool, b: Byte)
    ensures HasByte(Load(s, bigEndian), b, |s|) <==> b in s
  {
    if s != [] {
      var m := |s| - 1;
      if bigEndian {
        LoadHasByte(s[..m], bigEndian, b);
        HasByteStep(s[m], Load(s[..m], bigEndian), b, m);
        assert s == s[..m] + [s[m]];
      } else {
        LoadHasByte(s[1..], bigEndian, b);
        HasByteStep(s[0], Load(s[1..], bigEndian), b, m);
        assert s == [s[0]] + s[1..];
      }
    }
  }

  /** The test in the loop over words. */
  lemma WordTest(s: seq<Byte>, bigEndian: bool, b: Byte, w: nat)
    requires w == 8 * |s|
    ensures Repeat(1, |s|) < Pow2(w)
    ensures ZeroTest(Bitwise(Xor, Load(s, bigEndian), Repeat(b, |s|), w), Repeat(1, |s|), w) != 0
            <==> b in s
  {
    var x := Load(s, bigEndian);
    LoadFits(s, bigEndian);
    LoadHasByte(s, bigEndian, b);
    XorFindsByte(x, b, |s|, w);
    ZeroTestFindsZero(Bitwise(Xor, x, Repeat(b, |s|), w), |s|, w);
  }

  /** The part that reads longwords: skip those without the byte c. */
  method SkipWords(s: seq<Byte>, c: Byte, start: nat, n: nat, size: nat, bigEndian: bool)
      returns (i: nat)
    requires start <= n <= |s| && c !in s[..start] && 4 <= size && IsPowerOfTwo(size)
    ensures start <= i <= n && c !in s[..i]
    ensures i + size <= n ==> c in s[i..i + size]
  {
    var repeatedOne, repeatedC := RepeatedBytes(c, size);
    var left, w := n - start, 8 * size;
    i := start;
    while left >= size
      invariant start <= i <= n && left == n - i && c !in s[..i]
    {
      var word := s[i..i + size];
      WordTest(word, bigEndian, c, w);
      var longword1 := Bitwise(Xor, Load(word, bigEndian), repeatedC, w);
      if ZeroTest(longword1, repeatedOne, w) != 0 {
        break;
      }
      assert s[..i + size] == s[..i] + word;
      i, left := i + size, left - size;
    }
  }

  /** __memchr: the first byte c among the first n bytes at address s, on a machine with
      longwords of size bytes in either byte order. */
  method Memchr(address: nat, s: seq<Byte>, cIn: int, n: nat, size: nat, bigEndian: bool)
      returns (r: Option<nat>)
    requires n <= |s| && 4 <= size && IsPowerOfTwo(size)
    ensures match r
            case Some(k) => k < n && s[k] == cIn % 256 && cIn % 256 !in s[..k]
            case None => cIn % 256 !in s[..n]
  {
    var c: Byte := cIn % 256;
    var i, left := 0, n;
    while left > 0 && (address + i) % size != 0
      invariant i <= n && left == n - i && c !in s[..i]
    {
      if s[i] == c {
        return Some(i);
      }
      left, i := left - 1, i + 1;
    }
    i := SkipWords(s, c, i, n, size, bigEndian);
    left := n - i;
    while left > 0
      invariant i <= n && left == n - i && c !in s[..i]
    {
      if s[i] == c {
        return Some(i);
      }
      left, i := left - 1, i + 1;
    }
    return None;
  }
}
