// Unsigned machine words of any width: a word of n bits is a number below 2^n, and the
// operators of C that memchr applies to a longword work on that number.
module Machine {
  import opened Arith

  function Pow2(n: nat): (p: nat)
    ensures 1 <= p
  {
    if n == 0 then 1 else 2 * Pow2(n - 1)
  }

  datatype Op = And | Or | Xor

  function Apply(op: Op, a: nat, b: nat): (c: nat)
    ensures c <= 1
  {
    match op
    case And => if a == 1 && b == 1 then 1 else 0
    case Or => if a == 1 || b == 1 then 1 else 0
    case Xor => if a != b then 1 else 0
  }

  /** op on each of the low n bits. */
  function Bitwise(op: Op, x: nat, y: nat, n: nat): (r: nat)
    ensures r < Pow2(n)
  {
    if n == 0 then 0 else Apply(op, x % 2, y % 2) + 2 * Bitwise(op, x / 2, y / 2, n - 1)
  }

  /** ~x in n bits. */
  function Complement(x: nat, n: nat): (r: nat)
    ensures r < Pow2(n)
  {
    if n == 0 then 0 else 1 - x % 2 + 2 * Complement(x / 2, n - 1)
  }

  /** x - y in n bits. */
  function Subtract(x: nat, y: nat, n: nat): (r: nat)
    requires x < Pow2(n) && y < Pow2(n)
    ensures r < Pow2(n)
  {
    if y <= x then x - y else x - y + Pow2(n)
  }

  /** x << s in n bits. */
  function ShiftLeft(x: nat, s: nat, n: nat): (r: nat)
    ensures r < Pow2(n)
  {
    (x * Pow2(s)) % Pow2(n)
  }

  // ------------------------------------------------------------- parts of a word

  lemma {:induction false} Pow2Sum(a: nat, b: nat)
    ensures Pow2(a + b) == Pow2(a) * Pow2(b)
  {
    if a > 0 {
      Pow2Sum(a - 1, b);
      assert Pow2(a + b) == 2 * Pow2(a - 1 + b);
      assert 2 * (Pow2(a - 1) * Pow2(b)) == (2 * Pow2(a - 1)) * Pow2(b);
    }
  }

  lemma {:induction false} Pow2Monotone(a: nat, b: nat)
    requires a <= b
    ensures Pow2(a) <= Pow2(b)
  {
    if a < b { Pow2Monotone(a, b - 1); }
  }

  /** A shift that loses no bit multiplies. */
  lemma ShiftLeftFits(x: nat, s: nat, n: nat)
    requires x * Pow2(s) < Pow2(n)
    ensures ShiftLeft(x, s, n) == x * Pow2(s)
  {
    DivideUnique(x * Pow2(s), Pow2(n), 0, x * Pow2(s));
  }

  lemma ShiftTwice(x: nat, a: nat, b: nat, n: nat)
    requires x * Pow2(a + b) < Pow2(n)
    ensures ShiftLeft(ShiftLeft(x, a, n), b, n) == x * Pow2(a + b)
  {
    Pow2Sum(a, b);
    TimesAssociative(x, Pow2(a), Pow2(b));
    var y := x * Pow2(a);
    TimesMonotone(1, Pow2(b), y);
    assert y <= y * Pow2(b);
    ShiftLeftFits(x, a, n);
    ShiftLeftFits(y, b, n);
  }

  /** x * 2^e by doubling. */
  function Doubled(x: nat, e: nat): nat {
    if e == 0 then x else 2 * Doubled(x, e - 1)
  }

  lemma {:induction false} DoubledValue(x: nat, e: nat)
    ensures Doubled(x, e) == Pow2(e) * x
  {
    if e > 0 {
      DoubledValue(x, e - 1);
      TimesAssociative(2, Pow2(e - 1), x);
    }
  }

  /** The operators work on the low e bits and on the others separately. */
  lemma {:induction false} SplitBits(op: Op, x: nat, x': nat, y: nat, y': nat, e: nat, n: nat)
    requires x < Pow2(e) && y < Pow2(e)
    ensures Bitwise(op, x + Doubled(x', e), y + Doubled(y', e), e + n) ==
            Bitwise(op, x, y, e) + Doubled(Bitwise(op, x', y', n), e)
  {
    hide Apply;
    if e > 0 {
      SplitBits(op, x / 2, x', y / 2, y', e - 1, n);
      SplitBit(x, Doubled(x', e - 1));
      SplitBit(y, Doubled(y', e - 1));
      assert e + n - 1 == e - 1 + n;
    }
  }

  lemma SplitBit(x: nat, z: nat)
    ensures (x + 2 * z) / 2 == x / 2 + z && (x + 2 * z) % 2 == x % 2
  {
  }

  /** Complementing is subtracting from the word of all ones. */
  lemma {:induction false} ComplementValue(x: nat, n: nat)
    requires x < Pow2(n)
    ensures Complement(x, n) == Pow2(n) - 1 - x
  {
    if n > 0 { ComplementValue(x / 2, n - 1); }
  }

  lemma {:induction false} XorZero(x: nat, y: nat, n: nat)
    requires x < Pow2(n) && y < Pow2(n)
    ensures Bitwise(Xor, x, y, n) == 0 <==> x == y
  {
    if n > 0 { XorZero(x / 2, y / 2, n - 1); }
  }

  /** Masking with the top bit. */
  lemma {:induction false} AndTopBit(x: nat, n: nat)
    requires x < 2 * Pow2(n)
    ensures Bitwise(And, x, Pow2(n), n + 1) == if x >= Pow2(n) then Pow2(n) else 0
  {
    if n > 0 {
      AndTopBit(x / 2, n - 1);
    } else {
      assert Bitwise(And, x, 1, 1) == Apply(And, x, 1);
    }
  }

  lemma {:induction false} TopOfAnd(x: nat, y: nat, n: nat)
    requires x < 2 * Pow2(n) && y < 2 * Pow2(n)
    ensures Bitwise(And, x, y, n + 1) >= Pow2(n) <==> x >= Pow2(n) && y >= Pow2(n)
  {
    if n > 0 {
      TopOfAnd(x / 2, y / 2, n - 1);
    } else {
      assert Bitwise(And, x, y, 1) == Apply(And, x, y);
    }
  }

  /** Or adds when the bits do not meet. */
  lemma OrDisjoint(x: nat, y: nat, s: nat, n: nat)
    requires x < Pow2(s) && y < Pow2(n)
    ensures Bitwise(Or, x, Pow2(s) * y, s + n) == x + Pow2(s) * y
  {
    SplitBits(Or, x, 0, 0, y, s, n);
    DoubledValue(0, s);
    DoubledValue(y, s);
    OrZero(x, s);
    ZeroOr(y, n);
  }

  lemma {:induction false} ZeroOr(y: nat, n: nat)
    requires y < Pow2(n)
    ensures Bitwise(Or, 0, y, n) == y
  {
    if n > 0 { ZeroOr(y / 2, n - 1); }
  }

  lemma {:induction false} OrZero(x: nat, n: nat)
    requires x < Pow2(n)
    ensures Bitwise(Or, x, 0, n) == x
  {
    if n > 0 { OrZero(x / 2, n - 1); }
  }

  // ------------------------------------------------------------------ masks

  lemma {:induction false} AndOnes(x: nat, n: nat)
    requires x < Pow2(n)
    ensures Bitwise(And, x, Pow2(n) - 1, n) == x
  {
    if n > 0 {
      AndOnes(x / 2, n - 1);
      assert (Pow2(n) - 1) / 2 == Pow2(n - 1) - 1 && (Pow2(n) - 1) % 2 == 1;
    }
  }

  lemma {:induction false} AndZero(x: nat, n: nat)
    ensures Bitwise(And, x, 0, n) == 0
  {
    if n > 0 { AndZero(x / 2, n - 1); }
  }

  /** Masking with n ones keeps the low n bits. */
  lemma AndMask(x: nat, x': nat, n: nat, w: nat)
    requires x < Pow2(n) && n <= w
    ensures Bitwise(And, x + Pow2(n) * x', Pow2(n) - 1, w) == x
  {
    SplitBits(And, x, x', Pow2(n) - 1, 0, n, w - n);
    DoubledValue(x', n);
    DoubledValue(0, n);
    AndOnes(x, n);
    AndZero(x', w - n);
  }

  /** Exclusive or with ones complements. */
  lemma {:induction false} XorOnes(x: nat, n: nat)
    requires x < Pow2(n)
    ensures Bitwise(Xor, x, Pow2(n) - 1, n) == Pow2(n) - 1 - x
  {
    if n > 0 {
      XorOnes(x / 2, n - 1);
      assert (Pow2(n) - 1) / 2 == Pow2(n - 1) - 1 && (Pow2(n) - 1) % 2 == 1;
    }
  }

  /** Setting a bit above all others adds it. */
  lemma OrBit(x: nat, k: nat, w: nat)
    requires x < Pow2(k) && k < w
    ensures Bitwise(Or, x, Pow2(k), w) == x + Pow2(k)
  {
    Pow2Monotone(1, w - k);
    assert Pow2(1) == 2;
    OrDisjoint(x, 1, k, w - k);
  }

  lemma LowBits(x: nat, n: nat, w: nat)
    requires n <= w
    ensures Bitwise(And, x, Pow2(n) - 1, w) == x % Pow2(n) < Pow2(n)
  {
    var p := Pow2(n);
    DivideParts(x, p);
    AndMask(x % p, x / p, n, w);
  }

  lemma {:induction false} OrCommutes(x: nat, y: nat, n: nat)
    ensures Bitwise(Or, x, y, n) == Bitwise(Or, y, x, n)
  {
    if n > 0 { OrCommutes(x / 2, y / 2, n - 1); }
  }

  /** Shifting and masking: (x << s) & (ones of m bits << s) keeps the low m bits of x. */
  lemma ShiftAndMask(x: nat, s: nat, m: nat, w: nat)
    requires s + m <= w && x * Pow2(s) < Pow2(w)
    ensures Bitwise(And, ShiftLeft(x, s, w), Pow2(s) * (Pow2(m) - 1), w) == Pow2(s) * (x % Pow2(m))
  {
    hide Bitwise, Doubled, ShiftLeft, Pow2;
    ShiftLeftFits(x, s, w);
    assert x * Pow2(s) == Pow2(s) * x;
    DoubledValue(x, s);
    DoubledValue(Pow2(m) - 1, s);
    SplitBits(And, 0, x, 0, Pow2(m) - 1, s, w - s);
    assert s + (w - s) == w;
    AndZero(0, s);
    LowBits(x, m, w - s);
    DoubledValue(x % Pow2(m), s);
  }
}
