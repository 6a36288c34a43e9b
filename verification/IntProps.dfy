// The range overflow checks and the digit bound of intprops.h. The checks are evaluated in the
// very arithmetic that they guard: a subexpression that leaves the range has no value.
module IntProps {
  import opened Arith
  import opened Machine

  /** An integer type: unsigned, or signed in two's complement. */
  datatype Range = Range(min: int, max: int) {
    ghost predicate Valid() {
      1 <= max && (min == 0 || min == -max - 1)
    }

    predicate Contains(x: int) {
      min <= x <= max
    }
  }

  /** The outcome of evaluating a C expression. */
  datatype Eval<+T> = Undefined | Value(v: T) {
    predicate IsFailure() { Undefined? }

    function PropagateFailure<U>(): Eval<U>
      requires Undefined?
    {
      Undefined
    }

    function Extract(): T
      requires Value?
    {
      v
    }
  }

  function Checked(x: int, r: Range): Eval<int> {
    if r.Contains(x) then Value(x) else Undefined
  }

  /** A value has to be in the range. */
  lemma CheckedIs(x: int, r: Range)
    ensures Checked(x, r) == Undefined <==> x < r.min || r.max < x
    ensures Checked(x, r) != Undefined ==> Checked(x, r) == Value(x)
  {
  }

  /** C's quotient, which truncates toward zero. */
  function Quotient(a: int, b: int): int
    requires b != 0
  {
    if 0 <= a then (if 0 < b then a / b else -(a / -b))
    else (if 0 < b then -(-a / b) else -a / -b)
  }

  /** The remainder has the sign of a and is smaller than b. */
  lemma QuotientIs(a: int, b: int)
    requires b != 0
    ensures var m := a - Quotient(a, b) * b;
            && (0 <= a ==> 0 <= m < (if b < 0 then 0 - b else b))
            && (a <= 0 ==> (if b < 0 then b else 0 - b) < m <= 0)
  {
    var x, y := if a < 0 then -a else a, if b < 0 then -b else b;
    var q := x / y;
    DivideParts(x, y);
    TimesNegated(q, y);
    assert y * q == q * y;
    SignedQuotient(a, b, q, q * y);
  }

  lemma SignedQuotient(a: int, b: int, q: int, z: int)
    requires b != 0
    requires q == (if a < 0 then -a else a) / (if b < 0 then -b else b)
    requires if b < 0 then q * -b == z && -q * b == z && q * b == -z
             else q * b == z && -q * b == -z
    ensures Quotient(a, b) * b == if a < 0 then -z else z
  {
  }

  function CheckedQuotient(a: int, b: int, r: Range): Eval<int> {
    if b == 0 then Undefined else Checked(Quotient(a, b), r)
  }

  function Power(base: nat, n: nat): (p: nat)
    ensures 1 <= base ==> 1 <= p
  {
    if n == 0 then 1 else base * Power(base, n - 1)
  }

  /** An arithmetic right shift rounds down. */
  function ShiftRight(x: int, s: nat): int {
    x / Pow2(s)
  }

  // ------------------------------------------------------------------- the macros

  function AddRangeOverflow(a: int, b: int, r: Range): Eval<bool> {
    if b < 0 then var x :- Checked(r.min - b, r); Value(a < x)
    else var x :- Checked(r.max - b, r); Value(x < a)
  }

  function SubtractRangeOverflow(a: int, b: int, r: Range): Eval<bool> {
    if b < 0 then var x :- Checked(r.max + b, r); Value(x < a)
    else var x :- Checked(r.min + b, r); Value(a < x)
  }

  function NegateRangeOverflow(a: int, r: Range): Eval<bool> {
    if r.min < 0 then var x :- Checked(-r.max, r); Value(a < x)
    else Value(0 < a)
  }

  function MultiplyRangeOverflow(a: int, b: int, r: Range): Eval<bool> {
    if b < 0 then
      if a < 0 then var x :- CheckedQuotient(r.max, b, r); Value(a < x)
      else if b == -1 then Value(false)
      else var x :- CheckedQuotient(r.min, b, r); Value(x < a)
    else if b == 0 then Value(false)
    else if a < 0 then var x :- CheckedQuotient(r.min, b, r); Value(a < x)
    else var x :- CheckedQuotient(r.max, b, r); Value(x < a)
  }

  function DivideRangeOverflow(a: int, b: int, r: Range): Eval<bool> {
    if !(r.min < 0) then Value(false)
    else if b != -1 then Value(false)
    else var x :- Checked(-r.max, r); Value(a < x)
  }

  function LeftShiftRangeOverflow(a: int, b: nat, r: Range): Eval<bool> {
    if a < 0 then var x :- Checked(ShiftRight(r.min, b), r); Value(a < x)
    else var x :- Checked(ShiftRight(r.max, b), r); Value(x < a)
  }

  // -------------------------------------------------------------- they are exact

  lemma AdditiveChecksExact(a: int, b: int, r: Range)
    requires r.Valid() && r.Contains(a) && r.Contains(b)
    ensures AddRangeOverflow(a, b, r) == Value(!r.Contains(a + b))
    ensures SubtractRangeOverflow(a, b, r) == Value(!r.Contains(a - b))
    ensures NegateRangeOverflow(a, r) == Value(!r.Contains(-a))
  {
  }

  /** x <= m / b for a positive b says the same as b * x <= m. */
  lemma QuotientBound(m: nat, b: nat, x: int)
    requires 1 <= b
    ensures x <= m / b <==> x * b <= m
    ensures 0 <= m / b <= m
  {
    var q := m / b;
    assert q * b <= m < (q + 1) * b by { assert (q + 1) * b == q * b + b; }
    if x <= q { TimesMonotone(x, q, b); } else { TimesMonotone(q + 1, x, b); }
    TimesMonotone(1, b, q);
  }

  lemma MultiplyCheckExact(a: int, b: int, r: Range)
    requires r.Valid() && r.Contains(a) && r.Contains(b)
    ensures MultiplyRangeOverflow(a, b, r) == Value(!r.Contains(a * b))
  {
    if b < 0 {
      MultiplyByNegative(a, -b, r);
      TimesNegated(a, b);
    } else if 0 < b {
      MultiplyByPositive(a, b, r);
    }
  }

  lemma MultiplyByNegative(a: int, d: nat, r: Range)
    requires r.Valid() && r.Contains(a) && r.Contains(0 - d) && 1 <= d
    ensures MultiplyRangeOverflow(a, 0 - d, r) == Value(!r.Contains(-(a * d)))
  {
    TimesNegated(a, d);
    SameSign(a, d);
    if a < 0 {
      QuotientBound(r.max, d, -a);
    } else if 2 <= d {
      QuotientBound(-r.min, d, a);
      HalfAtMost(-r.min, d);
    } else {
      assert a * 1 == a;
    }
  }

  lemma MultiplyByPositive(a: int, b: nat, r: Range)
    requires r.Valid() && r.Contains(a) && r.Contains(b) && 1 <= b
    ensures MultiplyRangeOverflow(a, b, r) == Value(!r.Contains(a * b))
  {
    TimesNegated(a, b);
    SameSign(a, b);
    if a < 0 {
      QuotientBound(-r.min, b, -a);
    } else {
      QuotientBound(r.max, b, a);
    }
  }

  lemma SameSign(a: int, d: nat)
    requires 1 <= d
    ensures a < 0 ==> a * d < 0
    ensures 0 <= a ==> 0 <= a * d
  {
    if a < 0 { TimesMonotone(a, -1, d); } else { TimesMonotone(0, a, d); }
  }

  lemma HalfAtMost(m: nat, b: nat)
    requires 2 <= b
    ensures 2 * (m / b) <= m
  {
    var q := m / b;
    TimesMonotone(2, b, q);
    assert q * b <= m;
  }

  lemma DivideCheckExact(a: int, b: int, r: Range)
    requires r.Valid() && r.Contains(a) && r.Contains(b) && b != 0
    ensures DivideRangeOverflow(a, b, r) == Value(!r.Contains(Quotient(a, b)))
  {
    var m := if a < 0 then -a else a;
    var d := if b < 0 then -b else b;
    QuotientBound(m, d, 0);
    if 2 <= d { HalfAtMost(m, d); } else { assert m / 1 == m; }
  }

  lemma {:induction false} PowerSum(base: nat, m: nat, n: nat)
    ensures Power(base, m + n) == Power(base, m) * Power(base, n)
  {
    if m > 0 {
      PowerSum(base, m - 1, n);
      TimesAssociative(base, Power(base, m - 1), Power(base, n));
      assert m + n - 1 == m - 1 + n;
    }
  }

  /** The shift count is valid for a type of k value bits, and one more for the sign. */
  lemma LeftShiftCheckExact(a: int, b: nat, k: nat, r: Range)
    requires r.Valid() && r.Contains(a) && r.max == Pow2(k) - 1
    requires if r.min < 0 then b <= k else b < k
    ensures LeftShiftRangeOverflow(a, b, r) == Value(!r.Contains(a * Pow2(b)))
  {
    var p, q := Pow2(b), Pow2(k - b);
    Pow2Sum(b, k - b);
    if a < 0 {
      ShiftNegative(a, p, q, r);
    } else {
      SameSign(a, p);
      QuotientBound(r.max, p, a);
    }
  }

  lemma ShiftNegative(a: int, p: nat, q: nat, r: Range)
    requires 1 <= p && r.min == -(p * q) && a < 0 && r.Valid()
    ensures r.Contains(r.min / p)
    ensures a < r.min / p <==> !r.Contains(a * p)
  {
    assert p * q == q * p;
    TimesNegated(q, p);
    DivideUnique(r.min, p, 0 - q, 0);
    SameSign(a, p);
    TimesMonotone(1, p, q);
    var l := 0 - q;
    if a < l {
      TimesMonotone(a + 1, l, p);
      assert (a + 1) * p == a * p + p;
    } else {
      TimesMonotone(l, a, p);
    }
  }

  // -------------------------------------------------------------- the digit bound

  /** How many decimal digits x has. */
  function Digits(x: nat): nat {
    if x < 10 then 1 else 1 + Digits(x / 10)
  }

  /** INT_BITS_STRLEN_BOUND (b). */
  function BitsStrlenBound(b: nat): nat {
    (b * 146 + 484) / 485
  }

  lemma {:induction false} DigitsBound(x: nat, d: nat)
    requires 1 <= d
    ensures Digits(x) <= d <==> x < Power(10, d)
  {
    if d == 1 {
      assert Power(10, 1) == 10;
    } else if 10 <= x {
      DigitsBound(x / 10, d - 1);
    } else {
      DigitsBound(x, d - 1);
    }
  }

  lemma {:induction false} PowerMonotone(x: nat, y: nat, n: nat)
    requires x <= y
    ensures Power(x, n) <= Power(y, n)
    ensures x < y && 1 <= n ==> Power(x, n) < Power(y, n)
  {
    if 1 <= n {
      PowerMonotone(x, y, n - 1);
      if 1 <= y { PositivePower(y, n - 1); }
      ProductMonotone(x, y, Power(x, n - 1), Power(y, n - 1));
    }
  }

  lemma ProductMonotone(x: nat, y: nat, a: nat, b: nat)
    requires x <= y && a <= b
    ensures x * a <= y * b
    ensures x < y && 1 <= b ==> x * a < y * b
  {
    TimesMonotone(a, b, x);
    TimesMonotone(x, y, b);
    assert a * x == x * a && b * x == x * b;
    if x < y {
      TimesMonotone(x + 1, y, b);
      assert (x + 1) * b == x * b + b;
    }
  }

  lemma {:induction false} PositivePower(x: nat, n: nat)
    requires 1 <= x
    ensures 1 <= Power(x, n)
  {
  }

  lemma {:induction false} MoreDigits(m: nat, n: nat)
    requires m <= n
    ensures Power(10, m) <= Power(10, n)
  {
    if m < n { MoreDigits(m, n - 1); }
  }

  lemma {:induction false} PowerOfPower(x: nat, m: nat, n: nat)
    ensures Power(Power(x, m), n) == Power(x, m * n)
  {
    if 1 <= n {
      PowerOfPower(x, m, n - 1);
      PowerSum(x, m, m * (n - 1));
      assert m * n == m + m * (n - 1);
    } else {
      assert m * n == 0;
    }
  }

  lemma PowerDoubled(x: nat, n: nat, m: nat)
    requires m == 2 * n
    ensures Power(x, m) == Power(x, n) * Power(x, n)
  {
    PowerSum(x, n, n);
  }

  /** Powers of 2 and of 10 with known exponents, as exponents that are not unrolled. */
  lemma PowersOfTwo() returns (e: nat)
    ensures e == 97 && Pow2(e) == 158456325028528675187087900672
  {
    var n := Sixteen();
    hide Pow2;
    Pow2Twice(n, 2 * n);
    Pow2Twice(2 * n, 4 * n);
    Pow2Twice(4 * n, 8 * n);
    Pow2Twice(8 * n, 16 * n);
    Pow2Sum(8 * n, 16 * n);
    e := 24 * n + 1;
    assert Pow2(e) == 2 * Pow2(24 * n) by { Pow2Next(24 * n); }
  }

  lemma Sixteen() returns (n: nat)
    ensures n == 4 && Pow2(n) == 16
  {
    n := 4;
    assert Pow2(n - 3) == 2 && Pow2(n - 2) == 4 && Pow2(n - 1) == 8;
  }

  lemma Pow2Next(n: nat)
    ensures Pow2(n + 1) == 2 * Pow2(n)
  {
  }

  lemma Pow2Twice(n: nat, m: nat)
    requires m == n + n
    ensures Pow2(m) == Pow2(n) * Pow2(n)
  {
    Pow2Sum(n, n);
  }

  lemma {:induction false} Pow2Power(m: nat, n: nat)
    ensures Power(Pow2(m), n) == Pow2(m * n)
  {
    if 1 <= n {
      Pow2Power(m, n - 1);
      Pow2Sum(m, m * (n - 1));
      assert m * n == m + m * (n - 1);
    } else {
      assert m * n == 0;
    }
  }

  lemma PowersOfTen() returns (k: nat, l: nat)
    ensures k == 25 && Power(10, k) == 10000000000000000000000000
    ensures l == 21 && Power(10, l) == 1000000000000000000000
  {
    var n := 5;
    FifthPower(10, n);
    PowerDoubled(10, n, 2 * n);
    PowerDoubled(10, 2 * n, 4 * n);
    PowerSum(10, n, 4 * n);
    PowerSum(10, 1, 4 * n);
    assert Power(10, 1) == 10;
    k, l := n + 4 * n, 1 + 4 * n;
  }

  lemma FifthPower(x: nat, n: nat)
    requires n == 5
    ensures Power(x, n) == x * (x * (x * (x * x)))
  {
    assert Power(x, n - 4) == x * Power(x, n - 5) == x;
    assert Power(x, n - 3) == x * Power(x, n - 4);
    assert Power(x, n - 2) == x * Power(x, n - 3);
    assert Power(x, n - 1) == x * Power(x, n - 2);
  }

  lemma {:induction false} PowerOfProduct(x: nat, y: nat, n: nat)
    ensures Power(x * y, n) == Power(x, n) * Power(y, n)
  {
    if 1 <= n {
      PowerOfProduct(x, y, n - 1);
      Interchange(x, y, Power(x, n - 1), Power(y, n - 1));
    }
  }

  lemma Interchange(x: nat, y: nat, a: nat, b: nat)
    ensures (x * y) * (a * b) == (x * a) * (y * b)
  {
    TimesAssociative(x, y, a * b);
    TimesAssociative(y, a, b);
    TimesAssociative(a, y, b);
    assert y * a == a * y;
    TimesAssociative(x, a, y * b);
  }

  /** 2^97 <= 15846 * 10^25 and 15846^5 < 10^21, hence 2^485 < 10^146. */
  lemma TwoAndTen(m: nat, n: nat)
    requires m == 485 && n == 146
    ensures Pow2(m) < Power(10, n)
  {
    hide Power, Pow2;
    var e := PowersOfTwo();
    var k, l := PowersOfTen();
    var f := 5;
    var ten := Power(10, k * f);
    PowerMonotone(Pow2(e), 15846 * Power(10, k), f);
    Pow2Power(e, f);
    PowerOfProduct(15846, Power(10, k), f);
    PowerOfPower(10, k, f);
    FifthPower(15846, f);
    PowerSum(10, l, k * f);
    PositivePower(10, k * f);
    TimesMonotone(Power(15846, f) + 1, Power(10, l), ten);
    assert (Power(15846, f) + 1) * ten == Power(15846, f) * ten + ten;
    assert e * f == m && l + k * f == n;
  }

  /** Every integer below 2^b has at most INT_BITS_STRLEN_BOUND (b) decimal digits. */
  lemma BitsStrlenBoundHolds(x: nat, b: nat)
    requires 1 <= b && x < Pow2(b)
    ensures Digits(x) <= BitsStrlenBound(b)
  {
    var d := BitsStrlenBound(b);
    DigitsBound(x, d);
    TwoBelowTen(b, d, 485, 146);
  }

  lemma TwoBelowTen(b: nat, d: nat, m: nat, n: nat)
    requires m == 485 && n == 146 && b * n <= d * m
    ensures Pow2(b) <= Power(10, d)
  {
    if Power(10, d) < Pow2(b) {
      PowerMonotone(Power(10, d), Pow2(b), m);
      PowerOfPower(10, d, m);
      ScaledPowers(b, m, n);
      MoreDigits(n * b, d * m);
    }
  }

  lemma ScaledPowers(b: nat, m: nat, n: nat)
    requires m == 485 && n == 146
    ensures Power(Pow2(b), m) <= Power(10, n * b)
  {
    Pow2Power(b, m);
    Pow2Power(m, b);
    assert b * m == m * b;
    TwoAndTen(m, n);
    PowerMonotone(Pow2(m), Power(10, n), b);
    PowerOfPower(10, n, b);
  }
}
