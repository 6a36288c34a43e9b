// How good the bound on decimal digits is: it is reached by the largest integer of b bits for
// every b below 2621, and not for b = 2621.
module TightBound {
  import opened Arith
  import opened Machine
  import opened IntProps

  // ------------------------------------------------- powers of 2 between powers of 10

  /** m * 10^e is a lower bound of 2^a. */
  ghost predicate AtLeast(a: nat, m: nat, e: nat) {
    m * Power(10, e) <= Pow2(a)
  }

  /** m * 10^e is an upper bound of 2^a. */
  ghost predicate AtMost(a: nat, m: nat, e: nat) {
    Pow2(a) <= m * Power(10, e)
  }

  /** The bounds of a square: t is 10^f, by which the square of m is made shorter. */
  lemma SquareOf(m: nat, e: nat, f: nat, t: nat, m2: nat)
    requires t == Power(10, f)
    ensures var x := m * Power(10, e);
            && (m2 * t <= m * m ==> m2 * Power(10, 2 * e + f) <= x * x)
            && (m * m <= m2 * t ==> x * x <= m2 * Power(10, 2 * e + f))
  {
    hide Power;
    var p := Power(10, e);
    PowerSum(10, e, e);
    PowerSum(10, 2 * e, f);
    assert e + e == 2 * e;
    Regroup(m, m2, p, t);
    if m2 * t <= m * m { TimesMonotone(m2 * t, m * m, p * p); }
    if m * m <= m2 * t { TimesMonotone(m * m, m2 * t, p * p); }
  }

  lemma Regroup(m: nat, m2: nat, p: nat, t: nat)
    ensures (m * p) * (m * p) == (m * m) * (p * p)
    ensures m2 * ((p * p) * t) == (m2 * t) * (p * p)
  {
    Interchange(m, m, p, p);
    assert (p * p) * t == t * (p * p);
    TimesAssociative(m2, t, p * p);
  }

  lemma AtLeastDoubled(a: nat, m: nat, e: nat, f: nat, t: nat, m2: nat)
      returns (a': nat, m': nat, e': nat)
    requires AtLeast(a, m, e) && t == Power(10, f) && m2 * t <= m * m
    ensures a' == 2 * a && m' == m2 && e' == 2 * e + f && AtLeast(a', m', e')
  {
    hide Power, Pow2;
    a', m', e' := 2 * a, m2, 2 * e + f;
    SquareOf(m, e, f, t, m2);
    Pow2Twice(a, a');
    ProductMonotone(m * Power(10, e), Pow2(a), m * Power(10, e), Pow2(a));
  }

  lemma AtMostDoubled(a: nat, m: nat, e: nat, f: nat, t: nat, m2: nat)
      returns (a': nat, m': nat, e': nat)
    requires AtMost(a, m, e) && t == Power(10, f) && m * m <= m2 * t
    ensures a' == 2 * a && m' == m2 && e' == 2 * e + f && AtMost(a', m', e')
  {
    hide Power, Pow2;
    a', m', e' := 2 * a, m2, 2 * e + f;
    SquareOf(m, e, f, t, m2);
    Pow2Twice(a, a');
    ProductMonotone(Pow2(a), m * Power(10, e), Pow2(a), m * Power(10, e));
  }

  lemma AtLeastNext(a: nat, m: nat, e: nat) returns (a': nat, m': nat)
    requires AtLeast(a, m, e)
    ensures a' == a + 1 && m' == 2 * m && AtLeast(a', m', e)
  {
    a', m' := a + 1, 2 * m;
    TimesAssociative(2, m, Power(10, e));
  }

  lemma AtMostNext(a: nat, m: nat, e: nat) returns (a': nat, m': nat)
    requires AtMost(a, m, e)
    ensures a' == a + 1 && m' == 2 * m && AtMost(a', m', e)
  {
    a', m' := a + 1, 2 * m;
    TimesAssociative(2, m, Power(10, e));
  }

  /** Powers of 10 whose exponents are not unrolled. */
  lemma TenToNine() returns (n: nat)
    ensures n == 9 && Power(10, n) == 1_000_000_000 && Power(10, n + 1) == 10_000_000_000
    ensures Power(10, n + 2) == 100_000_000_000 && Power(10, n + 6) == 1_000_000_000_000_000
  {
    var f := 5;
    FifthPower(10, f);
    assert Power(10, f) == 10 * Power(10, f - 1);
    PowerSum(10, f, f - 1);
    n := f + (f - 1);
    var p := Power(10, n);
    assert Power(10, n + 1) == 10 * p && Power(10, n + 2) == 10 * Power(10, n + 1);
    assert Power(10, n + 3) == 10 * Power(10, n + 2) && Power(10, n + 4) == 10 * Power(10, n + 3);
    assert Power(10, n + 5) == 10 * Power(10, n + 4) && Power(10, n + 6) == 10 * Power(10, n + 5);
  }

  /** 2^33 and 2^40, with exponents that are not unrolled. */
  lemma StartingPowers() returns (k: nat, l: nat)
    ensures k == 33 && Pow2(k) == 8589934592 && l == 40 && Pow2(l) == 1099511627776
  {
    var n := Sixteen();
    hide Pow2;
    Pow2Twice(n, 2 * n);
    Pow2Twice(2 * n, 4 * n);
    Pow2Twice(4 * n, 8 * n);
    Pow2Sum(2 * n, 8 * n);
    k, l := 8 * n + 1, 2 * n + 8 * n;
    Pow2Next(8 * n);
  }

  /** 10^643 < 2^2136. */
  lemma TenBelowTwo() returns (a: nat, d: nat)
    ensures a == 2136 && d == 643 && Power(10, d) < Pow2(a)
  {
    hide Power, Pow2, AtLeast;
    var n := TenToNine();
    var k, l := StartingPowers();
    var m, e;
    a, m, e := k, 8589934592, 0;
    StartAtLeast(a, m, e);
    a, m, e := AtLeastDoubled(a, m, e, n + 1, 10000000000, 7378697629);
    a, m, e := AtLeastDoubled(a, m, e, n + 1, 10000000000, 5444517870);
    a, m := AtLeastNext(a, m, e);
    a, m, e := AtLeastDoubled(a, m, e, n + 2, 100000000000, 1185710993);
    a, m := AtLeastNext(a, m, e);
    a, m, e := AtLeastDoubled(a, m, e, n, 1000000000, 5623642235);
    a, m, e := AtLeastDoubled(a, m, e, n + 1, 10000000000, 3162535198);
    a, m, e := AtLeastDoubled(a, m, e, n + 1, 10000000000, 1000162887);
    d := e + n;
    FinishAtLeast(a, m, e, n, d);
  }

  lemma StartAtLeast(a: nat, m: nat, e: nat)
    requires Pow2(a) == m && e == 0
    ensures AtLeast(a, m, e) && AtMost(a, m, e)
  {
    assert Power(10, e) == 1;
  }

  lemma FinishAtLeast(a: nat, m: nat, e: nat, n: nat, d: nat)
    requires AtLeast(a, m, e) && d == e + n && Power(10, n) < m
    ensures Power(10, d) < Pow2(a)
  {
    hide Power, Pow2;
    PowerSum(10, e, n);
    PositivePower(10, e);
    ProductMonotone(Power(10, n), m, Power(10, e), Power(10, e));
    assert Power(10, e) * Power(10, n) == Power(10, n) * Power(10, e);
  }

  /** 2^2621 < 10^789. */
  lemma TwoBelowTenAgain() returns (a: nat, d: nat)
    ensures a == 2621 && d == 789 && Pow2(a) < Power(10, d)
  {
    hide Power, Pow2, AtMost;
    var n := TenToNine();
    var k, l := StartingPowers();
    var m, e;
    a, m, e := l, 1099511627776, 0;
    StartAtLeast(a, m, e);
    a, m, e := AtMostDoubled(a, m, e, n + 6, 1000000000000000, 1208925820);
    a, m := AtMostNext(a, m, e);
    a, m, e := AtMostDoubled(a, m, e, n, 1000000000, 5846006554);
    a, m := AtMostNext(a, m, e);
    a, m, e := AtMostDoubled(a, m, e, n + 2, 100000000000, 1367031706);
    a, m := AtMostNext(a, m, e);
    a, m, e := AtMostDoubled(a, m, e, n, 1000000000, 7475102741);
    a, m := AtMostNext(a, m, e);
    a, m, e := AtMostDoubled(a, m, e, n + 2, 100000000000, 2235086440);
    a, m, e := AtMostDoubled(a, m, e, n, 1000000000, 4995611395);
    a, m := AtMostNext(a, m, e);
    d := e + (n + 1);
    FinishAtMost(a, m, e, n + 1, d);
  }

  lemma FinishAtMost(a: nat, m: nat, e: nat, n: nat, d: nat)
    requires AtMost(a, m, e) && d == e + n && m < Power(10, n)
    ensures Pow2(a) < Power(10, d)
  {
    hide Power, Pow2;
    PowerSum(10, e, n);
    PositivePower(10, e);
    ProductMonotone(m, Power(10, n), Power(10, e), Power(10, e));
    assert Power(10, e) * Power(10, n) == Power(10, n) * Power(10, e);
  }

  // ---------------------------------------------------------------------- the bound

  /** 146 / 485 and 643 / 2136 enclose log10 (2), and no fraction with a denominator below
      2621 lies between them. */
  lemma NoFractionBetween(b: nat, d: nat)
    requires 1 <= b < 2621 && 485 * d < 146 * b
    ensures 2136 * d <= 643 * b
  {
    var k, m := 146 * b - 485 * d, 643 * b - 2136 * d;
    assert b == 2136 * k - 485 * m;
  }

  lemma PowerBelow(b: nat, d: nat)
    requires 1 <= b < 2621 && 485 * d < 146 * b
    ensures Power(10, d) < Pow2(b)
  {
    if d == 0 {
      Pow2Monotone(1, b);
      assert Pow2(1) == 2;
    } else {
      NoFractionBetween(b, d);
      var a, c := TenBelowTwo();
      ComparePowers(b, d, a, c);
    }
  }

  lemma ComparePowers(b: nat, d: nat, a: nat, c: nat)
    requires Power(10, c) < Pow2(a) && a * d <= c * b && 1 <= d
    ensures Power(10, d) < Pow2(b)
  {
    hide Power, Pow2;
    if Pow2(b) <= Power(10, d) {
      PowerMonotone(Pow2(b), Power(10, d), c);
      Pow2Power(b, c);
      PowerOfPower(10, d, c);
      PowerOfPower(10, c, d);
      assert d * c == c * d && b * c == c * b;
      PowerMonotone(Power(10, c), Pow2(a), d);
      Pow2Power(a, d);
      Pow2Monotone(a * d, c * b);
    }
  }

  /** The largest integer of b bits has as many digits as the bound says, for every b below
      2621. */
  lemma BoundIsReached(b: nat)
    requires 1 <= b < 2621
    ensures Digits(Pow2(b) - 1) == BitsStrlenBound(b)
  {
    hide Power, Pow2;
    var d := BitsStrlenBound(b) - 1;
    BitsStrlenBoundHolds(Pow2(b) - 1, b);
    PowerBelow(b, d);
    if 1 <= d { DigitsBound(Pow2(b) - 1, d); }
  }

  /** 2621 is the smallest number of bits for which it is not reached. */
  lemma BoundIsMissed(b: nat)
    requires b == 2621
    ensures Digits(Pow2(b) - 1) < BitsStrlenBound(b)
  {
    hide Power, Pow2;
    var a, d := TwoBelowTenAgain();
    DigitsBound(Pow2(b) - 1, d);
  }
}
