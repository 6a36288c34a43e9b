// Facts about products and quotients that the solver does not find by itself.
module Arith {

  lemma TimesMonotone(a: int, b: int, p: nat)
    requires a <= b
    ensures a * p <= b * p
  {
    assert (b - a) * p == b * p - a * p;
    assert 0 <= (b - a) * p;
  }

  lemma TimesLess(a: int, b: int, p: nat)
    requires a * p < b * p
    ensures a < b
  {
    if b <= a { TimesMonotone(b, a, p); }
  }

  lemma QuotientAtLeast(x: int, p: nat, a: int)
    requires 1 <= p && a * p <= x
    ensures a <= x / p
  {
    assert x < (x / p + 1) * p;
    TimesLess(a, x / p + 1, p);
  }

  lemma DivideUnique(x: int, p: nat, a: int, r: nat)
    requires r < p && x == a * p + r
    ensures x % p == r && x / p == a
  {
    QuotientAtLeast(x, p, a);
    assert (a + 1) * p == a * p + p;
    assert (x / p) * p <= x;
    TimesLess(x / p, a + 1, p);
  }

  lemma TimesAssociative(a: int, b: int, c: int)
    ensures a * (b * c) == (a * b) * c
  {
  }

  lemma TimesNegated(a: int, b: int)
    ensures -a * b == -(a * b) && a * -b == -(a * b) && -a * -b == a * b
  {
  }

  lemma DivideParts(x: nat, p: nat)
    requires 0 < p
    ensures x % p < p && x / p >= 0 && x == x % p + p * (x / p)
  {
  }
}
