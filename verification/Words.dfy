// Periods, repetitions and the order on suffixes of a word, up to the critical
// factorization theorem on which the Two-Way search rests.
module Words {

  type Word = seq<int>

  /** Position i and position i + q hold the same letter, when both are inside w. */
  ghost predicate ShiftsTo(w: Word, q: nat, i: int) {
    0 <= i && i + q < |w| ==> w[i] == w[i + q]
  }

  ghost predicate HasPeriod(w: Word, q: nat) {
    forall i :: ShiftsTo(w, q, i)
  }

  /** A word of length q shares a suffix with w[..l] and a prefix with w[l..]. */
  ghost predicate Repeats(w: Word, l: nat, q: nat) {
    forall i :: l - q <= i < l ==> ShiftsTo(w, q, i)
  }

  lemma RepeatsLetter(w: Word, l: nat, q: nat, i: nat)
    requires Repeats(w, l, q) && l - q <= i < l && i + q < |w|
    ensures w[i] == w[i + q]
  {
    assert ShiftsTo(w, q, i);
  }

  ghost predicate IsGlobalPeriod(w: Word, p: nat) {
    1 <= p && HasPeriod(w, p) && forall q: nat :: 1 <= q < p ==> !HasPeriod(w, q)
  }

  ghost predicate IsLocalPeriod(w: Word, l: nat, p: nat) {
    1 <= p && Repeats(w, l, p) && forall q: nat :: 1 <= q < p ==> !Repeats(w, l, q)
  }

  ghost function GlobalPeriod(w: Word): (p: nat)
    requires w != []
    ensures IsGlobalPeriod(w, p) && p <= |w|
  {
    LeastPeriodFrom(w, 1)
  }

  ghost function LeastPeriodFrom(w: Word, q: nat): (p: nat)
    requires 1 <= q <= |w|
    requires forall r: nat :: 1 <= r < q ==> !HasPeriod(w, r)
    ensures IsGlobalPeriod(w, p) && p <= |w|
    decreases |w| - q
  {
    if HasPeriod(w, q) || q == |w| then q else LeastPeriodFrom(w, q + 1)
  }

  /** The cut between w[..l] and w[l..] is critical: no repetition around it is shorter
      than the global period, so that its local period is the global one. */
  ghost predicate IsCritical(w: Word, l: nat) {
    w != [] && l < |w| && IsLocalPeriod(w, l, GlobalPeriod(w))
  }

  /** Letters k * q apart agree in a word of period q. */
  lemma {:induction false} PeriodMultiple(w: Word, q: nat, i: nat, k: nat)
    requires HasPeriod(w, q) && i + k * q < |w|
    ensures w[i] == w[i + k * q]
  {
    if k > 0 {
      assert i + k * q == i + (k - 1) * q + q;
      PeriodMultiple(w, q, i, k - 1);
      assert ShiftsTo(w, q, i + (k - 1) * q);
    }
  }

  // ------------------------------------------------------------------ suffix order

  /** The order on letters; rev selects the opposite one. */
  predicate Below(rev: bool, a: int, b: int) {
    if rev then b < a else a < b
  }

  /** The suffixes at s and t agree on their first d letters. */
  ghost predicate Agree(w: Word, s: nat, t: nat, d: nat) {
    s + d <= |w| && t + d <= |w| &&
    forall e :: 0 <= e < d ==> SameLetter(w, s, t, e)
  }

  ghost predicate SameLetter(w: Word, s: nat, t: nat, e: nat) {
    s + e < |w| && t + e < |w| && w[s + e] == w[t + e]
  }

  /** The first d letters agree, and then the suffix at t has a smaller letter than that at s. */
  ghost predicate LessAt(w: Word, rev: bool, t: nat, s: nat, d: nat) {
    Agree(w, t, s, d) && t + d < |w| && s + d < |w| && Below(rev, w[t + d], w[s + d])
  }

  ghost predicate LessByLetter(w: Word, rev: bool, t: nat, s: nat) {
    exists d: nat :: LessAt(w, rev, t, s, d)
  }

  /** The suffix at t is a proper prefix of the suffix at s. */
  ghost predicate PrefixOf(w: Word, t: nat, s: nat) {
    s < t <= |w| && Agree(w, t, s, |w| - t)
  }

  /** The suffix at t strictly precedes the suffix at s in the lexicographic order. */
  ghost predicate Precedes(w: Word, rev: bool, t: nat, s: nat) {
    PrefixOf(w, t, s) || LessByLetter(w, rev, t, s)
  }

  ghost predicate IsMaximalSuffix(w: Word, rev: bool, s: nat) {
    s < |w| && forall t: nat :: t < |w| && t != s ==> Precedes(w, rev, t, s)
  }

  lemma AgreeLetter(w: Word, s: nat, t: nat, d: nat, e: nat)
    requires Agree(w, s, t, d) && e < d
    ensures w[s + e] == w[t + e]
  {
    assert SameLetter(w, s, t, e);
  }

  lemma LessByLetterTransitive(w: Word, rev: bool, r: nat, s: nat, t: nat)
    requires LessByLetter(w, rev, r, s) && LessByLetter(w, rev, s, t)
    ensures LessByLetter(w, rev, r, t)
  {
    var d: nat :| LessAt(w, rev, r, s, d);
    var e: nat :| LessAt(w, rev, s, t, e);
    var m := if d < e then d else e;
    forall x | 0 <= x < m ensures SameLetter(w, r, t, x) {
      assert SameLetter(w, r, s, x) && SameLetter(w, s, t, x);
    }
    if d < e { assert SameLetter(w, s, t, d); }
    if e < d { assert SameLetter(w, r, s, e); }
    assert LessAt(w, rev, r, t, m);
  }

  // ------------------------------------------- critical factorization theorem

  /** No repetition around the start of a maximal suffix fits in the left half. */
  lemma RepetitionExceedsLeftHalf(w: Word, rev: bool, l: nat, q: nat)
    requires IsMaximalSuffix(w, rev, l)
    requires 1 <= q && Repeats(w, l, q)
    ensures l < q
  {
    if q <= l {
      var t := l - q;
      assert Precedes(w, rev, t, l);
      var d: nat :| LessAt(w, rev, t, l, d);
      if d < q {
        RepeatsLetter(w, l, q, t + d);
      } else {
        assert Precedes(w, rev, l + q, l);
        var e := d - q;
        assert w[t + d] == w[l + e] && w[l + d] == w[l + q + e];
        if PrefixOf(w, l + q, l) {
          AgreeLetter(w, l + q, l, |w| - l - q, e);
        } else {
          var d': nat :| LessAt(w, rev, l + q, l, d');
          if e < d' { AgreeLetter(w, l + q, l, d', e); }
          if d' < e { AgreeLetter(w, t, l, d, q + d'); }
        }
      }
    }
  }

  /** A repetition around the shorter maximal suffix is a period of the whole word. */
  lemma RepetitionIsPeriod(w: Word, rev: bool, l: nat, m: nat, q: nat)
    requires IsMaximalSuffix(w, rev, l) && IsMaximalSuffix(w, !rev, m) && m <= l
    requires l < q && Repeats(w, l, q)
    ensures HasPeriod(w, q)
  {
    forall i ensures ShiftsTo(w, q, i) {
      if l <= i && i + q < |w| {
        RightHalfShifts(w, rev, l, m, q, i);
      }
    }
  }

  lemma RightHalfShifts(w: Word, rev: bool, l: nat, m: nat, q: nat, i: nat)
    requires IsMaximalSuffix(w, rev, l) && IsMaximalSuffix(w, !rev, m) && m <= l
    requires l < q && Repeats(w, l, q)
    requires l <= i && i + q < |w|
    ensures w[i] == w[i + q]
  {
    assert Precedes(w, rev, l + q, l);
    assert Precedes(w, !rev, m + q, m);
    var x := i - l;
    if PrefixOf(w, l + q, l) {
      assert SameLetter(w, l + q, l, x);
    } else if PrefixOf(w, m + q, m) {
      assert SameLetter(w, m + q, m, i - m);
    } else {
      var d: nat :| LessAt(w, rev, l + q, l, d);
      var e: nat :| LessAt(w, !rev, m + q, m, e);
      if e < l - m {
        RepeatsLetter(w, l, q, m + e);
      } else {
        var f := e - (l - m);
        if f < d { AgreeLetter(w, l + q, l, d, f); }
        if d < f { AgreeLetter(w, m + q, m, e, d + (l - m)); }
      }
    }
  }

  /** Critical factorization theorem: the shorter of the two maximal suffixes starts at a
      critical position, and its left half is shorter than the global period. */
  lemma ShorterMaximalSuffixIsCritical(w: Word, rev: bool, l: nat, m: nat)
    requires IsMaximalSuffix(w, rev, l) && IsMaximalSuffix(w, !rev, m) && m <= l
    ensures IsCritical(w, l) && l < GlobalPeriod(w)
  {
    var p := GlobalPeriod(w);
    assert Repeats(w, l, p);
    RepetitionExceedsLeftHalf(w, rev, l, p);
    forall q: nat | 1 <= q < p ensures !Repeats(w, l, q) {
      if Repeats(w, l, q) {
        RepetitionExceedsLeftHalf(w, rev, l, q);
        RepetitionIsPeriod(w, rev, l, m, q);
      }
    }
  }

  /** A repetition around a critical position that fits in the right half has a length
      that is a multiple of the global period. */
  lemma RepetitionIsMultiple(w: Word, l: nat, q: nat)
    requires IsCritical(w, l)
    requires 1 <= q && l + q <= |w| && Repeats(w, l, q)
    ensures q % GlobalPeriod(w) == 0
  {
    var p := GlobalPeriod(w);
    var k, r := q / p, q % p;
    if r != 0 {
      forall i | l - r <= i < l ensures ShiftsTo(w, r, i) {
        if 0 <= i && i + r < |w| {
          assert q == r + k * p;
          assert r <= q by { assert 0 <= k * p; }
          assert ShiftsTo(w, q, i);
          PeriodMultiple(w, p, i + r, k);
        }
      }
      assert Repeats(w, l, r);
    }
  }

  /** When the right half has the period q but the word has not, the global period exceeds
      the right half as well. */
  lemma DistinctHalves(w: Word, l: nat, q: nat)
    requires IsCritical(w, l) && l < GlobalPeriod(w)
    requires IsGlobalPeriod(w[l..], q) && !HasPeriod(w, q)
    ensures |w| - l < GlobalPeriod(w)
  {
    var p := GlobalPeriod(w);
    if p <= |w| - l {
      SuffixPeriod(w, l, p);
      var k, r := p / q, p % q;
      assert p == r + k * q;
      assert Repeats(w, l, p);
      if r != 0 {
        forall i | l - r <= i < l ensures ShiftsTo(w, r, i) {
          if 0 <= i && i + r < |w| {
            assert ShiftsTo(w, p, i);
            assert r <= p by { assert 0 <= k * q; }
            PeriodMultiple(w[l..], q, i + r - l, k);
          }
        }
        assert Repeats(w, l, r);
      } else {
        forall i | l - q <= i < l ensures ShiftsTo(w, q, i) {
          if 0 <= i && i + q < |w| {
            assert ShiftsTo(w, p, i);
            assert q * 1 <= k * q;
            assert (k - 1) * q == k * q - q;
            PeriodMultiple(w[l..], q, i + q - l, k - 1);
          }
        }
        assert Repeats(w, l, q);
      }
    }
  }

  /** A period of the word is a period of its suffix. */
  lemma SuffixPeriod(w: Word, l: nat, p: nat)
    requires l <= |w| && HasPeriod(w, p)
    ensures HasPeriod(w[l..], p)
  {
    forall i ensures ShiftsTo(w[l..], p, i) {
      if 0 <= i { assert ShiftsTo(w, p, l + i); }
    }
  }
}
