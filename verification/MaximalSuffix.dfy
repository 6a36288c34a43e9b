// What the loop that looks for a maximal suffix knows after reading m letters.
module MaximalSuffix {
  import opened Words
  import opened Arith

  /** The suffix at t falls behind the suffix at s before position bound. */
  ghost predicate FallsBehind(w: Word, rev: bool, t: nat, s: nat, bound: nat) {
    exists d: nat :: LessAt(w, rev, t, s, d) && t + d < bound
  }

  /** Every later start before position bound falls behind s before that position. */
  ghost predicate BestWithin(w: Word, rev: bool, s: nat, bound: nat) {
    forall t: nat :: s < t < bound ==> FallsBehind(w, rev, t, s, bound)
  }

  ghost predicate BeatsEarlier(w: Word, rev: bool, s: nat) {
    forall t: nat :: t < s ==> LessByLetter(w, rev, t, s)
  }

  /** After m letters: s starts the best suffix seen, the part w[s..m] has the period p, every
      later start falls behind within that period, and every earlier start is beaten. */
  ghost predicate Scanned(w: Word, rev: bool, s: nat, p: nat, m: nat) {
    && 1 <= p && s + p <= m <= |w|
    && HasPeriod(w[s..m], p)
    && BestWithin(w, rev, s, s + p)
    && BeatsEarlier(w, rev, s)
  }

  /** A start inside the scanned part either has fallen behind already or still agrees, and
      then the letter it needs next is not below the letter that the scan compares. */
  ghost predicate Trails(w: Word, rev: bool, s: nat, p: nat, m: nat, t: nat)
    requires 1 <= p && s + p <= m <= |w| && s < t <= m
  {
    || FallsBehind(w, rev, t, s, m)
    || (Agree(w, t, s, m - t) && !Below(rev, w[s + (m - t)], w[s + (m - s) % p]))
  }

  lemma StartInside(w: Word, rev: bool, s: nat, p: nat, m: nat, t: nat)
    requires Scanned(w, rev, s, p, m) && s < t <= m
    ensures Trails(w, rev, s, p, m, t)
  {
    hide Trails, HasPeriod, BestWithin, BeatsEarlier;
    var a, b := (t - s) / p, (t - s) % p;
    assert t == s + a * p + b by { DivideParts(t - s, p); }
    StartInPeriod(w, rev, s, p, m, t, a, b);
  }

  lemma StartInPeriod(w: Word, rev: bool, s: nat, p: nat, m: nat, t: nat, a: nat, b: nat)
    requires Scanned(w, rev, s, p, m) && s < t <= m && t == s + a * p + b && b < p
    ensures Trails(w, rev, s, p, m, t)
  {
    hide Agree, FallsBehind, HasPeriod, BestWithin, BeatsEarlier;
    if b == 0 {
      StartAtPeriod(w, s, p, m, a);
    } else {
      var d := WithinFirstPeriod(w, rev, s, p, s + b);
      StartOffPeriod(w, rev, s, p, m, a, b, d);
    }
  }

  lemma WithinFirstPeriod(w: Word, rev: bool, s: nat, p: nat, t: nat) returns (d: nat)
    requires BestWithin(w, rev, s, s + p) && s < t < s + p
    ensures LessAt(w, rev, t, s, d) && t + d < s + p
  {
    assert FallsBehind(w, rev, t, s, s + p);
    d :| LessAt(w, rev, t, s, d) && t + d < s + p;
  }

  /** Reading the scanned part a whole number of periods later. */
  lemma LaterPeriod(w: Word, s: nat, p: nat, m: nat, a: nat, x: nat)
    requires s <= m <= |w| && HasPeriod(w[s..m], p) && s + x + a * p < m
    ensures w[s + x] == w[s + x + a * p]
  {
    PeriodMultiple(w[s..m], p, x, a);
    assert 0 <= a * p;
    assert w[s..m][x] == w[s + x] && w[s..m][x + a * p] == w[s + x + a * p];
  }

  lemma StartAtPeriod(w: Word, s: nat, p: nat, m: nat, a: nat)
    requires 1 <= p && s + p <= m <= |w| && HasPeriod(w[s..m], p)
    requires 1 <= a && s + a * p <= m
    ensures var t := s + a * p;
            Agree(w, t, s, m - t) && w[s + (m - t)] == w[s + (m - s) % p]
  {
    var t := s + a * p;
    TimesMonotone(1, a, p);
    forall e | 0 <= e < m - t ensures SameLetter(w, t, s, e) {
      LaterPeriod(w, s, p, m, a, e);
    }
    var k, r := (m - s) / p, (m - s) % p;
    assert m - s == k * p + r;
    QuotientAtLeast(m - s, p, a);
    assert m - t == r + (k - a) * p by { assert k * p - a * p == (k - a) * p; }
    LaterPeriod(w, s, p, m, k - a, r);
  }

  lemma AgreesLater(w: Word, s: nat, p: nat, m: nat, a: nat, b: nat, d: nat, f: nat)
    requires 1 <= p && s + p <= m <= |w| && HasPeriod(w[s..m], p)
    requires f <= d && s + a * p + b + f <= m && Agree(w, s + b, s, d) && s + b + d < s + p
    ensures 0 <= s + a * p + b && Agree(w, s + a * p + b, s, f)
  {
    assert 0 <= a * p;
    var t := s + a * p + b;
    forall e | 0 <= e < f ensures SameLetter(w, t, s, e) {
      AgreeLetter(w, s + b, s, d, e);
      LaterPeriod(w, s, p, m, a, b + e);
    }
  }

  lemma StartOffPeriod(w: Word, rev: bool, s: nat, p: nat, m: nat, a: nat, b: nat, d: nat)
    requires 1 <= p && s + p <= m <= |w| && HasPeriod(w[s..m], p)
    requires 1 <= b && s + a * p + b <= m
    requires LessAt(w, rev, s + b, s, d) && s + b + d < s + p
    ensures s < s + a * p + b && Trails(w, rev, s, p, m, s + a * p + b)
  {
    hide HasPeriod;
    var t := s + a * p + b;
    assert 0 <= a * p;
    var f := if t + d < m then d else m - t;
    AgreesLater(w, s, p, m, a, b, d, f);
    if t + d < m {
      LaterPeriod(w, s, p, m, a, b + d);
      assert LessAt(w, rev, t, s, d);
    } else {
      LastPeriod(m - s, p, a, b, d);
      if m - t < d {
        AgreeLetter(w, s + b, s, d, m - t);
      }
    }
  }

  lemma LastPeriod(x: nat, p: nat, a: nat, b: nat, d: nat)
    requires 1 <= p && a * p + b <= x <= a * p + b + d && b + d < p
    ensures x % p == x - a * p
  {
    var r := x - a * p;
    assert 0 <= r < p;
    DivideUnique(x, p, a, r);
  }

  // -------------------------------------------------------- the loop's three branches

  lemma Initially(w: Word, rev: bool, s: nat)
    requires s < |w|
    requires BeatsEarlier(w, rev, s)
    ensures Scanned(w, rev, s, 1, s + 1)
  {
    var part := w[s..s + 1];
    assert HasPeriod(part, 1);
  }

  /** The next letter is smaller: the whole part read becomes the period. */
  lemma SmallerLetter(w: Word, rev: bool, s: nat, p: nat, m: nat)
    requires Scanned(w, rev, s, p, m) && m < |w|
    requires Below(rev, w[m], w[s + (m - s) % p])
    ensures Scanned(w, rev, s, m + 1 - s, m + 1)
  {
    var n := m + 1;
    forall t: nat | s < t < n ensures FallsBehind(w, rev, t, s, n) {
      StartInside(w, rev, s, p, m, t);
      if FallsBehind(w, rev, t, s, m) {
        var d: nat :| LessAt(w, rev, t, s, d) && t + d < m;
      } else {
        assert LessAt(w, rev, t, s, m - t);
      }
    }
    assert HasPeriod(w[s..n], n - s);
  }

  /** The next letter continues the current period. */
  lemma SameNextLetter(w: Word, rev: bool, s: nat, p: nat, m: nat)
    requires Scanned(w, rev, s, p, m) && m < |w|
    requires w[m] == w[s + (m - s) % p]
    ensures Scanned(w, rev, s, p, m + 1)
  {
    var part := w[s..m + 1];
    forall i ensures ShiftsTo(part, p, i) {
      if 0 <= i && s + i + p < m {
        assert ShiftsTo(w[s..m], p, i);
        assert w[s..m][i] == w[s..m][i + p];
      } else if 0 <= i && s + i + p == m {
        var k, r := (m - s) / p, (m - s) % p;
        assert m - s == k * p + r;
        QuotientAtLeast(m - s, p, 1);
        assert i == r + (k - 1) * p by { assert (k - 1) * p == k * p - p; }
        LaterPeriod(w, s, p, m, k - 1, r);
      }
    }
  }

  /** The next letter is larger: the last, unfinished period starts a better suffix. */
  lemma LargerLetter(w: Word, rev: bool, s: nat, p: nat, m: nat)
    requires Scanned(w, rev, s, p, m) && m < |w|
    requires Below(rev, w[s + (m - s) % p], w[m])
    ensures var c := m - (m - s) % p;
            s < c <= m && BeatsEarlier(w, rev, c)
  {
    var k, r := (m - s) / p, (m - s) % p;
    var c := m - r;
    assert c == s + k * p;
    QuotientAtLeast(m - s, p, 1);
    TimesMonotone(1, k, p);
    StartAtPeriod(w, s, p, m, k);
    forall e | 0 <= e < r ensures SameLetter(w, s, c, e) {
      AgreeLetter(w, c, s, r, e);
    }
    assert LessAt(w, rev, s, c, r);
    forall t: nat | t < c ensures LessByLetter(w, rev, t, c) {
      if t < s {
        LessByLetterTransitive(w, rev, t, s, c);
      } else if s < t {
        StartInside(w, rev, s, p, m, t);
        if FallsBehind(w, rev, t, s, m) {
          assert LessByLetter(w, rev, t, s);
          LessByLetterTransitive(w, rev, t, s, c);
        } else {
          AgreementPasses(w, rev, t, s, c, m - t, r);
        }
      }
    }
  }

  lemma AgreementPasses(w: Word, rev: bool, t: nat, s: nat, c: nat, f: nat, r: nat)
    requires Agree(w, t, s, f) && r < f && LessAt(w, rev, s, c, r)
    ensures LessAt(w, rev, t, c, r)
  {
    AgreeLetter(w, t, s, f, r);
    forall e | 0 <= e < r ensures SameLetter(w, t, c, e) {
      AgreeLetter(w, t, s, f, e);
      AgreeLetter(w, s, c, r, e);
    }
  }

  // ------------------------------------------------- the same in the loop's variables

  /** The variables of the loop: j + k letters are read, and k - 1 of them are the start of
      an unfinished period. */
  ghost predicate ScanState(w: Word, rev: bool, s: nat, p: nat, j: nat, k: nat) {
    && s <= j && 1 <= k <= p <= j + 1 - s
    && Scanned(w, rev, s, p, j + k)
    && (j + k - s) % p == k - 1
  }

  lemma FirstStep(w: Word, rev: bool)
    requires w != []
    ensures ScanState(w, rev, 0, 1, 0, 1)
  {
    Initially(w, rev, 0);
  }

  lemma SmallerStep(w: Word, rev: bool, s: nat, p: nat, j: nat, k: nat)
    requires ScanState(w, rev, s, p, j, k) && j + k < |w|
    requires Below(rev, w[j + k], w[s + k - 1])
    ensures ScanState(w, rev, s, j + k + 1 - s, j + k, 1)
  {
    SmallerLetter(w, rev, s, p, j + k);
  }

  lemma SameStep(w: Word, rev: bool, s: nat, p: nat, j: nat, k: nat)
    requires ScanState(w, rev, s, p, j, k) && j + k < |w|
    requires w[j + k] == w[s + k - 1]
    ensures if k != p then ScanState(w, rev, s, p, j, k + 1) else ScanState(w, rev, s, p, j + p, 1)
  {
    SameNextLetter(w, rev, s, p, j + k);
    NextOffset(j + k - s, p);
  }

  lemma NextOffset(x: nat, p: nat)
    requires 1 <= p
    ensures (x + 1) % p == if x % p == p - 1 then 0 else x % p + 1
  {
    var k := x / p;
    assert x == k * p + x % p;
    if x % p == p - 1 {
      assert (k + 1) * p == k * p + p;
      DivideUnique(x + 1, p, k + 1, 0);
    } else {
      DivideUnique(x + 1, p, k, x % p + 1);
    }
  }

  lemma LargerStep(w: Word, rev: bool, s: nat, p: nat, j: nat, k: nat)
    requires ScanState(w, rev, s, p, j, k) && j + k < |w|
    requires Below(rev, w[s + k - 1], w[j + k])
    ensures ScanState(w, rev, j + 1, 1, j + 1, 1)
  {
    var c := j + 1;
    assert c == j + k - (j + k - s) % p;
    LargerLetter(w, rev, s, p, j + k);
    Initially(w, rev, c);
  }

  /** Once the word is read, s starts its maximal suffix and p is the period of that suffix. */
  lemma Finally(w: Word, rev: bool, s: nat, p: nat)
    requires Scanned(w, rev, s, p, |w|)
    ensures IsMaximalSuffix(w, rev, s)
    ensures IsGlobalPeriod(w[s..], p) && s + p <= |w|
  {
    forall t: nat | t < |w| && t != s ensures Precedes(w, rev, t, s) {
      if s < t { StartInside(w, rev, s, p, |w|, t); }
    }
    assert w[s..|w|] == w[s..];
    forall q: nat | 1 <= q < p ensures !HasPeriod(w[s..], q) {
      var d := WithinFirstPeriod(w, rev, s, p, s + q);
      assert w[s..][d] != w[s..][d + q];
      assert !ShiftsTo(w[s..], q, d);
    }
  }
}
