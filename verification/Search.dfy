// Occurrences of a word in a text, and the shifts that the Two-Way search may make.
module Search {
  import opened CTypes
  import opened Words

  ghost predicate Occurs(t: Word, w: Word, j: int) {
    0 <= j && j + |w| <= |t| && t[j..j + |w|] == w
  }

  /** r is the position of the first occurrence of w in t, or None when there is none. */
  ghost predicate IsFirstMatch(t: Word, w: Word, r: Option<nat>) {
    match r
    case Some(j) => Occurs(t, w, j) && NoMatchIn(t, w, 0, j)
    case None => NoMatchIn(t, w, 0, |t| + 1)
  }

  /** The naive search: try every position from j on. */
  function FirstOccurrence(t: Word, w: Word, j: nat := 0): Option<nat>
    decreases |t| - j
  {
    if |t| < j + |w| then None
    else if t[j..j + |w|] == w then Some(j)
    else if j == |t| then None
    else FirstOccurrence(t, w, j + 1)
  }

  /** A first match is what the naive search finds. */
  lemma {:induction false} FirstMatchIsNaive(t: Word, w: Word, r: Option<nat>, j: nat)
    requires IsFirstMatch(t, w, r) && NoMatchIn(t, w, 0, j)
    ensures FirstOccurrence(t, w, j) == r
    decreases |t| - j
  {
    if |t| < j + |w| {
      assert r.None?;
    } else if t[j..j + |w|] == w {
      assert Occurs(t, w, j);
    } else if j < |t| {
      FirstMatchIsNaive(t, w, r, j + 1);
    }
  }

  ghost predicate NoMatchIn(t: Word, w: Word, from: int, to: int) {
    forall j :: from <= j < to ==> !Occurs(t, w, j)
  }

  /** Letter x of w agrees with the text in the window at j. */
  ghost predicate Matches(t: Word, w: Word, j: nat, x: int) {
    0 <= x < |w| && j + x < |t| && t[j + x] == w[x]
  }

  ghost predicate MatchesRange(t: Word, w: Word, j: nat, from: int, to: int) {
    forall x :: from <= x < to ==> Matches(t, w, j, x)
  }

  lemma MatchesLetter(t: Word, w: Word, j: nat, from: int, to: int, x: int)
    requires MatchesRange(t, w, j, from, to) && from <= x < to
    ensures Matches(t, w, j, x)
  {
  }

  lemma OccursLetter(t: Word, w: Word, j: nat, x: nat)
    requires Occurs(t, w, j) && x < |w|
    ensures Matches(t, w, j, x)
  {
    assert t[j..j + |w|][x] == w[x];
  }

  lemma AllMatch(t: Word, w: Word, j: nat)
    requires j + |w| <= |t| && MatchesRange(t, w, j, 0, |w|)
    ensures Occurs(t, w, j)
  {
    forall x | 0 <= x < |w| ensures t[j..j + |w|][x] == w[x] {
      MatchesLetter(t, w, j, 0, |w|, x);
    }
  }

  /** A window that matches the right half up to i, and an occurrence s further on,
      make a repetition of length s around l. */
  lemma OverlapRepeats(t: Word, w: Word, l: nat, j: nat, i: nat, s: nat)
    requires l <= i <= |w| && MatchesRange(t, w, j, l, i)
    requires 1 <= s && Occurs(t, w, j + s)
    requires l + s <= i || i == |w|
    ensures Repeats(w, l, s)
  {
    forall y | l - s <= y < l ensures ShiftsTo(w, s, y) {
      if 0 <= y && y + s < |w| {
        MatchesLetter(t, w, j, l, i, y + s);
        OccursLetter(t, w, j + s, y);
      }
    }
  }

  /** A mismatch at i in the right half rules out the next i - l windows. */
  lemma RightMismatch(t: Word, w: Word, l: nat, j: nat, i: nat)
    requires IsCritical(w, l) && l <= i < |w|
    requires MatchesRange(t, w, j, l, i) && !Matches(t, w, j, i)
    ensures NoMatchIn(t, w, j, j + i - l + 1)
  {
    forall x | j <= x < j + i - l + 1 ensures !Occurs(t, w, x) {
      if Occurs(t, w, x) {
        var s := x - j;
        if s == 0 {
          OccursLetter(t, w, x, i);
        } else {
          OccursLetter(t, w, x, i - s);
          OverlapRepeats(t, w, l, j, i, s);
          RepetitionIsMultiple(w, l, s);
          PeriodMultiple(w, GlobalPeriod(w), i - s, s / GlobalPeriod(w));
        }
      }
    }
  }

  /** A matched right half and a mismatch in the left half rule out a whole period. */
  lemma LeftMismatch(t: Word, w: Word, l: nat, j: nat, d: nat)
    requires IsCritical(w, l) && d <= GlobalPeriod(w)
    requires MatchesRange(t, w, j, l, |w|) && !Occurs(t, w, j)
    ensures NoMatchIn(t, w, j, j + d)
  {
    forall x | j <= x < j + d ensures !Occurs(t, w, x) {
      if Occurs(t, w, x) && j < x {
        OverlapRepeats(t, w, l, j, |w|, x - j);
      }
    }
  }

  /** After a shift by a period the window starts with what the right half had matched. */
  lemma Remembered(t: Word, w: Word, l: nat, j: nat, p: nat)
    requires HasPeriod(w, p) && l <= p <= |w|
    requires MatchesRange(t, w, j, l, |w|)
    ensures MatchesRange(t, w, j + p, 0, |w| - p)
  {
    var j' := j + p;
    forall x | 0 <= x < |w| - p ensures Matches(t, w, j', x) {
      MatchesLetter(t, w, j, l, |w|, p + x);
      assert ShiftsTo(w, p, x);
    }
  }

  // ------------------------------------------------------------------ bad-byte table

  /** d is the distance from the last occurrence of c to the end of w, or |w| without one,
      when only the first m letters are looked at. */
  ghost predicate IsDistanceUpTo(w: Word, m: nat, c: int, d: nat) {
    && m <= |w| && d <= |w|
    && (d < |w| ==> |w| - 1 - d < m && w[|w| - 1 - d] == c)
    && (forall x :: |w| - d <= x < m ==> w[x] != c)
  }

  ghost predicate IsDistance(w: Word, c: int, d: nat) {
    IsDistanceUpTo(w, |w|, c, d)
  }

  /** The last byte of the window occurs in w only a distance d back. */
  lemma BadByte(t: Word, w: Word, j: nat, d: nat)
    requires w != [] && j + |w| <= |t| && IsDistance(w, t[j + |w| - 1], d)
    ensures NoMatchIn(t, w, j, j + d)
    ensures d == 0 <==> Matches(t, w, j, |w| - 1)
  {
    forall x | j <= x < j + d ensures !Occurs(t, w, x) {
      if Occurs(t, w, x) {
        OccursLetter(t, w, x, |w| - 1 - (x - j));
      }
    }
  }

  /** In a periodic word the last period holds every letter, so a distance is either
      shorter than the period or the whole length. */
  lemma DistanceInPeriodic(w: Word, p: nat, c: int, d: nat)
    requires 1 <= p && HasPeriod(w, p) && IsDistance(w, c, d)
    ensures d < p || d == |w|
  {
    var n := |w|;
    assert ShiftsTo(w, p, n - 1 - d);
  }

  /** The window starts with all but its last period remembered, and its last byte is wrong:
      no window before the end of what is remembered can match. */
  lemma BadLastPeriod(t: Word, w: Word, j: nat, p: nat)
    requires 1 <= p < |w| && HasPeriod(w, p) && j + |w| <= |t|
    requires MatchesRange(t, w, j, 0, |w| - p)
    requires !Matches(t, w, j, |w| - 1)
    ensures NoMatchIn(t, w, j, j + |w| - p)
  {
    var n := |w|;
    forall x | j <= x < j + n - p ensures !Occurs(t, w, x) {
      if Occurs(t, w, x) {
        var s := x - j;
        OccursLetter(t, w, x, n - 1 - s);
        OccursLetter(t, w, x, n - 1 - p - s);
        assert ShiftsTo(w, p, n - 1 - p - s);
        MatchesLetter(t, w, j, 0, n - p, n - 1 - p);
        WrapAround(w, p);
      }
    }
  }

  lemma WrapAround(w: Word, p: nat)
    requires 1 <= p < |w| && HasPeriod(w, p)
    ensures w[|w| - 1 - p] == w[|w| - 1]
  {
    assert ShiftsTo(w, p, |w| - 1 - p);
  }

  // ---------------------------------------------------------------- steps of a search

  /** No match before j, and the first memory letters of the window at j are known to match. */
  ghost predicate Progress(t: Word, w: Word, j: nat, memory: nat) {
    NoMatchIn(t, w, 0, j) && MatchesRange(t, w, j, 0, memory)
  }

  /** Bounds on the letters compared by the right and by the left scans: the right scans meet
      ever larger positions of the text, and the left scans never overlap. */
  ghost predicate Tally(t: Word, w: Word, l: nat, j: nat, memory: nat, right: nat, left: nat) {
    && right + l <= j + Larger(l, memory) && left <= j
    && (right + left > 0 ==> right + l <= |t| && |w| <= |t| && left + |w| <= |t| + l)
  }

  function Larger(a: int, b: int): int { if a < b then b else a }

  /** c letters compared by a right scan of the window at j, up to and including i. */
  lemma TallyRight(t: Word, w: Word, l: nat, j: nat, memory: nat, right: nat, left: nat,
                   i: nat, c: nat)
    requires Tally(t, w, l, j, memory, right, left) && l < |w| && j + |w| <= |t|
    requires Larger(l, memory) <= i < |w| && c + Larger(l, memory) <= i + 1
    ensures Tally(t, w, l, j + (i - l + 1), 0, right + c, left)
  {
  }

  /** No letter compared, and a shift past what is remembered. */
  lemma TallyShift(t: Word, w: Word, l: nat, j: nat, memory: nat, right: nat, left: nat, d: nat)
    requires Tally(t, w, l, j, memory, right, left) && memory <= d
    ensures Tally(t, w, l, j + d, 0, right, left)
  {
  }

  /** A whole right scan of c letters and a left scan of e letters, then a shift by d. */
  lemma TallyLeft(t: Word, w: Word, l: nat, j: nat, memory: nat, right: nat, left: nat,
                  c: nat, e: nat, d: nat, newMemory: nat)
    requires Tally(t, w, l, j, memory, right, left) && l < |w| && j + |w| <= |t|
    requires c + Larger(l, memory) <= |w| && e <= l
    requires l <= d && |w| <= d + Larger(l, newMemory)
    ensures Tally(t, w, l, j + d, newMemory, right + c, left + e)
    ensures right + c + left + e <= 2 * |t| - |w|
  {
  }

  /** The window at j, with its letters from start on matched. */
  ghost predicate RightMatched(t: Word, w: Word, l: nat, j: nat, memory: nat) {
    && l < |w| && memory < |w| && j + |w| <= |t|
    && MatchesRange(t, w, j, Larger(l, memory), |w|)
  }

  lemma WholeMatch(t: Word, w: Word, l: nat, j: nat, memory: nat)
    requires Progress(t, w, j, memory) && RightMatched(t, w, l, j, memory)
    requires MatchesRange(t, w, j, memory, l)
    ensures Occurs(t, w, j)
  {
    AllMatch(t, w, j);
  }

  lemma LeftStep(t: Word, w: Word, l: nat, j: nat, memory: nat, d: nat, x: nat,
                 j': nat, memory': nat)
    requires IsCritical(w, l) && Progress(t, w, j, memory) && RightMatched(t, w, l, j, memory)
    requires x < |w| && !Matches(t, w, j, x)
    requires d <= GlobalPeriod(w) && j' == j + d
    requires memory' == 0 || (d == GlobalPeriod(w) && l <= d && memory' == |w| - d)
    ensures Progress(t, w, j', memory')
  {
    if Occurs(t, w, j) { OccursLetter(t, w, j, x); }
    assert MatchesRange(t, w, j, l, |w|);
    LeftMismatch(t, w, l, j, d);
    if memory' != 0 {
      Remembered(t, w, l, j, d);
    }
  }

  lemma RightStep(t: Word, w: Word, l: nat, j: nat, memory: nat, i: nat, j': nat)
    requires IsCritical(w, l) && Progress(t, w, j, memory) && l <= i < |w|
    requires MatchesRange(t, w, j, Larger(l, memory), i) && !Matches(t, w, j, i)
    requires j' == j + (i - l + 1)
    ensures Progress(t, w, j', 0)
  {
    assert MatchesRange(t, w, j, l, i);
    RightMismatch(t, w, l, j, i);
  }

  lemma Exhausted(t: Word, w: Word, j: nat, memory: nat)
    requires Progress(t, w, j, memory) && |t| < j + |w|
    ensures IsFirstMatch(t, w, None)
  {
  }

  /** The last byte of the window is wrong: shift by its distance d, or past what is
      remembered when that distance is shorter than the period. */
  lemma BadByteStep(t: Word, w: Word, j: nat, memory: nat, p: nat, d: nat)
    requires w != [] && Progress(t, w, j, memory) && j + |w| <= |t|
    requires IsDistance(w, t[j + |w| - 1], d) && 0 < d
    requires 1 <= p && HasPeriod(w, p) && (memory == 0 || memory == |w| - p)
    ensures Progress(t, w, j + if memory != 0 && d < p then memory else d, 0)
    ensures memory <= d || d < p
  {
    BadByte(t, w, j, d);
    if memory != 0 {
      BadLastPeriod(t, w, j, p);
      DistanceInPeriodic(w, p, t[j + |w| - 1], d);
    }
  }

  /** The whole step for a wrong last byte: the shift x skips no match and costs no comparison. */
  lemma BadByteShift(t: Word, w: Word, l: nat, j: nat, memory: nat, right: nat, left: nat,
                     p: nat, d: nat, x: nat)
    requires w != [] && Progress(t, w, j, memory) && j + |w| <= |t|
    requires IsDistance(w, t[j + |w| - 1], d) && 0 < d
    requires 1 <= p && HasPeriod(w, p) && (memory == 0 || memory == |w| - p)
    requires Tally(t, w, l, j, memory, right, left)
    requires x == if memory != 0 && d < p then memory else d
    ensures 0 < x <= |w| && Progress(t, w, j + x, 0) && Tally(t, w, l, j + x, 0, right, left)
  {
    BadByteStep(t, w, j, memory, p, d);
    TallyShift(t, w, l, j, memory, right, left, x);
  }

  /** The last byte of the window is right. */
  lemma GoodLastByte(t: Word, w: Word, j: nat)
    requires w != [] && j + |w| <= |t| && IsDistance(w, t[j + |w| - 1], 0)
    ensures MatchesRange(t, w, j, |w| - 1, |w|)
  {
    BadByte(t, w, j, 0);
  }
}
