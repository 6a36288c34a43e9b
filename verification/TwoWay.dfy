// The Two-Way string search: critical_factorization and the searches for short and for long
// needles, over the macros AVAILABLE, CANON_ELEMENT and CMP_FUNC of their two users.
module TwoWay {
  import opened CTypes
  import opened Words
  import opened MaximalSuffix
  import opened Search

  /** CANON_ELEMENT on a whole string. */
  function Fold(canon: Byte -> Byte, s: seq<Byte>): (w: Word)
    ensures |w| == |s| && forall i :: 0 <= i < |s| ==> w[i] == canon(s[i])
  {
    seq(|s|, i requires 0 <= i < |s| => canon(s[i]))
  }

  // -------------------------------------------------------------- factorization

  /** s starts the maximal suffix for one order on the letters, and p is its period. */
  ghost predicate IsExtreme(w: Word, rev: bool, s: nat, p: nat) {
    IsMaximalSuffix(w, rev, s) && s + p <= |w| && IsGlobalPeriod(w[s..], p)
  }

  /** One of the two loops of critical_factorization; rev reverses the order on bytes.
      maxSuffix is the index of the last byte of the left half, or SIZE_MAX. */
  method ScanMaximalSuffix(canon: Byte -> Byte, needle: seq<Byte>, rev: bool)
      returns (maxSuffix: Size, p: Size, ghost steps: nat)
    requires 1 <= |needle| <= SIZE_MAX
    ensures IsExtreme(Fold(canon, needle), rev, Plus(maxSuffix, 1), p)
    ensures steps < 2 * |needle|
  {
    ghost var w, n := Fold(canon, needle), |needle|;
    var j: Size, k: Size := 0, 1;
    maxSuffix, p, steps := SIZE_MAX, 1, 0;
    FirstStep(w, rev);
    ghost var s := 0;
    while Plus(j, k) < |needle|
      invariant Plus(maxSuffix, 1) == s && j + k <= n
      invariant ScanState(w, rev, s, p, j, k)
      invariant steps < s + j + k
      decreases 2 * n - (s + j + k)
    {
      assert Plus(maxSuffix, k) == s + k - 1;
      var a, b := canon(needle[Plus(j, k)]), canon(needle[Plus(maxSuffix, k)]);
      assert a == w[j + k] && b == w[s + k - 1];
      if Below(rev, a, b) {
        SmallerStep(w, rev, s, p, j, k);
        j := Plus(j, k);
        k := 1;
        p := Minus(j, maxSuffix);
      } else if a == b {
        SameStep(w, rev, s, p, j, k);
        if k != p {
          k := Plus(k, 1);
        } else {
          j := Plus(j, p);
          k := 1;
        }
      } else {
        LargerStep(w, rev, s, p, j, k);
        maxSuffix := j;
        j := Plus(j, 1);
        k, p := 1, 1;
        s := j;
      }
      steps := steps + 1;
    }
    Finally(w, rev, s, p);
  }

  /** What critical_factorization promises of its result and of *PERIOD. */
  ghost predicate IsFactorization(w: Word, suffix: nat, period: nat) {
    && IsCritical(w, suffix)
    && suffix <= GlobalPeriod(w)
    && suffix + period <= |w| && IsGlobalPeriod(w[suffix..], period)
    && (suffix == GlobalPeriod(w) ==> HasPeriod(w, period))
  }

  lemma ShorterFactorizes(w: Word, s: nat, p: nat, s': nat, p': nat)
    requires IsExtreme(w, false, s, p) && IsExtreme(w, true, s', p')
    ensures if s' < s then IsFactorization(w, s, p) else IsFactorization(w, s', p')
  {
    if s' < s {
      ShorterMaximalSuffixIsCritical(w, false, s, s');
    } else {
      ShorterMaximalSuffixIsCritical(w, true, s', s);
    }
  }

  method CriticalFactorization(canon: Byte -> Byte, needle: seq<Byte>)
      returns (suffix: Size, period: Size)
    requires 1 <= |needle| <= SIZE_MAX
    ensures IsFactorization(Fold(canon, needle), suffix, period)
  {
    ghost var w := Fold(canon, needle);
    if |needle| < 3 {
      suffix, period := |needle| - 1, 1;
      TinyNeedle(w, suffix);
      return;
    }
    var maxSuffix, maxSuffixRev, p;
    ghost var steps;
    maxSuffix, period, steps := ScanMaximalSuffix(canon, needle, false);
    maxSuffixRev, p, steps := ScanMaximalSuffix(canon, needle, true);
    ShorterFactorizes(w, Plus(maxSuffix, 1), period, Plus(maxSuffixRev, 1), p);
    if Plus(maxSuffixRev, 1) < Plus(maxSuffix, 1) {
      return Plus(maxSuffix, 1), period;
    }
    period := p;
    return Plus(maxSuffixRev, 1), period;
  }

  /** Words of one or two letters are cut before their last letter. */
  lemma TinyNeedle(w: Word, l: nat)
    requires 1 <= |w| <= 2 && l == |w| - 1
    ensures IsFactorization(w, l, 1)
  {
    var p := GlobalPeriod(w);
    assert HasPeriod(w[l..], 1);
    assert Repeats(w, l, p);
    if p == 2 {
      TwoLetters(w);
      assert !Repeats(w, l, 1);
    }
  }

  lemma TwoLetters(w: Word)
    requires |w| == 2 && !HasPeriod(w, 1)
    ensures !ShiftsTo(w, 1, 0)
  {
  }

  /** CMP_FUNC (needle, needle + period, suffix) tells exactly whether the needle is periodic. */
  lemma HalvesAgree(w: Word, suffix: nat, period: nat)
    requires IsFactorization(w, suffix, period)
    ensures HasPeriod(w, period) <==>
            forall i :: 0 <= i < suffix ==> ShiftsTo(w, period, i)
    ensures if HasPeriod(w, period) then period == GlobalPeriod(w)
            else suffix < GlobalPeriod(w) && |w| - suffix < GlobalPeriod(w)
  {
    var p := GlobalPeriod(w);
    if HasPeriod(w, period) {
      SuffixPeriod(w, suffix, p);
    } else {
      DistinctHalves(w, suffix, period);
    }
    if forall i :: 0 <= i < suffix ==> ShiftsTo(w, period, i) {
      forall i ensures ShiftsTo(w, period, i) {
        if suffix <= i && i + period < |w| {
          assert ShiftsTo(w[suffix..], period, i - suffix);
        }
      }
    }
  }

  // ------------------------------------------------------------------- the macros

  /** How the end of the haystack is found: memmem knows the length; strcasestr looks for the
      NUL, and its HAYSTACK_LEN is only the length known so far. */
  datatype Bound = Known | NulTerminated

  ghost predicate IsHaystack(bound: Bound, haystack: seq<Byte>) {
    && |haystack| <= SIZE_MAX
    && (bound.NulTerminated? ==>
          && haystack != [] && haystack[|haystack| - 1] == 0
          && forall i :: 0 <= i < |haystack| - 1 ==> haystack[i] != 0)
  }

  /** The number of bytes that belong to the haystack. */
  function Extent(bound: Bound, haystack: seq<Byte>): (x: nat)
    ensures x <= |haystack|
  {
    if bound.NulTerminated? && haystack != [] then |haystack| - 1 else |haystack|
  }

  function Text(bound: Bound, canon: Byte -> Byte, haystack: seq<Byte>): Word {
    Fold(canon, haystack[..Extent(bound, haystack)])
  }

  ghost predicate KnownLength(bound: Bound, haystack: seq<Byte>, haystackLen: Size, n: Size) {
    && IsHaystack(bound, haystack)
    && haystackLen <= Extent(bound, haystack)
    && (bound.Known? ==> haystackLen == |haystack| && n <= haystackLen)
  }

  /** How many bytes behind the known length can be looked at, the terminator included. */
  function Unknown(bound: Bound, haystack: seq<Byte>, haystackLen: nat): (n: nat)
    requires haystackLen <= Extent(bound, haystack)
  {
    if bound.Known? then 0 else Extent(bound, haystack) + 1 - haystackLen
  }

  /** memchr (s + from, NUL, count) != NULL: it stops at the first NUL, and so reads no byte
      behind the terminator. */
  method FindNul(s: seq<Byte>, from: Size, count: Size) returns (found: bool, ghost looked: nat)
    requires IsHaystack(NulTerminated, s) && from < |s|
    ensures found <==> |s| - 1 < from + count
    ensures looked == if found then |s| - from else count
  {
    var i := 0;
    looked := 0;
    while i < count
      invariant looked == i <= count && from + i <= |s| - 1
    {
      looked := looked + 1;
      if s[from + i] == 0 {
        return true, looked;
      }
      i := i + 1;
    }
    return false, looked;
  }

  /** AVAILABLE (h, h_l, j, n_l): are there n bytes in the window at j? It looks only at bytes
      behind the known length. */
  method Available(bound: Bound, haystack: seq<Byte>, haystackLen: Size, j: Size, n: Size)
      returns (ok: bool, newLen: Size, ghost looked: nat)
    requires KnownLength(bound, haystack, haystackLen, n) && 1 <= n
    requires bound.NulTerminated? ==> 0 <= j + n - haystackLen <= SIZE_MAX
    ensures ok <==> j + n <= Extent(bound, haystack)
    ensures newLen == if bound.NulTerminated? && ok then j + n else haystackLen
    ensures KnownLength(bound, haystack, newLen, n)
    ensures looked == if ok then newLen - haystackLen else Unknown(bound, haystack, haystackLen)
  {
    newLen, looked := haystackLen, 0;
    match bound {
      case Known =>
        ok := j <= Minus(haystackLen, n);
      case NulTerminated =>
        var nul;
        nul, looked := FindNul(haystack, haystackLen, Minus(Plus(j, n), haystackLen));
        ok := !nul;
        if !nul {
          newLen := Plus(j, n);
          ok := newLen != 0;
        }
    }
  }

  /** CMP_FUNC (s, s + period, len) == 0: memcmp, or strncasecmp, which also stops after a
      pair of equal bytes that fold to NUL. */
  method CompareEqual(bound: Bound, canon: Byte -> Byte, s: seq<Byte>, period: Size, len: Size)
      returns (same: bool)
    requires period + len <= |s| <= SIZE_MAX
    requires bound.NulTerminated? ==> forall i :: 0 <= i < |s| ==> canon(s[i]) != 0
    ensures same <==> forall i :: 0 <= i < len ==> ShiftsTo(Fold(canon, s), period, i)
  {
    ghost var w := Fold(canon, s);
    var i := 0;
    while i < len
      invariant 0 <= i <= len
      invariant forall x :: 0 <= x < i ==> ShiftsTo(w, period, x)
    {
      if canon(s[i]) != canon(s[i + period]) {
        assert !ShiftsTo(w, period, i);
        return false;
      }
      if bound.NulTerminated? && canon(s[i]) == 0 {
        return true;
      }
      i := i + 1;
    }
    return true;
  }

  // --------------------------------------------------------- the scans of one window

  /** The window at j lies inside the haystack. */
  ghost predicate IsWindow(bound: Bound, haystack: seq<Byte>, needle: seq<Byte>, j: nat) {
    && IsHaystack(bound, haystack)
    && 1 <= |needle| && j + |needle| <= Extent(bound, haystack)
  }

  /** Compare needle[start..end] with the window, upwards. */
  method ScanRight(bound: Bound, canon: Byte -> Byte, haystack: seq<Byte>, needle: seq<Byte>,
                   j: Size, start: Size, end: Size)
      returns (i: Size, ghost compares: nat)
    requires IsWindow(bound, haystack, needle, j) && start <= end <= |needle|
    ensures start <= i <= end
    ensures MatchesRange(Text(bound, canon, haystack), Fold(canon, needle), j, start, i)
    ensures i < end ==> !Matches(Text(bound, canon, haystack), Fold(canon, needle), j, i)
    ensures compares == if i == end then i - start else i - start + 1
  {
    ghost var t, w := Text(bound, canon, haystack), Fold(canon, needle);
    i, compares := start, 0;
    while i < end
      invariant start <= i <= end && compares == i - start
      invariant MatchesRange(t, w, j, start, i)
    {
      compares := compares + 1;
      if canon(needle[i]) != canon(haystack[Plus(i, j)]) {
        break;
      }
      i := Plus(i, 1);
    }
  }

  /** Compare needle[memory..suffix] with the window, downwards; i is the index of the
      mismatch, or memory - 1 (which is SIZE_MAX for memory 0) or less without one. */
  method ScanLeft(bound: Bound, canon: Byte -> Byte, haystack: seq<Byte>, needle: seq<Byte>,
                  j: Size, memory: Size, suffix: Size)
      returns (i: Size, ghost compares: nat)
    requires IsWindow(bound, haystack, needle, j)
    requires memory <= |needle| && suffix <= |needle| <= SIZE_MAX
    ensures Plus(i, 1) <= suffix
    ensures Plus(i, 1) <= memory ==>
            MatchesRange(Text(bound, canon, haystack), Fold(canon, needle), j, memory, suffix)
    ensures memory < Plus(i, 1) ==>
            !Matches(Text(bound, canon, haystack), Fold(canon, needle), j, i)
    ensures compares + memory <= suffix || compares == 0
  {
    ghost var t, w := Text(bound, canon, haystack), Fold(canon, needle);
    i, compares := Minus(suffix, 1), 0;
    while memory < Plus(i, 1)
      invariant Plus(i, 1) <= suffix && compares == suffix - Plus(i, 1)
      invariant Plus(i, 1) == suffix || memory <= Plus(i, 1)
      invariant MatchesRange(t, w, j, Plus(i, 1), suffix)
      decreases Plus(i, 1)
    {
      compares := compares + 1;
      if canon(needle[i]) != canon(haystack[Plus(i, j)]) {
        break;
      }
      assert Matches(t, w, j, i);
      i := Minus(i, 1);
    }
  }

  // ----------------------------------------------------------------- the four searches

  function Max(a: Size, b: Size): Size { Larger(a, b) }

  /** A window of the haystack, and the part of the needle from end on known to match it. */
  ghost predicate InWindow(bound: Bound, canon: Byte -> Byte, haystack: seq<Byte>,
                           needle: seq<Byte>, j: Size, end: Size) {
    && IsWindow(bound, haystack, needle, j)
    && |needle| <= SIZE_MAX && |needle| - 1 <= end <= |needle|
    && MatchesRange(Text(bound, canon, haystack), Fold(canon, needle), j, end, |needle|)
  }

  /** One round of the loops for a periodic needle: find a match at j, or shift. */
  method PeriodicWindow(bound: Bound, canon: Byte -> Byte, haystack: seq<Byte>,
                        needle: seq<Byte>, suffix: Size, period: Size, end: Size,
                        j: Size, memory: Size, ghost right: nat, ghost left: nat)
      returns (found: bool, newJ: Size, newMemory: Size, ghost newRight: nat, ghost newLeft: nat)
    requires InWindow(bound, canon, haystack, needle, j, end)
    requires var t, w := Text(bound, canon, haystack), Fold(canon, needle);
             && IsCritical(w, suffix) && period == GlobalPeriod(w) && suffix <= period
             && memory < |w| && Progress(t, w, j, memory)
             && Tally(t, w, suffix, j, memory, right, left)
    ensures var t, w := Text(bound, canon, haystack), Fold(canon, needle);
            if found then newJ == j && Occurs(t, w, j) else
               && j < newJ <= j + |needle| && (newMemory == 0 || newMemory == |w| - period)
               && Progress(t, w, newJ, newMemory)
    ensures var t, w := Text(bound, canon, haystack), Fold(canon, needle);
            if found then newRight + newLeft <= 2 * |t| - |w|
            else Tally(t, w, suffix, newJ, newMemory, newRight, newLeft)
    ensures |needle| == 1 ==>
              newRight == right + end && newLeft == left && (!found ==> newJ == j + 1)
  {
    hide Matches, IsLocalPeriod, Fold, Tally;
    ghost var t, w, n := Text(bound, canon, haystack), Fold(canon, needle), |needle|;
    var i;
    ghost var c, e;
    i, c := ScanRight(bound, canon, haystack, needle, j, Max(suffix, memory), end);
    if end <= i {
      i, e := ScanLeft(bound, canon, haystack, needle, j, memory, suffix);
      TallyLeft(t, w, suffix, j, memory, right, left, c, e, period, n - period);
      newRight, newLeft := right + c, left + e;
      if Plus(i, 1) < Plus(memory, 1) {
        WholeMatch(t, w, suffix, j, memory);
        found := true;
        newJ, newMemory := j, memory;
      } else {
        found := false;
        newJ, newMemory := Plus(j, period), Minus(|needle|, period);
        assert newJ == j + period && newMemory == n - period;
        LeftStep(t, w, suffix, j, memory, period, i, newJ, newMemory);
      }
    } else {
      newRight, newLeft := right + c, left;
      found := false;
      newJ, newMemory := Plus(j, Plus(Minus(i, suffix), 1)), 0;
      assert newJ == j + (i - suffix + 1);
      RightStep(t, w, suffix, j, memory, i, newJ);
      TallyRight(t, w, suffix, j, memory, right, left, i, c);
    }
  }

  /** One round of the loops for a needle with distinct halves, where nothing is remembered. */
  method DistinctWindow(bound: Bound, canon: Byte -> Byte, haystack: seq<Byte>,
                        needle: seq<Byte>, suffix: Size, period: Size, end: Size,
                        j: Size, ghost right: nat, ghost left: nat)
      returns (found: bool, newJ: Size, ghost newRight: nat, ghost newLeft: nat)
    requires InWindow(bound, canon, haystack, needle, j, end)
    requires var t, w := Text(bound, canon, haystack), Fold(canon, needle);
             && IsCritical(w, suffix)
             && suffix < period <= GlobalPeriod(w) && |w| <= period + suffix
             && Progress(t, w, j, 0) && Tally(t, w, suffix, j, 0, right, left)
    ensures var t, w := Text(bound, canon, haystack), Fold(canon, needle);
            if found then newJ == j && Occurs(t, w, j)
            else j < newJ <= j + |needle| && Progress(t, w, newJ, 0)
    ensures var t, w := Text(bound, canon, haystack), Fold(canon, needle);
            if found then newRight + newLeft <= 2 * |t| - |w|
            else Tally(t, w, suffix, newJ, 0, newRight, newLeft)
  {
    ghost var t, w := Text(bound, canon, haystack), Fold(canon, needle);
    var i;
    ghost var c, e;
    i, c := ScanRight(bound, canon, haystack, needle, j, suffix, end);
    if end <= i {
      i, e := ScanLeft(bound, canon, haystack, needle, j, 0, suffix);
      TallyLeft(t, w, suffix, j, 0, right, left, c, e, period, 0);
      newRight, newLeft := right + c, left + e;
      if i == SIZE_MAX {
        WholeMatch(t, w, suffix, j, 0);
        found, newJ := true, j;
      } else {
        found, newJ := false, Plus(j, period);
        assert newJ == j + period;
        LeftStep(t, w, suffix, j, 0, period, i, newJ, 0);
      }
    } else {
      newRight, newLeft := right + c, left;
      found, newJ := false, Plus(j, Plus(Minus(i, suffix), 1));
      assert newJ == j + (i - suffix + 1);
      RightStep(t, w, suffix, j, 0, i, newJ);
      TallyRight(t, w, suffix, j, 0, right, left, i, c);
    }
  }

  /** The haystack as a search is given it. */
  ghost predicate Searchable(bound: Bound, haystack: seq<Byte>, haystackLen: Size,
                             needle: seq<Byte>) {
    && 1 <= |needle| <= SIZE_MAX
    && KnownLength(bound, haystack, haystackLen, |needle|)
    && (bound.NulTerminated? ==> haystackLen < |needle|)
  }

  /** How many bytes a search looks at ahead: up to the end of the match, or up to the NUL. */
  function LookedAt(bound: Bound, haystack: seq<Byte>, knownLen: nat, m: nat, r: Option<nat>): int
    requires knownLen <= Extent(bound, haystack)
  {
    if r.Some? && bound.NulTerminated? then r.value + m - knownLen
    else if r.Some? then 0
    else Unknown(bound, haystack, knownLen)
  }

  /** How many letters a search may compare. */
  ghost predicate FewCompares(bound: Bound, haystack: seq<Byte>, needle: seq<Byte>, compares: nat) {
    var n, m := Extent(bound, haystack), |needle|;
    compares <= if m <= n then 2 * n - m else 0
  }

  // ------------------------------------------------------------------ short needles

  method ShortPeriodic(bound: Bound, canon: Byte -> Byte, haystack: seq<Byte>, knownLen: Size,
                       needle: seq<Byte>, suffix: Size, period: Size)
      returns (r: Option<nat>, ghost compares: nat, ghost looked: nat)
    requires Searchable(bound, haystack, knownLen, needle)
    requires var w := Fold(canon, needle);
             IsCritical(w, suffix) && period == GlobalPeriod(w) && suffix <= period
    ensures IsFirstMatch(Text(bound, canon, haystack), Fold(canon, needle), r)
    ensures FewCompares(bound, haystack, needle, compares)
    ensures looked == LookedAt(bound, haystack, knownLen, |needle|, r)
    ensures |needle| == 1 ==>
              compares == if r.Some? then r.value + 1 else Extent(bound, haystack)
  {
    ghost var t, w := Text(bound, canon, haystack), Fold(canon, needle);
    ghost var right, left := 0, 0;
    looked := 0;
    var haystackLen := knownLen;
    var memory: Size, j: Size, found := 0, 0, false;
    while true
      invariant KnownLength(bound, haystack, haystackLen, |needle|)
      invariant bound.NulTerminated? ==> 0 <= j + |needle| - haystackLen <= SIZE_MAX
      invariant memory < |needle| && Progress(t, w, j, memory)
      invariant Tally(t, w, suffix, j, memory, right, left)
      invariant |needle| == 1 ==> left == 0 && right == j <= |t|
      invariant knownLen + looked == haystackLen
      decreases |t| + 1 - j
    {
      var available;
      ghost var more;
      available, haystackLen, more := Available(bound, haystack, haystackLen, j, |needle|);
      looked := looked + more;
      if !available {
        Exhausted(t, w, j, memory);
        return None, right + left, looked;
      }
      found, j, memory, right, left :=
        PeriodicWindow(bound, canon, haystack, needle, suffix, period, |needle|, j, memory, right, left);
      if found {
        return Some(j), right + left, looked;
      }
    }
  }

  method ShortDistinct(bound: Bound, canon: Byte -> Byte, haystack: seq<Byte>, knownLen: Size,
                       needle: seq<Byte>, suffix: Size, period: Size)
      returns (r: Option<nat>, ghost compares: nat, ghost looked: nat)
    requires Searchable(bound, haystack, knownLen, needle)
    requires var w := Fold(canon, needle);
             && IsCritical(w, suffix)
             && suffix < period <= GlobalPeriod(w) && |w| <= period + suffix
    ensures IsFirstMatch(Text(bound, canon, haystack), Fold(canon, needle), r)
    ensures FewCompares(bound, haystack, needle, compares)
    ensures looked == LookedAt(bound, haystack, knownLen, |needle|, r)
  {
    ghost var t, w := Text(bound, canon, haystack), Fold(canon, needle);
    ghost var right, left := 0, 0;
    looked := 0;
    var haystackLen := knownLen;
    var j: Size, found := 0, false;
    while true
      invariant KnownLength(bound, haystack, haystackLen, |needle|)
      invariant bound.NulTerminated? ==> 0 <= j + |needle| - haystackLen <= SIZE_MAX
      invariant Progress(t, w, j, 0) && Tally(t, w, suffix, j, 0, right, left)
      invariant knownLen + looked == haystackLen
      decreases |t| + 1 - j
    {
      var available;
      ghost var more;
      available, haystackLen, more := Available(bound, haystack, haystackLen, j, |needle|);
      looked := looked + more;
      if !available {
        Exhausted(t, w, j, 0);
        return None, right + left, looked;
      }
      found, j, right, left :=
        DistinctWindow(bound, canon, haystack, needle, suffix, period, |needle|, j, right, left);
      if found {
        return Some(j), right + left, looked;
      }
    }
  }

  method ShortNeedle(bound: Bound, canon: Byte -> Byte, haystack: seq<Byte>, haystackLen: Size,
                     needle: seq<Byte>)
      returns (r: Option<nat>, ghost compares: nat, ghost looked: nat)
    requires Searchable(bound, haystack, haystackLen, needle)
    requires bound.NulTerminated? ==> forall i :: 0 <= i < |needle| ==> canon(needle[i]) != 0
    ensures IsFirstMatch(Text(bound, canon, haystack), Fold(canon, needle), r)
    ensures FewCompares(bound, haystack, needle, compares)
    ensures looked == LookedAt(bound, haystack, haystackLen, |needle|, r)
    ensures bound.NulTerminated? && haystackLen == |needle| - 1 ==>
              (compares + looked <= 3 * Extent(bound, haystack) - |needle| <==>
                 || 2 <= |needle| || 2 <= Extent(bound, haystack)
                 || Occurs(Text(bound, canon, haystack), Fold(canon, needle), 0))
  {
    var suffix, period := CriticalFactorization(canon, needle);
    HalvesAgree(Fold(canon, needle), suffix, period);
    var periodic := CompareEqual(bound, canon, needle, period, suffix);
    if periodic {
      r, compares, looked := ShortPeriodic(bound, canon, haystack, haystackLen, needle, suffix, period);
    } else {
      period := Max(suffix, |needle| - suffix) + 1;
      r, compares, looked := ShortDistinct(bound, canon, haystack, haystackLen, needle, suffix, period);
    }
  }

  /** The documented bound for a growing window fails where a one-byte needle is not the only
      byte of a haystack: three looks and comparisons instead of two. */
  method OneByteExceeds() returns (r: Option<nat>, ghost compares: nat, ghost looked: nat)
    ensures r == None && compares == 1 && looked == 2
  {
    var same := (c: Byte) => c;
    var haystack: seq<Byte> := [97, 0];
    ghost var t, w := Text(NulTerminated, same, haystack), Fold(same, [98]);
    assert t == [97] && w == [98] && t[0..1] == t;
    r, compares, looked := ShortNeedle(NulTerminated, same, haystack, 0, [98]);
  }

  // ------------------------------------------------------------------- long needles

  ghost predicate IsShiftTable(table: array<Size>, w: Word)
    reads table
  {
    table.Length == 256 && forall c: Byte :: IsDistance(w, c, table[c])
  }

  /** shift_table: for each byte the distance from its last occurrence to the end. */
  method FillShiftTable(table: array<Size>, canon: Byte -> Byte, needle: seq<Byte>)
    requires table.Length == 256 && |needle| <= SIZE_MAX
    modifies table
    ensures IsShiftTable(table, Fold(canon, needle))
  {
    ghost var w := Fold(canon, needle);
    var i := 0;
    while i < 256
      invariant 0 <= i <= 256
      invariant forall c: Byte :: c < i ==> IsDistanceUpTo(w, 0, c, table[c])
    {
      table[i] := |needle|;
      i := i + 1;
    }
    i := 0;
    while i < |needle|
      invariant 0 <= i <= |needle|
      invariant forall c: Byte :: IsDistanceUpTo(w, i, c, table[c])
    {
      table[canon(needle[i])] := |needle| - i - 1;
      i := i + 1;
    }
  }

  method LongPeriodic(bound: Bound, canon: Byte -> Byte, haystack: seq<Byte>, knownLen: Size,
                      needle: seq<Byte>, suffix: Size, period: Size, table: array<Size>)
      returns (r: Option<nat>, ghost compares: nat, ghost looked: nat)
    requires Searchable(bound, haystack, knownLen, needle)
    requires IsShiftTable(table, Fold(canon, needle))
    requires var w := Fold(canon, needle);
             IsCritical(w, suffix) && period == GlobalPeriod(w) && suffix <= period
    ensures IsFirstMatch(Text(bound, canon, haystack), Fold(canon, needle), r)
    ensures FewCompares(bound, haystack, needle, compares)
    ensures looked == LookedAt(bound, haystack, knownLen, |needle|, r)
    ensures |needle| == 1 ==> compares == 0
  {
    hide IsDistance, IsLocalPeriod, Occurs, HasPeriod, Matches;
    ghost var t, w := Text(bound, canon, haystack), Fold(canon, needle);
    ghost var right, left := 0, 0;
    looked := 0;
    var n: Size := |needle|;
    var haystackLen := knownLen;
    var memory: Size, j: Size, found := 0, 0, false;
    while true
      invariant KnownLength(bound, haystack, haystackLen, n)
      invariant bound.NulTerminated? ==> 0 <= j + n - haystackLen <= SIZE_MAX
      invariant memory == 0 || memory == n - period
      invariant Progress(t, w, j, memory) && Tally(t, w, suffix, j, memory, right, left)
      invariant |needle| == 1 ==> left == 0 && right == 0
      invariant knownLen + looked == haystackLen
      decreases |t| + 1 - j
    {
      var available;
      ghost var more;
      available, haystackLen, more := Available(bound, haystack, haystackLen, j, n);
      looked := looked + more;
      if !available {
        Exhausted(t, w, j, memory);
        return None, right + left, looked;
      }
      var shift := table[canon(haystack[j + n - 1])];
      if 0 < shift {
        ghost var d := shift;
        if memory != 0 && shift < period {
          shift := n - period;
        }
        BadByteShift(t, w, suffix, j, memory, right, left, period, d, shift);
        assert Plus(j, shift) == j + shift;
        memory, j := 0, Plus(j, shift);
        continue;
      }
      GoodLastByte(t, w, j);
      found, j, memory, right, left :=
        PeriodicWindow(bound, canon, haystack, needle, suffix, period, n - 1, j, memory, right, left);
      if found {
        return Some(j), right + left, looked;
      }
    }
  }

  method LongDistinct(bound: Bound, canon: Byte -> Byte, haystack: seq<Byte>, knownLen: Size,
                      needle: seq<Byte>, suffix: Size, period: Size, table: array<Size>)
      returns (r: Option<nat>, ghost compares: nat, ghost looked: nat)
    requires Searchable(bound, haystack, knownLen, needle)
    requires IsShiftTable(table, Fold(canon, needle))
    requires var w := Fold(canon, needle);
             && IsCritical(w, suffix)
             && suffix < period <= GlobalPeriod(w) && |w| <= period + suffix
    ensures IsFirstMatch(Text(bound, canon, haystack), Fold(canon, needle), r)
    ensures FewCompares(bound, haystack, needle, compares)
    ensures looked == LookedAt(bound, haystack, knownLen, |needle|, r)
  {
    ghost var t, w := Text(bound, canon, haystack), Fold(canon, needle);
    ghost var right, left := 0, 0;
    looked := 0;
    var n: Size := |needle|;
    var haystackLen := knownLen;
    var j: Size, found := 0, false;
    while true
      invariant KnownLength(bound, haystack, haystackLen, n)
      invariant bound.NulTerminated? ==> 0 <= j + n - haystackLen <= SIZE_MAX
      invariant Progress(t, w, j, 0) && Tally(t, w, suffix, j, 0, right, left)
      invariant knownLen + looked == haystackLen
      decreases |t| + 1 - j
    {
      var available;
      ghost var more;
      available, haystackLen, more := Available(bound, haystack, haystackLen, j, n);
      looked := looked + more;
      if !available {
        Exhausted(t, w, j, 0);
        return None, right + left, looked;
      }
      var shift := table[canon(haystack[j + n - 1])];
      if 0 < shift {
        BadByteShift(t, w, suffix, j, 0, right, left, GlobalPeriod(w), shift, shift);
        assert Plus(j, shift) == j + shift;
        j := Plus(j, shift);
        continue;
      }
      GoodLastByte(t, w, j);
      found, j, right, left :=
        DistinctWindow(bound, canon, haystack, needle, suffix, period, n - 1, j, right, left);
      if found {
        return Some(j), right + left, looked;
      }
    }
  }

  method LongNeedle(bound: Bound, canon: Byte -> Byte, haystack: seq<Byte>, haystackLen: Size,
                    needle: seq<Byte>)
      returns (r: Option<nat>, ghost compares: nat, ghost looked: nat)
    requires Searchable(bound, haystack, haystackLen, needle)
    requires bound.NulTerminated? ==> forall i :: 0 <= i < |needle| ==> canon(needle[i]) != 0
    ensures IsFirstMatch(Text(bound, canon, haystack), Fold(canon, needle), r)
    ensures FewCompares(bound, haystack, needle, compares)
    ensures looked == LookedAt(bound, haystack, haystackLen, |needle|, r)
    ensures bound.NulTerminated? && haystackLen == |needle| - 1 ==>
              (compares + looked <= 3 * Extent(bound, haystack) - |needle| <==>
                 2 <= |needle| || 1 <= Extent(bound, haystack))
  {
    var suffix, period := CriticalFactorization(canon, needle);
    HalvesAgree(Fold(canon, needle), suffix, period);
    var table := new Size[256];
    FillShiftTable(table, canon, needle);
    var periodic := CompareEqual(bound, canon, needle, period, suffix);
    if periodic {
      r, compares, looked := LongPeriodic(bound, canon, haystack, haystackLen, needle, suffix, period, table);
    } else {
      period := Max(suffix, |needle| - suffix) + 1;
      r, compares, looked := LongDistinct(bound, canon, haystack, haystackLen, needle, suffix, period, table);
    }
  }
}
