// Printing a mask as names and parsing that text gives the mask back.
module SetRoundTrip {
  import opened CTypes
  import opened CText
  import opened Machine
  import opened SetSpec

  /** A character that may start a name: none that the parser takes for something else. */
  predicate MayStart(c: Byte) {
    && !IsSeparator(c) && !IsDigit(c, 10)
    && c != MINUS && c != BANG && c != EQUALS && c != CARET
  }

  /** A name that the parser reads as a name; a tilde and at most one more character would not be
      looked up. */
  ghost predicate IsName(n: seq<Byte>) {
    && 1 <= |n| <= 127 && n != ALL && n != NONE && (n[0] == TILDE ==> 3 <= |n|)
    && MayStart(n[0]) && forall i :: 0 <= i < |n| ==> !IsSeparator(n[i])
  }

  ghost predicate AreNames(names: Names, w: nat) {
    && |names| < w
    && (forall i :: 0 <= i < |names| ==> IsName(names[i]))
    && (forall i, j :: 0 <= i < j < |names| ==> names[i] != names[j])
  }

  // -------------------------------------------------------------------- one name

  lemma {:induction false} TokenIs(s: seq<Byte>, p: nat, n: seq<Byte>, e: nat)
    requires At(s, p, n) && e == p + |n| < |s| && IsSeparator(s[e])
    requires forall i :: 0 <= i < |n| ==> !IsSeparator(n[i])
    ensures TokenEnd(s, p) == e && s[p..e] == n
    decreases |n|
  {
    if n != [] {
      AtIndex(s, p, n, 0);
      assert n == [n[0]] + n[1..];
      AtConcat(s, p, [n[0]], n[1..], p + 1);
      TokenIs(s, p + 1, n[1..], e);
      assert s[p..e] == [s[p]] + s[p + 1..e];
    }
  }

  /** A name without NUL, in front of a NUL. */
  lemma NameItself(n: seq<Byte>)
    requires 0 !in n
    ensures NameIn(n + [0]) == n
  {
    CutAt(n + [0], 0, |n|);
  }

  lemma {:induction false} CutAt(m: seq<Byte>, p: nat, k: nat)
    requires p <= k < |m| && m[k] == 0 && forall i :: p <= i < k ==> m[i] != 0
    ensures CutAtNul(m, p, |m|) == k
    decreases k - p
  {
    if p < k { CutAt(m, p + 1, k); }
  }

  /** Among distinct names each is found by itself, whatever partial matches come before it. */
  lemma {:induction false} LookUpExact(names: Names, k: nat, ix: nat, res: nat)
    requires ix <= k < |names|
    requires forall i, j :: 0 <= i < j < |names| ==> names[i] != names[j]
    ensures LookUp(names[k], names, ix, res) == Some(k)
    decreases k - ix
  {
    if ix < k {
      assert names[ix] != names[k];
      LookUpExact(names, k, ix + 1, res);
      LookUpExact(names, k, ix + 1, if res == |names| then ix else |names| + 1);
    }
  }

  /** A printed name is parsed to its bit. */
  lemma MemberIs(s: seq<Byte>, p: nat, names: Names, k: nat, e: nat, w: nat)
    requires AreNames(names, w) && k < |names|
    requires At(s, p, names[k]) && e == p + |names[k]| < |s| && IsSeparator(s[e])
    ensures TokenEnd(s, p) == e && s[p..e] == names[k] && s[p] == names[k][0]
    ensures Member(s, p, e, names, w) == Done(BitOf(k))
  {
    hide StrToUl, LookUp, CutAtNul, TokenEnd;
    var n := names[k];
    assert IsName(n);
    TokenIs(s, p, n, e);
    assert 0 !in n;
    NameItself(n);
    AtIndex(s, p, n, 0);
    NoNumber(s, p, w);
    assert n[0] == TILDE ==> (n + [0])[2] == n[2];
    LookUpExact(names, k, 0, |names|);
  }

  /** The step of the parser at a printed name. */
  lemma StepName(s: seq<Byte>, p: nat, res: nat, names: Names, k: nat, e: nat, w: nat)
    requires AreNames(names, w) && k < |names| && res < Pow2(k)
    requires At(s, p, names[k]) && e == p + |names[k]| < |s| && IsSeparator(s[e])
    ensures MayStart(s[p])
    ensures StepMember(s, p, false, res, names, w) == Next(SkipWhite(s, e), res + Pow2(k))
    ensures Step(s, p, res, names, w) == Next(SkipWhite(s, e), res + Pow2(k))
  {
    TokenAdds(s, p, res, names, k, e, w);
  }

  lemma TokenAdds(s: seq<Byte>, p: nat, res: nat, names: Names, k: nat, e: nat, w: nat)
    requires AreNames(names, w) && k < |names| && res < Pow2(k)
    requires At(s, p, names[k]) && e == p + |names[k]| < |s| && IsSeparator(s[e])
    ensures p < e && TokenEnd(s, p) == e && MayStart(s[p])
    ensures Token(s, p, e, false, res, names, w) == Done(res + Pow2(k))
  {
    assert IsName(names[k]);
    MemberIs(s, p, names, k, e, w);
    OrBit(res, k, w);
  }

  // -------------------------------------------------------------------- all names

  lemma {:induction false} PrintedStarts(bits: nat, names: Names, ix: nat, w: nat)
    requires AreNames(names, w) && ix <= |names| && bits < Pow2(|names| - ix) && bits != 0
    ensures Printed(bits, names, ix) != [] && MayStart(Printed(bits, names, ix)[0])
    decreases bits
  {
    if bits % 2 == 0 {
      PrintedStarts(bits / 2, names, ix + 1, w);
    } else {
      assert IsName(names[ix]);
    }
  }

  /** Parsing printed names adds their bits; a plus sign may stand before the first. */
  lemma {:induction false} MembersPrinted(s: seq<Byte>, p: nat, res: nat, names: Names,
                                          bits: nat, ix: nat, end: nat, r: nat, w: nat)
    requires AreNames(names, w) && ix <= |names| && 0 < bits < Pow2(|names| - ix) && res < Pow2(ix)
    requires At(s, p, Printed(bits, names, ix))
    requires end == p + |Printed(bits, names, ix)| < |s| && s[end] == 0
    requires r == res + Doubled(bits, ix)
    ensures MembersAre(s, p, res, names, w, r)
    decreases bits
  {
    hide Members, Step, StepMember, MembersAre, At, IsName, Doubled;
    HalfBit(bits, ix);
    if bits % 2 == 0 {
      MembersPrinted(s, p, res, names, bits / 2, ix + 1, end, r, w);
    } else if bits / 2 == 0 {
      LastName(s, p, res, names, ix, end, w);
      DoubledValue(0, ix + 1);
    } else {
      var e := p + |names[ix]|;
      NamesSplit(s, p, names, bits, ix, e, end, w);
      MembersPrinted(s, e + 3, res + Pow2(ix), names, bits / 2, ix + 1, end, r, w);
      StepThenPlus(s, p, res, names, ix, e, r, w);
    }
  }

  /** The members at p give the mask r, with or without a sign for addition before the first. */
  ghost predicate MembersAre(s: seq<Byte>, p: nat, res: nat, names: Names, w: nat, r: nat) {
    && p <= |s|
    && Members(s, p, res, names, w) == Done(r)
    && StepMember(s, p, false, res, names, w) == Step(s, p, res, names, w)
  }

  lemma NamesSplit(s: seq<Byte>, p: nat, names: Names, bits: nat, ix: nat, e: nat, end: nat, w: nat)
    requires AreNames(names, w) && ix < |names| && bits < Pow2(|names| - ix)
    requires bits % 2 == 1 && bits / 2 != 0 && e == p + |names[ix]|
    requires At(s, p, Printed(bits, names, ix)) && end == p + |Printed(bits, names, ix)|
    ensures At(s, p, names[ix]) && PlusBefore(s, e) && bits / 2 < Pow2(|names| - (ix + 1))
    ensures At(s, e + 3, Printed(bits / 2, names, ix + 1))
    ensures end == e + 3 + |Printed(bits / 2, names, ix + 1)|
  {
    PrintedOdd(bits, names, ix);
    PrintedStarts(bits / 2, names, ix + 1, w);
    NextName(s, p, names, ix, Printed(bits / 2, names, ix + 1), e, w);
  }

  lemma PrintedOdd(bits: nat, names: Names, ix: nat)
    requires ix <= |names| && bits < Pow2(|names| - ix) && bits % 2 == 1 && bits / 2 != 0
    ensures ix < |names| && bits / 2 < Pow2(|names| - ix - 1)
    ensures Printed(bits, names, ix) == names[ix] + (PLUS_STR + Printed(bits / 2, names, ix + 1))
    ensures |Printed(bits, names, ix)| == |names[ix]| + 3 + |Printed(bits / 2, names, ix + 1)|
  {
  }

  lemma LastName(s: seq<Byte>, p: nat, res: nat, names: Names, k: nat, end: nat, w: nat)
    requires AreNames(names, w) && k < |names| && res < Pow2(k)
    requires At(s, p, names[k] + []) && end == p + |names[k]| < |s| && s[end] == 0
    ensures MembersAre(s, p, res, names, w, res + Pow2(k))
  {
    assert names[k] + [] == names[k];
    StepName(s, p, res, names, k, end, w);
    assert SkipWhite(s, end) == end;
    assert Step(s, end, res + Pow2(k), names, w) == Over(Done(res + Pow2(k)));
  }

  /** A name, a plus sign and more names. */
  lemma NextName(s: seq<Byte>, p: nat, names: Names, k: nat, rest: seq<Byte>, e: nat, w: nat)
    requires AreNames(names, w) && k < |names|
    requires At(s, p, names[k] + (PLUS_STR + rest)) && e == p + |names[k]|
    requires rest != [] && MayStart(rest[0])
    ensures At(s, p, names[k]) && At(s, e + 3, rest) && PlusBefore(s, e)
  {
    AtConcat(s, p, names[k], PLUS_STR + rest, e);
    AtConcat(s, e, PLUS_STR, rest, e + 3);
    AtIndex(s, e, PLUS_STR, 0);
    AtIndex(s, e, PLUS_STR, 1);
    AtIndex(s, e, PLUS_STR, 2);
    AtIndex(s, e + 3, rest, 0);
  }

  /** A plus sign between spaces at e, with a member behind it. */
  ghost predicate PlusBefore(s: seq<Byte>, e: nat) {
    && e + 3 < |s| && s[e] == 32 && s[e + 1] == PLUS
    && SkipWhite(s, e) == e + 1 && SkipWhite(s, e + 2) == e + 3
  }

  lemma StepThenPlus(s: seq<Byte>, p: nat, res: nat, names: Names, k: nat, e: nat, r: nat, w: nat)
    requires AreNames(names, w) && k < |names| && res < Pow2(k)
    requires At(s, p, names[k]) && e == p + |names[k]| && PlusBefore(s, e)
    requires MembersAre(s, e + 3, res + Pow2(k), names, w, r)
    ensures MembersAre(s, p, res, names, w, r)
  {
    hide Members, Step, StepMember, TokenEnd, IsName, At;
    StepName(s, p, res, names, k, e, w);
    MembersNext(s, p, res, e + 1, res + Pow2(k), names, w);
    StepPlus(s, e + 1, res + Pow2(k), names, e + 3, w);
    MembersSame(s, e + 1, e + 3, res + Pow2(k), names, w);
  }

  lemma StepPlus(s: seq<Byte>, p: nat, res: nat, names: Names, q: nat, w: nat)
    requires p < |s| && s[p] == PLUS && q == SkipWhite(s, p + 1)
    ensures Step(s, p, res, names, w) == StepMember(s, q, false, res, names, w)
  {
  }

  lemma MembersNext(s: seq<Byte>, p: nat, res: nat, q: nat, next: nat, names: Names, w: nat)
    requires p <= |s| && Step(s, p, res, names, w) == Next(q, next)
    ensures Members(s, p, res, names, w) == Members(s, q, next, names, w)
  {
  }

  lemma MembersSame(s: seq<Byte>, p: nat, q: nat, res: nat, names: Names, w: nat)
    requires p <= |s| && q <= |s| && Step(s, p, res, names, w) == Step(s, q, res, names, w)
    ensures Members(s, p, res, names, w) == Members(s, q, res, names, w)
  {
  }

  /** The weight of the bits from ix on. */
  lemma {:induction false} HalfBit(bits: nat, ix: nat)
    ensures Doubled(bits, ix) == (if bits % 2 == 1 then Pow2(ix) else 0) + Doubled(bits / 2, ix + 1)
  {
    if ix == 0 {
      assert Doubled(bits / 2, 1) == 2 * Doubled(bits / 2, 0);
    } else {
      HalfBit(bits, ix - 1);
    }
  }

  // -------------------------------------------------------------------- round trip

  /** "=" and the names of a mask are parsed to that mask, whatever the old one; "=^" and the
      names to its complement within the bits that have names. The text ends at its NUL, and
      the memory behind that does not matter. */
  lemma SetRoundTrips(mask: nat, names: Names, cookie: nat, w: nat, prefix: seq<Byte>, s: seq<Byte>)
    requires AreNames(names, w) && mask < Pow2(|names|)
    requires prefix == [EQUALS] || prefix == [EQUALS, CARET]
    requires prefix + Printed(mask, names, 0) + [0] <= s
    ensures Parsed(s, cookie, names, w)
            == Done(if prefix == [EQUALS] then mask else Pow2(|names|) - 1 - mask)
  {
    FinishIs(mask, |names|, w);
    ParsePrefixed(mask, names, cookie, prefix, prefix != [EQUALS], w, s);
  }

  lemma ParsePrefixed(mask: nat, names: Names, cookie: nat, prefix: seq<Byte>, invert: bool, w: nat,
                      s: seq<Byte>)
    requires AreNames(names, w) && mask < Pow2(|names|)
    requires prefix == if invert then [EQUALS, CARET] else [EQUALS]
    requires prefix + Printed(mask, names, 0) + [0] <= s
    ensures Parsed(s, cookie, names, w) == Done(Finish(mask, invert, |names|, w))
  {
    hide Members, Step, StepMember, TokenEnd;
    var text := Printed(mask, names, 0);
    var p := |prefix|;
    var end := p + |text|;
    assert (prefix + text + [0])[end] == 0;
    forall i | 0 <= i < |text| ensures SameAt(s, p, text, i) {
      assert (prefix + text + [0])[p + i] == text[i];
    }
    assert s[0] == (prefix + text + [0])[0] == EQUALS && s[end] == 0;
    assert invert ==> s[1] == (prefix + text + [0])[1] == CARET;
    if mask != 0 {
      PrintedStarts(mask, names, 0, w);
      AtIndex(s, p, text, 0);
    }
    assert !IsWhite(s[p]) && s[p] != EQUALS && s[p] != COMMA && s[p] != CARET;
    assert SkipWhite(s, p) == p;
    assert StartAt(s, cookie) == Start(0, invert, p);
    if mask == 0 {
      NoMembers(s, p, 0, names, w);
    } else {
      MembersPrinted(s, p, 0, names, mask, 0, end, mask, w);
    }
  }

  lemma NoMembers(s: seq<Byte>, p: nat, res: nat, names: Names, w: nat)
    requires p < |s| && s[p] == 0
    ensures Members(s, p, res, names, w) == Done(res)
  {
  }

  lemma FinishIs(mask: nat, n: nat, w: nat)
    requires mask < Pow2(n) && n < w
    ensures Finish(mask, false, n, w) == mask
    ensures Finish(mask, true, n, w) == Pow2(n) - 1 - mask
  {
    KeepMask(mask, n, w);
    InvertMask(mask, n, w - n, w);
  }

  lemma KeepMask(mask: nat, n: nat, w: nat)
    requires mask < Pow2(n) && n < w
    ensures Bitwise(And, mask, Pow2(n) - 1, w) == mask
  {
    AndMask(mask, 0, n, w);
    assert Pow2(n) * 0 == 0;
  }

  lemma InvertMask(mask: nat, n: nat, m: nat, w: nat)
    requires mask < Pow2(n) && n + m == w
    ensures Bitwise(And, Bitwise(Xor, mask, Pow2(w) - 1, w), Pow2(n) - 1, w) == Pow2(n) - 1 - mask
  {
    hide Bitwise, Pow2;
    Pow2Monotone(n, w);
    XorOnes(mask, w);
    var p, q := Pow2(n), Pow2(m);
    Pow2Sum(n, m);
    TimesPredecessor(p, q);
    AndMask(p - 1 - mask, q - 1, n, w);
  }

  lemma TimesPredecessor(p: nat, q: nat)
    requires 1 <= q
    ensures p * (q - 1) == p * q - p
  {
  }

  // ------------------------------------------------------------------ names that are not read

  /** The member at p is neither a number nor one of the names. */
  lemma RefusedMember(s: seq<Byte>, p: nat, e: nat, names: Names, w: nat)
    requires p < e < |s| && TokenEnd(s, p) == e && e - p <= 2
    requires !IsDigit(s[p], 10) && s[p] != MINUS && s[p] != PLUS && s[p] != TILDE
    requires 0 !in s[p..e] && forall k :: 0 <= k < |names| ==> !(s[p..e] <= names[k])
    ensures Token(s, p, e, false, 0, names, w) == Token(s, p, e, true, 0, names, w) == Failed
  {
    hide StrToUl, CutAtNul;
    NoNumber(s, p, w);
    NameItself(s[p..e]);
    NotListed(s[p..e], names, 0);
    assert s[p..e] != ALL && s[p..e] != NONE;
  }

  lemma {:induction false} NotListed(name: seq<Byte>, names: Names, ix: nat)
    requires ix <= |names| && forall k :: 0 <= k < |names| ==> !(name <= names[k])
    ensures LookUp(name, names, ix, |names|) == None
    decreases |names| - ix
  {
    if ix < |names| { NotListed(name, names, ix + 1); }
  }

  /** A name behind a sign for taking away: the sign is not read as part of the name. */
  lemma SignedName(c: Byte, cookie: nat, w: nat)
    requires c == MINUS || c == BANG
    ensures Parsed([EQUALS, c, 97, 0], cookie, [[c, 97]], w) == Done(0)
  {
    var s, names := [EQUALS, c, 97, 0], [[c, 97]];
    assert SkipWhite(s, 1) == 1 && SkipWhite(s, 2) == 2 && TokenEnd(s, 3) == 3 && TokenEnd(s, 2) == 3;
    assert s[2..3] == [97] && names[0][0] == c;
    RefusedMember(s, 2, 3, names, w);
    assert Step(s, 1, 0, names, w) == Over(Failed);
  }

  /** A name that starts like the lead of a text. */
  lemma LeadingName(c: Byte, cookie: nat, w: nat)
    requires c == EQUALS || c == CARET
    ensures Parsed([EQUALS, c, 97, 0], cookie, [[c, 97]], w) == Done(0)
  {
    var s, names := [EQUALS, c, 97, 0], [[c, 97]];
    assert SkipWhite(s, 1) == 1 && SkipWhite(s, 2) == 2 && TokenEnd(s, 3) == 3 && TokenEnd(s, 2) == 3;
    assert s[2..3] == [97] && names[0][0] == c;
    RefusedMember(s, 2, 3, names, w);
    assert Step(s, 2, 0, names, w) == Over(Failed);
  }

  /** A name that starts with a digit is looked up from behind its number on. */
  lemma DigitName(cookie: nat, w: nat)
    ensures Parsed([EQUALS, 49, 97, 0], cookie, [[49, 97]], w) == Done(0)
  {
    var s, names := [EQUALS, 49, 97, 0], [[49, 97]];
    assert SkipWhite(s, 1) == 1;
    assert TokenEnd(s, 3) == 3 && TokenEnd(s, 2) == 3 && TokenEnd(s, 1) == 3;
    RunIs(s, 1, 1, |s|, 10);
    assert StrToUl(s, 1, w).count == 1;
    assert s[2..4] + [0] == [97] + [0] + [0];
    CutAt([97, 0, 0], 0, 1);
    NotListed([97], names, 0);
    assert MemberBit(s, 2, 2, names, w) == Failed;
    assert |s[1..3]| == 2;
    assert Step(s, 1, 0, names, w) == Over(Failed);
  }

  /** The two words for all members and for none are not read as names. */
  lemma WordName(cookie: nat, w: nat)
    requires 2 < w
    ensures Parsed([EQUALS] + ALL + [0], cookie, [ALL, [98]], w) == Done(3)
    ensures Parsed([EQUALS] + NONE + [0], cookie, [NONE], w) == Done(0)
  {
    AllMembers([EQUALS] + ALL + [0], [ALL, [98]], cookie, w);
    NoMember([EQUALS] + NONE + [0], [NONE], cookie, w);
  }

  lemma AllMembers(s: seq<Byte>, names: Names, cookie: nat, w: nat)
    requires s == [EQUALS] + ALL + [0] && |names| == 2 && 2 < w
    ensures Parsed(s, cookie, names, w) == Done(3)
  {
    forall i | 0 <= i < 3 ensures SameAt(s, 1, ALL, i) {}
    TokenIs(s, 1, ALL, 4);
    assert SkipWhite(s, 1) == 1 && SkipWhite(s, 4) == 4;
    var r := Pow2(w) - 1;
    assert Step(s, 1, 0, names, w) == Next(4, r) && Step(s, 4, r, names, w) == Over(Done(r));
    MembersNext(s, 1, 0, 4, r, names, w);
    var n := |names|;
    Pow2Monotone(n, w);
    LowOnes(n, w);
    assert Pow2(n - 1) == 2 && Pow2(n) == 4;
  }

  lemma LowOnes(n: nat, w: nat)
    requires n <= w
    ensures Bitwise(And, Pow2(w) - 1, Pow2(n) - 1, w) == Pow2(n) - 1
  {
    hide Bitwise, Pow2;
    var p, q := Pow2(n), Pow2(w - n);
    Pow2Sum(n, w - n);
    assert n + (w - n) == w;
    OnesInTwoParts(p, q);
    AndMask(p - 1, q - 1, n, w);
  }

  lemma OnesInTwoParts(p: nat, q: nat)
    requires 1 <= p && 1 <= q
    ensures p * q - 1 == p - 1 + p * (q - 1)
  {
    TimesPredecessor(p, q);
  }

  lemma NoMember(s: seq<Byte>, names: Names, cookie: nat, w: nat)
    requires s == [EQUALS] + NONE + [0] && |names| == 1 && 2 < w
    ensures Parsed(s, cookie, names, w) == Done(0)
  {
    forall i | 0 <= i < 4 ensures SameAt(s, 1, NONE, i) {}
    TokenIs(s, 1, NONE, 5);
    assert SkipWhite(s, 1) == 1 && SkipWhite(s, 5) == 5;
    assert Step(s, 1, 0, names, w) == Next(5, 0) && Step(s, 5, 0, names, w) == Over(Done(0));
    MembersNext(s, 1, 0, 5, 0, names, w);
    LowBits(0, |names|, w);
  }
}
