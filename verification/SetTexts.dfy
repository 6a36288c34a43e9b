// What a whole text leaves in the mask: its lead, its members, and how it ends.
module SetTexts {
  import opened CTypes
  import opened CText
  import opened Machine
  import opened SetSpec
  import opened SetNames
  import opened SetRoundTrip
  import opened SetAlgebra

  // ------------------------------------------------------------------------ the lead

  /** What may stand before the members: "=" for an empty start and "^" for inversion, with
      blanks before and behind them. */
  datatype Lead = Lead(blanks: seq<Byte>, clear: seq<Byte>, more: seq<Byte>,
                       invert: seq<Byte>, last: seq<Byte>)

  ghost predicate IsLead(lead: Lead) {
    && AreBlank(lead.blanks) && AreBlank(lead.more) && AreBlank(lead.last)
    && (lead.clear == [] ==> lead.more == []) && (lead.clear == [] || lead.clear == ['=' as int])
    && (lead.invert == [] ==> lead.last == [])
    && (lead.invert == [] || lead.invert == ['^' as int])
  }

  /** The character c behind the lead does not go on with it. */
  predicate EndsLead(lead: Lead, c: Byte) {
    && !IsBlank(c) && (lead.invert == [] ==> c != '^' as int)
    && (lead.clear == [] && lead.invert == [] ==> c != '=' as int)
  }

  /** Behind the lead stands what makes the whole text invalid. */
  predicate IsFailingStart(lead: Lead, c: Byte) {
    || c == ',' as int
    || (c == '=' as int && lead.clear != [] && lead.invert == [])
    || (c == 0 && lead.clear == [] && lead.invert == [])
  }

  function LeadText(lead: Lead, rest: seq<Byte>): seq<Byte> {
    lead.blanks + (lead.clear + (lead.more + (lead.invert + (lead.last + rest))))
  }

  ghost predicate LeadAt(s: seq<Byte>, lead: Lead, a: nat, b: nat, p: nat) {
    && a == |lead.blanks| && b == a + |lead.clear| + |lead.more|
    && p == b + |lead.invert| + |lead.last|
    && At(s, 0, lead.blanks) && At(s, a, lead.clear) && At(s, a + |lead.clear|, lead.more)
    && At(s, b, lead.invert) && At(s, b + |lead.invert|, lead.last)
  }

  lemma SplitLead(s: seq<Byte>, lead: Lead, rest: seq<Byte>, a: nat, b: nat, p: nat)
    requires LeadText(lead, rest) <= s
    requires a == |lead.blanks| && b == a + |lead.clear| + |lead.more|
    requires p == b + |lead.invert| + |lead.last|
    ensures LeadAt(s, lead, a, b, p) && At(s, p, rest)
  {
    PrefixAtStart(s, LeadText(lead, rest));
    hide At;
    var behindB := lead.invert + (lead.last + rest);
    AtConcat(s, 0, lead.blanks, lead.clear + (lead.more + behindB), a);
    AtConcat(s, a, lead.clear, lead.more + behindB, a + |lead.clear|);
    AtConcat(s, a + |lead.clear|, lead.more, behindB, b);
    AtConcat(s, b, lead.invert, lead.last + rest, b + |lead.invert|);
    AtConcat(s, b + |lead.invert|, lead.last, rest, p);
  }

  lemma PrefixAtStart(s: seq<Byte>, x: seq<Byte>)
    requires x <= s
    ensures At(s, 0, x)
  {
    forall i | 0 <= i < |x| ensures SameAt(s, 0, x, i) {}
  }

  lemma StartOf(s: seq<Byte>, lead: Lead, cookie: nat, a: nat, b: nat, p: nat)
    requires IsLead(lead) && LeadAt(s, lead, a, b, p) && p < |s| && EndsLead(lead, s[p])
    ensures StartAt(s, cookie)
            == if IsFailingStart(lead, s[p]) then BadStart
               else Start(if lead.clear == [] then cookie else 0, lead.invert != [], p)
  {
    hide SkipWhite;
    Characters(s[p]);
    if lead.invert != [] {
      AtIndex(s, b, lead.invert, 0);
      SkipsBlanks(s, b + 1, lead.last, p);
    }
    if lead.clear != [] {
      AtIndex(s, a, lead.clear, 0);
      SkipsBlanks(s, a + 1, lead.more, b);
    }
    SkipsBlanks(s, 0, lead.blanks, a);
  }

  // -------------------------------------------------------------------------- the end

  /** How the members end: with the NUL; with a sign that stands alone, before a NUL, a bar, a
      comma or a plus sign; with a comma and another comma or a bar; or with a word for which no
      name is chosen. */
  datatype Ending =
    | NoMore
    | SignAlone(sign: seq<Byte>, blanks: seq<Byte>, c: Byte)
    | TwoCommas(blanks: seq<Byte>, c: Byte)
    | Unknown(sign: seq<Byte>, blanks: seq<Byte>, word: seq<Byte>, c: Byte)

  ghost predicate IsEnding(e: Ending, names: Names) {
    match e
    case NoMore => true
    case SignAlone(sign, blanks, c) =>
      IsSign(sign) && AreBlank(blanks) && Separates(c) && !IsBlank(c)
    case TwoCommas(blanks, c) => AreBlank(blanks) && (c == ',' as int || c == '|' as int)
    case Unknown(sign, blanks, word, c) =>
      && (IsSign(sign) || (sign == [] && blanks == [])) && AreBlank(blanks)
      && IsWord(word) && Separates(c)
      && forall k :: 0 <= k < |names| ==> !Chosen(word, names, k)
  }

  function EndText(e: Ending): (t: seq<Byte>)
    ensures t != []
  {
    match e
    case NoMore => [0]
    case SignAlone(sign, blanks, c) => sign + (blanks + [c])
    case TwoCommas(blanks, c) => [',' as int] + (blanks + [c])
    case Unknown(sign, blanks, word, c) => sign + (blanks + (word + [c]))
  }

  predicate Fails(e: Ending) { e.TwoCommas? || e.Unknown? }

  lemma EndReads(s: seq<Byte>, p: nat, e: Ending, res: nat, names: Names, w: nat)
    requires IsEnding(e, names) && At(s, p, EndText(e))
    ensures p < |s| && Members(s, p, res, names, w) == if Fails(e) then Failed else Done(res)
  {
    hide Token, TokenEnd, SkipWhite;
    AtIndex(s, p, EndText(e), 0);
    match e
    case NoMore =>
    case SignAlone(sign, blanks, c) => SignReads(s, p, sign, blanks, c, res, names, w);
    case TwoCommas(blanks, c) =>
      var q := p + 1 + |blanks|;
      AtConcat(s, p, [',' as int], blanks + [c], p + 1);
      AtConcat(s, p + 1, blanks, [c], q);
      AtIndex(s, q, [c], 0);
      SkipsBlanks(s, p + 1, blanks, q);
    case Unknown(sign, blanks, word, c) =>
      UnknownReads(s, p, sign, blanks, word, c, res, names, w);
  }

  lemma SignReads(s: seq<Byte>, p: nat, sign: seq<Byte>, blanks: seq<Byte>, c: Byte, res: nat,
                  names: Names, w: nat)
    requires IsEnding(SignAlone(sign, blanks, c), names) && At(s, p, sign + (blanks + [c]))
    ensures Members(s, p, res, names, w) == Done(res)
  {
    hide Token, SkipWhite;
    var b := p + 1 + |blanks|;
    AtConcat(s, p, sign, blanks + [c], p + 1);
    AtConcat(s, p + 1, blanks, [c], b);
    AtIndex(s, p, sign, 0);
    AtIndex(s, b, [c], 0);
    Characters(c);
    SkipsBlanks(s, p + 1, blanks, b);
    assert TokenEnd(s, b) == b;
    assert Step(s, p, res, names, w) == Over(Done(res));
  }

  lemma UnknownReads(s: seq<Byte>, p: nat, sign: seq<Byte>, blanks: seq<Byte>, word: seq<Byte>,
                     c: Byte, res: nat, names: Names, w: nat)
    requires IsEnding(Unknown(sign, blanks, word, c), names)
    requires At(s, p, sign + (blanks + (word + [c])))
    ensures Members(s, p, res, names, w) == Failed
  {
    hide TokenEnd, SkipWhite, Member, Chosen, At;
    var b := p + |sign| + |blanks|;
    var e := b + |word|;
    AtConcat(s, p, sign, blanks + (word + [c]), p + |sign|);
    AtConcat(s, p + |sign|, blanks, word + [c], b);
    AtConcat(s, b, word, [c], e);
    AtIndex(s, b, word, 0);
    AtIndex(s, e, [c], 0);
    Characters(c);
    Characters(word[0]);
    WordReads(s, b, word, names, e, w);
    if sign != [] {
      AtIndex(s, p, sign, 0);
      SkipsBlanks(s, p + 1, blanks, b);
    }
    var inv := s[p] == MINUS || s[p] == BANG;
    assert Token(s, b, e, inv, res, names, w) == Failed;
    assert StepMember(s, b, inv, res, names, w) == Over(Failed);
    assert Step(s, p, res, names, w) == Over(Failed);
  }

  // ------------------------------------------------------------------------ the whole text

  /** A failing start, a second comma and an unknown name clear the mask; any other text leaves
      exactly the members that its signs leave, or exactly the others that have names. */
  lemma SetExpression(s: seq<Byte>, lead: Lead, items: seq<Item>, e: Ending, cookie: nat,
                      names: Names, w: nat) returns (r: nat)
    requires |names| <= w && IsLead(lead) && IsEnding(e, names)
    requires AreItems(items, names, EndText(e)[0])
    requires LeadText(lead, ItemsText(items) + EndText(e)) <= s
    requires EndsLead(lead, FirstOf(items, EndText(e)[0]))
    ensures Parsed(s, cookie, names, w) == Done(r)
    ensures IsFailingStart(lead, FirstOf(items, EndText(e)[0])) || Fails(e) ==> r == 0
    ensures !IsFailingStart(lead, FirstOf(items, EndText(e)[0])) && !Fails(e) ==>
              forall i: nat :: i < w ==>
                (Holds(r, i) <==>
                   i < |names| && AfterAll(items, i, lead.clear == [] && Holds(cookie, i), |names|, w)
                                  != (lead.invert != []))
  {
    hide Members, Step, Holds, Bitwise, Pow2, LeadText, At, StartAt, EndText, IsEnding, EndsLead, IsFailingStart;
    var n, invert := |names|, lead.invert != [];
    var a := |lead.blanks|;
    var b := a + |lead.clear| + |lead.more|;
    var p := b + |lead.invert| + |lead.last|;
    var end := p + |ItemsText(items)|;
    SplitLead(s, lead, ItemsText(items) + EndText(e), a, b, p);
    AtConcat(s, p, ItemsText(items), EndText(e), end);
    EndStarts(s, end, e);
    TextBegins(s, p, items, names, end);
    StartOf(s, lead, cookie, a, b, p);
    if IsFailingStart(lead, s[p]) {
      r := 0;
      return;
    }
    var start := if lead.clear == [] then cookie else 0;
    var m := MembersOfItems(s, p, items, start, names, end, w);
    EndReads(s, end, e, m, names, w);
    r := if Fails(e) then 0 else Finish(m, invert, n, w);
    if !Fails(e) {
      forall i: nat | i < w
        ensures Holds(r, i) <==>
                  i < n && AfterAll(items, i, lead.clear == [] && Holds(cookie, i), n, w) != invert
      {
        HoldsNothing(i);
        HoldsFinish(m, invert, n, w, i);
      }
    }
  }

  lemma EndStarts(s: seq<Byte>, end: nat, e: Ending)
    requires At(s, end, EndText(e))
    ensures end < |s| && s[end] == EndText(e)[0]
  {
    hide EndText;
    AtIndex(s, end, EndText(e), 0);
  }

  lemma HoldsFinish(m: nat, invert: bool, n: nat, w: nat, i: nat)
    requires i < w && n <= w
    ensures Holds(Finish(m, invert, n, w), i) <==> i < n && Holds(m, i) != invert
  {
    hide Holds, Bitwise, Pow2;
    var x := if invert then Bitwise(Xor, m, Pow2(w) - 1, w) else m;
    HoldsBitwise(Xor, m, Pow2(w) - 1, w, i);
    HoldsBitwise(And, x, Pow2(n) - 1, w, i);
    HoldsAll(w, i);
    HoldsAll(n, i);
  }

  // ------------------------------------------------------------------ names as numbers

  /** Two characters that mean inversion: "~0" and "-1" are the last name, all others none. */
  lemma InversionIs(c: Byte, d: Byte, names: Names, w: nat)
    requires (c == '~' as int || c == '-' as int) && d != 0
    ensures FindName([c, d, 0], names, w)
            == if names != [] && ([c, d] == Bytes("~0") || [c, d] == Bytes("-1"))
               then Done(|names| - 1) else Failed
  {
    var m := [c, d, 0];
    CutAt(m, 0, 2);
    assert NameIn(m)[0] == c && m[..2] == [c, d];
  }

  /** A name that is a decimal number stands for the name with that number. */
  lemma NumberedName(d: seq<Byte>, names: Names, w: nat)
    requires d != [] && (forall i :: 0 <= i < |d| ==> '0' as int <= d[i] <= '9' as int)
    requires d[0] != '0' as int && |names| < Pow2(w)
    ensures var v := Number(d, 0, |d|, 10);
            FindName(d + [0], names, w) == if v < |names| then Done(v) else Failed
  {
    hide StrToUl, Run, Number, Pow2, CutAtNul;
    var m, n := d + [0], |d|;
    NameItself(d);
    forall i | 0 <= i < n ensures m[i] == d[i] && IsDigit(m[i], 10) {}
    RunIs(m, 0, n, |m|, 10);
    forall i | 0 <= i < n ensures SameAt(m, 0, d, i) {}
    NumberAt(m, 0, d, n, 10);
    Converts(m, 0, 0, 0, n, 10, w);
  }

  // ---------------------------------------------------------------------------- printing

  /** The texts with the separator between them. */
  function Join(xs: seq<seq<Byte>>, between: seq<Byte>): seq<Byte> {
    if xs == [] then [] else if |xs| == 1 then xs[0] else xs[0] + (between + Join(xs[1..], between))
  }

  /** The numbers from ix on, in rising order, of which the mask holds the bits from 0 on. */
  function Indices(bits: nat, ix: nat): seq<nat>
    decreases bits
  {
    if bits == 0 then []
    else (if bits % 2 == 1 then [ix] else []) + Indices(bits / 2, ix + 1)
  }

  ghost predicate IsIndex(bits: nat, ix: nat, k: nat) {
    ix <= k && Holds(bits, k - ix)
  }

  lemma {:induction false} IndicesAre(bits: nat, ix: nat)
    ensures forall k: nat :: k in Indices(bits, ix) <==> IsIndex(bits, ix, k)
    ensures forall i, j :: 0 <= i < j < |Indices(bits, ix)| ==> Indices(bits, ix)[i] < Indices(bits, ix)[j]
    decreases bits
  {
    if bits == 0 {
      forall k: nat ensures !IsIndex(bits, ix, k) {
        if ix <= k { HoldsNothing(k - ix); }
      }
    } else {
      var rest := Indices(bits / 2, ix + 1);
      IndicesAre(bits / 2, ix + 1);
      forall k: nat | ix < k ensures IsIndex(bits, ix, k) <==> IsIndex(bits / 2, ix + 1, k) {
        assert Holds(bits, k - ix) == Holds(bits / 2, k - (ix + 1));
      }
      forall j | 0 <= j < |rest| ensures ix < rest[j] { assert rest[j] in rest; }
    }
  }

  ghost function NamesAt(ks: seq<nat>, names: Names): seq<seq<Byte>>
    requires forall i :: 0 <= i < |ks| ==> ks[i] < |names|
  {
    seq(|ks|, i requires 0 <= i < |ks| => names[ks[i]])
  }

  /** The printed text: the names of the bits in rising order with " + " between them. */
  lemma {:induction false} PrintedIs(bits: nat, names: Names, ix: nat)
    requires ix <= |names| && bits < Pow2(|names| - ix)
    ensures forall i :: 0 <= i < |Indices(bits, ix)| ==> Indices(bits, ix)[i] < |names|
    ensures Printed(bits, names, ix) == Join(NamesAt(Indices(bits, ix), names), Bytes(" + "))
    decreases bits
  {
    hide Join, NamesAt;
    Characters(0);
    NoNames(names);
    if bits != 0 {
      var rest := Indices(bits / 2, ix + 1);
      PrintedIs(bits / 2, names, ix + 1);
      if bits % 2 == 1 {
        NameInFront(ix, rest, names);
        if bits / 2 != 0 { IndicesNotEmpty(bits / 2, ix + 1); }
      } else {
        assert [] + rest == rest;
      }
    }
  }

  lemma NoNames(names: Names)
    ensures Join(NamesAt([], names), Bytes(" + ")) == []
  {
  }

  lemma NameInFront(k: nat, rest: seq<nat>, names: Names)
    requires k < |names| && forall i :: 0 <= i < |rest| ==> rest[i] < |names|
    ensures Join(NamesAt([k] + rest, names), Bytes(" + "))
            == names[k] + (if rest == [] then [] else Bytes(" + ") + Join(NamesAt(rest, names), Bytes(" + ")))
  {
    var xs := NamesAt(rest, names);
    assert NamesAt([k] + rest, names) == [names[k]] + xs;
    assert ([names[k]] + xs)[1..] == xs;
    assert names[k] + [] == names[k];
  }

  lemma {:induction false} IndicesNotEmpty(bits: nat, ix: nat)
    requires bits != 0
    ensures Indices(bits, ix) != []
  {
    if bits % 2 == 0 { IndicesNotEmpty(bits / 2, ix + 1); }
  }
}
