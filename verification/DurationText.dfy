// What a written duration comes to, letter by letter: numbers with units, and then nothing more,
// a bare number, a clock, or something that is no duration.
module DurationText {
  import opened Arith
  import opened CTypes
  import opened CText
  import opened Duration
  import opened ClockForm

  /** The place of a unit letter in the order of the units, or 0 for any other character. */
  function Place(c: Byte): nat {
    if c == 'y' as int || c == 'Y' as int then 1
    else if c == 'M' as int then 2
    else if c == 'W' as int then 3
    else if c == 'd' as int || c == 'D' as int then 4
    else if c == 'h' as int then 5
    else if c == 'm' as int then 6
    else if c == 's' as int then 7
    else 0
  }

  /** The seconds that a unit letter stands for. */
  function SecondsOf(c: Byte): nat {
    if c == 'y' as int || c == 'Y' as int then 31536000
    else if c == 'M' as int then 2592000
    else if c == 'W' as int then 604800
    else if c == 'd' as int || c == 'D' as int then 86400
    else if c == 'h' as int then 3600
    else if c == 'm' as int then 60
    else 1
  }

  /** The tables of the parser say the same. */
  lemma UnitTables(c: Byte)
    ensures UnitOf(c) == Place(c)
    ensures Place(c) != 0 ==> Scale(UnitOf(c)) == SecondsOf(c)
    ensures IsSpace(c) <==> IsBlank(c)
    ensures Place(c) != 0 ==> c != 0 && !IsBlank(c) && !IsDigit(c, 10) && c != ':' as int
    ensures COLON == ':' as int
  {
  }

  // ------------------------------------------------------------------------------ text

  /** A number with blanks, its letter, and blanks behind it. */
  datatype Amount = Amount(value: nat, gap: seq<Byte>, letter: Byte, more: seq<Byte>)

  ghost predicate IsAmount(a: Amount) {
    AreBlank(a.gap) && Place(a.letter) != 0 && AreBlank(a.more)
  }

  ghost predicate AreAmounts(xs: seq<Amount>) {
    forall i :: 0 <= i < |xs| ==> IsAmount(xs[i])
  }

  /** What stands behind the amounts: nothing, a number and blanks, a clock, a number with
      something that is no unit, or something that is no number. */
  datatype Ending =
    | Nothing
    | Bare(v: nat, blanks: seq<Byte>)
    | ClockPart(h: nat, ms: seq<Part>, blanks: seq<Byte>)
    | NoUnitAt(v: nat, blanks: seq<Byte>, c: Byte)
    | NoNumberAt(c: Byte)

  ghost predicate IsEnding(e: Ending, max: nat) {
    match e
    case Nothing => true
    case Bare(_, blanks) => AreBlank(blanks)
    case ClockPart(_, ms, blanks) => ms != [] && AreParts(ms, max) && AreBlank(blanks)
    case NoUnitAt(_, blanks, c) =>
      && AreBlank(blanks) && Place(c) == 0 && c != 0 && !IsBlank(c)
      && (blanks == [] ==> c != ':' as int && !IsDigit(c, 10))
    case NoNumberAt(c) => c != 0 && !IsBlank(c) && !IsDigit(c, 10)
  }

  function EndingText(e: Ending): seq<Byte> {
    match e
    case Nothing => []
    case Bare(v, blanks) => Decimal(v) + blanks
    case ClockPart(h, ms, blanks) => Decimal(h) + Colons(ms, blanks)
    case NoUnitAt(v, blanks, c) => Decimal(v) + (blanks + [c])
    case NoNumberAt(c) => [c]
  }

  function AmountText(a: Amount, rest: seq<Byte>): seq<Byte> {
    Decimal(a.value) + (a.gap + ([a.letter] + (a.more + rest)))
  }

  function DurationText(xs: seq<Amount>, e: Ending): seq<Byte> {
    if xs == [] then EndingText(e) else AmountText(xs[0], DurationText(xs[1..], e))
  }

  // ---------------------------------------------------------------------------- meaning

  predicate FallingUnits(xs: seq<Amount>, done: nat) {
    xs == [] || (done < Place(xs[0].letter) && FallingUnits(xs[1..], Place(xs[0].letter)))
  }

  function LastPlace(xs: seq<Amount>, done: nat): nat {
    if xs == [] then done else LastPlace(xs[1..], Place(xs[0].letter))
  }

  function SumOf(xs: seq<Amount>): nat {
    if xs == [] then 0 else xs[0].value * SecondsOf(xs[0].letter) + SumOf(xs[1..])
  }

  /** A duration with all units. */
  lemma AllUnits(y: nat, mo: nat, w: nat, d: nat, h: nat, m: nat, s: nat, gap: seq<Byte>)
      returns (xs: seq<Amount>)
    ensures xs == [Of(y, 'y', gap), Of(mo, 'M', gap), Of(w, 'W', gap), Of(d, 'd', gap),
                   Of(h, 'h', gap), Of(m, 'm', gap), Of(s, 's', gap)]
    ensures FallingUnits(xs, 0) && LastPlace(xs, 0) == 7
    ensures SumOf(xs) == 31536000 * y + 2592000 * mo + 604800 * w + 86400 * d + 3600 * h + 60 * m + s
  {
    hide FallingUnits, LastPlace, SumOf, Place, SecondsOf;
    Units();
    xs := InFront(Of(s, 's', gap), []);
    xs := InFront(Of(m, 'm', gap), xs);
    xs := InFront(Of(h, 'h', gap), xs);
    xs := InFront(Of(d, 'd', gap), xs);
    xs := InFront(Of(w, 'W', gap), xs);
    xs := InFront(Of(mo, 'M', gap), xs);
    xs := InFront(Of(y, 'y', gap), xs);
  }

  /** The letters in falling order, and what they stand for. */
  lemma Units()
    ensures Place('y' as int) == 1 && Place('M' as int) == 2 && Place('W' as int) == 3
    ensures Place('d' as int) == 4 && Place('h' as int) == 5 && Place('m' as int) == 6
    ensures Place('s' as int) == 7
    ensures SecondsOf('y' as int) == 31536000 && SecondsOf('M' as int) == 2592000
    ensures SecondsOf('W' as int) == 604800 && SecondsOf('d' as int) == 86400
    ensures SecondsOf('h' as int) == 3600 && SecondsOf('m' as int) == 60 && SecondsOf('s' as int) == 1
  {
  }

  function Of(value: nat, letter: char, gap: seq<Byte>): Amount {
    Amount(value, gap, letter as int % 256, gap)
  }

  lemma InFront(a: Amount, rest: seq<Amount>) returns (xs: seq<Amount>)
    requires Place(a.letter) != 0
    requires rest != [] ==> FallingUnits(rest, 0) && Place(a.letter) < Place(rest[0].letter)
    ensures xs == [a] + rest && FallingUnits(xs, 0)
    ensures SumOf(xs) == a.value * SecondsOf(a.letter) + SumOf(rest)
    ensures SumOf([]) == 0
    ensures LastPlace(xs, 0) == if rest == [] then Place(a.letter) else LastPlace(rest, 0)
  {
    xs := [a] + rest;
    assert xs[1..] == rest;
  }

  /** What amounts and an ending come to, behind amounts that come to base. */
  function Expected(xs: seq<Amount>, e: Ending, done: nat, base: int, max: nat): Outcome
  {
    var total := if base != BAD_TIME && base + SumOf(xs) <= max then base + SumOf(xs) else BAD_TIME;
    var last := LastPlace(xs, done);
    if !FallingUnits(xs, done) then Time(BAD_TIME)
    else
      match e
      case Nothing => Time(total)
      case Bare(v, _) =>
        Time(if last < 7 && total != BAD_TIME && total + v <= max then total + v else BAD_TIME)
      case ClockPart(h, ms, _) =>
        if last >= 6 || h > max then Time(BAD_TIME)
        else AfterClock(total, last, if |ms| <= 2 then ClockSum(h, ms, max) else Bad, max)
      case _ => Time(BAD_TIME)
  }

  // ------------------------------------------------------------------------------ reading

  /** What stands at p is a number, if the text goes on there as a duration does. */
  lemma TextStarts(s: seq<Byte>, p: nat, xs: seq<Amount>, e: Ending, max: nat, end: nat)
    requires AreAmounts(xs) && IsEnding(e, max) && At(s, p, DurationText(xs, e))
    requires end == p + |DurationText(xs, e)| < |s| && s[end] == 0
    ensures !IsBlank(s[p]) && (AtEnd(s, p) <==> xs == [] && e == Nothing)
    ensures (xs == [] && (e.Nothing? || e.NoNumberAt?)) || IsDigit(s[p], 10)
    ensures xs == [] && e.NoNumberAt? ==> !IsDigit(s[p], 10)
  {
    if xs != [] || e.Bare? || e.ClockPart? || e.NoUnitAt? {
      var v := if xs != [] then xs[0].value
               else match e case Bare(v, _) => v case ClockPart(h, _, _) => h
                            case NoUnitAt(v, _, _) => v case _ => 0;
      var behind := DurationText(xs, e)[|Decimal(v)|..];
      assert DurationText(xs, e) == Decimal(v) + behind;
      AtConcat(s, p, Decimal(v), behind, p + |Decimal(v)|);
      DecimalReads(s, p, v, |Decimal(v)|);
    } else if e.NoNumberAt? {
      AtIndex(s, p, [e.c], 0);
    }
  }

  /** An amount at p, with the text behind it at r. */
  lemma AmountReads(s: seq<Byte>, p: nat, a: Amount, rest: seq<Byte>, q: nat, r: nat)
    requires IsAmount(a) && At(s, p, AmountText(a, rest))
    requires q == p + |Decimal(a.value)| + |a.gap| && r == q + 1 + |a.more| < |s| && !IsBlank(s[r])
    ensures At(s, r, rest) && p + |AmountText(a, rest)| == r + |rest|
    ensures var n := |Decimal(a.value)|;
            && Run(s, p, |s|, 10) == n && Number(s, p, n, 10) == a.value && s[p + n] != ':' as int
            && SkipSpace(s, p + n) == q && s[q] == a.letter && SkipSpace(s, q + 1) == r
  {
    hide At, Decimal, SkipSpace, Run, Number;
    var e := p + |Decimal(a.value)|;
    AtConcat(s, p, Decimal(a.value), a.gap + ([a.letter] + (a.more + rest)), e);
    AtConcat(s, e, a.gap, [a.letter] + (a.more + rest), q);
    AtConcat(s, q, [a.letter], a.more + rest, q + 1);
    AtConcat(s, q + 1, a.more, rest, r);
    AtIndex(s, q, [a.letter], 0);
    UnitTables(a.letter);
    if a.gap != [] { AtIndex(s, e, a.gap, 0); }
    NumberReads(s, p, a.value, e);
    SkipsBlanks(s, e, a.gap, q);
    SkipsBlanks(s, q + 1, a.more, r);
  }

  lemma {:induction false} DurationReads(s: seq<Byte>, p: nat, xs: seq<Amount>, e: Ending, done: nat,
                                         base: int, max: nat, end: nat)
    requires AreAmounts(xs) && IsEnding(e, max) && (xs != [] || !(e.Nothing? || e.NoNumberAt?))
    requires BAD_TIME <= base <= max && done <= 7
    requires At(s, p, DurationText(xs, e)) && end == p + |DurationText(xs, e)| < |s| && s[end] == 0
    ensures Meaning(s, p, done, base, max) == Expected(xs, e, done, base, max)
    decreases |xs|
  {
    hide Meaning, Run, Number, Decimal, SkipSpace, At, Scale, Place, SecondsOf, UnitOf;
    if xs == [] {
      EndingReads(s, p, e, done, base, max, end);
    } else {
      var a, rest := xs[0], DurationText(xs[1..], e);
      var q := p + |Decimal(a.value)| + |a.gap|;
      var r := q + 1 + |a.more|;
      var sum := AddTerm(base, a.value, UnitOf(a.letter), max);
      AmountStarts(s, p, a, rest, r);
      TextStarts(s, r, xs[1..], e, max, end);
      AmountMeans(s, p, a, rest, q, r, done, base, max);
      UnitTables(a.letter);
      ExpectedStep(xs, e, done, base, sum, max);
      if a.value <= max && done < Place(a.letter) {
        if xs[1..] == [] && (e.Nothing? || e.NoNumberAt?) {
          if e.NoNumberAt? { MeansNothing(s, r, Place(a.letter), sum, max); }
        } else {
          DurationReads(s, r, xs[1..], e, Place(a.letter), sum, max, end);
        }
      }
    }
  }

  lemma AmountStarts(s: seq<Byte>, p: nat, a: Amount, rest: seq<Byte>, r: nat)
    requires At(s, p, AmountText(a, rest))
    requires r == p + |Decimal(a.value)| + |a.gap| + 1 + |a.more|
    ensures At(s, r, rest) && p + |AmountText(a, rest)| == r + |rest|
  {
    var head := Decimal(a.value) + (a.gap + ([a.letter] + a.more));
    assert AmountText(a, rest) == head + rest;
    AtConcat(s, p, head, rest, r);
  }

  lemma AmountMeans(s: seq<Byte>, p: nat, a: Amount, rest: seq<Byte>, q: nat, r: nat, done: nat,
                    base: int, max: nat)
    requires IsAmount(a) && At(s, p, AmountText(a, rest)) && BAD_TIME <= base
    requires q == p + |Decimal(a.value)| + |a.gap| && r == q + 1 + |a.more| < |s| && !IsBlank(s[r])
    ensures var u := Place(a.letter);
            var sum := AddTerm(base, a.value, UnitOf(a.letter), max);
            Meaning(s, p, done, base, max)
            == if a.value > max || done >= u then Time(BAD_TIME)
               else if AtEnd(s, r) then Time(sum)
               else Meaning(s, r, u, sum, max)
  {
    hide Meaning, Run, Number, Decimal, SkipSpace, At, AmountText, Scale, Place;
    AmountReads(s, p, a, rest, q, r);
    UnitTables(a.letter);
    var n := |Decimal(a.value)|;
    if a.value > max {
      MeansTooLarge(s, p, n, done, base, max);
    } else {
      MeansTerm(s, p, n, q, done, base, max);
    }
  }

  lemma ExpectedStep(xs: seq<Amount>, e: Ending, done: nat, base: int, sum: int, max: nat)
    requires xs != [] && IsAmount(xs[0]) && BAD_TIME <= base <= max
    requires sum == AddTerm(base, xs[0].value, UnitOf(xs[0].letter), max)
    ensures Expected(xs, e, done, base, max)
            == if xs[0].value > max || done >= Place(xs[0].letter) then Time(BAD_TIME)
               else Expected(xs[1..], e, Place(xs[0].letter), sum, max)
    ensures xs[1..] == [] && e.Nothing? ==>
              Expected(xs[1..], e, Place(xs[0].letter), sum, max) == Time(sum)
  {
    hide ClockSum, Scale, Place, SecondsOf, UnitOf;
    var c := xs[0].letter;
    UnitTables(c);
    AtLeastOne(c);
    TimesMonotone(1, SecondsOf(c), xs[0].value);
    assert SecondsOf(c) * xs[0].value == xs[0].value * SecondsOf(c);
    assert xs[0].value <= xs[0].value * SecondsOf(c);
  }

  lemma AtLeastOne(c: Byte)
    ensures 1 <= SecondsOf(c)
  {
  }

  /** The ending alone. */
  lemma EndingReads(s: seq<Byte>, p: nat, e: Ending, done: nat, base: int, max: nat, end: nat)
    requires IsEnding(e, max) && !e.Nothing? && !e.NoNumberAt?
    requires BAD_TIME <= base <= max && done <= 7
    requires At(s, p, EndingText(e)) && end == p + |EndingText(e)| < |s| && s[end] == 0
    ensures Meaning(s, p, done, base, max) == Expected([], e, done, base, max)
  {
    match e
    case Bare(v, blanks) => BareReads(s, p, v, blanks, done, base, max, end);
    case ClockPart(h, ms, blanks) => ClockPartReads(s, p, h, ms, blanks, done, base, max, end);
    case NoUnitAt(v, blanks, c) => NoUnitReads(s, p, v, blanks, c, done, base, max, end);
  }

  lemma BareReads(s: seq<Byte>, p: nat, v: nat, blanks: seq<Byte>, done: nat, base: int, max: nat,
                  end: nat)
    requires AreBlank(blanks) && BAD_TIME <= base <= max && done <= 7
    requires At(s, p, Decimal(v) + blanks) && end == p + |Decimal(v)| + |blanks| < |s| && s[end] == 0
    ensures Meaning(s, p, done, base, max)
            == Time(if done < 7 && base != BAD_TIME && base + v <= max then base + v else BAD_TIME)
  {
    hide Meaning, Run, Number, Decimal, SkipSpace, At;
    var n := |Decimal(v)|;
    AtConcat(s, p, Decimal(v), blanks, p + n);
    if blanks != [] { AtIndex(s, p + n, blanks, 0); }
    NumberReads(s, p, v, p + n);
    SkipsBlanks(s, p + n, blanks, end);
    if v > max {
      MeansTooLarge(s, p, n, done, base, max);
    } else if done >= 7 {
      MeansNothing(s, p, done, base, max);
    } else {
      MeansLast(s, p, n, done, base, max);
    }
  }

  lemma ClockPartReads(s: seq<Byte>, p: nat, h: nat, ms: seq<Part>, blanks: seq<Byte>, done: nat,
                       base: int, max: nat, end: nat)
    requires ms != [] && AreParts(ms, max) && AreBlank(blanks) && BAD_TIME <= base <= max
    requires At(s, p, Decimal(h) + Colons(ms, blanks))
    requires end == p + |Decimal(h)| + |Colons(ms, blanks)| < |s| && s[end] == 0
    ensures Meaning(s, p, done, base, max)
            == if done >= 6 || h > max then Time(BAD_TIME)
               else AfterClock(base, done, if |ms| <= 2 then ClockSum(h, ms, max) else Bad, max)
  {
    hide Meaning, Run, Number, Decimal, SkipSpace, At, Colons, Clock;
    var n := |Decimal(h)|;
    AtConcat(s, p, Decimal(h), Colons(ms, blanks), p + n);
    ColonsStart(s, p + n, ms, blanks, end);
    NumberReads(s, p, h, p + n);
    if h > max {
      MeansTooLarge(s, p, n, done, base, max);
    } else {
      MeansClock(s, p, n, done, base, max);
      ClockReads(s, p + n, h, ms, blanks, 2, max, end);
    }
  }

  lemma NoUnitReads(s: seq<Byte>, p: nat, v: nat, blanks: seq<Byte>, c: Byte, done: nat, base: int,
                    max: nat, end: nat)
    requires IsEnding(NoUnitAt(v, blanks, c), max) && BAD_TIME <= base <= max
    requires At(s, p, Decimal(v) + (blanks + [c]))
    requires end == p + |Decimal(v)| + |blanks| + 1 < |s| && s[end] == 0
    ensures Meaning(s, p, done, base, max) == Time(BAD_TIME)
  {
    hide Meaning, Run, Number, Decimal, SkipSpace, At;
    var n := |Decimal(v)|;
    var q := p + n + |blanks|;
    AtConcat(s, p, Decimal(v), blanks + [c], p + n);
    AtConcat(s, p + n, blanks, [c], q);
    AtIndex(s, q, [c], 0);
    if blanks != [] { AtIndex(s, p + n, blanks, 0); }
    UnitTables(c);
    NumberReads(s, p, v, p + n);
    SkipsBlanks(s, p + n, blanks, q);
    if v > max {
      MeansTooLarge(s, p, n, done, base, max);
    } else {
      MeansTerm(s, p, n, q, done, base, max);
    }
  }

  // -------------------------------------------------------------------------- durations

  /** The whole text: leading blanks, amounts and an ending. */
  lemma WrittenDuration(lead: seq<Byte>, xs: seq<Amount>, e: Ending, max: nat, s: seq<Byte>)
    requires AreBlank(lead) && AreAmounts(xs) && IsEnding(e, max)
    requires xs != [] || !(e.Nothing? || e.NoNumberAt?)
    requires s == lead + (DurationText(xs, e) + [0])
    ensures var total, last := SumOf(xs), LastPlace(xs, 0);
            Meaning(s, SkipSpace(s, 0), 0, 0, max)
            == if !FallingUnits(xs, 0) || total > max then Time(-1)
               else
                 match e
                 case Nothing => Time(total)
                 case Bare(v, _) => Time(if last < 7 && total + v <= max then total + v else -1)
                 case ClockPart(h, ms, _) =>
                   var v := ClockValue(h, ms);
                   if last >= 6 || h > max then Time(-1)
                   else if |ms| > 2 || v > max then Undefined
                   else if last == 5 && v >= 3600 then Time(-1)
                   else Time(if total + v <= max then total + v else -1)
                 case _ => Time(-1)
  {
    hide Meaning, SkipSpace, DurationText, Place;
    var text, p := DurationText(xs, e), |lead|;
    WholeText(s, lead, text);
    TextStarts(s, p, xs, e, max, p + |text|);
    SkipsBlanks(s, 0, lead, p);
    DurationReads(s, p, xs, e, 0, 0, max, p + |text|);
  }

  lemma WholeText(s: seq<Byte>, lead: seq<Byte>, text: seq<Byte>)
    requires s == lead + (text + [0])
    ensures At(s, 0, lead) && At(s, |lead|, text)
    ensures |lead| + |text| < |s| && s[|lead| + |text|] == 0
  {
    forall i | 0 <= i < |lead| ensures SameAt(s, 0, lead, i) {}
    forall i | 0 <= i < |text| ensures SameAt(s, |lead|, text, i) {}
  }
}
