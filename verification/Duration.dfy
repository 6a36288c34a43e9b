// Durations written as numbers with unit letters, such as "2 d 3 h": terms in strictly falling
// order of their units, added up without an overflow of time_t.
module Duration {
  import opened Arith
  import opened CTypes
  import opened CText

  const BAD_TIME := -1
  const COLON: Byte := 58

  // The steps of whats_done_t.
  const NOTHING := 0
  const HOUR := 5
  const MINUTE := 6
  const SECOND := 7

  /** The class that isspace tests. */
  predicate IsSpace(c: Byte) { 9 <= c <= 13 || c == 32 }

  function SkipSpace(s: seq<Byte>, p: nat): (q: nat)
    requires p <= |s|
    ensures p <= q <= |s|
    decreases |s| - p
  {
    if p < |s| && IsSpace(s[p]) then SkipSpace(s, p + 1) else p
  }

  predicate AtEnd(s: seq<Byte>, p: nat) { p >= |s| || s[p] == 0 }

  /** The unit of a letter: 1 for years down to 7 for seconds, 0 for any other letter. The
      letters of months and weeks are capitals only, those below days small only. */
  function UnitOf(c: Byte): (u: nat)
    ensures u <= SECOND
  {
    if c == 121 || c == 89 then 1
    else if c == 77 then 2
    else if c == 87 then 3
    else if c == 100 || c == 68 then 4
    else if c == 104 then 5
    else if c == 109 then 6
    else if c == 115 then 7
    else 0
  }

  /** The seconds in a unit. */
  function Scale(u: nat): (k: nat)
    ensures 1 <= k <= 31536000
  {
    if u == 1 then 31536000
    else if u == 2 then 2592000
    else if u == 3 then 604800
    else if u == 4 then 86400
    else if u == 5 then 3600
    else if u == 6 then 60
    else 1
  }

  // --------------------------------------------------------------------- grammar

  datatype Term = Term(value: nat, unit: nat)

  /** Numbers with their units, the last of which may be missing and is then seconds; None for
      a text of another form. */
  function Terms(s: seq<Byte>, p: nat): (r: Option<seq<Term>>)
    requires p <= |s|
    ensures r.Some? ==> r.value != []
    decreases |s| - p
  {
    var n := Run(s, p, |s|, 10);
    if n == 0 then None
    else
      var v, q := Number(s, p, n, 10), SkipSpace(s, p + n);
      if AtEnd(s, q) then Some([Term(v, SECOND)])
      else if UnitOf(s[q]) == 0 then None
      else
        var t, next := Term(v, UnitOf(s[q])), SkipSpace(s, q + 1);
        if AtEnd(s, next) then Some([t])
        else
          match Terms(s, next)
          case Some(ts) => Some([t] + ts)
          case None => None
  }

  /** The units fall strictly, starting below the unit done. */
  predicate Falling(ts: seq<Term>, done: nat) {
    ts == [] || (done < ts[0].unit && Falling(ts[1..], ts[0].unit))
  }

  function Total(ts: seq<Term>): nat {
    if ts == [] then 0 else ts[0].value * Scale(ts[0].unit) + Total(ts[1..])
  }

  /** The seconds of a duration that a time_t up to max can hold. */
  function Seconds(s: seq<Byte>, p: nat, done: nat, base: int, max: nat): int
    requires p <= |s|
  {
    match Terms(s, p)
    case Some(ts) =>
      if base != BAD_TIME && Falling(ts, done) && base + Total(ts) <= max then base + Total(ts)
      else BAD_TIME
    case None => BAD_TIME
  }

  // ----------------------------------------------------------------- written terms

  /** v in decimal. */
  function Decimal(v: nat): (d: seq<Byte>)
    ensures d != []
  {
    (if v < 10 then [] else Decimal(v / 10)) + [48 + v % 10]
  }

  /** The digits of a number, read back in front of something that is not a digit. */
  lemma {:induction false} DecimalReads(s: seq<Byte>, p: nat, v: nat, n: nat)
    requires At(s, p, Decimal(v)) && n == |Decimal(v)|
    ensures Number(s, p, n, 10) == v
    ensures forall i :: p <= i < p + n ==> IsDigit(s[i], 10)
    decreases v
  {
    AtIndex(s, p, Decimal(v), n - 1);
    if v >= 10 {
      AtConcat(s, p, Decimal(v / 10), [48 + v % 10], p + n - 1);
      DecimalReads(s, p, v / 10, n - 1);
    }
  }

  lemma NoSpace(s: seq<Byte>, p: nat)
    requires p < |s| && !IsSpace(s[p])
    ensures SkipSpace(s, p) == p
  {
  }

  /** The first term of a text, with its letter at q, and the terms behind it. */
  lemma FirstTerm(s: seq<Byte>, p: nat, e: nat, q: nat)
    requires p < e <= |s| && Run(s, p, |s|, 10) == e - p && q == SkipSpace(s, e)
    requires !AtEnd(s, q) && UnitOf(s[q]) != 0
    ensures var t, next := Term(Number(s, p, e - p, 10), UnitOf(s[q])), SkipSpace(s, q + 1);
            Terms(s, p) == if AtEnd(s, next) then Some([t])
                           else match Terms(s, next)
                                case Some(ts) => Some([t] + ts)
                                case None => None
  {
  }

  lemma EndAfterSpace(s: seq<Byte>, p: nat)
    requires p <= |s| && AtEnd(s, p)
    ensures AtEnd(s, SkipSpace(s, p))
  {
  }

  // ----------------------------------------------------------------------- parser

  /** The outcome of an addition: a sum, an error with errno set, or an intermediate value that
      no signed integer holds. */
  datatype Sum = Sum(value: int) | Bad | Overflow

  /** What scale_n_add makes of base + val * scale in a time_t up to max. */
  function ScaledSum(base: int, val: int, scale: nat, max: nat): Sum {
    if base == BAD_TIME then Bad
    else if val < 0 then Overflow
    else if val * scale <= max && base + val * scale <= max then Sum(base + val * scale)
    else Bad
  }

  /** scale_n_add: the sum, unless it is larger than the largest time or there is none yet. For
      a negative val the largest time minus the product is no time_t. */
  method ScaleNAdd(base: int, val: int, scale: nat, max: nat) returns (r: Sum)
    requires base <= max && val <= max && 1 <= scale
    ensures r == ScaledSum(base, val, scale, max)
    ensures 0 <= base && 0 <= val ==>
              r == if base + val * scale <= max then Sum(base + val * scale) else Bad
  {
    if base == BAD_TIME { return Bad; }
    if val < 0 { return Overflow; }
    ScaleFits(val, scale, max);
    if val > max / scale { return Bad; }
    var scaled := val * scale;
    if base > max - scaled { return Bad; }
    return Sum(base + scaled);
  }

  lemma ScaleFits(val: nat, scale: nat, max: nat)
    requires 1 <= scale
    ensures val > max / scale <==> val * scale > max
  {
    var q := max / scale;
    QuotientBounds(max, scale);
    if val > q { TimesMonotone(q + 1, val, scale); } else { TimesMonotone(val, q, scale); }
  }

  lemma QuotientBounds(max: nat, scale: nat)
    requires 1 <= scale
    ensures (max / scale) * scale <= max < (max / scale + 1) * scale
  {
  }

  /** A number that time_t cannot hold spoils the sum, whatever its unit. */
  lemma TooLarge(s: seq<Byte>, p: nat, n: nat, done: nat, base: int, max: nat)
    requires p <= |s| && n == Run(s, p, |s|, 10) && BAD_TIME <= base
    requires n > 0 ==> Number(s, p, n, 10) > max
    ensures Seconds(s, p, done, base, max) == BAD_TIME
  {
    if n > 0 {
      match Terms(s, p)
      case Some(ts) => TimesMonotone(1, Scale(ts[0].unit), ts[0].value);
      case None =>
    }
  }

  /** A bare number at the end. */
  lemma LastNumber(s: seq<Byte>, p: nat, n: nat, done: nat, base: int, max: nat)
    requires p <= |s| && n == Run(s, p, |s|, 10) > 0 && AtEnd(s, SkipSpace(s, p + n))
    requires done < SECOND
    ensures var v := Number(s, p, n, 10);
            Seconds(s, p, done, base, max)
            == if base != BAD_TIME && base + v <= max then base + v else BAD_TIME
  {
    var t := Term(Number(s, p, n, 10), SECOND);
    assert Terms(s, p) == Some([t]);
    TotalOne(t, done);
  }

  lemma TotalOne(t: Term, done: nat)
    ensures Total([t]) == t.value * Scale(t.unit)
    ensures Falling([t], done) <==> done < t.unit
  {
    assert [t][1..] == [];
  }

  /** A number with its letter. */
  lemma NumberWithUnit(s: seq<Byte>, p: nat, n: nat, q: nat, done: nat, base: int, base': int,
                       max: nat)
    requires p <= |s| && n == Run(s, p, |s|, 10) > 0 && q == SkipSpace(s, p + n) && !AtEnd(s, q)
    requires BAD_TIME <= base
    requires var x := base + Number(s, p, n, 10) * Scale(UnitOf(s[q]));
             base' == if base != BAD_TIME && x <= max then x else BAD_TIME
    ensures var u, next := UnitOf(s[q]), SkipSpace(s, q + 1);
            Seconds(s, p, done, base, max)
            == if u == 0 || done >= u then BAD_TIME
               else if AtEnd(s, next) then base'
               else Seconds(s, next, u, base', max)
  {
    hide Run, Number, SkipSpace, Terms, IsSpace, DigitValue;
    var t, next := Term(Number(s, p, n, 10), UnitOf(s[q])), SkipSpace(s, q + 1);
    if UnitOf(s[q]) == 0 {
      NoUnit(s, p, n, q);
      return;
    }
    FirstTerm(s, p, p + n, q);
    if AtEnd(s, next) {
      TotalOne(t, done);
    } else {
      match Terms(s, next)
      case Some(ts) => assert ([t] + ts)[1..] == ts;
      case None =>
    }
  }

  lemma NoUnit(s: seq<Byte>, p: nat, n: nat, q: nat)
    requires p <= |s| && n == Run(s, p, |s|, 10) > 0 && q == SkipSpace(s, p + n) && !AtEnd(s, q)
    requires UnitOf(s[q]) == 0
    ensures Terms(s, p) == None
  {
  }

  /** No term can follow the seconds. */
  lemma AfterSeconds(s: seq<Byte>, p: nat, base: int, max: nat)
    requires p <= |s|
    ensures Seconds(s, p, SECOND, base, max) == BAD_TIME
  {
  }

  /** The result, unless the text has the form of ISO 8601, or the source computes a value that
      no signed integer holds. */
  datatype Outcome = Time(value: int) | Undefined | IsoForm

  // ------------------------------------------------------------------------ clock form

  /** strtoul on base 10, behind white space and a sign, converted to a time_t; not fits when the
      number is larger than an unsigned long. */
  datatype Field = Field(value: int, end: nat, fits: bool)

  function FieldAt(s: seq<Byte>, p: nat, max: nat): (f: Field)
    requires p <= |s|
    ensures p <= f.end <= |s| && f.value <= max
  {
    var q := SkipSpace(s, p);
    var sign := if q < |s| && (s[q] == 43 || s[q] == 45) then 1 else 0;
    var n := Run(s, q + sign, |s|, 10);
    if n == 0 then Field(0, p, true)
    else
      var v := Number(s, q + sign, n, 10);
      var u := if sign == 1 && s[q] == 45 && v != 0 then 2 * max + 2 - v else v;
      if v > 2 * max + 1 then Field(0, q + sign + n, false)
      else Field(if u <= max then u else u - (2 * max + 2), q + sign + n, true)
  }

  /** What parse_hr_min_sec makes of a number that was read and of the text behind it, in which
      at most left more numbers are read. */
  function Clock(s: seq<Byte>, p: nat, number: int, left: nat, max: nat): Sum
    requires p <= |s|
    decreases left
  {
    if p < |s| && s[p] == COLON && left > 0 then
      var f := FieldAt(s, p + 1, max);
      if !f.fits then Bad
      else
        match ScaledSum(f.value, number, 60, max)
        case Sum(v) => Clock(s, f.end, v, left - 1, max)
        case other => other
    else if AtEnd(s, SkipSpace(s, p)) then Sum(number) else Bad
  }

  method ParseHrMinSec(number: int, s: seq<Byte>, p: nat, max: nat) returns (r: Sum)
    requires p <= |s| && number <= max
    ensures r == Clock(s, p, number, 2, max)
  {
    var lpct, pz, start := 0, p, number;
    while pz < |s| && s[pz] == COLON && lpct <= 1
      invariant 0 <= lpct <= 2 && p <= pz <= |s| && start <= max
      invariant Clock(s, pz, start, 2 - lpct, max) == Clock(s, p, number, 2, max)
      decreases 2 - lpct
    {
      hide FieldAt, SkipSpace;
      lpct := lpct + 1;
      var f := FieldAt(s, pz + 1, max);
      if !f.fits { return Bad; }
      var sum := ScaleNAdd(f.value, start, 60, max);
      if !sum.Sum? { return sum; }
      start, pz := sum.value, f.end;
    }
    return if AtEnd(s, SkipSpace(s, pz)) then Sum(start) else Bad;
  }

  /** The clock form behind the terms before it. An error in it is the value -1, and adding that
      subtracts below zero from the largest time. */
  function AfterClock(base: int, done: nat, clock: Sum, max: nat): Outcome {
    if clock.Overflow? then Undefined
    else
      var val := if clock.Sum? then clock.value else BAD_TIME;
      if done == HOUR && val >= Scale(HOUR) then Time(BAD_TIME)
      else
        match ScaledSum(base, val, 1, max)
        case Sum(v) => Time(v)
        case Bad => Time(BAD_TIME)
        case Overflow => Undefined
  }

  /** Behind terms in strictly falling order, none of them minutes or seconds, a colon follows a
      number. */
  predicate MeetsColon(s: seq<Byte>, p: nat, done: nat, max: nat)
    requires p <= |s|
    decreases |s| - p
  {
    var n := Run(s, p, |s|, 10);
    && n > 0 && Number(s, p, n, 10) <= max
    && if p + n < |s| && s[p + n] == COLON then done < MINUTE
       else ColonBehind(s, SkipSpace(s, p + n), done, max)
  }

  predicate ColonBehind(s: seq<Byte>, q: nat, done: nat, max: nat)
    requires q <= |s|
    decreases |s| - q
  {
    && !AtEnd(s, q) && done < UnitOf(s[q]) < SECOND
    && MeetsColon(s, SkipSpace(s, q + 1), UnitOf(s[q]), max)
  }

  /** The result for a text in which a colon is met, behind terms that come to base. */
  function WithClock(s: seq<Byte>, p: nat, done: nat, base: int, max: nat): Outcome
    requires p <= |s| && MeetsColon(s, p, done, max)
    decreases |s| - p
  {
    var n := Run(s, p, |s|, 10);
    var v := Number(s, p, n, 10);
    if p + n < |s| && s[p + n] == COLON then AfterClock(base, done, Clock(s, p + n, v, 2, max), max)
    else
      var q := SkipSpace(s, p + n);
      assert ColonBehind(s, q, done, max);
      WithClock(s, SkipSpace(s, q + 1), UnitOf(s[q]), AddTerm(base, v, UnitOf(s[q]), max), max)
  }

  function AddTerm(base: int, v: nat, unit: nat, max: nat): (r: int)
    ensures BAD_TIME <= base ==> BAD_TIME <= r
  {
    if base != BAD_TIME && base + v * Scale(unit) <= max then base + v * Scale(unit) else BAD_TIME
  }

  function Meaning(s: seq<Byte>, p: nat, done: nat, base: int, max: nat): Outcome
    requires p <= |s|
  {
    if MeetsColon(s, p, done, max) then WithClock(s, p, done, base, max)
    else Time(Seconds(s, p, done, base, max))
  }

  // ------------------------------------------------------------------------- the loop

  /** parse_non_iso8601, for a time_t and a long that both end at max. */
  method ParseNonIso(s: seq<Byte>, start: nat, max: nat) returns (r: Outcome)
    requires start < |s| && IsDigit(s[start], 10)
    ensures r == Meaning(s, start, NOTHING, 0, max)
  {
    var done, res, pz := NOTHING, 0, start;
    hide Seconds, Run, Number, SkipSpace, MeetsColon, WithClock, Meaning, Scale;
    while true
      invariant start <= pz < |s| && IsDigit(s[pz], 10)
      invariant NOTHING <= done < SECOND && BAD_TIME <= res <= max
      invariant Meaning(s, pz, done, res, max) == Meaning(s, start, NOTHING, 0, max)
      decreases |s| - pz
    {
      ghost var p := pz;
      DigitRuns(s, pz);
      var n := Run(s, pz, |s|, 10);
      var val := Number(s, pz, n, 10);
      if val > max {
        MeansTooLarge(s, p, n, done, res, max);
        return Time(BAD_TIME);
      }
      pz := pz + n;
      if pz < |s| && s[pz] == COLON {
        MeansClock(s, p, n, done, res, max);
        if done >= MINUTE { return Time(BAD_TIME); }
        var clock := ParseHrMinSec(val, s, pz, max);
        if clock.Overflow? { return Undefined; }
        val := if clock.Sum? then clock.value else BAD_TIME;
        if done == HOUR && val >= Scale(HOUR) { return Time(BAD_TIME); }
        r := AddLast(res, val, max);
        return;
      }
      pz := SkipSpace(s, pz);
      if AtEnd(s, pz) {
        MeansLast(s, p, n, done, res, max);
        r := AddLast(res, val, max);
        return;
      }
      var unit := UnitOf(s[pz]);
      MeansTerm(s, p, n, pz, done, res, max);
      if unit == 0 || done >= unit { return Time(BAD_TIME); }
      var sum := ScaleNAdd(res, val, Scale(unit), max);
      res, done := if sum.Sum? then sum.value else BAD_TIME, unit;
      pz := SkipSpace(s, pz + 1);
      if AtEnd(s, pz) { return Time(res); }
      MeansNothing(s, pz, done, res, max);
      if !IsDigit(s[pz], 10) || done >= SECOND { return Time(BAD_TIME); }
    }
  }

  /** return scale_n_add (res, val, 1) */
  method AddLast(res: int, val: int, max: nat) returns (r: Outcome)
    requires BAD_TIME <= res <= max && val <= max
    ensures r == match ScaledSum(res, val, 1, max)
                 case Sum(v) => Time(v)
                 case Bad => Time(BAD_TIME)
                 case Overflow => Undefined
  {
    var sum := ScaleNAdd(res, val, 1, max);
    match sum {
      case Sum(v) => return Time(v);
      case Bad => return Time(BAD_TIME);
      case Overflow => return Undefined;
    }
  }

  lemma MeansTooLarge(s: seq<Byte>, p: nat, n: nat, done: nat, base: int, max: nat)
    requires p <= |s| && n == Run(s, p, |s|, 10) > 0 && Number(s, p, n, 10) > max
    requires BAD_TIME <= base
    ensures Meaning(s, p, done, base, max) == Time(BAD_TIME)
  {
    hide Seconds;
    NextColon(s, p, done, max);
    TooLarge(s, p, n, done, base, max);
  }

  lemma MeansClock(s: seq<Byte>, p: nat, n: nat, done: nat, base: int, max: nat)
    requires p <= |s| && n == Run(s, p, |s|, 10) > 0 && Number(s, p, n, 10) <= max
    requires p + n < |s| && s[p + n] == COLON
    ensures Meaning(s, p, done, base, max)
            == if done >= MINUTE then Time(BAD_TIME)
               else AfterClock(base, done, Clock(s, p + n, Number(s, p, n, 10), 2, max), max)
  {
    hide Seconds, AfterClock, Clock;
    NextColon(s, p, done, max);
    ColonIsNoUnit(s, p, n, done, base, max);
  }

  lemma MeansLast(s: seq<Byte>, p: nat, n: nat, done: nat, base: int, max: nat)
    requires p <= |s| && n == Run(s, p, |s|, 10) > 0 && Number(s, p, n, 10) <= max
    requires p + n < |s| ==> s[p + n] != COLON
    requires AtEnd(s, SkipSpace(s, p + n)) && done < SECOND
    ensures Meaning(s, p, done, base, max)
            == match ScaledSum(base, Number(s, p, n, 10), 1, max)
               case Sum(v) => Time(v)
               case _ => Time(BAD_TIME)
  {
    hide Seconds;
    NextColon(s, p, done, max);
    LastNumber(s, p, n, done, base, max);
  }

  lemma MeansTerm(s: seq<Byte>, p: nat, n: nat, q: nat, done: nat, base: int, max: nat)
    requires p <= |s| && n == Run(s, p, |s|, 10) > 0 && Number(s, p, n, 10) <= max
    requires p + n < |s| ==> s[p + n] != COLON
    requires q == SkipSpace(s, p + n) && !AtEnd(s, q) && BAD_TIME <= base
    ensures var u, next := UnitOf(s[q]), SkipSpace(s, q + 1);
            var sum := AddTerm(base, Number(s, p, n, 10), u, max);
            Meaning(s, p, done, base, max)
            == if u == 0 || done >= u then Time(BAD_TIME)
               else if AtEnd(s, next) then Time(sum)
               else Meaning(s, next, u, sum, max)
  {
    hide Seconds, Number, Run, SkipSpace, Scale;
    var u, next := UnitOf(s[q]), SkipSpace(s, q + 1);
    var sum := AddTerm(base, Number(s, p, n, 10), u, max);
    NextColon(s, p, done, max);
    NumberWithUnit(s, p, n, q, done, base, sum, max);
    NextColon(s, next, u, max);
    if AtEnd(s, next) { NoDigitAtEnd(s, next); }
    if u >= SECOND { AfterSeconds(s, next, sum, max); }
  }

  lemma NoDigitAtEnd(s: seq<Byte>, p: nat)
    requires p <= |s| && AtEnd(s, p)
    ensures p == |s| || !IsDigit(s[p], 10)
  {
  }

  lemma MeansNothing(s: seq<Byte>, p: nat, done: nat, base: int, max: nat)
    requires p < |s|
    ensures !IsDigit(s[p], 10) || done >= SECOND ==>
              Meaning(s, p, done, base, max) == Time(BAD_TIME)
  {
    hide Seconds;
    NextColon(s, p, done, max);
    NoDigit(s, p, done, base, max);
    if done >= SECOND { LateNumber(s, p, done, base, max); }
  }

  /** No term and no colon form can follow the seconds. */
  lemma LateNumber(s: seq<Byte>, p: nat, done: nat, base: int, max: nat)
    requires p <= |s| && done >= SECOND
    ensures Seconds(s, p, done, base, max) == BAD_TIME
  {
  }

  lemma DigitRuns(s: seq<Byte>, p: nat)
    requires p < |s| && IsDigit(s[p], 10)
    ensures Run(s, p, |s|, 10) > 0
  {
  }

  lemma NextColon(s: seq<Byte>, p: nat, done: nat, max: nat)
    requires p <= |s|
    ensures var n := Run(s, p, |s|, 10);
            MeetsColon(s, p, done, max) <==>
              && n > 0 && Number(s, p, n, 10) <= max
              && if p + n < |s| && s[p + n] == COLON then done < MINUTE
                 else ColonBehind(s, SkipSpace(s, p + n), done, max)
    ensures p == |s| || !IsDigit(s[p], 10) || done >= SECOND ==> !MeetsColon(s, p, done, max)
  {
  }

  lemma ColonIsNoUnit(s: seq<Byte>, p: nat, n: nat, done: nat, base: int, max: nat)
    requires p <= |s| && n == Run(s, p, |s|, 10) > 0 && p + n < |s| && s[p + n] == COLON
    ensures Seconds(s, p, done, base, max) == BAD_TIME
  {
    NoUnit(s, p, n, p + n);
  }

  lemma NoDigit(s: seq<Byte>, p: nat, done: nat, base: int, max: nat)
    requires p < |s|
    ensures !IsDigit(s[p], 10) ==> Seconds(s, p, done, base, max) == BAD_TIME
  {
  }

  /** parse_duration, up to the forms of ISO 8601, which start with P or T. */
  method ParseDuration(s: seq<Byte>, max: nat) returns (r: Outcome)
    ensures var p := SkipSpace(s, 0);
            r == if p < |s| && (s[p] == 'P' as int || s[p] == 'T' as int) then IsoForm
                 else Meaning(s, p, NOTHING, 0, max)
    ensures COLON !in s && r != IsoForm ==> r == Time(Seconds(s, SkipSpace(s, 0), NOTHING, 0, max))
  {
    hide MeetsColon, WithClock, Seconds;
    var pz := SkipSpace(s, 0);
    if pz < |s| && (s[pz] == 80 || s[pz] == 84) { return IsoForm; }
    NextColon(s, pz, NOTHING, max);
    if COLON !in s { NoColon(s, pz, NOTHING, max); }
    if pz < |s| && IsDigit(s[pz], 10) {
      r := ParseNonIso(s, pz, max);
    } else {
      NoTerms(s, pz, max);
      r := Time(BAD_TIME);
    }
  }

  lemma {:induction false} NoColon(s: seq<Byte>, p: nat, done: nat, max: nat)
    requires p <= |s| && COLON !in s
    ensures !MeetsColon(s, p, done, max)
    decreases |s| - p
  {
    var n := Run(s, p, |s|, 10);
    if n > 0 {
      var q := SkipSpace(s, p + n);
      if !AtEnd(s, q) { NoColon(s, SkipSpace(s, q + 1), UnitOf(s[q]), max); }
    }
  }

  lemma NoTerms(s: seq<Byte>, p: nat, max: nat)
    requires p <= |s| && (p < |s| ==> !IsDigit(s[p], 10))
    ensures Seconds(s, p, NOTHING, 0, max) == BAD_TIME
  {
  }
}
