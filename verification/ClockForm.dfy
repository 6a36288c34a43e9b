// Numbers behind colons, as in "2:30": what they come to, and when the source computes a value
// that no time holds.
module ClockForm {
  import opened CTypes
  import opened CText
  import opened Duration

  predicate IsBlank(c: Byte) { 9 <= c <= 13 || c == 32 }

  ghost predicate AreBlank(g: seq<Byte>) { forall i :: 0 <= i < |g| ==> IsBlank(g[i]) }

  lemma {:induction false} SkipsBlanks(s: seq<Byte>, p: nat, g: seq<Byte>, e: nat)
    requires At(s, p, g) && AreBlank(g) && e == p + |g| < |s| && !IsBlank(s[e])
    ensures SkipSpace(s, p) == e
    decreases |g|
  {
    if g != [] {
      AtIndex(s, p, g, 0);
      assert g == [g[0]] + g[1..];
      AtConcat(s, p, [g[0]], g[1..], p + 1);
      SkipsBlanks(s, p + 1, g[1..], e);
    }
  }

  /** A number behind a colon: blanks, perhaps a plus sign, and digits. */
  datatype Part = Part(blanks: seq<Byte>, sign: seq<Byte>, value: nat)

  ghost predicate IsPart(m: Part) {
    AreBlank(m.blanks) && (m.sign == [] || m.sign == ['+' as int])
  }

  function PartText(m: Part, rest: seq<Byte>): seq<Byte> {
    [':' as int] + (m.blanks + (m.sign + (Decimal(m.value) + rest)))
  }

  /** The numbers behind colons, and blanks at the end. */
  function Colons(ms: seq<Part>, blanks: seq<Byte>): seq<Byte> {
    if ms == [] then blanks else PartText(ms[0], Colons(ms[1..], blanks))
  }

  /** Each number counts for sixty times what the next one counts for. */
  function ClockValue(h: nat, ms: seq<Part>): nat
    decreases |ms|
  {
    if ms == [] then h else ClockValue(h * 60 + ms[0].value, ms[1..])
  }

  lemma {:induction false} ClockValueAtLeast(h: nat, ms: seq<Part>)
    ensures h <= ClockValue(h, ms)
    decreases |ms|
  {
    if ms != [] { ClockValueAtLeast(h * 60 + ms[0].value, ms[1..]); }
  }

  ghost predicate AreParts(ms: seq<Part>, max: nat) {
    forall i :: 0 <= i < |ms| ==> IsPart(ms[i]) && ms[i].value <= max
  }

  function ClockSum(h: nat, ms: seq<Part>, max: nat): (r: Sum)
    ensures !r.Overflow?
  {
    if ClockValue(h, ms) <= max then Sum(ClockValue(h, ms)) else Bad
  }

  /** A number with something behind it that is not a digit. */
  lemma NumberReads(s: seq<Byte>, p: nat, v: nat, e: nat)
    requires At(s, p, Decimal(v)) && e == p + |Decimal(v)| < |s| && !IsDigit(s[e], 10)
    ensures IsDigit(s[p], 10) && Run(s, p, |s|, 10) == e - p && Number(s, p, e - p, 10) == v
  {
    hide Run, Number, Decimal;
    DecimalReads(s, p, v, e - p);
    RunIs(s, p, e - p, |s|, 10);
  }

  /** The field behind blanks and a sign at q, with its digits at d. */
  lemma FieldReads(s: seq<Byte>, p: nat, q: nat, d: nat, v: nat, e: nat, max: nat)
    requires At(s, d, Decimal(v)) && e == d + |Decimal(v)| < |s| && !IsDigit(s[e], 10)
    requires p <= |s| && q == SkipSpace(s, p)
    requires (d == q || (d == q + 1 && s[q] == '+' as int)) && v <= 2 * max + 1
    ensures FieldAt(s, p, max) == Field(if v <= max then v else v - (2 * max + 2), e, true)
  {
    hide Run, Number, Decimal, SkipSpace;
    NumberReads(s, d, v, e);
  }

  /** A minus sign makes a number negative. */
  lemma MinusReads(s: seq<Byte>, p: nat, q: nat, v: nat, e: nat, max: nat)
    requires At(s, q + 1, Decimal(v)) && e == q + 1 + |Decimal(v)| < |s| && !IsDigit(s[e], 10)
    requires p <= |s| && q == SkipSpace(s, p) && s[q] == '-' as int && v <= max + 1
    ensures FieldAt(s, p, max) == Field(0 - v, e, true)
  {
    hide Run, Number, Decimal, SkipSpace;
    NumberReads(s, q + 1, v, e);
  }

  /** A number that no unsigned long holds. */
  lemma HugeReads(s: seq<Byte>, p: nat, v: nat, e: nat, max: nat)
    requires At(s, p, Decimal(v)) && e == p + |Decimal(v)| < |s| && !IsDigit(s[e], 10)
    requires 2 * max + 1 < v
    ensures !FieldAt(s, p, max).fits
  {
    hide Run, Number, Decimal, SkipSpace;
    NumberReads(s, p, v, e);
    NoSpace(s, p);
  }

  /** Where the digits of a part and what follows them stand. */
  lemma PartReads(s: seq<Byte>, p: nat, m: Part, rest: seq<Byte>, e: nat, max: nat)
    requires IsPart(m) && At(s, p, PartText(m, rest))
    requires e == p + 1 + |m.blanks| + |m.sign| + |Decimal(m.value)| < |s| && !IsDigit(s[e], 10)
    requires m.value <= 2 * max + 1
    ensures s[p] == ':' as int && At(s, e, rest)
    ensures FieldAt(s, p + 1, max)
            == Field(if m.value <= max then m.value else m.value - (2 * max + 2), e, true)
  {
    hide At, Decimal, SkipSpace;
    var q := p + 1 + |m.blanks|;
    var d := q + |m.sign|;
    AtConcat(s, p, [':' as int], m.blanks + (m.sign + (Decimal(m.value) + rest)), p + 1);
    AtConcat(s, p + 1, m.blanks, m.sign + (Decimal(m.value) + rest), q);
    AtConcat(s, q, m.sign, Decimal(m.value) + rest, d);
    AtConcat(s, d, Decimal(m.value), rest, e);
    AtIndex(s, p, [':' as int], 0);
    NumberReads(s, d, m.value, e);
    if m.sign != [] { AtIndex(s, q, m.sign, 0); }
    SkipsBlanks(s, p + 1, m.blanks, q);
    FieldReads(s, p + 1, q, d, m.value, e, max);
  }

  lemma {:induction false} ClockReads(s: seq<Byte>, p: nat, h: nat, ms: seq<Part>,
                                      blanks: seq<Byte>, left: nat, max: nat, end: nat)
    requires At(s, p, Colons(ms, blanks)) && end == p + |Colons(ms, blanks)| < |s| && s[end] == 0
    requires AreParts(ms, max) && AreBlank(blanks) && h <= max
    ensures Clock(s, p, h, left, max) == if |ms| <= left then ClockSum(h, ms, max) else Bad
    decreases |ms|
  {
    hide FieldAt, SkipSpace, Decimal;
    ColonsStart(s, p, ms, blanks, end);
    if ms == [] {
      SkipsBlanks(s, p, blanks, end);
    } else if left == 0 {
      NoSpace(s, p);
    } else {
      var m, rest := ms[0], Colons(ms[1..], blanks);
      var e := p + 1 + |m.blanks| + |m.sign| + |Decimal(m.value)|;
      assert |PartText(m, rest)| == e - p + |rest|;
      var h' := h * 60 + m.value;
      PartBehind(s, p, m, rest, e);
      ColonsStart(s, e, ms[1..], blanks, end);
      PartReads(s, p, m, rest, e, max);
      ClockValueAtLeast(h', ms[1..]);
      if h' <= max { ClockReads(s, e, h', ms[1..], blanks, left - 1, max, end); }
    }
  }

  lemma PartBehind(s: seq<Byte>, p: nat, m: Part, rest: seq<Byte>, e: nat)
    requires At(s, p, PartText(m, rest))
    requires e == p + 1 + |m.blanks| + |m.sign| + |Decimal(m.value)|
    ensures At(s, e, rest)
  {
    var head := [':' as int] + (m.blanks + (m.sign + Decimal(m.value)));
    assert PartText(m, rest) == head + rest;
    AtConcat(s, p, head, rest, e);
  }

  /** What the numbers start with: a colon, or else a blank or the NUL. */
  lemma ColonsStart(s: seq<Byte>, p: nat, ms: seq<Part>, blanks: seq<Byte>, end: nat)
    requires At(s, p, Colons(ms, blanks)) && end == p + |Colons(ms, blanks)| < |s| && s[end] == 0
    requires AreBlank(blanks)
    ensures !IsDigit(s[p], 10) && (s[p] == ':' as int <==> ms != [])
  {
    if ms != [] || blanks != [] { AtIndex(s, p, Colons(ms, blanks), 0); }
  }

  /** A number behind the colon that an unsigned long can hold and a time cannot is converted to
      a negative time: the sum is too small by the range of an unsigned long, or an error. */
  lemma LargeNumberWraps(s: seq<Byte>, p: nat, h: nat, m: Part, max: nat, end: nat)
    requires IsPart(m) && At(s, p, Colons([m], [])) && end == p + |Colons([m], [])| < |s| && s[end] == 0
    requires max < m.value <= 2 * max + 1 && h * 60 <= max
    ensures Clock(s, p, h, 2, max)
            == if m.value == 2 * max + 1 then Bad else Sum(h * 60 + m.value - (2 * max + 2))
  {
    hide FieldAt, SkipSpace, Decimal;
    assert Colons([m], []) == PartText(m, []);
    PartReads(s, p, m, [], end, max);
    EndAfterSpace(s, end);
    var sum := h * 60 + m.value - (2 * max + 2);
    assert Clock(s, end, sum, 1, max) == Sum(sum);
  }

  /** "5:" with anything behind it that is no number and no end: the failed part is added. */
  lemma FailedPartUndefined(max: nat)
    requires 300 <= max
    ensures Meaning(Bytes("5:x") + [0], 0, NOTHING, 0, max) == Undefined
  {
    var s := Bytes("5:x") + [0];
    assert s == [53, COLON, 120, 0];
    hide Meaning, SkipSpace;
    RunIs(s, 0, 1, |s|, 10);
    assert Number(s, 0, 0, 10) == 0 && Number(s, 0, 1, 10) == 5;
    NoSpace(s, 2);
    assert Run(s, 2, |s|, 10) == 0 && FieldAt(s, 2, max) == Field(0, 2, true);
    assert Clock(s, 2, 300, 1, max) == Bad;
    assert Clock(s, 1, 5, 2, max) == Bad;
    MeansClock(s, 0, 1, NOTHING, 0, max);
  }

  /** "5:" alone: a missing number counts as zero. */
  lemma MissingPart(max: nat)
    requires 300 <= max
    ensures Meaning(Bytes("5:") + [0], 0, NOTHING, 0, max) == Time(300)
  {
    var s := Bytes("5:") + [0];
    assert s == [53, COLON, 0];
    hide Meaning, SkipSpace;
    RunIs(s, 0, 1, |s|, 10);
    assert Number(s, 0, 0, 10) == 0 && Number(s, 0, 1, 10) == 5;
    NoSpace(s, 2);
    assert Run(s, 2, |s|, 10) == 0 && FieldAt(s, 2, max) == Field(0, 2, true);
    assert Clock(s, 2, 300, 1, max) == Sum(300);
    assert Clock(s, 1, 5, 2, max) == Sum(300);
    MeansClock(s, 0, 1, NOTHING, 0, max);
  }
}
