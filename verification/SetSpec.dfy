// Set membership options: a mask printed as names, and the text that is parsed into a mask.
// The number of bits of uintptr_t is the parameter w throughout.
module SetSpec {
  import opened CTypes
  import opened CText
  import opened Machine

  const NAME_LIMIT := 127       // AO_NAME_LIMIT

  const BANG: Byte := 33        // '!'
  const PLUS: Byte := 43
  const COMMA: Byte := 44
  const MINUS: Byte := 45
  const EQUALS: Byte := 61
  const CARET: Byte := 94
  const BAR: Byte := 124
  const TILDE: Byte := 126

  const ALL: seq<Byte> := [97, 108, 108]
  const NONE: seq<Byte> := [110, 111, 110, 101]
  const PLUS_STR: seq<Byte> := [32, 43, 32]

  type Names = seq<seq<Byte>>

  /** The class SET_SEPARATOR, as the table of character classes has it. */
  predicate IsSeparator(c: Byte) {
    c == 0 || c == PLUS || c == COMMA || c == BAR || IsWhite(c)
  }

  /** SPN_WHITESPACE_CHARS. */
  function SkipWhite(s: seq<Byte>, p: nat): (q: nat)
    requires p <= |s|
    ensures p <= q <= |s| && (q < |s| ==> !IsWhite(s[q]))
    decreases |s| - p
  {
    if p < |s| && IsWhite(s[p]) then SkipWhite(s, p + 1) else p
  }

  /** BRK_SET_SEPARATOR_CHARS. */
  function TokenEnd(s: seq<Byte>, p: nat): (q: nat)
    requires p <= |s|
    ensures p <= q <= |s|
    decreases |s| - p
  {
    if p < |s| && !IsSeparator(s[p]) then TokenEnd(s, p + 1) else p
  }

  // -------------------------------------------------------------------- numbers

  /** strtoul (s + p, &end, 0): the value, and the number of characters converted. */
  datatype Converted = Converted(value: nat, count: nat)

  function Unsigned(v: nat, negative: bool, w: nat): (u: nat)
    ensures u < Pow2(w)
  {
    if Pow2(w) <= v then Pow2(w) - 1
    else if negative && v != 0 then Pow2(w) - v else v
  }

  function StrToUl(s: seq<Byte>, p: nat, w: nat): (c: Converted)
    requires p <= |s|
    ensures p + c.count <= |s|
  {
    var sign := if p < |s| && (s[p] == MINUS || s[p] == PLUS) then 1 else 0;
    var negative := sign == 1 && s[p] == MINUS;
    var d := p + sign;
    var hex := d + 2 < |s| && s[d] == 48 && (s[d + 1] == 88 || s[d + 1] == 120)
               && IsDigit(s[d + 2], 16);
    var radix := if hex then 16 else if d < |s| && s[d] == 48 then 8 else 10;
    var start := if hex then d + 2 else d;
    var n := Run(s, start, |s|, radix);
    if n == 0 then Converted(0, 0)
    else Converted(Unsigned(Number(s, start, n, radix), negative, w), start + n - p)
  }

  /** strtoul converts nothing of a text that starts with neither a digit nor a sign. */
  lemma NoNumber(s: seq<Byte>, p: nat, w: nat)
    requires p < |s| && !IsDigit(s[p], 10) && s[p] != MINUS && s[p] != PLUS
    ensures StrToUl(s, p, w).count == 0
  {
  }

  // ---------------------------------------------------------------------- names

  /** The outcome of a lookup or of a whole parse: a value, an error, or a read of memory
      that the source does not define. */
  datatype Outcome = Done(value: nat) | Failed | Undefined

  /** The first name from ix on that is equal to name, or the only one that starts with it;
      res is the partial match found so far, |names| without one and more than |names| when
      there were several. */
  function LookUp(name: seq<Byte>, names: Names, ix: nat, res: nat): (r: Option<nat>)
    requires ix <= |names|
    ensures r.Some? ==> r.value < |names|
    decreases |names| - ix
  {
    if ix == |names| then (if res < |names| then Some(res) else None)
    else if names[ix] == name then Some(ix)
    else if name <= names[ix] then
      LookUp(name, names, ix + 1, if res == |names| then ix else |names| + 1)
    else LookUp(name, names, ix + 1, res)
  }

  // ---------------------------------------------------------------------- bits

  function Union(a: nat, b: nat, w: nat): nat { Bitwise(Or, a, b, w) }

  function Without(a: nat, b: nat, w: nat): nat { Bitwise(And, a, Complement(b, w), w) }

  /** 1UL << n, for a valid shift count. */
  function BitOf(n: nat): nat { Pow2(n) }

  // -------------------------------------------------------------------- parsing

  /** What check_membership_start finds: the initial mask, whether to invert, and where the
      members start. */
  datatype Start = Start(res: nat, invert: bool, p: nat) | BadStart

  function StartAt(s: seq<Byte>, cookie: nat): (r: Start)
    ensures r.Start? ==> r.p <= |s|
  {
    var p := SkipWhite(s, 0);
    if p >= |s| || s[p] == 0 || s[p] == COMMA then BadStart
    else if s[p] == EQUALS then
      var q := SkipWhite(s, p + 1);
      if q < |s| && (s[q] == EQUALS || s[q] == COMMA) then BadStart
      else if q < |s| && s[q] == CARET then Inverted(s, q, 0)
      else Start(0, false, q)
    else if s[p] == CARET then Inverted(s, p, cookie)
    else Start(cookie, false, p)
  }

  function Inverted(s: seq<Byte>, p: nat, res: nat): (r: Start)
    requires p < |s|
    ensures r.Start? ==> r.p <= |s|
  {
    var q := SkipWhite(s, p + 1);
    if q < |s| && s[q] == COMMA then BadStart else Start(res, true, q)
  }

  /** The end of the string at p, cut at q. */
  function CutAtNul(s: seq<Byte>, p: nat, q: nat): (e: nat)
    requires p <= q <= |s|
    ensures p <= e <= q
    decreases q - p
  {
    if p < q && s[p] != 0 then CutAtNul(s, p + 1, q) else p
  }

  /** The string at the start of some memory. */
  function NameIn(memory: seq<Byte>): seq<Byte> {
    memory[..CutAtNul(memory, 0, |memory|)]
  }

  predicate IsInversion(c: Byte) { c == MINUS || c == TILDE }

  /** find_name, on the memory that has been written: behind a first character that means
      inversion it reads the third one, wherever the string ends. */
  function FindName(memory: seq<Byte>, names: Names, w: nat): Outcome {
    var name := NameIn(memory);
    if name != [] && IsDigit(name[0], 10) then
      var c := StrToUl(memory, 0, w);
      if c.count == |name| && c.value < |names| then Done(c.value) else Failed
    else if name != [] && IsInversion(name[0]) && |memory| <= 2 then Undefined
    else if name != [] && IsInversion(name[0]) && memory[2] == 0 then
      if names != [] && (memory[..2] == [TILDE, 48] || memory[..2] == [MINUS, 49])
      then Done(|names| - 1) else Failed
    else
      match LookUp(name, names, 0, |names|)
      case Some(ix) => Done(ix)
      case None => Failed
  }

  /** find_member_bit: the bit of the name in the len characters at p. The name buffer holds
      NAME_LIMIT characters, and the copy must stay inside the text. */
  function MemberBit(s: seq<Byte>, p: nat, len: nat, names: Names, w: nat): (m: Outcome)
    requires p <= |s|
  {
    if len > NAME_LIMIT || p + len > |s| then Undefined
    else
      match FindName(s[p..p + len] + [0], names, w)
      case Done(ix) => if ix < w then Done(BitOf(ix)) else Undefined
      case other => other
  }

  /** The mask of the member s[p..q], which is not "all" or "none". When strtoul converts only
      a part of it, the name starts behind that part and is as long as the whole member. */
  function Member(s: seq<Byte>, p: nat, q: nat, names: Names, w: nat): (m: Outcome)
    requires p < q <= |s|
  {
    var c := StrToUl(s, p, w);
    if c.count == q - p then Done(c.value)
    else MemberBit(s, p + c.count, q - p, names, w)
  }

  /** One turn of the loop over the members: it goes on at p with the mask res, or the loop
      is over. */
  datatype Turn = Next(p: nat, res: nat) | Over(outcome: Outcome)

  function Step(s: seq<Byte>, p: nat, res: nat, names: Names, w: nat): (t: Turn)
    requires p <= |s|
    ensures t.Next? ==> p < t.p <= |s|
  {
    if p == |s| || s[p] == 0 then Over(Done(res))
    else if s[p] == COMMA then
      var q := SkipWhite(s, p + 1);
      if q < |s| && (s[q] == COMMA || s[q] == BAR) then Over(Failed) else Next(q, res)
    else
      var inv := s[p] == MINUS || s[p] == BANG;
      StepMember(s, if inv || s[p] == PLUS || s[p] == BAR then SkipWhite(s, p + 1) else p,
                 inv, res, names, w)
  }

  function StepMember(s: seq<Byte>, b: nat, inv: bool, res: nat, names: Names, w: nat): (t: Turn)
    requires b <= |s|
    ensures t.Next? ==> b < t.p <= |s|
  {
    var e := TokenEnd(s, b);
    if e == b then Over(Done(res))
    else
      match Token(s, b, e, inv, res, names, w)
      case Done(next) => Next(SkipWhite(s, e), next)
      case other => Over(other)
  }

  /** The members from position p on, added to or taken from res. */
  function Members(s: seq<Byte>, p: nat, res: nat, names: Names, w: nat): Outcome
    requires p <= |s|
    decreases |s| - p
  {
    match Step(s, p, res, names, w)
    case Next(q, next) => Members(s, q, next, names, w)
    case Over(outcome) => outcome
  }

  /** The mask res after the member s[p..q]. */
  function Token(s: seq<Byte>, p: nat, q: nat, inv: bool, res: nat, names: Names, w: nat): Outcome
    requires p < q <= |s|
  {
    if s[p..q] == ALL then Done(if inv then 0 else Pow2(w) - 1)
    else if s[p..q] == NONE then Done(if inv then res else 0)
    else
      match Member(s, p, q, names, w)
      case Done(bit) => Done(if inv then Without(res, bit, w) else Union(res, bit, w))
      case other => other
  }

  /** optionSetMembers: the new cookie. */
  function Parsed(s: seq<Byte>, cookie: nat, names: Names, w: nat): Outcome {
    match StartAt(s, cookie)
    case BadStart => Done(0)
    case Start(res, invert, p) =>
      match Members(s, p, res, names, w)
      case Done(r) => Done(Finish(r, invert, |names|, w))
      case Failed => Done(0)
      case Undefined => Undefined
  }

  function Finish(res: nat, invert: bool, ct: nat, w: nat): nat {
    var r := if invert then Bitwise(Xor, res, Pow2(w) - 1, w) else res;
    if ct < w then Bitwise(And, r, Pow2(ct) - 1, w) else r
  }

  // -------------------------------------------------------------------- printing

  /** The names of the one bits, joined by plus signs; bit 0 stands for names[ix]. */
  function Printed(bits: nat, names: Names, ix: nat): seq<Byte>
    requires ix <= |names| && bits < Pow2(|names| - ix)
    decreases bits, |names| - ix
  {
    if bits == 0 then []
    else if bits % 2 == 0 then Printed(bits / 2, names, ix + 1)
    else names[ix] + (if bits / 2 == 0 then [] else PLUS_STR + Printed(bits / 2, names, ix + 1))
  }
}
