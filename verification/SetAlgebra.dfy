// What a text of members means: each adds to the set or, behind a sign, takes from it.
module SetAlgebra {
  import opened CTypes
  import opened CText
  import opened Machine
  import opened SetSpec
  import opened SetNames
  import opened SetRoundTrip

  /** Bit i of a mask: whether the set holds the member i. */
  predicate Holds(x: nat, i: nat) {
    if i == 0 then x % 2 == 1 else Holds(x / 2, i - 1)
  }

  lemma {:induction false} HoldsBitwise(op: Op, x: nat, y: nat, w: nat, i: nat)
    requires i < w
    ensures Holds(Bitwise(op, x, y, w), i)
            <==> Apply(op, if Holds(x, i) then 1 else 0, if Holds(y, i) then 1 else 0) == 1
  {
    hide Apply;
    LowBit(Apply(op, x % 2, y % 2), Bitwise(op, x / 2, y / 2, w - 1));
    if i > 0 { HoldsBitwise(op, x / 2, y / 2, w - 1, i - 1); }
  }

  lemma LowBit(b: nat, z: nat)
    requires b <= 1
    ensures (b + 2 * z) % 2 == b && (b + 2 * z) / 2 == z
  {
  }

  lemma {:induction false} HoldsComplement(x: nat, w: nat, i: nat)
    requires i < w
    ensures Holds(Complement(x, w), i) <==> !Holds(x, i)
  {
    LowBit(1 - x % 2, Complement(x / 2, w - 1));
    if i > 0 { HoldsComplement(x / 2, w - 1, i - 1); }
  }

  lemma {:induction false} HoldsPower(k: nat, i: nat)
    ensures Holds(Pow2(k), i) <==> i == k
  {
    if k > 0 && i > 0 {
      HoldsPower(k - 1, i - 1);
    } else if i > 0 {
      HoldsNothing(i - 1);
    }
  }

  lemma {:induction false} HoldsNothing(i: nat)
    ensures !Holds(0, i)
  {
    if i > 0 { HoldsNothing(i - 1); }
  }

  lemma {:induction false} HoldsAll(n: nat, i: nat)
    ensures Holds(Pow2(n) - 1, i) <==> i < n
  {
    if n == 0 {
      HoldsNothing(i);
    } else {
      LowBit(1, Pow2(n - 1) - 1);
      assert Pow2(n) - 1 == 1 + 2 * (Pow2(n - 1) - 1);
      if i > 0 { HoldsAll(n - 1, i - 1); }
    }
  }

  // -------------------------------------------------------------------- members

  /** The characters that separate members, and the white space among them. */
  predicate IsBlank(c: Byte) { 8 <= c <= 13 || c == 32 }

  predicate Separates(c: Byte) {
    c == 0 || c == '+' as int || c == ',' as int || c == '|' as int || IsBlank(c)
  }

  lemma Characters(c: Byte)
    ensures IsWhite(c) <==> IsBlank(c)
    ensures IsSeparator(c) <==> Separates(c)
    ensures Bytes("-!+|,=^~") == [MINUS, BANG, PLUS, BAR, COMMA, EQUALS, CARET, TILDE]
    ensures IsInversion(c) <==> c == '~' as int || c == '-' as int
    ensures Bytes("all") == ALL && Bytes("none") == NONE && Bytes(" + ") == PLUS_STR
  {
  }

  ghost predicate AreBlank(g: seq<Byte>) { forall i :: 0 <= i < |g| ==> IsBlank(g[i]) }

  /** A word that is looked up among the names: at most 127 characters, none a separator, that do
      not start with a digit, a sign or an inversion and are not one of the two words. */
  ghost predicate IsWord(n: seq<Byte>) {
    && 1 <= |n| <= 127 && n != Bytes("all") && n != Bytes("none")
    && (forall i :: 0 <= i < |n| ==> !Separates(n[i]))
    && !(48 <= n[0] <= 57) && n[0] != '-' as int && n[0] != '!' as int
    && (n[0] == '~' as int ==> 3 <= |n|)
  }

  /** What a member stands for: the name chosen for a word, the last name, all of them, none, or
      the bits of a number, which is decimal, octal behind a zero, or hexadecimal behind 0x or
      0X, and may be negative behind another sign. */
  datatype What =
    | One(word: seq<Byte>, k: nat)
    | Last
    | All
    | None
    | Mask(minus: bool, radix: nat, digits: seq<Byte>, x: Byte)

  /** A member with its sign, if it has one, and blanks behind the sign; then blanks, and perhaps
      a comma with more blanks. */
  datatype Item = Item(sign: seq<Byte>, blanks: seq<Byte>, what: What,
                       gap: seq<Byte>, comma: seq<Byte>, more: seq<Byte>)

  predicate Takes(item: Item) { item.sign == ['-' as int] || item.sign == ['!' as int] }

  ghost predicate IsWhat(what: What, names: Names) {
    match what
    case One(word, k) => IsWord(word) && Chosen(word, names, k)
    case Last => names != []
    case Mask(_, radix, digits, x) =>
      && digits != [] && (radix == 8 || radix == 10 || radix == 16)
      && (forall i :: 0 <= i < |digits| ==> IsDigit(digits[i], radix))
      && (radix == 8 ==> digits[0] == '0' as int) && (radix == 10 ==> digits[0] != '0' as int)
      && (radix == 16 ==> x == 'x' as int || x == 'X' as int)
    case _ => true
  }

  predicate IsSign(sign: seq<Byte>) {
    || sign == ['+' as int] || sign == ['|' as int]
    || sign == ['-' as int] || sign == ['!' as int]
  }

  ghost predicate IsItem(item: Item, names: Names) {
    && (item.sign == [] || IsSign(item.sign))
    && (item.sign == [] ==> item.blanks == [] && !(item.what.Mask? && item.what.minus))
    && (item.comma == [] ==> item.more == []) && (item.comma == [] || item.comma == [',' as int])
    && AreBlank(item.blanks) && AreBlank(item.gap) && AreBlank(item.more)
    && IsWhat(item.what, names)
  }

  ghost function Word(what: What): (w: seq<Byte>)
    ensures !what.One? && (what.Mask? ==> what.digits != []) ==> w != []
  {
    match what
    case One(word, _) => word
    case Last => Bytes("~0")
    case All => Bytes("all")
    case None => Bytes("none")
    case Mask(minus, radix, digits, x) =>
      (if minus then ['-' as int] else []) + ((if radix == 16 then ['0' as int, x] else []) + digits)
  }

  /** The character that an item starts with. */
  ghost function First(item: Item): Byte
    requires item.sign != [] || Word(item.what) != []
  {
    if item.sign == [] then Word(item.what)[0] else item.sign[0]
  }

  /** What may stand behind an item: a member without a sign, or with one that can be part of a
      name, must be set off; and behind a comma neither a comma nor a bar may stand. */
  predicate MayFollow(item: Item, c: Byte) {
    && !IsBlank(c)
    && (item.gap == [] && item.comma == [] ==> Separates(c))
    && (item.comma != [] ==> c != ',' as int && c != '|' as int)
  }

  /** Items one behind the other, with the character last behind the last of them. */
  ghost predicate AreItems(items: seq<Item>, names: Names, last: Byte) {
    items == []
    || (&& IsItem(items[0], names) && Word(items[0].what) != []
        && MayFollow(items[0], FirstOf(items[1..], last))
        && AreItems(items[1..], names, last))
  }

  ghost function FirstOf(items: seq<Item>, last: Byte): Byte {
    if items == [] then last
    else if items[0].sign == [] && Word(items[0].what) == [] then last
    else First(items[0])
  }

  ghost function ItemText(item: Item, rest: seq<Byte>): seq<Byte> {
    item.sign + (item.blanks + (Word(item.what) + (item.gap + (item.comma + (item.more + rest)))))
  }

  ghost function ItemsText(items: seq<Item>): seq<Byte> {
    if items == [] then [] else ItemText(items[0], ItemsText(items[1..]))
  }

  /** The bits that a number stands for; one that is too large counts as the largest. */
  function MaskOf(what: What, w: nat): nat
    requires what.Mask?
  {
    var v := Number(what.digits, 0, |what.digits|, what.radix);
    if Pow2(w) <= v then Pow2(w) - 1 else if what.minus && v != 0 then Pow2(w) - v else v
  }

  /** Whether the set holds member i of n after the item, when it held it before or not. */
  predicate After(item: Item, i: nat, held: bool, n: nat, w: nat) {
    match item.what
    case One(_, k) => if i == k then !Takes(item) else held
    case Last => if i + 1 == n then !Takes(item) else held
    case All => !Takes(item)
    case None => held && Takes(item)
    case Mask(_, _, _, _) => if Holds(MaskOf(item.what, w), i) then !Takes(item) else held
  }

  predicate AfterAll(items: seq<Item>, i: nat, held: bool, n: nat, w: nat) {
    if items == [] then held else AfterAll(items[1..], i, After(items[0], i, held, n, w), n, w)
  }

  // ----------------------------------------------------------------------- one member

  /** The mask next is what the item makes of res. */
  ghost predicate Makes(item: Item, res: nat, next: nat, n: nat, w: nat) {
    forall i: nat :: i < w ==> (Holds(next, i) <==> After(item, i, Holds(res, i), n, w))
  }

  lemma MakesBits(item: Item, res: nat, bits: nat, n: nat, w: nat)
    requires item.what.One? ==> bits == BitOf(item.what.k)
    requires item.what.Last? ==> n > 0 && bits == BitOf(n - 1)
    requires item.what.Mask? ==> bits == MaskOf(item.what, w)
    requires item.what.One? || item.what.Last? || item.what.Mask?
    ensures Makes(item, res, if Takes(item) then Without(res, bits, w) else Union(res, bits, w), n, w)
  {
    hide Holds, Bitwise, Complement, MaskOf, Pow2;
    var next := if Takes(item) then Without(res, bits, w) else Union(res, bits, w);
    forall i: nat | i < w ensures Holds(next, i) <==> After(item, i, Holds(res, i), n, w) {
      if item.what.One? { HoldsPower(item.what.k, i); }
      if item.what.Last? { HoldsPower(n - 1, i); }
      HoldsComplement(bits, w, i);
      HoldsBitwise(And, res, Complement(bits, w), w, i);
      HoldsBitwise(Or, res, bits, w, i);
    }
  }

  lemma MakesAll(item: Item, res: nat, n: nat, w: nat)
    requires item.what.All?
    ensures Makes(item, res, if Takes(item) then 0 else Pow2(w) - 1, n, w)
  {
    var next := if Takes(item) then 0 else Pow2(w) - 1;
    forall i: nat | i < w ensures Holds(next, i) <==> After(item, i, Holds(res, i), n, w) {
      HoldsNothing(i);
      HoldsAll(w, i);
    }
  }

  lemma MakesNone(item: Item, res: nat, n: nat, w: nat)
    requires item.what.None?
    ensures Makes(item, res, if Takes(item) then res else 0, n, w)
  {
    var next := if Takes(item) then res else 0;
    forall i: nat | i < w ensures Holds(next, i) <==> After(item, i, Holds(res, i), n, w) {
      HoldsNothing(i);
    }
  }

  lemma WordSeparates(n: seq<Byte>)
    requires forall i :: 0 <= i < |n| ==> !Separates(n[i])
    ensures forall i :: 0 <= i < |n| ==> !IsSeparator(n[i])
    ensures 0 !in n
  {
  }

  /** A word is parsed to the bit of the name chosen for it, and refused if there is none. */
  lemma WordReads(s: seq<Byte>, p: nat, n: seq<Byte>, names: Names, e: nat, w: nat)
    requires IsWord(n) && At(s, p, n) && e == p + |n| < |s| && IsSeparator(s[e])
    ensures TokenEnd(s, p) == e && s[p..e] == n
    ensures forall k: nat :: Chosen(n, names, k) && k < w ==>
              Member(s, p, e, names, w) == Done(BitOf(k))
    ensures (forall k :: 0 <= k < |names| ==> !Chosen(n, names, k)) ==>
              Member(s, p, e, names, w) == Failed
  {
    hide StrToUl, LookUp, TokenEnd, Chosen, Pow2, Member;
    WordSeparates(n);
    TokenIs(s, p, n, e);
    AtIndex(s, p, n, 0);
    LookUpIs(n, names);
    WordMember(s, p, n, names, e, w);
  }

  lemma WordMember(s: seq<Byte>, p: nat, n: seq<Byte>, names: Names, e: nat, w: nat)
    requires IsWord(n) && 0 !in n && p < e < |s| && s[p..e] == n
    ensures Member(s, p, e, names, w) ==
            match LookUp(n, names, 0, |names|)
            case Some(k) => if k < w then Done(BitOf(k)) else Undefined
            case None => Failed
  {
    hide StrToUl, LookUp, CutAtNul, Pow2;
    assert s[p] == n[0];
    NoSignAt(n);
    NoNumber(s, p, w);
    NameItself(n);
    WordFound(n, names, w);
  }

  lemma NoSignAt(n: seq<Byte>)
    requires IsWord(n)
    ensures !IsDigit(n[0], 10) && n[0] != MINUS && n[0] != PLUS
  {
  }

  lemma WordFound(n: seq<Byte>, names: Names, w: nat)
    requires IsWord(n) && NameIn(n + [0]) == n
    ensures FindName(n + [0], names, w) == match LookUp(n, names, 0, |names|)
                                           case Some(ix) => Done(ix)
                                           case None => Failed
  {
    hide StrToUl, LookUp, NameIn;
    assert n[0] == TILDE ==> (n + [0])[2] == n[2];
    WordSeparates(n);
  }

  /** "~0" is the last name. */
  lemma LastReads(s: seq<Byte>, p: nat, names: Names, e: nat, w: nat)
    requires At(s, p, Bytes("~0")) && e == p + 2 < |s| && IsSeparator(s[e])
    requires 0 < |names| <= w
    ensures TokenEnd(s, p) == e && s[p..e] == Bytes("~0") && s[p] == '~' as int
    ensures Member(s, p, e, names, w) == Done(BitOf(|names| - 1))
  {
    var n := Bytes("~0");
    assert n == [TILDE, 48];
    TokenIs(s, p, n, e);
    AtIndex(s, p, n, 0);
    NoNumber(s, p, w);
    NameItself(n);
    assert (n + [0])[..2] == n;
  }

  /** A number is converted as a whole. */
  lemma MaskReads(s: seq<Byte>, b: nat, what: What, names: Names, e: nat, w: nat)
    requires what.Mask? && IsWhat(what, names)
    requires At(s, b, Word(what)) && e == b + |Word(what)| < |s| && IsSeparator(s[e])
    ensures StrToUl(s, b, w) == Converted(MaskOf(what, w), e - b)
    ensures TokenEnd(s, b) == e && s[b..e] == Word(what)
    ensures !what.minus ==> IsDigit(s[b], 10)
  {
    hide Run, Number, TokenEnd, StrToUl, DigitValue, At, Pow2;
    WordCharacters(what, names);
    TokenIs(s, b, Word(what), e);
    var d := b + if what.minus then 1 else 0;
    var p := d + if what.radix == 16 then 2 else 0;
    PrefixAt(s, b, d, what, names, p);
    DigitsAt(s, p, what, e);
    Converts(s, b, d, p, |what.digits|, what.radix, w);
    if what.radix != 16 { DecimalDigit(s[p], what.radix); }
  }

  lemma DecimalDigit(c: Byte, radix: nat)
    requires IsDigit(c, radix) && radix <= 10
    ensures IsDigit(c, 10)
  {
  }

  lemma PrefixAt(s: seq<Byte>, b: nat, d: nat, what: What, names: Names, p: nat)
    requires what.Mask? && IsWhat(what, names) && At(s, b, Word(what))
    requires d == b + (if what.minus then 1 else 0) && p == d + if what.radix == 16 then 2 else 0
    ensures At(s, p, what.digits)
    ensures what.minus ==> s[b] == '-' as int
    ensures what.radix == 16 ==> s[d] == 48 && s[d + 1] == what.x && IsDigit(s[d], 10)
  {
    hide At, IsDigit;
    var body := (if what.radix == 16 then ['0' as int, what.x] else []) + what.digits;
    ZeroIsDigit();
    if what.minus {
      AtConcat(s, b, ['-' as int], body, d);
      AtIndex(s, b, ['-' as int], 0);
    } else {
      assert Word(what) == body;
    }
    if what.radix == 16 {
      AtConcat(s, d, ['0' as int, what.x], what.digits, p);
      AtIndex(s, d, ['0' as int, what.x], 0);
      AtIndex(s, d, ['0' as int, what.x], 1);
    } else {
      assert body == what.digits;
    }
  }

  lemma ZeroIsDigit()
    ensures IsDigit(48, 10)
  {
  }

  lemma DigitsAt(s: seq<Byte>, p: nat, what: What, e: nat)
    requires what.Mask? && IsWhat(what, [])
    requires At(s, p, what.digits) && e == p + |what.digits| < |s| && IsSeparator(s[e])
    ensures var n := |what.digits|;
            && Run(s, p, |s|, what.radix) == n
            && Number(s, p, n, what.radix) == Number(what.digits, 0, n, what.radix)
    ensures s[p] == what.digits[0] && IsDigit(s[p], what.radix) && s[p] != MINUS && s[p] != PLUS
    ensures s[p + 1] != 88 && s[p + 1] != 120
  {
    hide Run, Number;
    forall i | p <= i < e ensures IsDigit(s[i], what.radix) && s[i] == what.digits[i - p] {
      AtIndex(s, p, what.digits, i - p);
    }
    SeparatorIsNoDigit(s[e], what.radix);
    RunIs(s, p, |what.digits|, |s|, what.radix);
    NumberAt(s, p, what.digits, |what.digits|, what.radix);
    DigitIsPlain(s[p]);
    if p + 1 < e { DigitIsPlain(s[p + 1]); }
  }

  lemma SeparatorIsNoDigit(c: Byte, radix: nat)
    requires IsSeparator(c) && radix <= 16
    ensures !IsDigit(c, radix) && c != 88 && c != 120
  {
  }

  lemma DigitIsPlain(c: Byte)
    requires IsDigit(c, 16)
    ensures !IsSeparator(c) && c != MINUS && c != PLUS && c != 88 && c != 120
  {
  }

  lemma WordCharacters(what: What, names: Names)
    requires what.Mask? && IsWhat(what, names)
    ensures forall i :: 0 <= i < |Word(what)| ==> !IsSeparator(Word(what)[i])
  {
    forall i | 0 <= i < |what.digits| ensures !IsSeparator(what.digits[i]) {
      assert IsDigit(what.digits[i], what.radix);
    }
  }

  /** strtoul on n digits at p, behind a minus sign or none at b and the prefix of the radix. */
  lemma Converts(s: seq<Byte>, b: nat, d: nat, p: nat, n: nat, radix: nat, w: nat)
    requires p == (if radix == 16 then d + 2 else d) < |s| && n == Run(s, p, |s|, radix) > 0
    requires d == b || (d == b + 1 && s[b] == MINUS)
    requires s[d] != MINUS && s[d] != PLUS && IsDigit(s[p], radix)
    requires radix == 8 || radix == 10 || radix == 16
    requires radix == 10 ==> s[d] != 48
    requires radix == 8 ==> s[d] == 48 && (d + 1 < |s| ==> s[d + 1] != 88 && s[d + 1] != 120)
    requires radix == 16 ==> s[d] == 48 && (s[d + 1] == 88 || s[d + 1] == 120)
    ensures var v := Number(s, p, n, radix);
            StrToUl(s, b, w)
            == Converted(if Pow2(w) <= v then Pow2(w) - 1
                         else if d != b && v != 0 then Pow2(w) - v else v, p + n - b)
  {
    hide Run, Number, DigitValue, Pow2;
  }

  /** The parser takes a member for what it stands for. */
  lemma TokenOfItem(s: seq<Byte>, b: nat, e: nat, item: Item, res: nat, names: Names, w: nat)
      returns (next: nat)
    requires |names| <= w && IsItem(item, names)
    requires At(s, b, Word(item.what)) && e == b + |Word(item.what)| < |s| && IsSeparator(s[e])
    ensures b < e && !IsSeparator(s[b]) && TokenEnd(s, b) == e && s[b] == Word(item.what)[0]
    ensures item.sign == [] ==> s[b] != MINUS && s[b] != BANG
    ensures Token(s, b, e, Takes(item), res, names, w) == Done(next)
    ensures Makes(item, res, next, |names|, w)
  {
    hide StrToUl, Holds, Without, Union, Pow2, TokenEnd, Makes, MaskOf, Number, Chosen, IsDigit;
    var word, n := Word(item.what), |names|;
    Characters(0);
    match item.what {
      case One(_, k) =>
        ChosenIsName(word, names, k);
        WordReads(s, b, word, names, e, w);
        AtIndex(s, b, word, 0);
        next := if Takes(item) then Without(res, BitOf(k), w) else Union(res, BitOf(k), w);
        MakesBits(item, res, BitOf(k), n, w);
        Characters(s[b]);
      case Last =>
        LastReads(s, b, names, e, w);
        next := if Takes(item) then Without(res, BitOf(n - 1), w) else Union(res, BitOf(n - 1), w);
        MakesBits(item, res, BitOf(n - 1), n, w);
        NotWords(word);
      case All =>
        TokenIs(s, b, ALL, e);
        AtIndex(s, b, ALL, 0);
        next := if Takes(item) then 0 else Pow2(w) - 1;
        MakesAll(item, res, n, w);
      case None =>
        TokenIs(s, b, NONE, e);
        AtIndex(s, b, NONE, 0);
        next := if Takes(item) then res else 0;
        MakesNone(item, res, n, w);
      case Mask(minus, radix, digits, x) =>
        MaskReads(s, b, item.what, names, e, w);
        AtIndex(s, b, word, 0);
        NumberIsNoWord(s[b], minus);
        NotWords(word);
        var bits := MaskOf(item.what, w);
        next := if Takes(item) then Without(res, bits, w) else Union(res, bits, w);
        MakesBits(item, res, bits, n, w);
    }
  }

  lemma ChosenIsName(word: seq<Byte>, names: Names, k: nat)
    requires Chosen(word, names, k)
    ensures k < |names|
  {
  }

  lemma NumberIsNoWord(c: Byte, minus: bool)
    requires if minus then c == MINUS else IsDigit(c, 10)
    ensures !IsSeparator(c) && c != 97 && c != 110 && (!minus ==> c != MINUS && c != BANG)
  {
  }

  lemma NotWords(word: seq<Byte>)
    requires word != [] && word[0] != 97 && word[0] != 110
    ensures word != ALL && word != NONE
  {
  }

  lemma {:induction false} SkipsBlanks(s: seq<Byte>, p: nat, g: seq<Byte>, e: nat)
    requires At(s, p, g) && AreBlank(g) && e == p + |g| < |s| && !IsBlank(s[e])
    ensures SkipWhite(s, p) == e
    decreases |g|
  {
    Characters(s[e]);
    if g != [] {
      Characters(g[0]);
      AtIndex(s, p, g, 0);
      assert g == [g[0]] + g[1..];
      AtConcat(s, p, [g[0]], g[1..], p + 1);
      SkipsBlanks(s, p + 1, g[1..], e);
    }
  }

  // ------------------------------------------------------------------------ one item

  /** Where the parts of an item stand: its word at b, what is behind the word at e, a comma or
      what is behind the item at q, and the rest at r. */
  ghost predicate ItemAt(s: seq<Byte>, p: nat, item: Item, b: nat, e: nat, q: nat, r: nat) {
    && b == p + |item.sign| + |item.blanks| && e == b + |Word(item.what)|
    && q == e + |item.gap| && r == q + |item.comma| + |item.more|
    && At(s, p, item.sign) && At(s, p + |item.sign|, item.blanks)
    && At(s, b, Word(item.what)) && At(s, e, item.gap) && At(s, q, item.comma)
    && At(s, q + |item.comma|, item.more)
  }

  lemma SplitItem(s: seq<Byte>, p: nat, item: Item, rest: seq<Byte>,
                  b: nat, e: nat, q: nat, r: nat)
    requires At(s, p, ItemText(item, rest))
    requires b == p + |item.sign| + |item.blanks| && e == b + |Word(item.what)|
    requires q == e + |item.gap| && r == q + |item.comma| + |item.more|
    ensures ItemAt(s, p, item, b, e, q, r) && At(s, r, rest)
    ensures p + |ItemText(item, rest)| == r + |rest|
  {
    hide At;
    var behindGap := item.comma + (item.more + rest);
    var behindWord := item.gap + behindGap;
    var behindBlanks := Word(item.what) + behindWord;
    AtConcat(s, p, item.sign, item.blanks + behindBlanks, p + |item.sign|);
    AtConcat(s, p + |item.sign|, item.blanks, behindBlanks, b);
    AtConcat(s, b, Word(item.what), behindWord, e);
    AtConcat(s, e, item.gap, behindGap, q);
    AtConcat(s, q, item.comma, item.more + rest, q + |item.comma|);
    AtConcat(s, q + |item.comma|, item.more, rest, r);
  }

  /** The turn of the loop for the member of an item, and that for its comma. */
  lemma StepItem(s: seq<Byte>, p: nat, item: Item, res: nat, names: Names,
                 b: nat, e: nat, q: nat, r: nat, w: nat) returns (next: nat)
    requires |names| <= w && IsItem(item, names) && ItemAt(s, p, item, b, e, q, r)
    requires r < |s| && MayFollow(item, s[r])
    ensures p < |s| && Step(s, p, res, names, w) == Next(q, next)
    ensures Makes(item, res, next, |names|, w)
    ensures item.comma == [] ==> q == r
    ensures item.comma != [] ==> Step(s, q, next, names, w) == Next(r, next)
  {
    hide Token, Makes, TokenEnd, Word, SkipWhite;
    Characters(s[r]);
    if item.comma != [] {
      AtIndex(s, q, item.comma, 0);
      SkipsBlanks(s, q + 1, item.more, r);
    }
    if item.gap != [] {
      AtIndex(s, e, item.gap, 0);
      Characters(s[e]);
    }
    SkipsBlanks(s, e, item.gap, q);
    next := TokenOfItem(s, b, e, item, res, names, w);
    Characters(s[b]);
    if item.sign != [] {
      AtIndex(s, p, item.sign, 0);
      SkipsBlanks(s, p + 1, item.blanks, b);
    }
    assert StepMember(s, b, Takes(item), res, names, w) == Next(q, next);
  }

  // -------------------------------------------------------------------------- all items

  /** The mask r is what the items make of res. */
  ghost predicate MakeAll(items: seq<Item>, res: nat, r: nat, n: nat, w: nat) {
    forall i: nat :: i < w ==> (Holds(r, i) <==> AfterAll(items, i, Holds(res, i), n, w))
  }

  lemma TextBegins(s: seq<Byte>, p: nat, items: seq<Item>, names: Names, end: nat)
    requires At(s, p, ItemsText(items)) && end == p + |ItemsText(items)| < |s|
    requires AreItems(items, names, s[end])
    ensures p < |s| && s[p] == FirstOf(items, s[end])
  {
    if items != [] {
      hide ItemText, At, Word;
      var item, rest := items[0], ItemsText(items[1..]);
      var b := p + |item.sign| + |item.blanks|;
      var e := b + |Word(item.what)|;
      var q := e + |item.gap|;
      SplitItem(s, p, item, rest, b, e, q, q + |item.comma| + |item.more|);
      if item.sign == [] {
        AtIndex(s, b, Word(item.what), 0);
      } else {
        AtIndex(s, p, item.sign, 0);
      }
    }
  }

  /** The loop goes on behind the items with what they make of the mask. */
  lemma {:induction false} MembersOfItems(s: seq<Byte>, p: nat, items: seq<Item>, res: nat,
                                          names: Names, end: nat, w: nat) returns (r: nat)
    requires |names| <= w && At(s, p, ItemsText(items)) && end == p + |ItemsText(items)| < |s|
    requires AreItems(items, names, s[end])
    ensures Members(s, p, res, names, w) == Members(s, end, r, names, w)
    ensures MakeAll(items, res, r, |names|, w)
    decreases |items|
  {
    hide Members, Step, Makes, At, Word, ItemText, ItemAt, After, IsItem;
    if items == [] {
      r := res;
    } else {
      var item, rest := items[0], ItemsText(items[1..]);
      var b := p + |item.sign| + |item.blanks|;
      var e := b + |Word(item.what)|;
      var q := e + |item.gap|;
      var p' := q + |item.comma| + |item.more|;
      SplitItem(s, p, item, rest, b, e, q, p');
      TextBegins(s, p', items[1..], names, end);
      var next := StepItem(s, p, item, res, names, b, e, q, p', w);
      MembersNext(s, p, res, q, next, names, w);
      if item.comma != [] { MembersNext(s, q, next, p', next, names, w); }
      r := MembersOfItems(s, p', items[1..], next, names, end, w);
      MakesThenAll(items, res, next, r, |names|, w);
    }
  }

  lemma MakesThenAll(items: seq<Item>, res: nat, next: nat, r: nat, n: nat, w: nat)
    requires items != [] && Makes(items[0], res, next, n, w) && MakeAll(items[1..], next, r, n, w)
    ensures MakeAll(items, res, r, n, w)
  {
    hide Holds, After;
    forall i: nat | i < w ensures Holds(r, i) <==> AfterAll(items, i, Holds(res, i), n, w) {
      assert Holds(next, i) <==> After(items[0], i, Holds(res, i), n, w);
    }
  }
}
