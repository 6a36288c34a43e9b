// The set membership functions of enum.c, on an option descriptor whose text and mask they
// replace. The memory of a string is an array that may go on behind its NUL.
module SetMembers {
  import opened CTypes
  import opened CText
  import opened Machine
  import opened SetSpec
  import opened SetNames
  import opened SetReadable

  /** The NUL that ends the string. */
  ghost predicate EndsAt(s: seq<Byte>, end: nat) {
    end < |s| && s[end] == 0 && forall i :: 0 <= i < end ==> s[i] != 0
  }

  lemma {:induction false} SkipWhiteStays(s: seq<Byte>, p: nat, end: nat)
    requires p <= end < |s| && s[end] == 0
    ensures SkipWhite(s, p) <= end
    decreases end - p
  {
    if p < end && IsWhite(s[p]) { SkipWhiteStays(s, p + 1, end); }
  }

  lemma {:induction false} TokenEndStays(s: seq<Byte>, p: nat, end: nat)
    requires p <= end < |s| && s[end] == 0
    ensures TokenEnd(s, p) <= end
    decreases end - p
  {
    if p < end && !IsSeparator(s[p]) { TokenEndStays(s, p + 1, end); }
  }

  // ---------------------------------------------------------------------- find_name

  /** The name is looked up in the list of names: it is no number, and no two characters that
      mean inversion. */
  predicate LooksUp(memory: seq<Byte>) {
    var name := NameIn(memory);
    name == [] || (!IsDigit(name[0], 10)
                   && (IsInversion(name[0]) ==> |memory| > 2 && memory[2] != 0))
  }

  /** find_name: the first full match or the only partial one; the number itself if there are
      as many names; the last name for "~0" and "-1". */
  method FindNameIn(memory: seq<Byte>, names: Names, w: nat) returns (r: Outcome)
    ensures r == FindName(memory, names, w)
    ensures LooksUp(memory) ==>
              if r.Done? then Chosen(NameIn(memory), names, r.value)
              else r.Failed? && forall k :: 0 <= k < |names| ==> !Chosen(NameIn(memory), names, k)
    ensures r.Undefined? <==> |memory| <= 2 && NameIn(memory) != [] && IsInversion(memory[0])
    ensures r.Done? ==> r.value < |names|
  {
    var name := NameIn(memory);
    if name != [] && IsDigit(name[0], 10) {
      var c := StrToUl(memory, 0, w);
      return if c.count == |name| && c.value < |names| then Done(c.value) else Failed;
    }
    if name != [] && IsInversion(name[0]) {
      if |memory| <= 2 { return Undefined; }
      if memory[2] == 0 {
        if memory[..2] == [TILDE, 48] || memory[..2] == [MINUS, 49] {
          return if names == [] then Failed else Done(|names| - 1);
        }
        return Failed;
      }
    }
    var res: nat := |names|;
    var idx: nat := 0;
    while idx < |names|
      invariant Remembered(name, names, idx, res)
      invariant LookUp(name, names, idx, res) == LookUp(name, names, 0, |names|)
    {
      ghost var before: nat := res;
      if name <= names[idx] {
        if names[idx] == name { return Done(idx); }
        res := if res == |names| then idx else |names| + 1;
      }
      RememberNext(name, names, idx, before, res);
      idx := idx + 1;
    }
    LookUpChooses(name, names, idx, res);
    return if res < |names| then Done(res) else Failed;
  }

  // ---------------------------------------------------------------------- printing

  /** The room that set_memb_names counts, without the one for the NUL. */
  function Room(bits: nat, names: Names, ix: nat): nat
    requires ix <= |names| && bits < Pow2(|names| - ix)
    decreases bits, |names| - ix
  {
    if bits == 0 then 0
    else (if bits % 2 == 1 then |names[ix]| + |PLUS_STR| + 1 else 0) + Room(bits / 2, names, ix + 1)
  }

  /** The count leaves four characters too many. */
  lemma {:induction false} RoomSuffices(bits: nat, names: Names, ix: nat)
    requires ix <= |names| && bits < Pow2(|names| - ix)
    ensures |Printed(bits, names, ix)| + (if bits == 0 then 0 else 4) <= Room(bits, names, ix)
    decreases bits
  {
    if bits != 0 { RoomSuffices(bits / 2, names, ix + 1); }
  }

  /** The names of the bits are still to be written from position p of the text on. */
  ghost predicate Rest(text: seq<Byte>, p: nat, bits: nat, names: Names, ix: nat) {
    && ix <= |names| && bits < Pow2(|names| - ix)
    && p <= |text| && text[p..] == Printed(bits, names, ix)
  }

  lemma RestNext(text: seq<Byte>, p: nat, bits: nat, names: Names, ix: nat)
    requires Rest(text, p, bits, names, ix) && bits != 0
    ensures ix < |names|
    ensures bits % 2 == 0 ==> bits / 2 != 0 && Rest(text, p, bits / 2, names, ix + 1)
    ensures bits % 2 == 1 && bits / 2 == 0 ==>
              p + |names[ix]| == |text| && text[p..p + |names[ix]|] == names[ix]
    ensures bits % 2 == 1 && bits / 2 != 0 ==>
              && p + |names[ix]| + |PLUS_STR| <= |text| && text[p..p + |names[ix]|] == names[ix]
              && text[p + |names[ix]|..p + |names[ix]| + |PLUS_STR|] == PLUS_STR
              && Rest(text, p + |names[ix]| + |PLUS_STR|, bits / 2, names, ix + 1)
  {
    if bits % 2 == 1 && bits / 2 != 0 {
      var rest := Printed(bits / 2, names, ix + 1);
      assert text[p..] == names[ix] + (PLUS_STR + rest);
      RestSplit(text, p, names[ix], PLUS_STR + rest, p + |names[ix]|);
      RestSplit(text, p + |names[ix]|, PLUS_STR, rest, p + |names[ix]| + |PLUS_STR|);
    } else if bits % 2 == 1 {
      assert text[p..] == names[ix];
    }
  }

  lemma RestSplit(text: seq<Byte>, p: nat, a: seq<Byte>, b: seq<Byte>, p': nat)
    requires p <= |text| && text[p..] == a + b && p' == p + |a|
    ensures p' <= |text| && text[p..p'] == a && text[p'..] == b
  {
    assert |text[p..]| == |a| + |b|;
    assert text[p..p'] == text[p..][..|a|];
    assert text[p'..] == text[p..][|a|..];
  }

  /** memcpy into the buffer at position p. */
  method Copy(buf: array<Byte>, p: nat, src: seq<Byte>)
    requires p + |src| <= buf.Length
    modifies buf
    ensures buf[..] == old(buf[..])[..p] + src + old(buf[..])[p + |src|..]
  {
    forall i | 0 <= i < |src| { buf[p + i] := src[i]; }
  }

  /** Copying the next part of a text behind the part that is already there. */
  method CopyNext(buf: array<Byte>, p: nat, src: seq<Byte>, ghost text: seq<Byte>, ghost p': nat)
    requires p' == p + |src| <= |text| <= buf.Length
    requires text[p..p'] == src && buf[..p] == text[..p]
    modifies buf
    ensures buf[..p'] == text[..p']
  {
    Copy(buf, p, src);
    assert buf[..p'] == buf[..][..p'];
    assert text[..p'] == text[..p] + src;
    assert buf[..][..p'] == old(buf[..])[..p] + src;
    assert old(buf[..])[..p] == old(buf[..p]);
  }

  // ------------------------------------------------------------------- the option

  class OptDesc {
    var argString: array<Byte>
    var optCookie: nat

    constructor (argString: array<Byte>, optCookie: nat)
      ensures this.argString == argString && this.optCookie == optCookie
    {
      this.argString := argString;
      this.optCookie := optCookie;
    }

    /** set_memb_names: the option gets the text for its mask, in a buffer that it fits. */
    method SetMembNames(names: Names, w: nat)
      requires |names| < w
      modifies this
      ensures optCookie == old(optCookie) && fresh(argString)
      ensures var mask := optCookie % Pow2(|names|);
              && |Printed(mask, names, 0)| < argString.Length
              && Printed(mask, names, 0) + [0] <= argString[..]
    {
      LowBits(optCookie, |names|, w);
      var mask := Bitwise(And, optCookie, Pow2(|names|) - 1, w);
      var len := CountRoom(mask, names);
      var buf := new Byte[len](_ => 0);
      RoomSuffices(mask, names, 0);
      argString := buf;
      if mask == 0 {
        buf[0] := 0;
        return;
      }
      var end := FillNames(buf, mask, names);
      buf[end] := 0;
    }

    /** check_membership_start: arg is None for an invalid start. */
    method CheckMembershipStart() returns (res: nat, invert: bool, arg: Option<nat>)
      requires 0 in argString[..]
      ensures StartAt(argString[..], optCookie)
           == if arg.Some? then Start(res, invert, arg.value) else BadStart
    {
      var s := argString[..];
      res, invert, arg := optCookie, false, None;
      var p := SkipWhite(s, 0);
      if p == |s| || s[p] == 0 || s[p] == COMMA { return; }
      if s[p] == EQUALS {
        res := 0;
        p := SkipWhite(s, p + 1);
        if p < |s| && (s[p] == EQUALS || s[p] == COMMA) { return; }
      }
      if p < |s| && s[p] == CARET {
        invert := true;
        p := SkipWhite(s, p + 1);
        if p < |s| && s[p] == COMMA { return; }
      }
      arg := Some(p);
    }

    /** optionSetMembers, on a text that ends at end: every turn of the loop stops there at the
        latest. The result says whether the source defines what happens: it does unless the
        first member that is not accepted is unreadable. */
    method OptionSetMembers(names: Names, w: nat, ghost end: nat) returns (defined: bool)
      requires EndsAt(argString[..], end)
      modifies this`optCookie
      ensures defined == Parsed(argString[..], old(optCookie), names, w).Done?
      ensures defined ==> Parsed(argString[..], old(optCookie), names, w) == Done(optCookie)
      ensures |names| <= w ==> (defined <==> !IsUnreadableText(argString[..], names, w))
      ensures |names| <= w && AllReadable(argString[..], w) ==> defined
    {
      hide Members, IsUnreadableText, AllReadable, Bitwise, Pow2;
      var s := argString[..];
      if |names| <= w {
        ParsedUndefined(s, optCookie, names, w);
        if AllReadable(s, w) { ReadableIsDefined(s, optCookie, names, w); }
      }
      var res, invert, arg := CheckMembershipStart();
      if arg.None? { optCookie := 0; return true; }
      StartStays(s, optCookie, end);
      var outcome := ParseMembers(s, arg.value, res, names, w, end);
      match outcome {
        case Failed => optCookie := 0;
        case Undefined => return false;
        case Done(r) =>
          if invert { r := Bitwise(Xor, r, Pow2(w) - 1, w); }
          if |names| < w { r := Bitwise(And, r, Pow2(|names|) - 1, w); }
          optCookie := r;
      }
      return true;
    }
  }

  lemma StartStays(s: seq<Byte>, cookie: nat, end: nat)
    requires EndsAt(s, end)
    ensures var r := StartAt(s, cookie); r.Start? ==> r.p <= end
  {
    SkipWhiteStays(s, 0, end);
    var p := SkipWhite(s, 0);
    if p < end {
      SkipWhiteStays(s, p + 1, end);
      var q := SkipWhite(s, p + 1);
      if q < end { SkipWhiteStays(s, q + 1, end); }
    }
  }

  /** The loop of optionSetMembers. */
  method ParseMembers(s: seq<Byte>, start: nat, mask: nat, names: Names, w: nat, ghost end: nat)
      returns (outcome: Outcome)
    requires EndsAt(s, end) && start <= end
    ensures outcome == Members(s, start, mask, names, w)
  {
    hide Token, SkipWhite, TokenEnd;
    var arg: nat, res: nat := start, mask;
    while s[arg] != 0
      invariant arg <= end && Members(s, arg, res, names, w) == Members(s, start, mask, names, w)
      decreases end - arg
    {
      SkipWhiteStays(s, arg + 1, end);
      var invVal := false;
      if s[arg] == COMMA {
        arg := SkipWhite(s, arg + 1);
        if s[arg] == COMMA || s[arg] == BAR { return Failed; }
      } else {
        invVal := s[arg] == MINUS || s[arg] == BANG;
        if invVal || s[arg] == PLUS || s[arg] == BAR { arg := SkipWhite(s, arg + 1); }
        TokenEndStays(s, arg, end);
        var e := TokenEnd(s, arg);
        if e == arg { break; }
        var next := AddToken(s, arg, e, invVal, res, names, w);
        if !next.Done? { return next; }
        res := next.value;
        SkipWhiteStays(s, e, end);
        arg := SkipWhite(s, e);
      }
    }
    return Done(res);
  }

  /** The body of that loop for one member. */
  method AddToken(s: seq<Byte>, p: nat, q: nat, invVal: bool, mask: nat, names: Names, w: nat)
      returns (outcome: Outcome)
    requires p < q <= |s|
    ensures outcome == Token(s, p, q, invVal, mask, names, w)
  {
    hide StrToUl, MemberBit, Bitwise, Complement, Pow2;
    var res := mask;
    if s[p..q] == ALL {
      res := if invVal then 0 else Pow2(w) - 1;
    } else if s[p..q] == NONE {
      if !invVal { res := 0; }
    } else {
      var c := StrToUl(s, p, w);
      var bit := c.value;
      if c.count != q - p {
        var found := FindMemberBit(s, p + c.count, q - p, names, w);
        if !found.Done? { return found; }
        bit := found.value;
      }
      res := if invVal then Bitwise(And, res, Complement(bit, w), w) else Bitwise(Or, res, bit, w);
    }
    return Done(res);
  }

  /** find_member_bit: the copy goes into a buffer of AO_NAME_SIZE bytes. The bit is that of
      the name chosen, and there is no result exactly when the copy would leave the buffer or
      the text, when a lone character means inversion, or when the bit would be too high. */
  method FindMemberBit(s: seq<Byte>, p: nat, len: nat, names: Names, w: nat)
      returns (m: Outcome)
    requires p <= |s|
    ensures m == MemberBit(s, p, len, names, w)
    ensures |names| <= w ==>
              (m.Undefined? <==> len > 127 || p + len > |s|
                                 || (len == 1 && IsInversion(s[p])))
    ensures m.Done? ==> exists k :: IsBitOf(m.value, k, w, names)
    ensures !m.Undefined? && LooksUp(s[p..p + len] + [0]) ==>
              var name := NameIn(s[p..p + len] + [0]);
              if m.Done? then exists k :: IsBitOf(m.value, k, w, names) && Chosen(name, names, k)
              else forall k :: 0 <= k < |names| ==> !Chosen(name, names, k)
  {
    hide FindName, NameIn, LooksUp, Chosen, Pow2;
    if len > NAME_LIMIT || p + len > |s| { return Undefined; }
    var nameBuf := new Byte[NAME_LIMIT + 1];
    Copy(nameBuf, 0, s[p..p + len]);
    nameBuf[len] := 0;
    assert nameBuf[..len + 1] == s[p..p + len] + [0];
    LoneName(s, p, len);
    var found := FindNameIn(nameBuf[..len + 1], names, w);
    if !found.Done? { return found; }
    if found.value >= w { return Undefined; }
    assert IsBitOf(Pow2(found.value), found.value, w, names);
    return Done(Pow2(found.value));
  }

  /** 1UL << k for a name k. */
  ghost predicate IsBitOf(bit: nat, k: nat, w: nat, names: Names) {
    k < |names| && k < w && bit == Pow2(k)
  }

  lemma LoneName(s: seq<Byte>, p: nat, len: nat)
    requires p + len <= |s|
    ensures var memory := s[p..p + len] + [0];
            |memory| <= 2 && NameIn(memory) != [] && IsInversion(memory[0])
            <==> len == 1 && IsInversion(s[p])
  {
  }

  method CountRoom(mask: nat, names: Names) returns (len: nat)
    requires mask < Pow2(|names|)
    ensures len == 1 + Room(mask, names, 0)
  {
    var bits: nat, ix: nat := mask, 0;
    len := 1;
    while bits != 0
      invariant ix <= |names| && bits < Pow2(|names| - ix)
      invariant len + Room(bits, names, ix) == 1 + Room(mask, names, 0)
      decreases bits
    {
      if bits % 2 == 1 { len := len + |names[ix]| + |PLUS_STR| + 1; }
      ix := ix + 1;
      if ix >= |names| { break; }
      bits := bits / 2;
    }
  }

  method FillNames(buf: array<Byte>, mask: nat, names: Names) returns (end: nat)
    requires 0 < mask < Pow2(|names|) && |Printed(mask, names, 0)| < buf.Length
    modifies buf
    ensures end == |Printed(mask, names, 0)| && buf[..end] == Printed(mask, names, 0)
  {
    hide Printed, Pow2;
    ghost var text := Printed(mask, names, 0);
    var bits: nat, ix: nat, p: nat := mask, 0, 0;
    while true
      invariant bits != 0 && Rest(text, p, bits, names, ix) && buf[..p] == text[..p]
      decreases bits
    {
      RestNext(text, p, bits, names, ix);
      var doit := bits % 2;
      bits := bits / 2;
      if doit == 1 {
        var nln := |names[ix]|;
        CopyNext(buf, p, names[ix], text, p + nln);
        p := p + nln;
        if bits == 0 { break; }
        CopyNext(buf, p, PLUS_STR, text, p + |PLUS_STR|);
        p := p + |PLUS_STR|;
      }
      ix := ix + 1;
    }
    return p;
  }
}
