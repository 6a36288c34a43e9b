// When the source defines what a text of members means: the one way in which it does not is a
// member that is not accepted and that cannot be copied or looked up within its memory.
module SetReadable {
  import opened CTypes
  import opened CText
  import opened SetSpec
  import opened SetRoundTrip

  // ------------------------------------------------------------------ one member

  predicate IsNumber(s: seq<Byte>, b: nat, e: nat, w: nat)
    requires b < e <= |s|
  {
    StrToUl(s, b, w).count == e - b
  }

  /** The member s[b..e] is no number, and it is longer than a name may be, or copying as many
      characters from behind its leading number leaves the text, or it is one character that
      means inversion. */
  predicate IsUnreadable(s: seq<Byte>, b: nat, e: nat, w: nat)
    requires b < e <= |s|
  {
    && !IsNumber(s, b, e, w)
    && (|| e - b > NAME_LIMIT
        || b + StrToUl(s, b, w).count + (e - b) > |s|
        || (e == b + 1 && IsInversion(s[b])))
  }

  /** The source defines what a member means unless it is unreadable. */
  lemma MemberUndefined(s: seq<Byte>, b: nat, e: nat, names: Names, w: nat)
    requires b < e <= |s| && (e < |s| ==> IsSeparator(s[e])) && |names| <= w
    ensures Member(s, b, e, names, w) == Undefined <==> IsUnreadable(s, b, e, w)
  {
    hide StrToUl, FindName;
    var count := StrToUl(s, b, w).count;
    var p, len := b + count, e - b;
    if count != len && len <= NAME_LIMIT && p + len <= |s| {
      NameUndefined(s[p..p + len], names, w);
      if len == 1 { OneCharacter(s, b, w); }
    }
  }

  lemma OneCharacter(s: seq<Byte>, b: nat, w: nat)
    requires b < |s| && (b + 1 < |s| ==> IsSeparator(s[b + 1]))
    ensures StrToUl(s, b, w).count <= 1
    ensures IsInversion(s[b]) ==> StrToUl(s, b, w).count == 0
  {
    assert Run(s, b + 1, |s| - 1, 8) == 0 && Run(s, b + 1, |s| - 1, 10) == 0;
    assert Run(s, b, |s|, 8) <= 1 && Run(s, b, |s|, 10) <= 1;
  }

  lemma NameUndefined(n: seq<Byte>, names: Names, w: nat)
    requires n != []
    ensures FindName(n + [0], names, w) == Undefined <==> |n| == 1 && IsInversion(n[0])
    ensures FindName(n + [0], names, w).Done? ==> FindName(n + [0], names, w).value < |names|
  {
    hide StrToUl;
    var m := n + [0];
    assert m[0] == n[0];
    assert CutAtNul(m, 0, |m|) == 0 <==> m[0] == 0;
  }

  lemma LoneCount(s: seq<Byte>, b: nat, w: nat)
    requires b < |s|
    ensures IsInversion(s[b]) ==> StrToUl(s, b, w).count != 1
    ensures !IsDigit(s[b], 10) && s[b] != PLUS && s[b] != MINUS ==> StrToUl(s, b, w).count == 0
  {
  }

  /** A member that is a number, or that is short enough, starts with neither a digit nor a
      sign, and is no lone tilde, is readable. */
  lemma PlainIsReadable(s: seq<Byte>, b: nat, e: nat, w: nat)
    requires b < e <= |s|
    requires || IsNumber(s, b, e, w)
             || (&& e - b <= 127 && !IsDigit(s[b], 10) && s[b] != PLUS && s[b] != MINUS
                 && (e == b + 1 ==> s[b] != TILDE))
    ensures !IsUnreadable(s, b, e, w)
  {
    LoneCount(s, b, w);
  }

  // ------------------------------------------------------------------- all members

  datatype Refused = Nothing | Refused(b: nat, e: nat)

  /** The first member from p on that is not accepted, before the text ends or breaks off. */
  function FirstRefused(s: seq<Byte>, p: nat, names: Names, w: nat): (r: Refused)
    requires p <= |s|
    ensures r.Refused? ==> r.b < r.e <= |s|
    decreases |s| - p
  {
    if p == |s| || s[p] == 0 then Nothing
    else if s[p] == COMMA then
      var q := SkipWhite(s, p + 1);
      if q < |s| && (s[q] == COMMA || s[q] == BAR) then Nothing else FirstRefused(s, q, names, w)
    else
      var b := MemberStart(s, p);
      var e := TokenEnd(s, b);
      if e == b then Nothing
      else if IsAccepted(s, b, e, names, w) then FirstRefused(s, SkipWhite(s, e), names, w)
      else Refused(b, e)
  }

  /** Behind the sign at p, if there is one. */
  function MemberStart(s: seq<Byte>, p: nat): (b: nat)
    requires p < |s|
    ensures p <= b <= |s|
  {
    if s[p] == MINUS || s[p] == BANG || s[p] == PLUS || s[p] == BAR then SkipWhite(s, p + 1) else p
  }

  predicate IsAccepted(s: seq<Byte>, b: nat, e: nat, names: Names, w: nat)
    requires b < e <= |s|
  {
    s[b..e] == ALL || s[b..e] == NONE || Member(s, b, e, names, w).Done?
  }

  lemma {:induction false} MembersUndefined(s: seq<Byte>, p: nat, res: nat, names: Names, w: nat)
    requires p <= |s| && |names| <= w
    ensures var r := FirstRefused(s, p, names, w);
            Members(s, p, res, names, w) == Undefined
            <==> r.Refused? && IsUnreadable(s, r.b, r.e, w)
    decreases |s| - p
  {
    hide StrToUl, Member, IsUnreadable, TokenEnd, SkipWhite, IsWhite;
    if p < |s| && s[p] != 0 && s[p] != COMMA {
      var b := MemberStart(s, p);
      var e := TokenEnd(s, b);
      if e != b {
        TokenEndsAt(s, b);
        MemberUndefined(s, b, e, names, w);
        var inv := s[p] == MINUS || s[p] == BANG;
        TokenOutcome(s, b, e, inv, res, names, w);
        match Token(s, b, e, inv, res, names, w)
        case Done(next) => MembersUndefined(s, SkipWhite(s, e), next, names, w);
        case _ =>
      }
    } else if p < |s| && s[p] == COMMA {
      MembersUndefined(s, SkipWhite(s, p + 1), res, names, w);
    }
  }

  lemma TokenOutcome(s: seq<Byte>, b: nat, e: nat, inv: bool, res: nat, names: Names, w: nat)
    requires b < e <= |s|
    ensures var t := Token(s, b, e, inv, res, names, w);
            && (t.Done? <==> IsAccepted(s, b, e, names, w))
            && (!t.Done? ==> t == Member(s, b, e, names, w))
  {
    hide Member;
  }

  /** What makes a text unreadable: the first member that is not accepted. */
  predicate IsUnreadableText(s: seq<Byte>, names: Names, w: nat) {
    var start := StartAt(s, 0);
    start.Start? &&
    var r := FirstRefused(s, start.p, names, w);
    r.Refused? && IsUnreadable(s, r.b, r.e, w)
  }

  /** The source defines what a text means, whatever the old mask, exactly when the first member
      that is not accepted, if there is one, is readable. */
  lemma ParsedUndefined(s: seq<Byte>, cookie: nat, names: Names, w: nat)
    requires |names| <= w
    ensures Parsed(s, cookie, names, w) == Undefined <==> IsUnreadableText(s, names, w)
    ensures Parsed(s, cookie, names, w) != Failed
  {
    hide Members, FirstRefused, SkipWhite;
    var start := StartAt(s, cookie);
    assert start.Start? <==> StartAt(s, 0).Start?;
    if start.Start? {
      assert start.p == StartAt(s, 0).p;
      MembersUndefined(s, start.p, start.res, names, w);
    }
  }

  // ------------------------------------------------------------- a condition on the text

  /** A member may begin at b: at the start, behind a separator, or behind a sign. */
  predicate MayBegin(s: seq<Byte>, b: nat)
    requires b <= |s|
  {
    b == 0 || IsSeparator(s[b - 1]) || s[b - 1] == MINUS || s[b - 1] == BANG
    || s[b - 1] == EQUALS || s[b - 1] == CARET
  }

  /** Every run of characters up to a separator that may be a member is readable. */
  ghost predicate AllReadable(s: seq<Byte>, w: nat) {
    forall b :: 0 <= b < |s| && MayBegin(s, b) && b < TokenEnd(s, b) ==>
      !IsUnreadable(s, b, TokenEnd(s, b), w)
  }

  lemma {:induction false} SkipWhiteBegins(s: seq<Byte>, p: nat)
    requires p <= |s| && MayBegin(s, p)
    ensures MayBegin(s, SkipWhite(s, p))
    decreases |s| - p
  {
    if p < |s| && IsWhite(s[p]) { SkipWhiteBegins(s, p + 1); }
  }

  lemma {:induction false} TokenEndsAt(s: seq<Byte>, p: nat)
    requires p <= |s|
    ensures TokenEnd(s, p) < |s| ==> IsSeparator(s[TokenEnd(s, p)])
    decreases |s| - p
  {
    if p < |s| && !IsSeparator(s[p]) { TokenEndsAt(s, p + 1); }
  }

  /** Where the loop goes on behind a member, another may begin or a separator stands. */
  ghost predicate MayStep(s: seq<Byte>, p: nat) {
    p == |s| || (p < |s| && (MayBegin(s, p) || IsSeparator(s[p])))
  }

  lemma StepBehind(s: seq<Byte>, e: nat)
    requires e <= |s| && (e < |s| ==> IsSeparator(s[e]))
    ensures MayStep(s, SkipWhite(s, e))
  {
    if e < |s| && IsWhite(s[e]) { SkipWhiteBegins(s, e + 1); }
  }

  lemma {:induction false} RefusedBegins(s: seq<Byte>, p: nat, names: Names, w: nat)
    requires p <= |s| && MayStep(s, p)
    ensures var r := FirstRefused(s, p, names, w);
            r.Refused? ==> MayBegin(s, r.b) && r.e == TokenEnd(s, r.b)
    decreases |s| - p
  {
    hide StrToUl, Member, IsAccepted, SkipWhite, TokenEnd;
    if p < |s| && s[p] != 0 {
      if s[p] == COMMA {
        SkipWhiteBegins(s, p + 1);
        RefusedBegins(s, SkipWhite(s, p + 1), names, w);
      } else {
        var b := MemberStart(s, p);
        var e := TokenEnd(s, b);
        BeginsBehindSign(s, p);
        if e != b {
          TokenEndsAt(s, b);
          StepBehind(s, e);
          RefusedBegins(s, SkipWhite(s, e), names, w);
        }
      }
    }
  }

  lemma BeginsBehindSign(s: seq<Byte>, p: nat)
    requires p < |s| && MayStep(s, p) && s[p] != COMMA && s[p] != 0
    ensures var b := MemberStart(s, p); b < TokenEnd(s, b) ==> MayBegin(s, b)
  {
    if MemberStart(s, p) != p { SkipWhiteBegins(s, p + 1); }
  }

  /** A text of which every possible member is readable has a meaning. */
  lemma ReadableIsDefined(s: seq<Byte>, cookie: nat, names: Names, w: nat)
    requires |names| <= w && AllReadable(s, w)
    ensures Parsed(s, cookie, names, w).Done?
  {
    ParsedUndefined(s, cookie, names, w);
    var start := StartAt(s, 0);
    if start.Start? {
      StartBegins(s);
      RefusedBegins(s, start.p, names, w);
    }
  }

  lemma StartBegins(s: seq<Byte>)
    ensures var r := StartAt(s, 0); r.Start? ==> MayStep(s, r.p)
  {
    hide SkipWhite;
    SkipWhiteBegins(s, 0);
    var p := SkipWhite(s, 0);
    if p < |s| {
      if s[p] == EQUALS || s[p] == CARET { SkipWhiteBegins(s, p + 1); }
      var q := SkipWhite(s, p + 1);
      if q < |s| && s[q] == CARET { SkipWhiteBegins(s, q + 1); }
    }
  }

  // ------------------------------------------------------------------- texts that fail

  /** A lone tilde. */
  lemma TildeUndefined(cookie: nat, names: Names, w: nat)
    requires |names| <= w
    ensures Parsed([EQUALS, TILDE, 0], cookie, names, w) == Undefined
  {
    var s := [EQUALS, TILDE, 0];
    assert SkipWhite(s, 0) == 0 && SkipWhite(s, 1) == 1 && StartAt(s, 0).p == 1;
    FirstMember(s, 1, 2, names, w);
    LoneCount(s, 1, w);
    ParsedUndefined(s, cookie, names, w);
  }

  /** Any name that is longer than the buffer for names. */
  lemma LongUndefined(n: nat, cookie: nat, names: Names, w: nat)
    requires |names| <= w && 127 < n
    ensures Parsed(seq(n, _ => 97) + [0], cookie, names, w) == Undefined
  {
    var name: seq<Byte> := seq(n, _ => 97);
    var s := name + [0];
    forall i | 0 <= i < n ensures SameAt(s, 0, name, i) {}
    TokenIs(s, 0, name, n);
    assert SkipWhite(s, 0) == 0 && StartAt(s, 0).p == 0;
    FirstMember(s, 0, n, names, w);
    LoneCount(s, 0, w);
    ParsedUndefined(s, cookie, names, w);
  }

  /** The member at p is the first that is not accepted. */
  lemma FirstMember(s: seq<Byte>, p: nat, e: nat, names: Names, w: nat)
    requires |names| <= w && p < e < |s| && TokenEnd(s, p) == e && s[p] != 0 && s[p] != COMMA
    requires s[p] != MINUS && s[p] != BANG && s[p] != PLUS && s[p] != BAR
    requires !IsDigit(s[p], 10) && (e - p > NAME_LIMIT || (e == p + 1 && IsInversion(s[p])))
    ensures FirstRefused(s, p, names, w) == Refused(p, e) && IsUnreadable(s, p, e, w)
  {
    LoneCount(s, p, w);
    TokenEndsAt(s, p);
    MemberUndefined(s, p, e, names, w);
    assert |s[p..e]| == e - p;
  }
}
