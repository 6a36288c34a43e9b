// The list of nested option values: its stable sort by name, and the two lookups that depend
// on equal names standing together.
module OptionValues {
  import opened CTypes

  class OptionValue {
    const name: seq<Byte>

    constructor (name: seq<Byte>)
      ensures this.name == name
    {
      this.name := name;
    }
  }

  type Values = seq<OptionValue>

  // ---------------------------------------------------------------------- strcmp

  /** strcmp (a, b) > 0. */
  predicate Exceeds(a: seq<Byte>, b: seq<Byte>) {
    a != [] && (b == [] || a[0] > b[0] || (a[0] == b[0] && Exceeds(a[1..], b[1..])))
  }

  lemma {:induction false} ExceedsIrreflexive(a: seq<Byte>)
    ensures !Exceeds(a, a)
  {
    if a != [] { ExceedsIrreflexive(a[1..]); }
  }

  lemma {:induction false} ExceedsAntisymmetric(a: seq<Byte>, b: seq<Byte>)
    requires !Exceeds(a, b) && !Exceeds(b, a)
    ensures a == b
  {
    if a != [] && b != [] {
      ExceedsAntisymmetric(a[1..], b[1..]);
      assert a == [a[0]] + a[1..] && b == [b[0]] + b[1..];
    }
  }

  lemma {:induction false} NotExceedsTransitive(a: seq<Byte>, b: seq<Byte>, c: seq<Byte>)
    requires !Exceeds(a, b) && !Exceeds(b, c)
    ensures !Exceeds(a, c)
  {
    if a != [] && b != [] && c != [] && a[0] == b[0] == c[0] {
      NotExceedsTransitive(a[1..], b[1..], c[1..]);
    }
  }

  lemma {:induction false} ExceedsAsymmetric(a: seq<Byte>, b: seq<Byte>)
    requires Exceeds(a, b)
    ensures !Exceeds(b, a)
  {
    if b != [] && a[0] == b[0] { ExceedsAsymmetric(a[1..], b[1..]); }
  }

  /** b comes before a: it is a proper prefix of it, or has the smaller byte where they differ
      first. */
  ghost predicate ComesAfter(a: seq<Byte>, b: seq<Byte>) {
    exists k :: DiffersAt(a, b, k)
  }

  ghost predicate DiffersAt(a: seq<Byte>, b: seq<Byte>, k: nat) {
    k < |a| && k <= |b| && a[..k] == b[..k] && (k == |b| || a[k] > b[k])
  }

  lemma ExceedsIs(a: seq<Byte>, b: seq<Byte>)
    ensures Exceeds(a, b) <==> ComesAfter(a, b)
  {
    if Exceeds(a, b) {
      var k := Difference(a, b);
    }
    if k: nat :| DiffersAt(a, b, k) {
      DifferenceExceeds(a, b, k);
    }
  }

  lemma {:induction false} Difference(a: seq<Byte>, b: seq<Byte>) returns (k: nat)
    requires Exceeds(a, b)
    ensures DiffersAt(a, b, k)
  {
    k := 0;
    if b != [] && a[0] == b[0] {
      k := Difference(a[1..], b[1..]);
      assert a[..k + 1] == [a[0]] + a[1..][..k] && b[..k + 1] == [b[0]] + b[1..][..k];
      k := k + 1;
    }
  }

  lemma {:induction false} DifferenceExceeds(a: seq<Byte>, b: seq<Byte>, k: nat)
    requires DiffersAt(a, b, k)
    ensures Exceeds(a, b)
    decreases k
  {
    if k > 0 {
      assert a[0] == a[..k][0] == b[..k][0] == b[0];
      assert a[1..][..k - 1] == a[..k][1..] && b[1..][..k - 1] == b[..k][1..];
      DifferenceExceeds(a[1..], b[1..], k - 1);
    }
  }

  /** The names of a list stand in the order of their bytes, prefixes first. */
  ghost predicate InByteOrder(s: Values) {
    forall i: nat, j: nat :: i < j < |s| ==> !ComesAfter(s[i].name, s[j].name)
  }

  // ------------------------------------------------------------------------ sort

  ghost predicate InOrder(s: Values, i: nat, j: nat) {
    i < j < |s| ==> !Exceeds(s[i].name, s[j].name)
  }

  ghost predicate Ordered(s: Values) { forall i: nat, j: nat :: InOrder(s, i, j) }

  lemma OrderedIs(s: Values)
    ensures Ordered(s) <==> InByteOrder(s)
  {
    forall i: nat, j: nat | i < j < |s|
      ensures InOrder(s, i, j) <==> !ComesAfter(s[i].name, s[j].name)
    {
      ExceedsIs(s[i].name, s[j].name);
    }
    if InByteOrder(s) {
      forall i: nat, j: nat ensures InOrder(s, i, j) {}
    } else {
      var i: nat, j: nat :| i < j < |s| && ComesAfter(s[i].name, s[j].name);
      assert !InOrder(s, i, j);
    }
  }

  /** The values of one name, in their order. */
  function Named(s: Values, name: seq<Byte>): (r: Values) {
    if s == [] then []
    else
      var n := |s| - 1;
      Named(s[..n], name) + if s[n].name == name then [s[n]] else []
  }

  /** x moved down past the values at the end that exceed it. */
  function Insert(s: Values, x: OptionValue): (r: Values)
    ensures |r| == |s| + 1
  {
    if s != [] && Exceeds(s[|s| - 1].name, x.name) then
      Insert(s[..|s| - 1], x) + [s[|s| - 1]]
    else s + [x]
  }

  function Sorted(s: Values): (r: Values)
    ensures |r| == |s|
  {
    if s == [] then [] else Insert(Sorted(s[..|s| - 1]), s[|s| - 1])
  }

  lemma {:induction false} InsertPermutes(s: Values, x: OptionValue)
    ensures multiset(Insert(s, x)) == multiset(s + [x])
  {
    var n := |s| - 1;
    if s != [] && Exceeds(s[n].name, x.name) {
      InsertPermutes(s[..n], x);
      assert s == s[..n] + [s[n]];
    }
  }

  lemma OrderedAppend(s: Values, x: OptionValue)
    requires Ordered(s) && forall y :: y in s ==> !Exceeds(y.name, x.name)
    ensures Ordered(s + [x])
  {
    forall i: nat, j: nat ensures InOrder(s + [x], i, j) {
      assert InOrder(s, i, j);
      if i < j == |s| { assert s[i] in s; }
    }
  }

  lemma OrderedPrefix(s: Values, n: nat)
    requires Ordered(s) && n <= |s|
    ensures Ordered(s[..n])
  {
    forall i: nat, j: nat ensures InOrder(s[..n], i, j) { assert InOrder(s, i, j); }
  }

  /** The last value of an ordered list is the greatest. */
  lemma LastIsGreatest(s: Values, y: OptionValue)
    requires Ordered(s) && y in s
    ensures !Exceeds(y.name, s[|s| - 1].name)
  {
    var i: nat :| i < |s| && s[i] == y;
    assert InOrder(s, i, |s| - 1);
    ExceedsIrreflexive(y.name);
  }

  lemma {:induction false} InsertOrders(s: Values, x: OptionValue)
    requires Ordered(s)
    ensures Ordered(Insert(s, x))
  {
    var n := |s| - 1;
    if s != [] && Exceeds(s[n].name, x.name) {
      OrderedPrefix(s, n);
      InsertOrders(s[..n], x);
      forall y | y in Insert(s[..n], x) ensures !Exceeds(y.name, s[n].name) {
        InsertPermutes(s[..n], x);
        assert y in multiset(s[..n] + [x]);
        if y == x { ExceedsAsymmetric(s[n].name, x.name); } else { LastIsGreatest(s, y); }
      }
      OrderedAppend(Insert(s[..n], x), s[n]);
    } else {
      forall y | y in s ensures !Exceeds(y.name, x.name) {
        LastIsGreatest(s, y);
        NotExceedsTransitive(y.name, s[n].name, x.name);
      }
      OrderedAppend(s, x);
    }
  }

  /** A value that moves passes no value of its own name. */
  lemma {:induction false} InsertIsStable(s: Values, x: OptionValue, name: seq<Byte>)
    ensures Named(Insert(s, x), name) == Named(s + [x], name)
  {
    var n := |s| - 1;
    if s != [] && Exceeds(s[n].name, x.name) {
      ExceedsIrreflexive(x.name);
      InsertIsStable(s[..n], x, name);
      assert (Insert(s[..n], x) + [s[n]])[..|Insert(s[..n], x)|] == Insert(s[..n], x);
      assert (s[..n] + [x])[..n] == s[..n] && (s + [x])[..n + 1] == s;
    }
  }

  lemma WithoutLast(s: Values)
    requires s != []
    ensures s == s[..|s| - 1] + [s[|s| - 1]]
    ensures multiset(s[..|s| - 1]) == multiset(s) - multiset{s[|s| - 1]}
  {
    assert s == s[..|s| - 1] + [s[|s| - 1]];
  }

  /** The sort is a permutation that orders the names and keeps the order within a name. */
  lemma {:induction false} SortedIsStableSort(s: Values)
    ensures Ordered(Sorted(s)) && multiset(Sorted(s)) == multiset(s)
    ensures forall name :: Named(Sorted(s), name) == Named(s, name)
  {
    if s != [] {
      var n := |s| - 1;
      SortedIsStableSort(s[..n]);
      InsertOrders(Sorted(s[..n]), s[n]);
      InsertPermutes(Sorted(s[..n]), s[n]);
      WithoutLast(s);
      forall name ensures Named(Sorted(s), name) == Named(s, name) {
        InsertIsStable(Sorted(s[..n]), s[n], name);
        assert (Sorted(s[..n]) + [s[n]])[..|Sorted(s[..n])|] == Sorted(s[..n]);
      }
    }
  }

  /** No other list has these properties: order, and the values of each name in order. */
  lemma {:induction false} StableSortIsUnique(s: Values, t: Values)
    requires Ordered(s) && Ordered(t) && multiset(s) == multiset(t)
    requires forall name :: Named(s, name) == Named(t, name)
    ensures s == t
    decreases |s|
  {
    assert |s| == |multiset(s)| == |multiset(t)| == |t|;
    if s != [] {
      var n := |s| - 1;
      SameLast(s, t);
      WithoutLast(s);
      WithoutLast(t);
      OrderedPrefix(s, n);
      OrderedPrefix(t, n);
      forall name ensures Named(s[..n], name) == Named(t[..n], name) {
        NamedWithoutLast(s, t, name);
      }
      StableSortIsUnique(s[..n], t[..n]);
    }
  }

  lemma SameLast(s: Values, t: Values)
    requires Ordered(s) && Ordered(t) && multiset(s) == multiset(t) && s != [] && t != []
    requires forall name :: Named(s, name) == Named(t, name)
    ensures s[|s| - 1] == t[|t| - 1]
  {
    var x, y := s[|s| - 1], t[|t| - 1];
    assert x in multiset(s) && y in multiset(t);
    LastIsGreatest(t, x);
    LastIsGreatest(s, y);
    ExceedsAntisymmetric(x.name, y.name);
    NamedLast(s);
    NamedLast(t);
  }

  lemma NamedLast(s: Values)
    requires s != []
    ensures var r := Named(s, s[|s| - 1].name); r != [] && r[|r| - 1] == s[|s| - 1]
  {
  }

  lemma NamedWithoutLast(s: Values, t: Values, name: seq<Byte>)
    requires s != [] && t != [] && s[|s| - 1] == t[|t| - 1] && Named(s, name) == Named(t, name)
    ensures Named(s[..|s| - 1], name) == Named(t[..|t| - 1], name)
  {
    var x := s[|s| - 1];
    var tail := if x.name == name then [x] else [];
    CancelTail(Named(s[..|s| - 1], name), Named(t[..|t| - 1], name), tail);
  }

  lemma CancelTail(a: Values, b: Values, tail: Values)
    requires a + tail == b + tail
    ensures a == b
  {
    assert |a + tail| == |a| + |tail|;
    assert a == (a + tail)[..|a|] && b == (b + tail)[..|b|];
  }

  // --------------------------------------------------------------------- lookups

  /** The result of a lookup, or the errno it sets. */
  datatype Lookup = Found(value: OptionValue) | ENOENT | EINVAL

  ghost predicate Distinct(s: Values) {
    forall i, j :: 0 <= i < j < |s| ==> s[i] != s[j]
  }

  /** The first value of the name, or the first of all without a name. */
  ghost predicate IsGetValue(s: Values, name: Option<seq<Byte>>, r: Lookup) {
    match name
    case None => r == if s == [] then ENOENT else Found(s[0])
    case Some(n) =>
      match r
      case Found(v) => exists k :: IsFirstNamed(s, n, k) && s[k] == v
      case ENOENT => forall i :: 0 <= i < |s| ==> s[i].name != n
      case EINVAL => false
  }

  ghost predicate IsFirstNamed(s: Values, name: seq<Byte>, k: int) {
    0 <= k < |s| && s[k].name == name && forall i :: 0 <= i < k ==> s[i].name != name
  }

  /** What stands behind the first place of a value in the list. */
  ghost predicate IsNextValue(s: Values, oldValue: OptionValue, r: Lookup) {
    if oldValue in s then exists k :: IsFirstPlace(s, oldValue, k) && r == After(s, k) else r == EINVAL
  }

  ghost predicate IsFirstPlace(s: Values, v: OptionValue, k: int) {
    0 <= k < |s| && s[k] == v && v !in s[..k]
  }

  ghost function After(s: Values, k: nat): Lookup
    requires k < |s|
  {
    if k + 1 < |s| then Found(s[k + 1]) else ENOENT
  }

  lemma {:induction false} NamedConcat(a: Values, b: Values, name: seq<Byte>)
    ensures Named(a + b, name) == Named(a, name) + Named(b, name)
  {
    if b == [] {
      assert a + b == a;
    } else {
      var n := |b| - 1;
      NamedConcat(a, b[..n], name);
      assert (a + b)[..|a| + n] == a + b[..n];
    }
  }

  lemma {:induction false} NoneNamed(s: Values, name: seq<Byte>)
    requires forall i :: 0 <= i < |s| ==> s[i].name != name
    ensures Named(s, name) == []
  {
    if s != [] { NoneNamed(s[..|s| - 1], name); }
  }

  lemma {:induction false} AllNamed(s: Values, name: seq<Byte>)
    requires forall i :: 0 <= i < |s| ==> s[i].name == name
    ensures Named(s, name) == s
  {
    if s != [] {
      AllNamed(s[..|s| - 1], name);
      assert s == s[..|s| - 1] + [s[|s| - 1]];
    }
  }

  lemma NoneNamedAfter(s: Values, name: seq<Byte>, k: nat, e: nat)
    requires Ordered(s) && k < e <= |s| && s[k].name == name && (e < |s| ==> s[e].name != name)
    ensures forall j :: e <= j < |s| ==> s[j].name != name
  {
    forall j | e <= j < |s| ensures s[j].name != name {
      if s[j].name == name {
        assert InOrder(s, k, e) && InOrder(s, e, j);
        ExceedsAntisymmetric(name, s[e].name);
      }
    }
  }

  lemma NamedMiddle(a: Values, b: Values, c: Values, name: seq<Byte>)
    requires forall i :: 0 <= i < |a| ==> a[i].name != name
    requires forall i :: 0 <= i < |b| ==> b[i].name == name
    requires forall i :: 0 <= i < |c| ==> c[i].name != name
    ensures Named(a + b + c, name) == b
  {
    hide Named;
    NoneNamed(a, name);
    AllNamed(b, name);
    NoneNamed(c, name);
    NamedConcat(a, b, name);
    NamedConcat(a + b, c, name);
  }

  /** The values of one name in an ordered list stand together. */
  lemma NamedIsBlock(s: Values, name: seq<Byte>, k: nat, e: nat)
    requires Ordered(s) && IsFirstNamed(s, name, k) && k < e <= |s|
    requires forall i :: k <= i < e ==> s[i].name == name
    requires e < |s| ==> s[e].name != name
    ensures Named(s, name) == s[k..e]
  {
    hide Named;
    NoneNamedAfter(s, name, k, e);
    assert s == s[..k] + s[k..e] + s[e..];
    NamedMiddle(s[..k], s[k..e], s[e..], name);
  }

  ghost predicate Continues(s: Values, name: seq<Byte>, vs: Values, j: nat) {
    1 <= j < |vs| && vs[j].name == name && IsNextValue(s, vs[j - 1], Found(vs[j]))
  }

  /** The values that a caller visits who gets the first value of a name and goes on to the
      next value for as long as there is one of that name; last is the answer that ends
      the walk. */
  ghost predicate IsWalk(s: Values, name: seq<Byte>, vs: Values, last: Lookup) {
    if vs == [] then last == ENOENT && IsGetValue(s, Some(name), last)
    else
      && IsGetValue(s, Some(name), Found(vs[0]))
      && (forall j :: 1 <= j < |vs| ==> Continues(s, name, vs, j))
      && IsNextValue(s, vs[|vs| - 1], last) && (last.Found? ==> last.value.name != name)
  }

  /** The next value of the value at k is the one at k + 1. */
  lemma NextIsAfter(s: Values, k: nat, r: Lookup)
    requires Distinct(s) && k < |s| && IsNextValue(s, s[k], r)
    ensures r == After(s, k)
  {
    var j :| IsFirstPlace(s, s[k], j) && r == After(s, j);
  }

  lemma {:induction false} WalkAt(s: Values, name: seq<Byte>, vs: Values, last: Lookup, k: nat, i: nat)
    requires Distinct(s) && IsWalk(s, name, vs, last) && IsFirstNamed(s, name, k) && i < |vs|
    ensures k + i < |s| && vs[i] == s[k + i] && vs[i].name == name
  {
    if i > 0 {
      WalkAt(s, name, vs, last, k, i - 1);
      assert Continues(s, name, vs, i);
      NextIsAfter(s, k + (i - 1), Found(vs[i]));
    } else {
      var j :| IsFirstNamed(s, name, j) && s[j] == vs[0];
    }
  }

  lemma WalkVisitsNamed(s: Values, name: seq<Byte>, vs: Values, last: Lookup)
    requires Ordered(s) && Distinct(s) && IsWalk(s, name, vs, last)
    ensures vs == Named(s, name)
  {
    if vs == [] {
      NoneNamed(s, name);
    } else {
      var k :| IsFirstNamed(s, name, k) && s[k] == vs[0];
      var e := k + |vs|;
      forall i | 0 <= i < |vs| ensures k + i < |s| && vs[i] == s[k + i] && vs[i].name == name {
        WalkAt(s, name, vs, last, k, i);
      }
      assert k + (|vs| - 1) < |s|;
      assert vs == s[k..e];
      forall i | k <= i < e ensures s[i].name == name { assert s[i] == vs[i - k]; }
      NextIsAfter(s, e - 1, last);
      NamedIsBlock(s, name, k, e);
    }
  }

  lemma {:induction false} InsertDistinct(s: Values, x: OptionValue)
    requires Distinct(s + [x])
    ensures Distinct(Insert(s, x))
  {
    var n := |s| - 1;
    DistinctParts(s, [x]);
    if s != [] && Exceeds(s[n].name, x.name) {
      assert s == s[..n] + [s[n]];
      assert (s + [x])[n] != (s + [x])[n + 1];
      DistinctParts(s[..n], [s[n]]);
      assert x in [x] && x !in s[..n] + [s[n]];
      DistinctAppend(s[..n], x);
      InsertDistinct(s[..n], x);
      InsertPermutes(s[..n], x);
      assert s[n] !in multiset(s[..n] + [x]);
      assert s[n] !in multiset(Insert(s[..n], x));
      DistinctAppend(Insert(s[..n], x), s[n]);
    }
  }

  lemma DistinctParts(a: Values, b: Values)
    requires Distinct(a + b)
    ensures Distinct(a) && forall x, y :: x in a && y in b ==> x != y
  {
    forall x, y | x in a && y in b ensures x != y {
      var i :| 0 <= i < |a| && a[i] == x;
      var j :| 0 <= j < |b| && b[j] == y;
      assert (a + b)[i] != (a + b)[|a| + j];
    }
    forall i, j | 0 <= i < j < |a| ensures a[i] != a[j] {
      assert (a + b)[i] != (a + b)[j];
    }
  }

  lemma DistinctAppend(s: Values, x: OptionValue)
    requires Distinct(s) && x !in s
    ensures Distinct(s + [x])
  {
  }

  lemma {:induction false} SortedDistinct(s: Values)
    requires Distinct(s)
    ensures Distinct(Sorted(s))
  {
    if s != [] {
      var n := |s| - 1;
      assert s == s[..n] + [s[n]];
      DistinctParts(s[..n], [s[n]]);
      SortedDistinct(s[..n]);
      SortedIsStableSort(s[..n]);
      assert s[n] !in multiset(Sorted(s[..n]));
      DistinctAppend(Sorted(s[..n]), s[n]);
      InsertDistinct(Sorted(s[..n]), s[n]);
    }
  }

  /** After the sort the walk visits all values of a name, in the order of the file. */
  lemma WalkAfterSort(s: Values, name: seq<Byte>, vs: Values, last: Lookup)
    requires Distinct(s) && IsWalk(Sorted(s), name, vs, last)
    ensures vs == Named(s, name)
  {
    SortedIsStableSort(s);
    SortedDistinct(s);
    WalkVisitsNamed(Sorted(s), name, vs, last);
  }

  class ArgList {
    var useCt: nat
    var args: array<OptionValue>

    constructor (args: array<OptionValue>, useCt: nat)
      ensures this.args == args && this.useCt == useCt
    {
      this.args := args;
      this.useCt := useCt;
    }

    ghost predicate Valid() reads this { useCt <= args.Length }

    ghost function Contents(): Values
      requires Valid()
      reads this, args
    {
      args[..useCt]
    }

    /** sort_list. The source looks below the first value, at element -1, exactly when some
        value precedes the first one. */
    method SortList() returns (ghost below: bool)
      requires Valid()
      modifies args
      ensures Valid() && Contents() == Sorted(old(Contents()))
      ensures InByteOrder(Contents()) && multiset(Contents()) == multiset(old(Contents()))
      ensures forall name :: Named(Contents(), name) == Named(old(Contents()), name)
      ensures args[useCt..] == old(args[useCt..])
      ensures below <==> PrecedesFirst(old(Contents()), useCt)
    {
      hide Insert, Sorted, SortedTo, InsertedAt, PrecedesFirst, Ordered, InByteOrder, Named;
      ghost var was := args[..];
      var ix := 1;
      below := false;
      SortedFew(was, if useCt == 0 then 0 else 1);
      NonePrecedes(was);
      while ix < useCt
        invariant 1 <= ix && if useCt == 0 then ix == 1 else ix <= useCt
        invariant args[..] == SortedTo(was, if useCt == 0 then 0 else ix)
        invariant below <==> PrecedesFirst(was, ix)
      {
        SortedNext(was, ix);
        NextPrecedes(was, ix);
        ghost var more := InsertLast(args, ix);
        below := below || more;
        ix := ix + 1;
      }
      PrecedesWithin(was, useCt, ix);
      SortedPart(was, useCt);
      SortedIsStableSort(was[..useCt]);
      OrderedIs(Sorted(was[..useCt]));
    }
  }

  /** One of the first n values precedes the first one. */
  ghost predicate PrecedesFirst(s: Values, n: nat) {
    exists i :: 0 < i < n && i < |s| && Exceeds(s[0].name, s[i].name)
  }

  lemma NonePrecedes(s: Values)
    ensures !PrecedesFirst(s, 1)
  {
  }

  lemma PrecedesWithin(s: Values, n: nat, ix: nat)
    requires n <= |s| && n <= ix && (ix <= n || ix == 1)
    ensures PrecedesFirst(s[..n], n) <==> PrecedesFirst(s, ix)
  {
    hide Exceeds;
    if PrecedesFirst(s, ix) {
      var i :| 0 < i < ix && i < |s| && Exceeds(s[0].name, s[i].name);
      assert s[..n][i] == s[i];
    }
    if PrecedesFirst(s[..n], n) {
      var i :| 0 < i < n && Exceeds(s[..n][0].name, s[..n][i].name);
      assert s[i] == s[..n][i];
    }
  }

  lemma SortedPart(s: Values, n: nat)
    requires n <= |s|
    ensures SortedTo(s, n)[..n] == Sorted(s[..n]) && SortedTo(s, n)[n..] == s[n..]
  {
    hide Sorted;
  }

  /** The value at ix goes down below the sorted values before it for the first time when it
      precedes the first of all; then it goes below them exactly when it precedes the lowest. */
  lemma NextPrecedes(s: Values, ix: nat)
    requires 0 < ix < |s|
    ensures Ordered(SortedTo(s, ix)[..ix])
    ensures PrecedesFirst(s, ix + 1)
            <==> PrecedesFirst(s, ix)
                 || Exceeds(SortedTo(s, ix)[0].name, SortedTo(s, ix)[ix].name)
  {
    hide Exceeds, Sorted, Named, Ordered;
    var a := Sorted(s[..ix]);
    SortedIsStableSort(s[..ix]);
    assert SortedTo(s, ix)[..ix] == a && SortedTo(s, ix)[0] == a[0] && SortedTo(s, ix)[ix] == s[ix];
    LowestIsNotAbove(a, s[..ix]);
    if Exceeds(a[0].name, s[ix].name) && !Exceeds(s[0].name, s[ix].name) {
      assert s[..ix][0] == s[0];
      NotExceedsTransitive(a[0].name, s[0].name, s[ix].name);
    }
    if !PrecedesFirst(s, ix) {
      forall i | 0 <= i < ix ensures !Exceeds(s[0].name, s[..ix][i].name) {
        if i == 0 { ExceedsIrreflexive(s[0].name); }
      }
      LowestIsFirst(a, s[..ix]);
    }
    PrecedesNext(s, ix);
  }

  lemma PrecedesNext(s: Values, ix: nat)
    requires 0 < ix < |s|
    ensures PrecedesFirst(s, ix + 1) <==> PrecedesFirst(s, ix) || Exceeds(s[0].name, s[ix].name)
  {
    hide Exceeds;
  }

  lemma LowestIsNotAbove(a: Values, s: Values)
    requires Ordered(a) && multiset(a) == multiset(s) && s != [] && a != []
    ensures forall i :: 0 <= i < |s| ==> !Exceeds(a[0].name, s[i].name)
  {
    hide Exceeds;
    forall i | 0 <= i < |s| ensures !Exceeds(a[0].name, s[i].name) {
      assert s[i] in multiset(a);
      var k :| 0 <= k < |a| && a[k] == s[i];
      assert InOrder(a, 0, k);
      ExceedsIrreflexive(a[0].name);
    }
  }

  lemma LowestIsFirst(a: Values, s: Values)
    requires Ordered(a) && multiset(a) == multiset(s) && s != [] && a != []
    requires forall i :: 0 <= i < |s| ==> !Exceeds(s[0].name, s[i].name)
    ensures a[0].name == s[0].name
  {
    hide Exceeds;
    LowestIsNotAbove(a, s);
    assert a[0] in multiset(s);
    var k :| 0 <= k < |s| && s[k] == a[0];
    ExceedsAntisymmetric(a[0].name, s[0].name);
  }

  /** Two values out of order: the source looks at element -1. */
  method LooksBelow() returns (ghost below: bool)
    ensures below
  {
    var first := new OptionValue([98]);
    var second := new OptionValue([97]);
    var args := new OptionValue[2](i => if i == 0 then first else second);
    var list := new ArgList(args, 2);
    assert list.Contents() == [first, second];
    below := list.SortList();
  }

  /** optionGetValue; the list is null for a value that is not hierarchical. */
  method OptionGetValue(list: ArgList?, vname: Option<seq<Byte>>) returns (r: Lookup)
    requires list != null ==> list.Valid()
    ensures list == null ==> r == EINVAL
    ensures list != null ==> IsGetValue(list.Contents(), vname, r)
  {
    if list == null { return EINVAL; }
    if list.useCt > 0 {
      if vname == None { return Found(list.args[0]); }
      var at := 0;
      while at < list.useCt
        invariant at <= list.useCt
        invariant forall i :: 0 <= i < at ==> list.args[i].name != vname.value
      {
        if list.args[at].name == vname.value {
          assert IsFirstNamed(list.Contents(), vname.value, at);
          return Found(list.args[at]);
        }
        at := at + 1;
      }
    }
    return ENOENT;
  }

  /** optionNextValue. */
  method OptionNextValue(list: ArgList?, oldValue: OptionValue) returns (r: Lookup)
    requires list != null ==> list.Valid()
    ensures list == null ==> r == EINVAL
    ensures list != null ==> IsNextValue(list.Contents(), oldValue, r)
  {
    if list == null { return EINVAL; }
    var at := 0;
    while at < list.useCt
      invariant at <= list.useCt
      invariant forall i :: 0 <= i < at ==> list.args[i] != oldValue
    {
      if list.args[at] == oldValue {
        assert IsFirstPlace(list.Contents(), oldValue, at);
        return if at + 1 == list.useCt then ENOENT else Found(list.args[at + 1]);
      }
      at := at + 1;
    }
    return EINVAL;
  }

  /** What a caller does to see all values of a name: the walk ends in every list of distinct
      values, and after the sort it has seen all of them, in the order of the file. */
  method VisitNamed(list: ArgList, name: seq<Byte>, ghost file: Values)
      returns (vs: Values, last: Lookup)
    requires list.Valid() && Distinct(list.Contents())
    ensures IsWalk(list.Contents(), name, vs, last)
    ensures Ordered(list.Contents()) ==> vs == Named(list.Contents(), name)
    ensures Distinct(file) && list.Contents() == Sorted(file) ==> vs == Named(file, name)
  {
    hide IsWalk, WalkState, IsGetValue, IsNextValue, Ordered, Distinct;
    ghost var s := list.Contents();
    vs := [];
    last := OptionGetValue(list, Some(name));
    ghost var k := WalkStarts(s, name, last);
    while last.Found? && last.value.name == name
      invariant WalkState(s, name, k, vs, last) && |vs| <= |s|
      decreases |s| - |vs|
    {
      ghost var value := last.value;
      vs := vs + [last.value];
      last := OptionNextValue(list, last.value);
      WalkNext(s, name, k, vs[..|vs| - 1], value, last);
      assert vs[..|vs| - 1] + [value] == vs;
    }
    WalkEnds(s, name, k, vs, last);
    if Ordered(s) { WalkVisitsNamed(s, name, vs, last); }
    if Distinct(file) && s == Sorted(file) { WalkAfterSort(file, name, vs, last); }
  }

  /** A walk that may go on: vs stands at k, and last is the answer behind it. */
  ghost predicate WalkState(s: Values, name: seq<Byte>, k: nat, vs: Values, last: Lookup) {
    if vs == [] then
      && IsGetValue(s, Some(name), last)
      && (last.Found? ==> IsFirstNamed(s, name, k) && s[k] == last.value)
    else
      && IsGetValue(s, Some(name), Found(vs[0])) && vs[0].name == name
      && (forall j :: 1 <= j < |vs| ==> Continues(s, name, vs, j))
      && IsNextValue(s, vs[|vs| - 1], last)
      && k + |vs| <= |s| && vs == s[k..k + |vs|]
  }

  lemma WalkStarts(s: Values, name: seq<Byte>, last: Lookup) returns (k: nat)
    requires IsGetValue(s, Some(name), last)
    ensures WalkState(s, name, k, [], last)
  {
    k := 0;
    if last.Found? { k :| IsFirstNamed(s, name, k) && s[k] == last.value; }
  }

  lemma WalkNext(s: Values, name: seq<Byte>, k: nat, vs: Values, value: OptionValue, next: Lookup)
    requires Distinct(s) && WalkState(s, name, k, vs, Found(value)) && value.name == name
    requires IsNextValue(s, value, next)
    ensures WalkState(s, name, k, vs + [value], next) && |vs| < |s|
  {
    hide IsNextValue, IsGetValue;
    var n := |vs|;
    if n > 0 {
      assert vs[n - 1] == s[k..k + n][n - 1] == s[k + (n - 1)];
      NextIsAfter(s, k + (n - 1), Found(value));
    }
    assert s[k..k + n + 1] == s[k..k + n] + [s[k + n]];
    forall j | 1 <= j < n + 1 ensures Continues(s, name, vs + [value], j) {
      if j < n { assert Continues(s, name, vs, j); }
    }
  }

  lemma WalkEnds(s: Values, name: seq<Byte>, k: nat, vs: Values, last: Lookup)
    requires WalkState(s, name, k, vs, last) && !(last.Found? && last.value.name == name)
    ensures IsWalk(s, name, vs, last)
  {
  }

  /** The list s with its first ix values sorted. */
  function SortedTo(s: Values, ix: nat): (r: Values)
    requires ix <= |s|
    ensures |r| == |s|
  {
    Sorted(s[..ix]) + s[ix..]
  }

  lemma SortedFew(s: Values, ix: nat)
    requires ix <= 1 && ix <= |s|
    ensures SortedTo(s, ix) == s
  {
    if ix == 1 {
      assert s[..1][..0] == [] && Insert([], s[0]) == [] + [s[0]];
    }
  }

  /** The list s once its value at ix has gone down to its place. */
  function InsertedAt(s: Values, ix: nat): Values
    requires ix < |s|
  {
    Insert(s[..ix], s[ix]) + s[ix + 1..]
  }

  lemma SortedNext(s: Values, ix: nat)
    requires ix < |s|
    ensures InsertedAt(SortedTo(s, ix), ix) == SortedTo(s, ix + 1)
  {
    hide Insert;
    var a, b := Sorted(s[..ix]), s[ix..];
    assert (a + b)[..ix] == a && (a + b)[ix] == s[ix] && (a + b)[ix + 1..] == s[ix + 1..];
    assert s[..ix + 1][..ix] == s[..ix];
  }

  /** The body of that loop: the value at ix goes down to its place. */
  method InsertLast(args: array<OptionValue>, ix: nat) returns (ghost below: bool)
    requires 0 < ix < args.Length
    modifies args
    ensures args[..] == InsertedAt(old(args[..]), ix)
    ensures Ordered(old(args[..])[..ix]) ==>
              (below <==> Exceeds(old(args[0]).name, old(args[ix]).name))
  {
    hide Exceeds, IsOpened, GoesBelow, InsertedAt, Ordered;
    ghost var was := args[..];
    var iy := ix - 1;
    var newV, oldV := args[ix], args[iy];
    below := false;
    OpenedAtEnd(was, ix);
    while Exceeds(oldV.name, newV.name)
      invariant 0 <= iy < ix && oldV == args[iy] == was[iy] && !below
      invariant IsOpened(args[..], was, iy + 1, ix) && GoesBelow(was, iy + 1, ix)
      decreases iy
    {
      OpenedAt(args[..], was, iy + 1, ix);
      BelowNext(was, iy + 1, ix);
      args[iy + 1] := oldV;
      iy := iy - 1;
      if iy < 0 {
        below := true;
        break;
      }
      oldV := args[iy];
    }
    StopsAt(args[..], was, newV, iy + 1, ix);
    args[iy + 1] := newV;
    StopsAbove(was, oldV, iy, ix);
  }

  /** The place k is open: the values was[k..ix] stand one place higher. */
  ghost predicate IsOpened(a: Values, was: Values, k: nat, ix: nat) {
    && k <= ix < |was| == |a|
    && (forall i :: 0 <= i < k ==> a[i] == was[i])
    && (forall i :: k < i <= ix ==> a[i] == was[i - 1])
    && (forall i :: ix < i < |a| ==> a[i] == was[i])
  }

  /** The value at ix goes below the values was[k..ix]. */
  ghost predicate GoesBelow(was: Values, k: nat, ix: nat)
    requires k <= ix < |was|
  {
    Insert(was[..ix], was[ix]) == Insert(was[..k], was[ix]) + was[k..ix]
  }

  lemma BelowNext(was: Values, k: nat, ix: nat)
    requires 0 < k <= ix < |was| && GoesBelow(was, k, ix)
    requires Exceeds(was[k - 1].name, was[ix].name)
    ensures GoesBelow(was, k - 1, ix)
  {
    hide Exceeds;
    InsertPasses(was[..k], was[ix], k - 1);
    assert was[..k][..k - 1] == was[..k - 1] && was[..k][..k] == was[..k] && was[..k][k..] == [];
    assert was[..k][k - 1..] == [was[k - 1]];
    assert was[k - 1..ix] == [was[k - 1]] + was[k..ix];
  }

  /** In an ordered list the value goes below all others if it precedes the first. */
  lemma StopsAbove(was: Values, oldValue: OptionValue, iy: int, ix: nat)
    requires 0 < ix < |was| && -1 <= iy < ix && oldValue == was[if iy < 0 then 0 else iy]
    requires Exceeds(oldValue.name, was[ix].name) <==> iy < 0
    ensures Ordered(was[..ix]) ==> (iy < 0 <==> Exceeds(was[0].name, was[ix].name))
  {
    hide Exceeds;
    if Ordered(was[..ix]) && iy > 0 {
      assert InOrder(was[..ix], 0, iy);
      assert was[..ix][0] == was[0] && was[..ix][iy] == was[iy];
      if Exceeds(was[0].name, was[ix].name) {
        NotExceedsTransitive(was[0].name, oldValue.name, was[ix].name);
      }
    }
  }

  lemma OpenedAtEnd(was: Values, ix: nat)
    requires ix < |was|
    ensures IsOpened(was, was, ix, ix) && GoesBelow(was, ix, ix)
  {
    assert was[ix..ix] == [];
  }

  /** Moving the value below the open place into it. */
  lemma OpenedAt(a: Values, was: Values, k: nat, ix: nat)
    requires IsOpened(a, was, k, ix) && 0 < k
    ensures IsOpened(a[k := a[k - 1]], was, k - 1, ix)
    ensures a[k - 1] == was[k - 1] && (k >= 2 ==> a[k - 2] == was[k - 2])
  {
  }

  /** The value that goes down stops at the open place k. */
  lemma StopsAt(a: Values, was: Values, x: OptionValue, k: nat, ix: nat)
    requires IsOpened(a, was, k, ix) && (k > 0 ==> !Exceeds(a[k - 1].name, x.name))
    requires x == was[ix] && GoesBelow(was, k, ix)
    ensures a[k := x] == InsertedAt(was, ix)
  {
    hide Exceeds;
    assert Insert(was[..k], x) == was[..k] + [x];
  }

  lemma InsertPasses(s: Values, x: OptionValue, k: nat)
    requires k < |s| && Exceeds(s[k].name, x.name)
    ensures Insert(s[..k + 1], x) + s[k + 1..] == Insert(s[..k], x) + s[k..]
  {
    hide Exceeds;
    assert s[..k + 1][..k] == s[..k];
    assert s[k..] == [s[k]] + s[k + 1..];
    assert Insert(s[..k + 1], x) == Insert(s[..k], x) + [s[k]];
  }
}
