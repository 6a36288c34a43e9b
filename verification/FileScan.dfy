// The order in which the configuration files of the home list are loaded, and the direction of
// the scan in which the options of a file take effect.
module FileScan {

  const PRESET := -1        // DIRECTION_PRESET
  const PROCESS := 1        // DIRECTION_PROCESS

  /** One loaded file: its place in the home list, the direction, and whether an error in the
      file would stop the program. */
  datatype Visit = Visit(idx: int, dir: int, errStop: bool)

  /** What the file system and the files do: whether a home list entry names a file when the
      scan meets it, and whether loading it forward disables the loading of further files. The
      scan meets an entry at most once in a direction, so that the two may depend on anything
      that has happened before. */
  datatype Files = Files(usable: (int, int) -> bool, disables: int -> bool)

  // ------------------------------------------------------------------- direction

  /** The three bits of the option state that direction_ok reads. */
  datatype OptState = OptState(imm: bool, disableImm: bool, disabled: bool)

  function DirectionOk(f: OptState, dir: int): bool {
    if dir == 0 then true
    else
      match (f.imm, f.disableImm)
      case (false, false) => !(dir < 0)
      case (true, false) => if dir < 0 then f.disabled else !f.disabled
      case (false, true) => if dir < 0 then !f.disabled else f.disabled
      case (true, true) => !(dir > 0)
  }

  // ------------------------------------------------------------------------ order

  /** Entry k loads and then disables the scan. */
  predicate StopsDown(files: Files, k: int) { files.usable(k, PRESET) && files.disables(k) }

  /** The entry where the scan down from k turns. */
  function Turn(files: Files, k: int): (d: int)
    requires k >= -1
    ensures d <= k || (k == -1 && d == 0)
    ensures 0 <= d
    decreases k
  {
    if k < 0 then 0 else if StopsDown(files, k) then k else Turn(files, k - 1)
  }

  function One(files: Files, k: int, dir: int): seq<Visit> {
    if files.usable(k, dir) then [Visit(k, dir, false)] else []
  }

  /** The usable entries from high down to low. */
  function Down(files: Files, high: int, low: int): seq<Visit>
    decreases high - low
  {
    if high < low then [] else One(files, high, PRESET) + Down(files, high - 1, low)
  }

  /** The usable entries from low up to high. */
  function Up(files: Files, low: int, high: int): seq<Visit>
    decreases high - low
  {
    if high < low then [] else One(files, low, PROCESS) + Up(files, low + 1, high)
  }

  /** The order of the scan: down to the turn and from there up again. */
  function ScanOrder(files: Files, n: nat): seq<Visit>
    requires n > 0
  {
    var d := Turn(files, n - 1);
    Down(files, n - 1, d) + Up(files, d, n - 1)
  }

  /** The turn is the first entry on the way down that disables the scan, if there is one. */
  lemma {:induction false} TurnIs(files: Files, k: int, d: int)
    requires k >= 0
    ensures d == Turn(files, k) <==>
              && 0 <= d <= k
              && (forall i :: d < i <= k ==> !StopsDown(files, i))
              && (d == 0 || StopsDown(files, d))
  {
    if k > 0 && !StopsDown(files, k) {
      TurnIs(files, k - 1, d);
    }
    assert Turn(files, -1) == 0;
  }

  // --------------------------------------------------------- the order, visit by visit

  /** No entry above i loads forward and then disables the scan. */
  ghost predicate IsReached(files: Files, n: nat, i: int) {
    forall j :: i < j < n ==> !(files.usable(j, -1) && files.disables(j))
  }

  /** First the entries that are loaded downwards, falling, and then those upwards, rising. */
  predicate Follows(u: Visit, v: Visit) {
    if u.dir == -1 then v.dir == -1 ==> v.idx < u.idx else v.dir == 1 && u.idx < v.idx
  }

  ghost predicate InOrder(vs: seq<Visit>) {
    forall a, b :: 0 <= a < b < |vs| ==> Follows(vs[a], vs[b])
  }

  /** A scan of n entries: in each direction those that are usable in it and that the way down
      has reached, in this order, and no error stops the program. */
  ghost predicate IsScan(files: Files, n: nat, vs: seq<Visit>) {
    && (forall v :: v in vs ==> !v.errStop && (v.dir == -1 || v.dir == 1))
    && (forall i, dir :: Visit(i, dir, false) in vs <==>
          0 <= i < n && (dir == -1 || dir == 1) && files.usable(i, dir) && IsReached(files, n, i))
    && InOrder(vs)
  }

  lemma {:induction false} DownIs(files: Files, high: int, low: int, v: Visit)
    ensures v in Down(files, high, low)
            <==> v.dir == -1 && !v.errStop && low <= v.idx <= high && files.usable(v.idx, -1)
    decreases high - low
  {
    if low <= high { DownIs(files, high - 1, low, v); }
  }

  lemma {:induction false} UpIs(files: Files, low: int, high: int, v: Visit)
    ensures v in Up(files, low, high)
            <==> v.dir == 1 && !v.errStop && low <= v.idx <= high && files.usable(v.idx, 1)
    decreases high - low
  {
    if low <= high { UpIs(files, low + 1, high, v); }
  }

  lemma OrderedConcat(a: seq<Visit>, b: seq<Visit>)
    requires InOrder(a) && InOrder(b) && forall u, v :: u in a && v in b ==> Follows(u, v)
    ensures InOrder(a + b)
  {
    forall i, j | 0 <= i < j < |a + b| ensures Follows((a + b)[i], (a + b)[j]) {
      if i < |a| <= j { assert a[i] in a && b[j - |a|] in b; }
    }
  }

  lemma {:induction false} DownFalls(files: Files, high: int, low: int)
    ensures InOrder(Down(files, high, low))
    decreases high - low
  {
    if low <= high {
      DownFalls(files, high - 1, low);
      forall v | v in Down(files, high - 1, low) ensures Follows(Visit(high, -1, false), v) {
        DownIs(files, high - 1, low, v);
      }
      OrderedConcat(One(files, high, PRESET), Down(files, high - 1, low));
    }
  }

  lemma {:induction false} UpRises(files: Files, low: int, high: int)
    ensures InOrder(Up(files, low, high))
    decreases high - low
  {
    if low <= high {
      UpRises(files, low + 1, high);
      forall v | v in Up(files, low + 1, high) ensures Follows(Visit(low, 1, false), v) {
        UpIs(files, low + 1, high, v);
      }
      OrderedConcat(One(files, low, PROCESS), Up(files, low + 1, high));
    }
  }

  /** The turn is the lowest entry that the way down reaches. */
  lemma TurnIsReached(files: Files, n: nat, i: int)
    requires n > 0 && 0 <= i < n
    ensures Turn(files, n - 1) <= i <==> IsReached(files, n, i)
  {
    var d := Turn(files, n - 1);
    TurnIs(files, n - 1, d);
    assert forall j :: StopsDown(files, j) <==> files.usable(j, -1) && files.disables(j);
    if i < d { assert StopsDown(files, d); }
  }

  lemma ScanOrderIsScan(files: Files, n: nat)
    requires n > 0
    ensures IsScan(files, n, ScanOrder(files, n))
  {
    hide Down, Up, Turn, IsReached;
    var d := Turn(files, n - 1);
    var down, up := Down(files, n - 1, d), Up(files, d, n - 1);
    TurnIs(files, n - 1, d);
    forall v: Visit
      ensures v in down + up <==>
                && !v.errStop && (v.dir == -1 || v.dir == 1)
                && d <= v.idx < n && files.usable(v.idx, v.dir)
      ensures v in down ==> v.dir == -1
      ensures v in up ==> v.dir == 1
    {
      DownIs(files, n - 1, d, v);
      UpIs(files, d, n - 1, v);
    }
    forall i | 0 <= i < n ensures d <= i <==> IsReached(files, n, i) {
      TurnIsReached(files, n, i);
    }
    DownFalls(files, n - 1, d);
    UpRises(files, d, n - 1);
    OrderedConcat(down, up);
  }

  // ----------------------------------------------------------------- eligibility

  /** The visits of entry idx in which a line with the option state f takes effect. */
  function Eligible(visits: seq<Visit>, idx: int, f: OptState): (n: nat) {
    if visits == [] then 0
    else Eligible(visits[1..], idx, f)
         + if visits[0].idx == idx && DirectionOk(f, visits[0].dir) then 1 else 0
  }

  lemma {:induction false} EligibleConcat(a: seq<Visit>, b: seq<Visit>, idx: int, f: OptState)
    ensures Eligible(a + b, idx, f) == Eligible(a, idx, f) + Eligible(b, idx, f)
  {
    if a == [] {
      assert a + b == b;
    } else {
      EligibleConcat(a[1..], b, idx, f);
      assert (a + b)[1..] == a[1..] + b;
    }
  }

  lemma {:induction false} EligibleDown(files: Files, high: int, low: int, idx: int, f: OptState)
    ensures Eligible(Down(files, high, low), idx, f)
            == if low <= idx <= high && files.usable(idx, PRESET) && DirectionOk(f, PRESET) then 1 else 0
    decreases high - low
  {
    if low <= high {
      EligibleDown(files, high - 1, low, idx, f);
      EligibleConcat(One(files, high, PRESET), Down(files, high - 1, low), idx, f);
    }
  }

  lemma {:induction false} EligibleUp(files: Files, low: int, high: int, idx: int, f: OptState)
    ensures Eligible(Up(files, low, high), idx, f)
            == if low <= idx <= high && files.usable(idx, PROCESS) && DirectionOk(f, PROCESS) then 1 else 0
    decreases high - low
  {
    if low <= high {
      EligibleUp(files, low + 1, high, idx, f);
      EligibleConcat(One(files, low, PROCESS), Up(files, low + 1, high), idx, f);
    }
  }

  /** Without a direction every option is accepted. */
  lemma NoDirection(f: OptState)
    ensures DirectionOk(f, 0)
  {
  }

  /** Each option state is accepted in exactly one of the two directions. */
  lemma ExactlyOneDirection(f: OptState)
    ensures DirectionOk(f, PRESET) <==> !DirectionOk(f, PROCESS)
  {
  }

  /** What the comments say of the presetting direction: an option is handled there when it is
      immediate for the state, enabled or disabled, that it has. */
  predicate IsImmediate(f: OptState) {
    if f.disabled then f.disableImm else f.imm
  }

  /** The code does as the comments say if and only if the two states are handled alike. */
  lemma ImmediateAsDocumented(f: OptState)
    ensures DirectionOk(f, PRESET) == IsImmediate(f) <==> f.imm == f.disableImm
  {
  }

  /** An enabled option that is immediate for enablement is not handled in that direction. */
  lemma EnabledNotPreset()
    ensures var f := OptState(true, false, false); IsImmediate(f) && !DirectionOk(f, PRESET)
  {
  }

  /** A line takes effect exactly once when its file can be loaded both ways and is not below
      the turn, and never when it is below the turn. */
  lemma EligibleOnce(files: Files, n: nat, idx: int, f: OptState)
    requires n > 0
    ensures var c := Eligible(ScanOrder(files, n), idx, f);
            && c <= 1
            && (c == 1 <==> Turn(files, n - 1) <= idx < n
                            && files.usable(idx, if DirectionOk(f, PRESET) then PRESET else PROCESS))
    ensures 0 <= idx < n ==>
              (Turn(files, n - 1) <= idx <==> IsReached(files, n, idx))
  {
    if 0 <= idx < n { TurnIsReached(files, n, idx); }
    var d := Turn(files, n - 1);
    EligibleConcat(Down(files, n - 1, d), Up(files, d, n - 1), idx, f);
    EligibleDown(files, n - 1, d, idx, f);
    EligibleUp(files, d, n - 1, idx, f);
    ExactlyOneDirection(f);
  }

  // ------------------------------------------------------------------------- scan

  /** What a scan that stands at idx still has before it. */
  ghost function Rest(files: Files, n: nat, idx: int, inc: int): seq<Visit> {
    if inc == PRESET then
      var d := if idx < 0 then 0 else Turn(files, idx);
      Down(files, idx, d) + Up(files, d, n - 1)
    else Up(files, idx, n - 1)
  }

  /** What one turn of the loop takes from that. */
  lemma RestStep(files: Files, n: nat, idx: int, inc: int)
    requires 0 <= idx < n && (inc == PRESET || inc == PROCESS)
    ensures Rest(files, n, idx, inc) == One(files, idx, inc) +
              (if inc == PRESET && StopsDown(files, idx) then Rest(files, n, idx, PROCESS)
               else Rest(files, n, idx + inc, inc))
  {
    if inc == PRESET {
      var d := Turn(files, idx);
      assert Down(files, idx, d) == One(files, idx, PRESET) + Down(files, idx - 1, d);
      if !StopsDown(files, idx) && idx > 0 {
        assert d == Turn(files, idx - 1);
      }
    }
  }

  /** Turning at the bottom changes nothing, and at the top nothing is left. */
  lemma RestEnds(files: Files, n: nat)
    ensures Rest(files, n, -1, PRESET) == Rest(files, n, 0, PROCESS)
    ensures Rest(files, n, n, PROCESS) == []
  {
  }

  lemma RestStart(files: Files, n: nat, idx: int)
    requires n > 0 && idx == n - 1
    ensures Rest(files, n, idx, PRESET) == ScanOrder(files, n)
  {
  }

  class Options {
    const homeCount: nat            // entries of papzHomeList before its NULL
    var errStop: bool               // OPTPROC_ERRSTOP in fOptSet
    var presets: seq<Visit>         // what file_preset has loaded

    constructor (homeCount: nat, errStop: bool)
      ensures this.homeCount == homeCount && this.errStop == errStop && presets == []
    {
      this.homeCount := homeCount;
      this.errStop := errStop;
      presets := [];
    }

    /** intern_file_load: every run of the loop ends, and the flags are as before. */
    method InternFileLoad(files: Files)
      requires homeCount > 0
      modifies this
      ensures presets == old(presets) + ScanOrder(files, homeCount)
      ensures IsScan(files, homeCount, presets[|old(presets)|..])
      ensures errStop == old(errStop)
    {
      hide Rest, ScanOrder, Turn, IsScan;
      var saved := errStop;
      errStop := false;
      var inc := PRESET;
      var idx := 0;
      while idx + 1 < homeCount
        invariant 0 <= idx < homeCount
      {
        idx := idx + 1;
      }
      RestEnds(files, homeCount);
      RestStart(files, homeCount, idx);
      while true
        invariant inc == PRESET || inc == PROCESS
        invariant -1 <= idx <= homeCount && (inc == PRESET ==> idx < homeCount)
        invariant inc == PROCESS ==> 0 <= idx
        invariant !errStop
        invariant presets + Rest(files, homeCount, idx, inc) == old(presets) + ScanOrder(files, homeCount)
        decreases if inc == PRESET then 1 else 0, if inc == PRESET then idx else homeCount - idx
      {
        if idx < 0 {
          inc := PROCESS;
          idx := 0;
        }
        if idx == homeCount { break; }
        RestStep(files, homeCount, idx, inc);
        var path := idx;
        idx := idx + inc;
        if files.usable(path, inc) {
          presets := presets + [Visit(path, inc, errStop)];
          if inc == PRESET && files.disables(path) {
            idx := idx - inc;
            inc := PROCESS;
          }
        }
      }
      errStop := saved;
      ScanOrderIsScan(files, homeCount);
    }
  }
}
