// Which of the names a name stands for.
module SetNames {
  import opened CTypes
  import opened SetSpec

  /** The documented choice: the first full match, or else the only partial match. */
  ghost predicate Chosen(name: seq<Byte>, names: Names, k: nat) {
    && k < |names|
    && if names[k] == name then forall i :: 0 <= i < k ==> names[i] != name
       else name <= names[k]
            && forall i :: 0 <= i < |names| && i != k ==> !(name <= names[i])
  }

  /** What the loop has remembered of the names before ix. */
  ghost predicate Remembered(name: seq<Byte>, names: Names, ix: nat, res: nat) {
    && ix <= |names|
    && (forall i :: 0 <= i < ix ==> names[i] != name)
    && (if res < |names| then
          res < ix && name <= names[res]
          && forall i :: 0 <= i < ix && i != res ==> !(name <= names[i])
        else if res == |names| then forall i :: 0 <= i < ix ==> !(name <= names[i])
        else exists i, j :: 0 <= i < j < ix && name <= names[i] && name <= names[j])
  }

  lemma {:induction false} LookUpChooses(name: seq<Byte>, names: Names, ix: nat, res: nat)
    requires Remembered(name, names, ix, res)
    ensures LookUp(name, names, ix, res).Some? ==>
              Chosen(name, names, LookUp(name, names, ix, res).value)
    ensures LookUp(name, names, ix, res).None? ==>
              forall k :: 0 <= k < |names| ==> !Chosen(name, names, k)
    decreases |names| - ix
  {
    if ix < |names| && names[ix] != name {
      var next := if !(name <= names[ix]) then res else if res == |names| then ix else |names| + 1;
      RememberNext(name, names, ix, res, next);
      LookUpChooses(name, names, ix + 1, next);
    }
  }

  lemma RememberNext(name: seq<Byte>, names: Names, ix: nat, res: nat, next: nat)
    requires Remembered(name, names, ix, res) && ix < |names| && names[ix] != name
    requires next == if !(name <= names[ix]) then res
                     else if res == |names| then ix else |names| + 1
    ensures Remembered(name, names, ix + 1, next)
  {
    if name <= names[ix] && res < |names| {
      assert 0 <= res < ix < ix + 1 && name <= names[res] && name <= names[ix];
    }
  }

  lemma ChosenOnce(name: seq<Byte>, names: Names, k: nat, l: nat)
    requires Chosen(name, names, k) && Chosen(name, names, l)
    ensures k == l
  {
  }

  /** The search finds the name that is chosen, and nothing if none is. */
  lemma LookUpIs(name: seq<Byte>, names: Names)
    ensures forall k: nat :: LookUp(name, names, 0, |names|) == Some(k) <==> Chosen(name, names, k)
  {
    LookUpChooses(name, names, 0, |names|);
    forall k: nat ensures LookUp(name, names, 0, |names|) == Some(k) <==> Chosen(name, names, k) {
      var r := LookUp(name, names, 0, |names|);
      if r.Some? && Chosen(name, names, k) { ChosenOnce(name, names, k, r.value); }
    }
  }
}
