/** Numbering of variables (`read_var` in `code/compiler/backend/zcc_parser.py`) and the shuffled
    positions they take in the proof vector (`generate_F1_index`). */
module Layout {
  import opened Poly

  type Dict = map<Id, nat>

  /** A name already known keeps its index; a new one takes the next. */
  function ReadVar(d: Dict, name: Id, offset: nat): Dict {
    if name in d then d else d[name := offset + |d|]
  }

  function ReadVars(d: Dict, names: seq<Id>, offset: nat): Dict
    decreases |names|
  {
    if names == [] then d else ReadVars(ReadVar(d, names[0], offset), names[1..], offset)
  }

  /** Indices are `offset .. offset + |d|`, each used once. */
  ghost predicate Dense(d: Dict, offset: nat) {
    && (forall v :: v in d ==> offset <= d[v] < offset + |d|)
    && forall v, w :: v in d && w in d && d[v] == d[w] ==> v == w
  }

  lemma {:induction false} ReadVarsKeeps(d: Dict, names: seq<Id>, offset: nat)
    ensures forall v :: v in d ==> v in ReadVars(d, names, offset) && ReadVars(d, names, offset)[v] == d[v]
    decreases |names|
  {
    if names != [] {
      ReadVarsKeeps(ReadVar(d, names[0], offset), names[1..], offset);
    }
  }

  lemma {:induction false} ReadVarsDense(d: Dict, names: seq<Id>, offset: nat)
    requires Dense(d, offset)
    ensures Dense(ReadVars(d, names, offset), offset)
    decreases |names|
  {
    if names != [] {
      ReadVarsDense(ReadVar(d, names[0], offset), names[1..], offset);
    }
  }

  /** Whatever names are read, repeated or not: every one gets an index, no two share one, and the
      indices stay within as many as there are names. */
  lemma NumberedOnce(names: seq<Id>, offset: nat)
    ensures var d := ReadVars(map[], names, offset);
            && (forall i :: 0 <= i < |names| ==> names[i] in d)
            && (forall v :: v in d ==> offset <= d[v] < offset + |d|)
            && forall v, w :: v in d && w in d && d[v] == d[w] ==> v == w
  {
    ReadVarsDense(map[], names, offset);
    forall i | 0 <= i < |names| ensures names[i] in ReadVars(map[], names, offset) { AllNumbered(map[], names, offset, i); }
  }

  lemma {:induction false} AllNumbered(d: Dict, names: seq<Id>, offset: nat, i: nat)
    requires i < |names|
    ensures names[i] in ReadVars(d, names, offset)
    decreases |names|
  {
    var d1 := ReadVar(d, names[0], offset);
    if i == 0 { ReadVarsKeeps(d1, names[1..], offset); } else { AllNumbered(d1, names[1..], offset, i - 1); }
  }

  /** New names read one after the other get consecutive indices, so an instruction that holds only the
      first of them addresses the others by adding to it. */
  lemma {:induction false} Consecutive(d: Dict, names: seq<Id>, offset: nat)
    requires forall i :: 0 <= i < |names| ==> names[i] !in d
    requires forall i, j :: 0 <= i < j < |names| ==> names[i] != names[j]
    ensures forall i :: 0 <= i < |names| ==>
              names[i] in ReadVars(d, names, offset) && ReadVars(d, names, offset)[names[i]] == offset + |d| + i
    decreases |names|
  {
    if names != [] {
      var d1, rest := ReadVar(d, names[0], offset), names[1..];
      assert d1.Keys == d.Keys + {names[0]};
      Consecutive(d1, rest, offset);
      ReadVarsKeeps(d1, rest, offset);
      forall i | 0 <= i < |names|
        ensures names[i] in ReadVars(d, names, offset) && ReadVars(d, names, offset)[names[i]] == offset + |d| + i {
        if i > 0 { assert names[i] == rest[i - 1]; }
      }
    }
  }

  function NBitNames(target: string, k: nat): (r: seq<Id>)
    ensures |r| == k && forall i :: 0 <= i < k ==> r[i] == Aux(target, NBit(i))
  {
    seq(k, i requires 0 <= i < k => Aux(target, NBit(i)))
  }

  /** The bits of a comparison gate: variable `N_0 + i` of the worksheet instruction is the variable the
      constraints call `target$Ni`. */
  lemma GateBitsConsecutive(d: Dict, target: string, k: nat, offset: nat)
    requires forall i: nat :: i < k ==> Aux(target, NBit(i)) !in d
    ensures var d1 := ReadVars(d, NBitNames(target, k), offset);
            forall i: nat :: i < k ==>
              Aux(target, NBit(0)) in d1 && Aux(target, NBit(i)) in d1
              && d1[Aux(target, NBit(i))] == d1[Aux(target, NBit(0))] + i
  {
    Consecutive(d, NBitNames(target, k), offset);
    var d1 := ReadVars(d, NBitNames(target, k), offset);
    forall i: nat | i < k
      ensures Aux(target, NBit(i)) in d1 && d1[Aux(target, NBit(i))] == offset + |d| + i {
      assert NBitNames(target, k)[i] == Aux(target, NBit(i));
    }
  }

  /** `F1_index`: a shuffle of `0 .. n`. */
  ghost predicate IsShuffle(index: seq<nat>, n: nat) {
    && |index| == n
    && (forall i :: 0 <= i < n ==> index[i] < n)
    && forall i, j :: 0 <= i < j < n ==> index[i] != index[j]
  }

  /** Variable `k` is stored at position `F1_index[k]`, so no variable overwrites another. */
  method Place(vals: seq<int>, index: seq<nat>) returns (f1: array<int>)
    requires IsShuffle(index, |vals|)
    ensures fresh(f1) && f1.Length == |vals|
    ensures forall k :: 0 <= k < |vals| ==> f1[index[k]] == vals[k]
  {
    f1 := new int[|vals|];
    for i := 0 to |vals|
      invariant forall k :: 0 <= k < i ==> f1[index[k]] == vals[k]
    {
      f1[index[i]] := vals[i];
    }
  }
}
