/** The sequence-alignment baseline (`apps_sfdl_hw/dna_align_p_exo.cpp`): the table holds lengths of longest
    common subsequences although its maximum looks at one case only, and the traceback spells one. */
module Lcs {
  import opened Arith
  import opened Vectors

  // ----- longest common subsequences -----

  /** `s` can be obtained from `t` by leaving elements out. */
  ghost predicate IsSub(s: seq<int>, t: seq<int>)
    decreases |t|
  {
    s == [] || (t != [] && ((s[0] == t[0] && IsSub(s[1..], t[1..])) || IsSub(s, t[1..])))
  }

  /** The textbook recurrence, with a full maximum. */
  function Len(a: seq<int>, b: seq<int>): nat
    decreases |a| + |b|
  {
    if a == [] || b == [] then 0
    else if a[0] == b[0] then Len(a[1..], b[1..]) + 1
    else
      var down, right := Len(a[1..], b), Len(a, b[1..]);
      if down >= right then down else right
  }

  /** Dropping the first element of either sequence costs at most one. */
  lemma {:induction false} DropCost(a: seq<int>, b: seq<int>)
    ensures a != [] ==> Len(a[1..], b) <= Len(a, b) <= Len(a[1..], b) + 1
    ensures b != [] ==> Len(a, b[1..]) <= Len(a, b) <= Len(a, b[1..]) + 1
    decreases |a| + |b|
  {
    if a != [] && b != [] {
      DropCost(a[1..], b);
      DropCost(a, b[1..]);
      DropCost(a[1..], b[1..]);
    }
  }

  /** So the two neighbours of a cell differ by at most one, and comparing `down == right + 1` is enough. */
  lemma NeighboursClose(a: seq<int>, b: seq<int>)
    requires a != [] && b != []
    ensures -1 <= Len(a[1..], b) - Len(a, b[1..]) <= 1
  {
    DropCost(a[1..], b);
    DropCost(a, b[1..]);
  }

  lemma {:induction false} SubTail(s: seq<int>, t: seq<int>)
    requires s != [] && t != [] && IsSub(s, t)
    ensures IsSub(s[1..], t[1..])
    decreases |t|
  {
    if !(s[0] == t[0] && IsSub(s[1..], t[1..])) {
      SubDrop(s, t[1..]);
    }
  }

  lemma {:induction false} SubDrop(s: seq<int>, t: seq<int>)
    requires s != [] && IsSub(s, t)
    ensures IsSub(s[1..], t)
    decreases |t|
  {
    if s[0] == t[0] && IsSub(s[1..], t[1..]) {
    } else {
      SubDrop(s, t[1..]);
    }
  }

  /** No common subsequence is longer. */
  lemma {:induction false} UpperBound(s: seq<int>, a: seq<int>, b: seq<int>)
    requires IsSub(s, a) && IsSub(s, b)
    ensures |s| <= Len(a, b)
    decreases |a| + |b|
  {
    if s != [] {
      if a[0] == b[0] {
        SubTail(s, a);
        SubTail(s, b);
        UpperBound(s[1..], a[1..], b[1..]);
      } else if s[0] != a[0] {
        UpperBound(s, a[1..], b);
      } else {
        UpperBound(s, a, b[1..]);
      }
    }
  }

  // ----- the table -----

  /** What the score function returns: 0 outside the table. */
  function Score(ll: seq<int>, i: int, j: int, m: nat, n: nat): int
    requires |ll| == m * n
  {
    if i < 0 || j < 0 || i >= m || j >= n then 0 else Cell(ll, i, j, n)
  }

  /** Cell `(i, j)` holds the length for the suffixes from `i` and `j`, and the choice explains it:
      0 match, 1 down, 2 right. */
  ghost predicate CellOk(ll: seq<int>, ch: seq<int>, a: seq<int>, b: seq<int>, i: nat, j: nat)
    requires i < |a| && j < |b|
  {
    && Cell(ll, i, j, |b|) == Len(a[i..], b[j..])
    && match Cell(ch, i, j, |b|)
       case 0 => a[i] == b[j]
       case 1 => a[i] != b[j] && Len(a[i + 1..], b[j..]) == Len(a[i..], b[j + 1..]) + 1
       case 2 => a[i] != b[j] && Len(a[i + 1..], b[j..]) != Len(a[i..], b[j + 1..]) + 1
       case _ => false
  }

  /** Rows below `i` are done, and row `i` from column `j` on. */
  ghost predicate Done(ll: seq<int>, ch: seq<int>, a: seq<int>, b: seq<int>, i: int, j: int) {
    forall r: nat, c: nat :: r < |a| && c < |b| && (r > i || (r == i && c >= j)) ==> CellOk(ll, ch, a, b, r, c)
  }

  lemma ScoreIsLen(ll: seq<int>, ch: seq<int>, a: seq<int>, b: seq<int>, i: int, j: int, r: nat, c: nat)
    requires |ll| == |a| * |b| && Done(ll, ch, a, b, i, j) && r <= |a| && c <= |b| && (r > i || (r == i && c >= j))
    ensures Score(ll, r, c, |a|, |b|) == Len(a[r..], b[c..])
  {
    if r < |a| && c < |b| { assert CellOk(ll, ch, a, b, r, c); }
  }

  /** One cell: the value and choice the loop body computes. */
  lemma CellStep(a: seq<int>, b: seq<int>, i: nat, j: nat)
    requires i < |a| && j < |b|
    ensures a[i] == b[j] ==> Len(a[i..], b[j..]) == Len(a[i + 1..], b[j + 1..]) + 1
    ensures a[i] != b[j] ==>
              var down, right := Len(a[i + 1..], b[j..]), Len(a[i..], b[j + 1..]);
              Len(a[i..], b[j..]) == if down == right + 1 then down else right
  {
    var x, y := a[i..], b[j..];
    assert x[1..] == a[i + 1..] && y[1..] == b[j + 1..];
    NeighboursClose(x, y);
  }

  lemma DoneStep(ll: seq<int>, ch: seq<int>, a: seq<int>, b: seq<int>, i: nat, j: nat, v: int, c: int)
    requires i < |a| && j < |b| && |ll| == |ch| == |a| * |b| && Done(ll, ch, a, b, i, j + 1)
    requires v == Len(a[i..], b[j..]) && 0 <= c <= 2 && (c == 0 <==> a[i] == b[j])
    requires c == 1 ==> Len(a[i + 1..], b[j..]) == Len(a[i..], b[j + 1..]) + 1
    requires c == 2 ==> Len(a[i + 1..], b[j..]) != Len(a[i..], b[j + 1..]) + 1
    ensures i * |b| + j < |ll|
    ensures Done(ll[i * |b| + j := v], ch[i * |b| + j := c], a, b, i, j)
  {
    var n := |b|;
    OtherCell(ll, i, j, |a|, n, v, i, j);
    var ll', ch' := ll[i * n + j := v], ch[i * n + j := c];
    forall r: nat, q: nat | r < |a| && q < n && (r > i || (r == i && q >= j)) ensures CellOk(ll', ch', a, b, r, q) {
      OtherCell(ll, i, j, |a|, n, v, r, q);
      OtherCell(ch, i, j, |a|, n, c, r, q);
      if !(r == i && q == j) { assert CellOk(ll, ch, a, b, r, q); }
    }
  }

  method FillCell(a: seq<int>, b: seq<int>, ll: array<int>, ch: array<int>, i: nat, j: nat)
    requires i < |a| && j < |b| && ll != ch && ll.Length == ch.Length == |a| * |b| && Done(ll[..], ch[..], a, b, i, j + 1)
    modifies ll, ch
    ensures Done(ll[..], ch[..], a, b, i, j)
  {
    var m, n := |a|, |b|;
    ghost var l0, c0 := ll[..], ch[..];
    IndexInside(i, j, m, n);
    CellStep(a, b, i, j);
    ScoreIsLen(l0, c0, a, b, i, j + 1, i + 1, j + 1);
    ScoreIsLen(l0, c0, a, b, i, j + 1, i + 1, j);
    ScoreIsLen(l0, c0, a, b, i, j + 1, i, j + 1);
    var k := i * n + j;
    if a[i] == b[j] {
      ll[k] := Score(ll[..], i + 1, j + 1, m, n) + 1;
      ch[k] := 0;
    } else {
      var down := Score(ll[..], i + 1, j, m, n);
      var right := Score(ll[..], i, j + 1, m, n);
      if down == right + 1 {
        ll[k] := down;
        ch[k] := 1;
      } else {
        ll[k] := right;
        ch[k] := 2;
      }
    }
    DoneStep(l0, c0, a, b, i, j, ll[k], ch[k]);
    assert ll[..] == l0[k := ll[k]] && ch[..] == c0[k := ch[k]];
  }

  /** The filling loops, last row and last column first. */
  method FillTable(a: seq<int>, b: seq<int>) returns (ll: array<int>, ch: array<int>)
    ensures ll.Length == ch.Length == |a| * |b| && Done(ll[..], ch[..], a, b, -1, 0)
  {
    ll, ch := new int[|a| * |b|], new int[|a| * |b|];
    var i := |a|;
    while i > 0
      invariant i <= |a| && Done(ll[..], ch[..], a, b, i - 1, |b|)
    {
      i := i - 1;
      var j := |b|;
      while j > 0
        invariant j <= |b| && Done(ll[..], ch[..], a, b, i, j)
      {
        j := j - 1;
        FillCell(a, b, ll, ch, i, j);
      }
    }
  }

  // ----- the traceback -----

  lemma SubMatch(s: seq<int>, t: seq<int>, i: nat)
    requires i < |t| && IsSub(s, t[i + 1..])
    ensures IsSub([t[i]] + s, t[i..]) && IsSub(s, t[i..])
  {
    var x := [t[i]] + s;
    assert x[1..] == s && t[i..][1..] == t[i + 1..];
  }

  /** What the traceback spells from a cell on. */
  function Spelled(ch: seq<int>, a: seq<int>, b: seq<int>, i: nat, j: nat): seq<int>
    requires |ch| == |a| * |b| && i <= |a| && j <= |b|
    decreases |a| - i + (|b| - j)
  {
    if i == |a| || j == |b| then []
    else if Cell(ch, i, j, |b|) == 0 then [a[i]] + Spelled(ch, a, b, i + 1, j + 1)
    else if Cell(ch, i, j, |b|) == 1 then Spelled(ch, a, b, i + 1, j)
    else Spelled(ch, a, b, i, j + 1)
  }

  /** The common subsequence the traceback prefers: match where possible, else drop from the second sequence
      unless that loses. */
  function Chosen(a: seq<int>, b: seq<int>): seq<int>
    decreases |a| + |b|
  {
    if a == [] || b == [] then []
    else if a[0] == b[0] then [a[0]] + Chosen(a[1..], b[1..])
    else if Len(a[1..], b) == Len(a, b[1..]) + 1 then Chosen(a[1..], b)
    else Chosen(a, b[1..])
  }

  /** The preference, independent of how it is computed: the first element of the first sequence is kept whenever
      some longest common subsequence starts with it. */
  lemma {:induction false} KeepsFirst(s: seq<int>, a: seq<int>, b: seq<int>)
    requires s != [] && a != [] && s[0] == a[0] && IsSub(s, a) && IsSub(s, b) && |s| == Len(a, b)
    ensures Chosen(a, b) != [] && Chosen(a, b)[0] == a[0]
    decreases |b|
  {
    if a[0] != b[0] {
      assert IsSub(s, b[1..]);
      UpperBound(s, a, b[1..]);
      DropCost(a, b);
      KeepsFirst(s, a, b[1..]);
    }
  }

  /** From every cell the traceback spells a common subsequence of the length stored there. */
  lemma {:induction false} SpelledIsLongest(ll: seq<int>, ch: seq<int>, a: seq<int>, b: seq<int>, i: nat, j: nat)
    requires |ll| == |ch| == |a| * |b| && i <= |a| && j <= |b| && Done(ll, ch, a, b, -1, 0)
    ensures var s := Spelled(ch, a, b, i, j); IsSub(s, a[i..]) && IsSub(s, b[j..]) && |s| == Len(a[i..], b[j..])
    ensures Spelled(ch, a, b, i, j) == Chosen(a[i..], b[j..])
    decreases |a| - i + (|b| - j)
  {
    if i < |a| && j < |b| {
      assert CellOk(ll, ch, a, b, i, j);
      assert a[i..][1..] == a[i + 1..] && b[j..][1..] == b[j + 1..];
      CellStep(a, b, i, j);
      if Cell(ch, i, j, |b|) == 0 {
        SpelledIsLongest(ll, ch, a, b, i + 1, j + 1);
        SubMatch(Spelled(ch, a, b, i + 1, j + 1), a, i);
        SubMatch(Spelled(ch, a, b, i + 1, j + 1), b, j);
      } else if Cell(ch, i, j, |b|) == 1 {
        SpelledIsLongest(ll, ch, a, b, i + 1, j);
        SubMatch(Spelled(ch, a, b, i + 1, j), a, i);
      } else {
        SpelledIsLongest(ll, ch, a, b, i, j + 1);
        SubMatch(Spelled(ch, a, b, i, j + 1), b, j);
      }
    }
  }

  /** The walk through the choices, comparing with the claimed output on the way. */
  method Trace(ch: seq<int>, a: seq<int>, b: seq<int>, output: seq<int>) returns (same: bool, checkIndex: nat)
    requires |ch| == |a| * |b| && |Spelled(ch, a, b, 0, 0)| <= |output|
    ensures checkIndex == |Spelled(ch, a, b, 0, 0)|
    ensures same <==> output[..checkIndex] == Spelled(ch, a, b, 0, 0)
  {
    ghost var all := Spelled(ch, a, b, 0, 0);
    var i, j := 0, 0;
    checkIndex := 0;
    same := true;
    while i < |a| && j < |b|
      invariant i <= |a| && j <= |b| && checkIndex <= |all|
      invariant all[checkIndex..] == Spelled(ch, a, b, i, j)
      invariant same <==> output[..checkIndex] == all[..checkIndex]
      decreases |a| - i + (|b| - j)
    {
      var c := Cell(ch, i, j, |b|);
      if c == 0 {
        assert all[checkIndex] == a[i] && all[checkIndex..][1..] == all[checkIndex + 1..];
        PrefixGrows(output, all, checkIndex);
        if a[i] != output[checkIndex] {
          same := false;
        }
        checkIndex := checkIndex + 1;
        i, j := i + 1, j + 1;
      } else if c == 1 {
        i := i + 1;
      } else {
        j := j + 1;
      }
    }
    assert |all[checkIndex..]| == 0;
    assert all[..checkIndex] == all;
  }

  lemma PrefixGrows(x: seq<int>, y: seq<int>, k: nat)
    requires k < |x| && k < |y|
    ensures x[..k + 1] == y[..k + 1] <==> x[..k] == y[..k] && x[k] == y[k]
  {
    assert x[..k + 1] == x[..k] + [x[k]] && y[..k + 1] == y[..k] + [y[k]];
  }

  /** `baseline`: accepts exactly the outputs that start with the preferred common subsequence, which is a
      longest one. */
  method Baseline(a: seq<int>, b: seq<int>, output: seq<int>) returns (same: bool)
    requires Len(a, b) <= |output|
    ensures IsSub(Chosen(a, b), a) && IsSub(Chosen(a, b), b) && |Chosen(a, b)| == Len(a, b)
    ensures forall t :: IsSub(t, a) && IsSub(t, b) ==> |t| <= Len(a, b)
    ensures same <==> output[..Len(a, b)] == Chosen(a, b)
  {
    var ll, ch := FillTable(a, b);
    SpelledIsLongest(ll[..], ch[..], a, b, 0, 0);
    assert a[0..] == a && b[0..] == b;
    var k;
    same, k := Trace(ch[..], a, b, output);
    forall t | IsSub(t, a) && IsSub(t, b) ensures |t| <= Len(a, b) { UpperBound(t, a, b); }
  }
}
