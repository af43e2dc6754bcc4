/** Query construction shared by verifier and prover (`class Venezia` in `libv/libv.cpp`). The prover passes
    no consistency vector and no coins; both draw the public coins in the same order. */
module Venezia {
  import opened Arith
  import opened Vectors
  import opened Pcp

  /** `create_lin_test_queries`. The third query `l1 + l2` is never built: its coin `c3` is folded into the
      weights of the other two. */
  method CreateLinTestQueries(tape: Tape, pos: nat, l1: array<int>, l2: array<int>, con: array?<int>, c1: int, c2: int, c3: int)
    returns (next: nat)
    requires l1 != l2 && l1.Length == l2.Length && con != l1 && con != l2 && (con != null ==> con.Length == l1.Length)
    modifies l1, l2, con
    ensures next == pos + 2 * l1.Length
    ensures l1[..] == DrawA(tape, pos, l1.Length) && l2[..] == DrawB(tape, pos, l1.Length)
    ensures forall i :: 0 <= i < l1.Length ==> l1[i] == tape(pos + 2 * i) && l2[i] == tape(pos + 2 * i + 1)
    ensures con != null ==> forall i :: 0 <= i < con.Length ==> con[i] == old(con[i]) + (c1 + c3) * l1[i] + (c2 + c3) * l2[i]
  {
    var temp1, temp2 := c1 + c3, c2 + c3;
    next := pos;
    for i := 0 to l1.Length
      invariant next == pos + 2 * i
      invariant forall k :: 0 <= k < i ==> l1[k] == tape(pos + 2 * k) && l2[k] == tape(pos + 2 * k + 1)
      invariant con != null ==> forall k :: 0 <= k < i ==> con[k] == old(con[k]) + temp1 * l1[k] + temp2 * l2[k]
      invariant con != null ==> forall k :: i <= k < con.Length ==> con[k] == old(con[k])
    {
      l1[i] := tape(next);
      l2[i] := tape(next + 1);
      next := next + 2;
      if con != null {
        con[i] := con[i] + temp1 * l1[i];
        con[i] := con[i] + temp2 * l2[i];
      }
    }
  }

  /** `create_ckt_test_queries`: `q1 = q2 + a`, reduced. */
  method CreateCktTestQueries(a: array<int>, q1: array<int>, q2: array<int>, con: array?<int>, coin: int, prime: int)
    requires prime > 0 && a.Length == q1.Length == q2.Length && q1 != a && q1 != q2
    requires con != null ==> con.Length == q1.Length && con != q1 && con != a && con != q2
    modifies q1, con
    ensures q1[..] == PlusMod(q2[..], a[..], prime)
    ensures con != null ==> IsSum(con[..], old(con[..]), coin, q1[..])
  {
    for i := 0 to a.Length
      invariant forall k :: 0 <= k < i ==> q1[k] == (q2[k] + a[k]) % prime
      invariant con != null ==> forall k :: 0 <= k < i ==> con[k] == old(con[k]) + coin * q1[k]
      invariant con != null ==> forall k :: i <= k < con.Length ==> con[k] == old(con[k])
    {
      q1[i] := q2[i] + a[i];
      q1[i] := q1[i] % prime;
      if con != null {
        con[i] := con[i] + coin * q1[i];
      }
    }
  }

  /** Entry `k` of the correction query. */
  function CorrectionAt(x: seq<int>, y: seq<int>, r: seq<int>, p: int, k: int): int
    requires p > 0 && |x| == |y| && |r| == |x| * |y| && 0 <= k < |r|
  {
    (OuterAt(x, y, k) + r[k]) % p
  }

  /** `create_corr_test_queries_reuse`: `c3 = c1 (x) c2 + r`, reduced, with a running index. */
  method CreateCorrTestQueries(c1: array<int>, c2: array<int>, c3: array<int>, r: array<int>, con: array?<int>, coin: int,
                               prime: int)
    requires prime > 0 && c1.Length == c2.Length && c3.Length == r.Length == c1.Length * c2.Length
    requires c3 != c1 && c3 != c2 && c3 != r
    requires con != null ==> con.Length == c3.Length && con != c3 && con != c1 && con != c2 && con != r
    modifies c3, con
    ensures c3[..] == Correction(c1[..], c2[..], r[..], prime)
    ensures con != null ==> IsSum(con[..], old(con[..]), coin, c3[..])
  {
    var n := c1.Length;
    ghost var x, y, z := c1[..], c2[..], r[..];
    var index := 0;
    for i := 0 to n
      invariant index == i * n <= c3.Length
      invariant c1[..] == x && c2[..] == y && r[..] == z
      invariant Corrected(c3[..], x, y, z, prime, index)
      invariant con != null ==> Weighed(con[..], old(con[..]), c3[..], coin, index)
    {
      MulDist(n, i, 1);
      MulMono(i + 1, n, n, n);
      index := CorrectionRow(c1, c2, c3, r, con, coin, prime, i, index, x, y, z, if con == null then [] else old(con[..]));
    }
  }

  ghost predicate Corrected(c3: seq<int>, x: seq<int>, y: seq<int>, z: seq<int>, p: int, m: int)
    requires p > 0 && |x| == |y| && |z| == |x| * |y|
  {
    |c3| == |z| && forall k :: 0 <= k < m <= |z| ==> c3[k] == CorrectionAt(x, y, z, p, k)
  }

  ghost predicate Weighed(con: seq<int>, before: seq<int>, c3: seq<int>, coin: int, m: int) {
    && |con| == |before| == |c3| && (forall k :: 0 <= k < m <= |con| ==> con[k] == before[k] + coin * c3[k])
    && forall k :: 0 <= m <= k < |con| ==> con[k] == before[k]
  }

  method CorrectionRow(c1: array<int>, c2: array<int>, c3: array<int>, r: array<int>, con: array?<int>, coin: int, prime: int,
                       i: nat, start: nat, ghost x: seq<int>, ghost y: seq<int>, ghost z: seq<int>, ghost before: seq<int>)
    returns (index: nat)
    requires prime > 0 && c1.Length == c2.Length && c3.Length == r.Length == c1.Length * c2.Length
    requires c3 != c1 && c3 != c2 && c3 != r && i < c1.Length && start == i * c1.Length
    requires con != null ==> con.Length == c3.Length && con != c3 && con != c1 && con != c2 && con != r
    requires c1[..] == x && c2[..] == y && r[..] == z
    requires start + c1.Length <= c3.Length
    requires Corrected(c3[..], x, y, z, prime, start) && (con != null ==> Weighed(con[..], before, c3[..], coin, start))
    modifies c3, con
    ensures index == start + c1.Length
    ensures Corrected(c3[..], x, y, z, prime, index) && (con != null ==> Weighed(con[..], before, c3[..], coin, index))
  {
    var n := c1.Length;
    index := start;
    for j := 0 to n
      invariant index == start + j
      invariant Corrected(c3[..], x, y, z, prime, index)
      invariant con != null ==> Weighed(con[..], before, c3[..], coin, index)
    {
      DivModIs(index, i, j, n);
      assert OuterAt(x, y, index) == c1[i] * c2[j];
      c3[index] := c1[i] * c2[j];
      c3[index] := c3[index] + r[index];
      c3[index] := c3[index] % prime;
      if con != null {
        con[index] := con[index] + coin * c3[index];
      }
      index := index + 1;
    }
  }

  /** Folding the third query changes nothing: the consistency vector is the one that would be built from
      all three. */
  lemma FoldedThird(con: int, c1: int, c2: int, c3: int, l1: int, l2: int)
    ensures con + (c1 + c3) * l1 + (c2 + c3) * l2 == ((con + c1 * l1) + c2 * l2) + c3 * (l1 + l2)
  {
    MulDist(l1, c1, c3);
    MulDist(l2, c2, c3);
    MulDist(c3, l1, l2);
  }
}
