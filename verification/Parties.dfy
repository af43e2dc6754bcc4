/** Verifier and prover of the Ginger PCP: how each builds its queries in place from the public coins
    (`libv/gcomputation_v.cpp`, `libv/gcomputation_p.cpp`) and how the prover answers (`libv/prover.cpp`). */
module Parties {
  import opened Arith
  import opened Layout
  import opened Vectors
  import opened Expand
  import opened Aggregate
  import opened Gamma
  import opened Pcp
  import opened Venezia

  // ----- the consistency vector -----

  /** `r` plus every query to this proof vector, each times its coin. */
  function Combine(r: seq<int>, coins: seq<int>, qs: seq<Query>, first: bool): (v: seq<int>)
    requires |coins| == |qs| && forall j :: 0 <= j < |qs| && qs[j].first == first ==> |qs[j].vec| == |r|
    ensures |v| == |r|
    decreases |qs|
  {
    if qs == [] then r
    else
      var k := |qs| - 1;
      var v := Combine(r, coins[..k], qs[..k], first);
      if qs[k].first == first then seq(|r|, i requires 0 <= i < |r| => v[i] + coins[k] * qs[k].vec[i]) else v
  }

  ghost predicate AllSized(qs: seq<Query>, n: nat) {
    forall j :: 0 <= j < |qs| ==> Sized(qs[j], n)
  }

  lemma CombineOne(r: seq<int>, coins: seq<int>, qs: seq<Query>, first: bool, c: int, q: Query)
    requires |coins| == |qs| && (q.first == first ==> |q.vec| == |r|)
    requires forall j :: 0 <= j < |qs| && qs[j].first == first ==> |qs[j].vec| == |r|
    ensures var v, w := Combine(r, coins, qs, first), Combine(r, coins + [c], qs + [q], first);
            if q.first == first then IsSum(w, v, c, q.vec) else w == v
  {
    assert (coins + [c])[..|qs|] == coins && (qs + [q])[..|qs|] == qs;
  }

  lemma ThreeSums(v: seq<int>, w1: seq<int>, w2: seq<int>, w3: seq<int>, c: seq<int>, l1: seq<int>, l2: seq<int>, v': seq<int>)
    requires |c| == 3 && |l1| == |l2| && IsSum(w1, v, c[0], l1) && IsSum(w2, w1, c[1], l2) && IsSum(w3, w2, c[2], SumOf(l1, l2))
    requires |v'| == |v| && forall i :: 0 <= i < |v| ==> v'[i] == v[i] + (c[0] + c[2]) * l1[i] + (c[1] + c[2]) * l2[i]
    ensures w3 == v'
  {
    forall i | 0 <= i < |v| ensures w3[i] == v'[i] {
      FoldedThird(v[i], c[0], c[1], c[2], l1[i], l2[i]);
    }
  }

  /** The three linearity queries of one proof vector, the third folded into the first two. */
  lemma CombineFolded(r: seq<int>, coins: seq<int>, qs: seq<Query>, first: bool, c: seq<int>, l1: seq<int>, l2: seq<int>,
                      v': seq<int>)
    requires |coins| == |qs| && |c| == 3 && |l1| == |l2| == |r| == |v'|
    requires forall j :: 0 <= j < |qs| && qs[j].first == first ==> |qs[j].vec| == |r|
    requires var v := Combine(r, coins, qs, first);
             forall i :: 0 <= i < |r| ==> v'[i] == v[i] + (c[0] + c[2]) * l1[i] + (c[1] + c[2]) * l2[i]
    ensures Combine(r, coins + c, qs + [Query(first, l1), Query(first, l2), Query(first, SumOf(l1, l2))], first) == v'
  {
    var a, b, d := Query(first, l1), Query(first, l2), Query(first, SumOf(l1, l2));
    CombineOne(r, coins, qs, first, c[0], a);
    CombineOne(r, coins + [c[0]], qs + [a], first, c[1], b);
    CombineOne(r, coins + [c[0]] + [c[1]], qs + [a] + [b], first, c[2], d);
    assert coins + [c[0]] + [c[1]] + [c[2]] == coins + c;
    assert qs + [a] + [b] + [d] == qs + [a, b, d];
    ThreeSums(Combine(r, coins, qs, first), Combine(r, coins + [c[0]], qs + [a], first),
              Combine(r, coins + [c[0]] + [c[1]], qs + [a] + [b], first), Combine(r, coins + c, qs + [a, b, d], first),
              c, l1, l2, v');
  }

  /** Queries to the other proof vector leave this one's combination alone. */
  lemma {:induction false} CombineOther(r: seq<int>, coins: seq<int>, qs: seq<Query>, first: bool, c: seq<int>, more: seq<Query>)
    requires |coins| == |qs| && |c| == |more| && forall j :: 0 <= j < |more| ==> more[j].first != first
    requires forall j :: 0 <= j < |qs| && qs[j].first == first ==> |qs[j].vec| == |r|
    ensures Combine(r, coins + c, qs + more, first) == Combine(r, coins, qs, first)
    decreases |more|
  {
    if more == [] {
      assert coins + c == coins && qs + more == qs;
    } else {
      var k := |more| - 1;
      CombineOther(r, coins, qs, first, c[..k], more[..k]);
      assert (coins + c)[..|qs| + k] == coins + c[..k] && (qs + more)[..|qs| + k] == qs + more[..k];
    }
  }

  /** Over the integers, the consistency answer is the committed sum plus the coin-weighted answers. */
  lemma {:induction false} CombineAnswer(r: seq<int>, coins: seq<int>, qs: seq<Query>, first: bool, f: seq<int>)
    requires |coins| == |qs| && |f| == |r| && forall j :: 0 <= j < |qs| && qs[j].first == first ==> |qs[j].vec| == |r|
    ensures Dot(Combine(r, coins, qs, first), f) == Dot(r, f) + CoinWeighted(coins, qs, first, f)
    decreases |qs|
  {
    if qs != [] {
      var k := |qs| - 1;
      CombineAnswer(r, coins[..k], qs[..k], first, f);
      if qs[k].first == first {
        DotSum(Combine(r, coins, qs, first), Combine(r, coins[..k], qs[..k], first), coins[k], qs[k].vec, f);
      }
    }
  }

  function CoinWeighted(coins: seq<int>, qs: seq<Query>, first: bool, f: seq<int>): int
    requires |coins| == |qs| && forall j :: 0 <= j < |qs| && qs[j].first == first ==> |qs[j].vec| == |f|
    decreases |qs|
  {
    if qs == [] then 0
    else
      var k := |qs| - 1;
      CoinWeighted(coins[..k], qs[..k], first, f) + if qs[k].first == first then coins[k] * Dot(qs[k].vec, f) else 0
  }

  /** The consistency vectors `v1`, `v2` combine exactly the queries `qs`, query `j` under coin `j`. */
  ghost predicate Accumulates(v1: seq<int>, v2: seq<int>, r1: seq<int>, r2: seq<int>, coins: seq<int>, qs: seq<Query>,
                              n: nat, priv: Tape)
  {
    && |r1| == n && |r2| == n * n && |coins| == |qs| && AllSized(qs, n)
    && (forall j :: 0 <= j < |coins| ==> coins[j] == priv(j))
    && v1 == Combine(r1, coins, qs, true) && v2 == Combine(r2, coins, qs, false)
  }

  function NextCoins(coins: seq<int>, k: nat, priv: Tape): (c: seq<int>)
    ensures |c| == k
  {
    seq(k, i requires 0 <= i < k => priv(|coins| + i))
  }

  function Triple(first: bool, l1: seq<int>, l2: seq<int>): seq<Query>
    requires |l1| == |l2|
  {
    [Query(first, l1), Query(first, l2), Query(first, SumOf(l1, l2))]
  }

  /** `v'` is `v` with the two linearity queries added under folded coins. */
  ghost predicate Folded(v': seq<int>, v: seq<int>, c: seq<int>, l1: seq<int>, l2: seq<int>) {
    && |v'| == |v| == |l1| == |l2| && |c| == 3
    && forall i :: 0 <= i < |v| ==> v'[i] == v[i] + (c[0] + c[2]) * l1[i] + (c[1] + c[2]) * l2[i]
  }

  lemma CoinsGrow(coins: seq<int>, k: nat, priv: Tape)
    requires forall j :: 0 <= j < |coins| ==> coins[j] == priv(j)
    ensures forall j :: 0 <= j < |coins + NextCoins(coins, k, priv)| ==> (coins + NextCoins(coins, k, priv))[j] == priv(j)
  {
  }

  lemma LinStepFirst(v1: seq<int>, v2: seq<int>, r1: seq<int>, r2: seq<int>, coins: seq<int>, qs: seq<Query>, n: nat,
                     priv: Tape, l1: seq<int>, l2: seq<int>, v': seq<int>)
    requires Accumulates(v1, v2, r1, r2, coins, qs, n, priv) && Folded(v', v1, NextCoins(coins, 3, priv), l1, l2)
    ensures Accumulates(v', v2, r1, r2, coins + NextCoins(coins, 3, priv), qs + Triple(true, l1, l2), n, priv)
  {
    var c := NextCoins(coins, 3, priv);
    CombineFolded(r1, coins, qs, true, c, l1, l2, v');
    CombineOther(r2, coins, qs, false, c, Triple(true, l1, l2));
    CoinsGrow(coins, 3, priv);
  }

  lemma LinStepSecond(v1: seq<int>, v2: seq<int>, r1: seq<int>, r2: seq<int>, coins: seq<int>, qs: seq<Query>, n: nat,
                      priv: Tape, l1: seq<int>, l2: seq<int>, v': seq<int>)
    requires Accumulates(v1, v2, r1, r2, coins, qs, n, priv) && Folded(v', v2, NextCoins(coins, 3, priv), l1, l2)
    ensures Accumulates(v1, v', r1, r2, coins + NextCoins(coins, 3, priv), qs + Triple(false, l1, l2), n, priv)
  {
    var c := NextCoins(coins, 3, priv);
    CombineFolded(r2, coins, qs, false, c, l1, l2, v');
    CombineOther(r1, coins, qs, true, c, Triple(false, l1, l2));
    CoinsGrow(coins, 3, priv);
  }

  /** One further query. */
  lemma OneStep(v1: seq<int>, v2: seq<int>, r1: seq<int>, r2: seq<int>, coins: seq<int>, qs: seq<Query>, n: nat,
                priv: Tape, q: Query, v1': seq<int>, v2': seq<int>)
    requires Accumulates(v1, v2, r1, r2, coins, qs, n, priv) && Sized(q, n)
    requires if q.first then IsSum(v1', v1, priv(|coins|), q.vec) && v2' == v2
             else IsSum(v2', v2, priv(|coins|), q.vec) && v1' == v1
    ensures Accumulates(v1', v2', r1, r2, coins + [priv(|coins|)], qs + [q], n, priv)
  {
    CombineOne(r1, coins, qs, true, priv(|coins|), q);
    CombineOne(r2, coins, qs, false, priv(|coins|), q);
  }
}
