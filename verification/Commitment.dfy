/** The linear commitment: consistency arithmetic over the integers and the test that ties the answers to
    the commitment (`consistency_test` in `libv/libv.cpp`, `libv/verifier.cpp`). */
module Commitment {
  import opened Arith
  import opened Layout
  import opened Vectors
  import opened Aggregate
  import opened Gamma
  import opened Pcp
  import opened PcpComplete
  import opened Parties
  import opened ElGamal

  /** `consistency_test`: nothing is reduced modulo the field's prime. */
  method ConsistencyTest(conAnswer: int, comAnswer: int, answers: seq<int>, coins: seq<int>, order: int, k: Key)
    returns (ok: bool)
    requires k.p > 0 && |coins| == |answers|
    ensures ok <==> var x := conAnswer - Dot(coins, answers); 0 <= x < order && PowMod(k.g, x, k.p) == comAnswer
  {
    var temp := 0;
    for i := 0 to |answers|
      invariant temp == DotTo(coins, answers, i)
    {
      temp := temp + coins[i] * answers[i];
    }
    temp := conAnswer - temp;
    if 0 <= temp && temp < order {
      ok := PowMod(k.g, temp, k.p) == comAnswer;
    } else {
      ok := false;
    }
  }

  /** Splitting the coin-weighted answers by proof vector. */
  lemma {:induction false} CoinsByVector(coins: seq<int>, qs: seq<Query>, answers: seq<int>, f1: seq<int>, f2: seq<int>)
    requires |f2| == |f1| * |f1| && |coins| == |qs| == |answers| && AnswersRound(answers, 0, qs, f1, f2)
    requires AllSized(qs, |f1|)
    ensures Dot(coins, answers) == CoinWeighted(coins, qs, true, f1) + CoinWeighted(coins, qs, false, f2)
    decreases |qs|
  {
    if qs != [] {
      var k := |qs| - 1;
      assert answers[0 + k] == Answer(qs[k], f1, f2);
      forall j | 0 <= j < k ensures Sized(qs[..k][j], |f1|) && answers[..k][0 + j] == Answer(qs[..k][j], f1, f2) {
        assert Sized(qs[j], |f1|) && answers[0 + j] == Answer(qs[j], f1, f2);
      }
      CoinsByVector(coins[..k], qs[..k], answers[..k], f1, f2);
      DotPrefix(coins, answers, k);
    }
  }

  lemma {:induction false} DotPrefix(a: seq<int>, b: seq<int>, n: nat)
    requires n <= |a| && n <= |b|
    ensures DotTo(a[..n], b[..n], n) == DotTo(a, b, n)
    decreases n
  {
    if n > 0 {
      DotPrefix(a, b, n - 1);
      DotPrefix(a[..n], b[..n], n - 1);
      assert a[..n][..n - 1] == a[..n - 1] && b[..n][..n - 1] == b[..n - 1];
    }
  }

  /** Over the integers, for any number of queries: the consistency answer minus the coin-weighted answers is
      the committed sum, the unmaterialised queries included. */
  lemma ConsistencyExact(v1: seq<int>, v2: seq<int>, r1: seq<int>, r2: seq<int>, coins: seq<int>, qs: seq<Query>, priv: Tape,
                         answers: seq<int>, f1: seq<int>, f2: seq<int>)
    requires |f2| == |f1| * |f1| && Accumulates(v1, v2, r1, r2, coins, qs, |f1|, priv)
    requires |answers| == |qs| && AnswersRound(answers, 0, qs, f1, f2)
    ensures |v1| == |f1| && |v2| == |f2|
    ensures Dot(v1, f1) + Dot(v2, f2) - Dot(coins, answers) == Dot(r1, f1) + Dot(r2, f2)
  {
    CombineAnswer(r1, coins, qs, true, f1);
    CombineAnswer(r2, coins, qs, false, f2);
    CoinsByVector(coins, qs, answers, f1, f2);
  }

  // ----- the range of the committed sum -----

  ghost predicate InField(v: seq<int>, prime: int) {
    forall i :: 0 <= i < |v| ==> 0 <= v[i] < prime
  }

  lemma {:induction false} DotRange(q: seq<int>, f: seq<int>, prime: int, n: nat)
    requires n <= |q| && n <= |f| && InField(q, prime) && InField(f, prime) && prime > 0
    ensures 0 <= DotTo(q, f, n) <= n * ((prime - 1) * (prime - 1))
    decreases n
  {
    if n > 0 {
      DotRange(q, f, prime, n - 1);
      MulMono(q[n - 1], prime - 1, f[n - 1], prime - 1);
      MulDist((prime - 1) * (prime - 1), n - 1, 1);
    }
  }

  /** `n * prime^2 <= order` leaves room for the sum of both parts. */
  lemma CommittedRange(r1: seq<int>, r2: seq<int>, f1: seq<int>, f2: seq<int>, prime: int, order: int)
    requires |r1| == |f1| && |r2| == |f2| && prime > 0 && order > 0
    requires InField(r1, prime) && InField(r2, prime) && InField(f1, prime) && InField(f2, prime)
    requires (|f1| + |f2|) * (prime * prime) <= order
    ensures 0 <= Dot(r1, f1) && 0 <= Dot(r2, f2) && Dot(r1, f1) + Dot(r2, f2) < order
  {
    var n, m, s := |f1|, |f2|, (prime - 1) * (prime - 1);
    DotRange(r1, f1, prime, n);
    DotRange(r2, f2, prime, m);
    MulDist(s, n, m);
    assert s < prime * prime || prime == 0 by { MulMono(prime - 1, prime, prime - 1, prime - 1); MulDist(prime, prime - 1, 1); }
    if n + m > 0 {
      MulMono(n + m, n + m, s + 1, prime * prime);
      MulDist(n + m, s, 1);
    }
  }

  /** The commitment answer: both parts multiplied together. */
  lemma CommitmentAnswer(k: Key, a: Cipher, b: Cipher, x: nat, r: nat, y: nat, r': nat)
    requires ValidKey(k) && Encodes(k, a, x, r) && Encodes(k, b, y, r')
    ensures Dec(k, HAdd(k, a, b)) == PowMod(k.g, x + y, k.p)
  {
    HAddEncodes(k, a, b, x, r, y, r');
    DecEncodes(k, HAdd(k, a, b), x + y, r + r');
  }
}
