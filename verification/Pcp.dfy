/** The Ginger linear PCP: which queries the public coins determine, the verifier's tests, and why the
    answers of an honest prover pass them (`libv/gcomputation_v.cpp`, `libv/libv.cpp`). */
module Pcp {
  import opened Arith
  import opened Layout
  import opened Vectors
  import opened Aggregate
  import opened Gamma

  /** The public random tape: draw `k` is `tape(k)`. */
  type Tape = nat -> int

  /** A query vector, put to the first proof vector (the variables) or the second (their products). */
  datatype Query = Query(first: bool, vec: seq<int>)

  /** What a deployment fixes: variables, constraints, their gamma file and shuffle, repetitions, prime. */
  datatype Setup = Setup(n: nat, cons: nat, es: seq<Entry>, index: seq<nat>, linReps: nat, prime: int)

  ghost predicate ValidSetup(s: Setup) {
    s.prime > 0 && s.linReps >= 1 && Fits12(s.es, s.cons, s.index, s.n)
  }

  // ----- queries as a function of the tape -----

  /** Two vectors drawn in turns: `l1[0], l2[0], l1[1], ...`. */
  function DrawA(tape: Tape, pos: nat, m: nat): (r: seq<int>)
    ensures |r| == m
  {
    seq(m, i requires 0 <= i < m => tape(pos + 2 * i))
  }

  function DrawB(tape: Tape, pos: nat, m: nat): (r: seq<int>)
    ensures |r| == m
  {
    seq(m, i requires 0 <= i < m => tape(pos + 2 * i + 1))
  }

  function DrawVec(tape: Tape, pos: nat, m: nat): (r: seq<int>)
    ensures |r| == m
  {
    seq(m, i requires 0 <= i < m => tape(pos + i))
  }

  function SumOf(a: seq<int>, b: seq<int>): (r: seq<int>)
    requires |a| == |b|
    ensures |r| == |a| && forall i :: 0 <= i < |a| ==> r[i] == a[i] + b[i]
  {
    seq(|a|, i requires 0 <= i < |a| => a[i] + b[i])
  }

  function PlusMod(a: seq<int>, b: seq<int>, p: int): (r: seq<int>)
    requires |a| == |b| && p > 0
    ensures |r| == |a| && forall i :: 0 <= i < |a| ==> r[i] == (a[i] + b[i]) % p
  {
    seq(|a|, i requires 0 <= i < |a| => (a[i] + b[i]) % p)
  }

  /** Draws one linearity repetition uses. */
  function LinDraws(n: nat): nat { 2 * n + 2 * (n * n) }

  /** One linearity repetition: two random queries and their sum, for each proof vector. */
  function LinQueries(tape: Tape, pos: nat, n: nat): (r: seq<Query>)
    ensures |r| == 6
  {
    var a, b := DrawA(tape, pos, n), DrawB(tape, pos, n);
    var c, d := DrawA(tape, pos + 2 * n, n * n), DrawB(tape, pos + 2 * n, n * n);
    [Query(true, a), Query(true, b), Query(true, SumOf(a, b)), Query(false, c), Query(false, d), Query(false, SumOf(c, d))]
  }

  function LinStart(pos: nat, n: nat, k: nat): (r: nat)
    ensures r >= pos
  {
    if k == 0 then pos else LinStart(pos, n, k - 1) + LinDraws(n)
  }

  function LinAll(tape: Tape, pos: nat, n: nat, k: nat): (r: seq<Query>)
    ensures |r| == 6 * k
  {
    if k == 0 then [] else LinAll(tape, pos, n, k - 1) + LinQueries(tape, LinStart(pos, n, k - 1), n)
  }

  /** `x (x) y + r`, reduced. */
  function Correction(x: seq<int>, y: seq<int>, r: seq<int>, p: int): (q: seq<int>)
    requires p > 0 && |x| == |y| && |r| == |x| * |y|
    ensures |q| == |r|
  {
    PlusMod(Outer(x, y), r, p)
  }

  /** One repetition of the PCP: the linearity repetitions, then the quadratic-correction and
      circuit queries, self-corrected by the first linearity queries. */
  function RoundAlpha(s: Setup, tape: Tape, pos: nat): (r: seq<int>)
    ensures |r| == s.cons
  {
    DrawVec(tape, LinStart(pos, s.n, s.linReps), s.cons)
  }

  /** Quadratic correction, then the two circuit queries. */
  function HeadQueries(a: seq<int>, b: seq<int>, c: seq<int>, g: (seq<int>, seq<int>), p: int): (r: seq<Query>)
    requires p > 0 && |a| == |b| == |g.0| && |c| == |g.1| == |a| * |a|
    ensures |r| == 3
  {
    [Query(false, Correction(a, b, c, p)), Query(true, PlusMod(a, g.0, p)), Query(false, PlusMod(c, g.1, p))]
  }

  function RoundQueries(s: Setup, tape: Tape, pos: nat): (r: seq<Query>)
    requires ValidSetup(s)
    ensures |r| == 6 * s.linReps + 3
  {
    var a, b := DrawA(tape, pos, s.n), DrawB(tape, pos, s.n);
    var c := DrawA(tape, pos + 2 * s.n, s.n * s.n);
    var g := Gamma12(s.es, RoundAlpha(s, tape, pos), s.index, s.n);
    LinAll(tape, pos, s.n, s.linReps) + HeadQueries(a, b, c, g, s.prime)
  }

  function RoundEnd(s: Setup, pos: nat): nat {
    LinStart(pos, s.n, s.linReps) + s.cons
  }

  function RoundStart(s: Setup, k: nat): nat {
    if k == 0 then 0 else RoundEnd(s, RoundStart(s, k - 1))
  }

  /** All queries of `k` repetitions, in the order both sides number them. */
  function Transcript(s: Setup, tape: Tape, k: nat): (r: seq<Query>)
    requires ValidSetup(s)
    ensures |r| == k * (6 * s.linReps + 3)
  {
    if k == 0 then [] else Transcript(s, tape, k - 1) + RoundQueries(s, tape, RoundStart(s, k - 1))
  }

  /** `gamma_0` of one instance for repetition `rho`. */
  function RoundConstant(s: Setup, tape: Tape, gamma0: seq<Entry>, ios: seq<int>, rho: nat): int
    requires EntriesFit(gamma0, s.cons, |ios|, 0)
  {
    EntriesValue(gamma0, RoundAlpha(s, tape, RoundStart(s, rho)), ios, [])
  }

  // ----- answers and tests -----

  ghost predicate Sized(q: Query, n: nat) {
    |q.vec| == if q.first then n else n * n
  }

  function Answer(q: Query, f1: seq<int>, f2: seq<int>): int
    requires |f2| == |f1| * |f1| && |q.vec| == (if q.first then |f1| else |f2|)
  {
    if q.first then Dot(q.vec, f1) else Dot(q.vec, f2)
  }

  /** `lin_test`. */
  predicate LinTest(a1: int, a2: int, a3: int, p: int)
    requires p > 0
  {
    (a1 + a2) % p == a3 % p
  }

  /** `corr_test`. */
  predicate CorrTest(a1: int, a2: int, a3: int, a4: int, p: int)
    requires p > 0
  {
    (a1 * a2) % p == (a3 - a4) % p
  }

  /** Sum of the differences of consecutive pairs. */
  function PairDifferences(arr: seq<int>, k: nat): int
    requires 2 * k <= |arr|
  {
    if k == 0 then 0 else PairDifferences(arr, k - 1) + (arr[2 * (k - 1)] - arr[2 * (k - 1) + 1])
  }

  /** `ckt_test`. */
  method CktTest(arr: seq<int>, c: int, p: int) returns (ok: bool)
    requires p > 0
    ensures ok <==> (c + PairDifferences(arr, |arr| / 2)) % p == 0
  {
    var temp := c;
    for i := 0 to |arr| / 2
      invariant temp == c + PairDifferences(arr, i)
    {
      temp := temp + (arr[2 * i] - arr[2 * i + 1]);
    }
    ok := temp % p == 0;
  }

  /** Linearity repetition `i`, both proof vectors. */
  predicate LinPair(answers: seq<int>, at: nat, i: nat, p: int)
    requires p > 0 && at + 6 * i + 5 < |answers|
  {
    && LinTest(answers[at + 6 * i], answers[at + 6 * i + 1], answers[at + 6 * i + 2], p)
    && LinTest(answers[at + 6 * i + 3], answers[at + 6 * i + 4], answers[at + 6 * i + 5], p)
  }

  /** Quadratic correction and circuit test; `q7` is where the answers after the linearity ones start. */
  predicate HeadTests(answers: seq<int>, at: nat, q7: nat, c: int, p: int)
    requires p > 0 && at + 3 < |answers| && q7 + 2 < |answers|
  {
    && CorrTest(answers[at], answers[at + 1], answers[q7], answers[at + 3], p)
    && (c + PairDifferences([answers[q7 + 1], answers[at], answers[q7 + 2], answers[at + 3]], 2)) % p == 0
  }

  /** The tests of one repetition whose answers start at `at`. */
  predicate RoundTests(answers: seq<int>, at: nat, linReps: nat, c: int, p: int)
    requires p > 0 && linReps >= 1 && at + 6 * linReps + 3 <= |answers|
  {
    && (forall i: nat :: i < linReps ==> LinPair(answers, at, i, p))
    && HeadTests(answers, at, at + 6 * linReps, c, p)
  }

  /** `run_correction_and_circuit_tests` for one instance of the batch. */
  method RunTests(answers: seq<int>, cs: seq<int>, linReps: nat, p: int) returns (result: bool)
    requires p > 0 && linReps >= 1 && |answers| == |cs| * (6 * linReps + 3)
    ensures result <==> forall rho: nat :: rho < |cs| ==> RoundTestsAt(answers, cs, linReps, p, rho)
  {
    result := true;
    var size := 6 * linReps + 3;
    for rho := 0 to |cs|
      invariant result <==> forall r: nat :: r < rho ==> RoundTestsAt(answers, cs, linReps, p, r)
    {
      RoundFits(rho, |cs|, size);
      var at := rho * size;
      var lin := true;
      for i := 0 to linReps
        invariant lin <==> forall k: nat :: k < i ==> LinPair(answers, at, k, p)
      {
        var lin1 := LinTest(answers[at + 6 * i], answers[at + 6 * i + 1], answers[at + 6 * i + 2], p);
        var lin2 := LinTest(answers[at + 6 * i + 3], answers[at + 6 * i + 4], answers[at + 6 * i + 5], p);
        lin := lin && lin1 && lin2;
        assert lin1 && lin2 <==> LinPair(answers, at, i, p);
      }
      var q7 := at + 6 * linReps;
      var cor := CorrTest(answers[at], answers[at + 1], answers[q7], answers[at + 3], p);
      var ckt := CktTest([answers[q7 + 1], answers[at], answers[q7 + 2], answers[at + 3]], cs[rho], p);
      result := result && lin && cor && ckt;
      assert HeadTests(answers, at, q7, cs[rho], p) <==> cor && ckt;
      assert RoundTestsAt(answers, cs, linReps, p, rho) <==> lin && cor && ckt;
    }
  }

  lemma RoundFits(rho: nat, reps: nat, size: nat)
    requires rho < reps
    ensures 0 <= rho * size && rho * size + size <= reps * size
  {
    MulMono(rho + 1, reps, size, size);
    MulDist(size, rho, 1);
  }

  predicate RoundTestsAt(answers: seq<int>, cs: seq<int>, linReps: nat, p: int, rho: nat)
    requires p > 0 && linReps >= 1 && |answers| == |cs| * (6 * linReps + 3) && rho < |cs|
  {
    RoundFits(rho, |cs|, 6 * linReps + 3);
    RoundTests(answers, rho * (6 * linReps + 3), linReps, cs[rho], p)
  }
}
