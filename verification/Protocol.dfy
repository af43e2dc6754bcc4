/** One honest run of the argument, end to end: commit, query, answer, test. */
module Protocol {
  import opened Arith
  import opened Poly
  import opened Gates
  import opened Layout
  import opened Vectors
  import opened Aggregate
  import opened Gamma
  import opened Pcp
  import opened PcpComplete
  import opened Parties
  import opened GingerVerifier
  import opened GingerProver
  import opened ElGamal
  import ParallelDot
  import opened Commitment

  /** A compiled, satisfied program stored in the first proof vector. */
  ghost predicate Satisfied(setup: Setup, f1: seq<nat>, gamma0: seq<Entry>, ios: seq<int>, cons: seq<Constraint>,
                            rowss: seq<seq<Row>>, env: Env, io: Dict, vars: Dict, vals: seq<int>)
  {
    && ValidSetup(setup) && setup.n == |f1| == |vals| && setup.cons == |cons|
    && Parsed(cons, rowss, io, vars) && setup.es == Gamma12File(rowss) && gamma0 == Gamma0File(rowss)
    && Stored(env, io, vars, ios, vals) && Sat(cons, env, setup.prime)
    && forall x :: 0 <= x < |f1| ==> Cong(f1[setup.index[x]], vals[x], setup.prime)
  }

  lemma ConstantsFit(setup: Setup, f1: seq<nat>, gamma0: seq<Entry>, ios: seq<int>, cons: seq<Constraint>,
                     rowss: seq<seq<Row>>, env: Env, io: Dict, vars: Dict, vals: seq<int>)
    requires Satisfied(setup, f1, gamma0, ios, cons, rowss, env, io, vars, vals)
    ensures EntriesFit(gamma0, setup.cons, |ios|, 0)
  {
    var alpha := seq(|cons|, _ => 0);
    WeightedParsed(cons, rowss, env, io, vars, ios, vals, alpha);
    FilesFit(rowss, alpha, ios, vals);
  }

  /** Squares of a field vector, as the prover stores them. */
  method Squares(f1: seq<nat>, prime: int) returns (f2: seq<nat>)
    requires prime > 0
    ensures IsSquare(f2, f1, prime) && InField(f2, prime)
  {
    var n := |f1|;
    var a, b := new int[n], new int[n * n];
    for i := 0 to n
      invariant forall k :: 0 <= k < i ==> a[k] == f1[k]
    {
      a[i] := f1[i];
    }
    assert a[..] == f1;
    ComputeAssignmentVectors(a, b, prime);
    SquareEntries(b[..], f1, prime);
    f2 := b[..];
  }

  lemma SquareEntries(f2: seq<int>, f1: seq<int>, prime: int)
    requires prime > 0 && IsSquare(f2, f1, prime)
    ensures InField(f2, prime)
  {
    forall k | 0 <= k < |f2| ensures 0 <= f2[k] < prime {
      RowAndColumn(k, |f1|);
      assert Cell(f2, k / |f1|, k % |f1|, |f1|) == (f1[k / |f1|] * f1[k % |f1|]) % prime;
    }
  }

  /** The commitment phase: what the verifier decrypts is `g` to the committed sum. */
  method Commit(key: Key, r1: seq<nat>, e1: seq<nat>, f1: seq<nat>, r2: seq<nat>, e2: seq<nat>, f2: seq<nat>, threads: nat,
                steps1: seq<ParallelDot.Step>, steps2: seq<ParallelDot.Step>)
    returns (com: int)
    requires ValidKey(key) && |r1| == |e1| == |f1| && |r2| == |e2| == |f2|
    requires ParallelDot.Complete(steps1, threads, |f1|, {}, {}) && ParallelDot.Complete(steps2, threads, |f2|, {}, {})
    ensures Dot(r1, f1) >= 0 && Dot(r2, f2) >= 0 && com == PowMod(key.g, Dot(r1, f1) + Dot(r2, f2), key.p)
  {
    var c1 := CreateCommitmentQuery(key, r1, e1);
    var c2 := CreateCommitmentQuery(key, r2, e2);
    var a := ParallelDot.Run(key, c1, f1, ParallelDot.Start(threads), steps1).output;
    var b := ParallelDot.Run(key, c2, f2, ParallelDot.Start(threads), steps2).output;
    ParallelDot.ParallelDotProduct(key, c1, r1, e1, f1, threads, steps1);
    ParallelDot.ParallelDotProduct(key, c2, r2, e2, f2, threads, steps2);
    CommitmentAnswer(key, a, b, Dot(r1, f1), Dot(e1, f1), Dot(r2, f2), Dot(e2, f2));
    com := Dec(key, HAdd(key, a, b));
  }

  /** The decommitment phase: the verifier's coins and constants, the prover's answers. */
  method Decommit(setup: Setup, tape: Tape, priv: Tape, reps: nat, r1: seq<nat>, r2: seq<nat>, f1: seq<nat>, f2: seq<nat>,
                  gamma0: seq<Entry>, ios: seq<int>)
    returns (con: int, coins: seq<int>, cs: seq<int>, answers: seq<int>)
    requires ValidSetup(setup) && |r1| == |f1| == setup.n && |r2| == |f2| == setup.n * setup.n
    requires EntriesFit(gamma0, setup.cons, |ios|, 0)
    ensures Honest(answers, setup, tape, reps, f1, f2) && |cs| == reps && Constants(cs, setup, tape, gamma0, ios)
    ensures |coins| == |answers| && con - Dot(coins, answers) == Dot(r1, f1) + Dot(r2, f2)
    ensures forall j :: 0 <= j < |coins| ==> coins[j] == priv(j)
  {
    var verifier := new Verifier(setup, tape, priv, r1, r2);
    cs := verifier.CreatePlainQueries(reps, gamma0, ios);
    coins := verifier.coins;
    var v1, v2 := verifier.con1[..], verifier.con2[..];
    assert Accumulates(v1, v2, r1, r2, coins, Transcript(setup, tape, reps), setup.n, priv);
    var d1 := DotProduct(v1, f1);
    var d2 := DotProduct(v2, f2);
    con := d1 + d2;
    var prover := new Prover(setup, tape);
    answers := AnswerQueries(prover, reps, f1, f2);
    ConsistencyExact(v1, v2, r1, r2, coins, Transcript(setup, tape, reps), priv, answers, f1, f2);
  }

  /** `run_tests`, for any prover: the consistency test and every linearity, correction and circuit test. */
  method RunAllTests(con: int, com: int, answers: seq<int>, coins: seq<int>, cs: seq<int>, linReps: nat, prime: int,
                     order: int, key: Key)
    returns (accepted: bool)
    requires key.p > 0 && |coins| == |answers| && prime > 0 && linReps >= 1 && |answers| == |cs| * (6 * linReps + 3)
    ensures accepted <==>
      && (var x := con - Dot(coins, answers); 0 <= x < order && PowMod(key.g, x, key.p) == com)
      && forall rho: nat :: rho < |cs| ==> RoundTestsAt(answers, cs, linReps, prime, rho)
  {
    var consistent := ConsistencyTest(con, com, answers, coins, order, key);
    var passed := RunTests(answers, cs, linReps, prime);
    accepted := consistent && passed;
  }

  lemma EnoughRoom(r1: seq<nat>, r2: seq<nat>, f1: seq<nat>, f2: seq<nat>, n: nat, prime: int, order: int)
    requires |r1| == |f1| == n && |r2| == |f2| == n * n && prime > 0 && order > 0
    requires InField(r1, prime) && InField(r2, prime) && InField(f1, prime) && InField(f2, prime)
    ensures (n + n * n) * (prime * prime) <= order ==> Dot(r1, f1) + Dot(r2, f2) < order
  {
    if (n + n * n) * (prime * prime) <= order { CommittedRange(r1, r2, f1, f2, prime, order); }
  }

  /** For all coins, all encryption randomness, all thread schedules and any number of repetitions: the
      verifier accepts an honest prover with a satisfying assignment exactly when the committed sum is
      below the group order, and always when `(n + n^2) * prime^2` is at most the order. */
  method HonestRun(setup: Setup, tape: Tape, priv: Tape, key: Key, order: int, reps: nat, r1: seq<nat>, e1: seq<nat>,
                   r2: seq<nat>, e2: seq<nat>, f1: seq<nat>, gamma0: seq<Entry>, ios: seq<int>, threads: nat,
                   steps1: seq<ParallelDot.Step>, steps2: seq<ParallelDot.Step>, ghost cons: seq<Constraint>,
                   ghost rowss: seq<seq<Row>>, ghost env: Env, ghost io: Dict, ghost vars: Dict, ghost vals: seq<int>)
    returns (accepted: bool, f2: seq<nat>)
    requires Satisfied(setup, f1, gamma0, ios, cons, rowss, env, io, vars, vals) && InField(f1, setup.prime)
    requires ValidKey(key) && order > 0 && |r1| == |e1| == setup.n && |r2| == |e2| == setup.n * setup.n
    requires InField(r1, setup.prime) && InField(r2, setup.prime)
    requires ParallelDot.Complete(steps1, threads, setup.n, {}, {})
    requires ParallelDot.Complete(steps2, threads, setup.n * setup.n, {}, {})
    ensures IsSquare(f2, f1, setup.prime)
    ensures accepted <==> Dot(r1, f1) + Dot(r2, f2) < order
    ensures (setup.n + setup.n * setup.n) * (setup.prime * setup.prime) <= order ==> accepted
  {
    ConstantsFit(setup, f1, gamma0, ios, cons, rowss, env, io, vars, vals);
    f2 := Squares(f1, setup.prime);
    var com := Commit(key, r1, e1, f1, r2, e2, f2, threads, steps1, steps2);
    var con, coins, cs, answers := Decommit(setup, tape, priv, reps, r1, r2, f1, f2, gamma0, ios);
    PcpCompleteness(cons, rowss, env, io, vars, ios, vals, setup, tape, f1, f2, answers, cs);
    accepted := RunAllTests(con, com, answers, coins, cs, setup.linReps, setup.prime, order, key);
    EnoughRoom(r1, r2, f1, f2, setup.n, setup.prime, order);
  }
}
