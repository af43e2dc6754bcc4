/** What the Ginger PCP's tests say about a linear prover: exactly when its answers pass, and completeness, that
    answers computed from a satisfying assignment pass for all coins. */
module PcpComplete {
  import opened Arith
  import opened Poly
  import opened Gates
  import opened Layout
  import opened Vectors
  import opened Aggregate
  import opened Gamma
  import opened Pcp

  lemma {:induction false} LinAllAt(tape: Tape, pos: nat, n: nat, k: nat, i: nat, r: nat)
    requires i < k && r < 6
    ensures LinAll(tape, pos, n, k)[6 * i + r] == LinQueries(tape, LinStart(pos, n, i), n)[r]
    decreases k
  {
    if i < k - 1 { LinAllAt(tape, pos, n, k - 1, i, r); }
  }

  /** The answers of one repetition, from position `at` on. */
  ghost predicate AnswersRound(answers: seq<int>, at: nat, qs: seq<Query>, f1: seq<int>, f2: seq<int>)
    requires |f2| == |f1| * |f1|
  {
    && at + |qs| <= |answers|
    && forall j :: 0 <= j < |qs| ==> Sized(qs[j], |f1|) && answers[at + j] == Answer(qs[j], f1, f2)
  }

  lemma SumAnswers(a: seq<int>, b: seq<int>, f: seq<int>, p: int)
    requires |a| == |b| == |f| && p > 0
    ensures LinTest(Dot(a, f), Dot(b, f), Dot(SumOf(a, b), f), p)
  {
    assert IsSum(SumOf(a, b), a, 1, b);
    DotSum(SumOf(a, b), a, 1, b, f);
  }

  lemma LinAnswer(tape: Tape, pos: nat, n: nat, k: nat, i: nat, r: nat, answers: seq<int>, at: nat, qs: seq<Query>,
                  f1: seq<int>, f2: seq<int>)
    requires |f1| == n && |f2| == |f1| * |f1| && i < k && r < 6
    requires AnswersRound(answers, at, qs, f1, f2) && LinAll(tape, pos, n, k) <= qs
    ensures at + 6 * i + r < |answers|
    ensures var q := LinQueries(tape, LinStart(pos, n, i), n)[r];
            Sized(q, n) && answers[at + 6 * i + r] == Answer(q, f1, f2)
  {
    LinAllAt(tape, pos, n, k, i, r);
    assert qs[6 * i + r] == LinAll(tape, pos, n, k)[6 * i + r];
    assert Sized(qs[6 * i + r], n) && answers[at + (6 * i + r)] == Answer(qs[6 * i + r], f1, f2);
  }

  lemma LinPasses(tape: Tape, pos: nat, n: nat, k: nat, i: nat, answers: seq<int>, at: nat, qs: seq<Query>, f1: seq<int>,
                  f2: seq<int>, p: int)
    requires |f1| == n && |f2| == |f1| * |f1| && p > 0 && i < k
    requires AnswersRound(answers, at, qs, f1, f2) && LinAll(tape, pos, n, k) <= qs
    ensures at + 6 * i + 5 < |answers| && LinPair(answers, at, i, p)
  {
    var q := LinQueries(tape, LinStart(pos, n, i), n);
    LinAnswer(tape, pos, n, k, i, 0, answers, at, qs, f1, f2); LinAnswer(tape, pos, n, k, i, 1, answers, at, qs, f1, f2);
    LinAnswer(tape, pos, n, k, i, 2, answers, at, qs, f1, f2); LinAnswer(tape, pos, n, k, i, 3, answers, at, qs, f1, f2);
    LinAnswer(tape, pos, n, k, i, 4, answers, at, qs, f1, f2); LinAnswer(tape, pos, n, k, i, 5, answers, at, qs, f1, f2);
    var s := LinStart(pos, n, i);
    SumAnswers(DrawA(tape, s, n), DrawB(tape, s, n), f1, p);
    SumAnswers(DrawA(tape, s + 2 * n, n * n), DrawB(tape, s + 2 * n, n * n), f2, p);
  }

  /** Adding a reduced vector adds its answer, modulo `p`. */
  lemma MaskedAnswer(a: seq<int>, g: seq<int>, f: seq<int>, p: int)
    requires |a| == |g| == |f| && p > 0
    ensures Cong(Dot(PlusMod(a, g, p), f), Dot(a, f) + Dot(g, f), p)
  {
    forall i | 0 <= i < |a| ensures Cong(PlusMod(a, g, p)[i], SumOf(a, g)[i], p) { CongMod(a[i] + g[i], p); }
    DotMod(PlusMod(a, g, p), SumOf(a, g), f, f, p);
    assert IsSum(SumOf(a, g), a, 1, g);
    DotSum(SumOf(a, g), a, 1, g, f);
  }

  /** The correction query returns the product of two answers plus the mask's answer. */
  lemma CorrectionAnswer(x: seq<int>, y: seq<int>, r: seq<int>, f1: seq<int>, f2: seq<int>, p: int)
    requires p > 0 && |x| == |y| == |f1| && IsSquare(f2, f1, p) && |r| == |f2|
    ensures Cong(Dot(Correction(x, y, r, p), f2), Dot(x, f1) * Dot(y, f1) + Dot(r, f2), p)
  {
    var o := Outer(x, y);
    MaskedAnswer(o, r, f2, p);
    SquareMod(f2, f1, p);
    DotMod(o, o, f2, Outer(f1, f1), p);
    DotOuter(o, Outer(f1, f1), x, y, f1);
    CongAdd(Dot(o, f2), Dot(x, f1) * Dot(y, f1), Dot(r, f2), Dot(r, f2), p);
  }

  lemma CorrVerdict(a1: int, a2: int, a3: int, a4: int, o: int, p: int)
    requires p > 0 && Cong(a3, o + a4, p)
    ensures CorrTest(a1, a2, a3, a4, p) <==> Cong(o, a1 * a2, p)
  {
    CongAdd(a3, o + a4, a4, a4, p);
  }

  /** What the circuit test computes, without the masks. */
  function CircuitSum(c: int, g: (seq<int>, seq<int>), f1: seq<int>, f2: seq<int>): int
    requires |g.0| == |f1| && |g.1| == |f2|
  {
    c + (Dot(g.0, f1) + Dot(g.1, f2))
  }

  lemma CktVerdict(a8: int, a1: int, a9: int, a4: int, g1: int, g2: int, c: int, z: int, p: int)
    requires p > 0 && Cong(a8, a1 + g1, p) && Cong(a9, a4 + g2, p) && z == c + (g1 + g2)
    ensures (c + PairDifferences([a8, a1, a9, a4], 2)) % p == 0 <==> Cong(z, 0, p)
  {
    CongAdd(a8, a1 + g1, a1, a1, p);
    CongAdd(a9, a4 + g2, a4, a4, p);
    CongAdd(a8 - a1, g1, a9 - a4, g2, p);
    CongAdd(c, c, a8 - a1 + (a9 - a4), g1 + g2, p);
    SmallMod(0, p);
    var arr := [a8, a1, a9, a4];
    assert PairDifferences(arr, 1) == PairDifferences(arr, 0) + (arr[0] - arr[1]);
    assert PairDifferences(arr, 2) == PairDifferences(arr, 1) + (arr[2] - arr[3]);
    assert c + PairDifferences(arr, 2) == c + (a8 - a1 + (a9 - a4));
  }

  lemma TailAnswer(lin: seq<Query>, tail: seq<Query>, r: nat, answers: seq<int>, at: nat, f1: seq<int>, f2: seq<int>)
    requires |f2| == |f1| * |f1| && AnswersRound(answers, at, lin + tail, f1, f2) && r < |tail|
    ensures at + |lin| + r < |answers|
    ensures Sized(tail[r], |f1|) && answers[at + |lin| + r] == Answer(tail[r], f1, f2)
  {
    var k := |lin| + r;
    assert (lin + tail)[k] == tail[r];
    assert answers[at + k] == Answer((lin + tail)[k], f1, f2);
  }

  lemma LinAllPass(s: Setup, tape: Tape, pos: nat, answers: seq<int>, at: nat, f1: seq<int>, f2: seq<int>)
    requires ValidSetup(s) && |f1| == s.n && |f2| == |f1| * |f1|
    requires AnswersRound(answers, at, RoundQueries(s, tape, pos), f1, f2)
    ensures forall i: nat :: i < s.linReps ==> LinPair(answers, at, i, s.prime)
  {
    forall i: nat | i < s.linReps ensures LinPair(answers, at, i, s.prime) {
      LinPasses(tape, pos, s.n, s.linReps, i, answers, at, RoundQueries(s, tape, pos), f1, f2, s.prime);
    }
  }

  /** The second proof vector answers the product query `x (x) y` as the first one's answers demand. */
  ghost predicate ProductRight(x: seq<int>, y: seq<int>, f1: seq<int>, f2: seq<int>, p: int)
    requires p > 0 && |x| == |y| == |f1| && |f2| == |f1| * |f1|
  {
    Cong(Dot(Outer(x, y), f2), Dot(x, f1) * Dot(y, f1), p)
  }

  /** One repetition, a linear prover with any two proof vectors: it passes exactly when the product query is
      answered right and the circuit value vanishes. */
  lemma RoundVerdict(s: Setup, tape: Tape, pos: nat, answers: seq<int>, at: nat, f1: seq<int>, f2: seq<int>, c: int)
    requires ValidSetup(s) && |f1| == s.n && |f2| == |f1| * |f1|
    requires AnswersRound(answers, at, RoundQueries(s, tape, pos), f1, f2)
    ensures RoundTests(answers, at, s.linReps, c, s.prime) <==>
            && ProductRight(DrawA(tape, pos, s.n), DrawB(tape, pos, s.n), f1, f2, s.prime)
            && Cong(CircuitSum(c, Gamma12(s.es, RoundAlpha(s, tape, pos), s.index, s.n), f1, f2), 0, s.prime)
  {
    LinAllPass(s, tape, pos, answers, at, f1, f2);
    var n := s.n;
    FirstQueries(tape, pos, n, s.linReps);
    HeadsFrom(LinAll(tape, pos, n, s.linReps), DrawA(tape, pos, n), DrawB(tape, pos, n), DrawA(tape, pos + 2 * n, n * n),
              Gamma12(s.es, RoundAlpha(s, tape, pos), s.index, n), answers, at, f1, f2, c, s.prime);
  }

  /** One repetition: whatever the coins, the honest answers pass, provided the circuit value vanishes. */
  lemma RoundComplete(s: Setup, tape: Tape, pos: nat, answers: seq<int>, at: nat, f1: seq<int>, f2: seq<int>, c: int)
    requires ValidSetup(s) && |f1| == s.n && IsSquare(f2, f1, s.prime)
    requires AnswersRound(answers, at, RoundQueries(s, tape, pos), f1, f2)
    requires var g := Gamma12(s.es, RoundAlpha(s, tape, pos), s.index, s.n);
             Cong(CircuitSum(c, g, f1, f2), 0, s.prime)
    ensures RoundTests(answers, at, s.linReps, c, s.prime)
  {
    SquareMod(f2, f1, s.prime);
    SquareAnswers(DrawA(tape, pos, s.n), DrawB(tape, pos, s.n), f1, f2, s.prime);
    RoundVerdict(s, tape, pos, answers, at, f1, f2, c);
  }

  /** A square answers every product query right. */
  lemma SquareAnswers(x: seq<int>, y: seq<int>, f1: seq<int>, f2: seq<int>, p: int)
    requires p > 0 && |x| == |y| == |f1| && |f2| == |f1| * |f1| && SameMod(f2, Outer(f1, f1), p)
    ensures ProductRight(x, y, f1, f2, p)
  {
    var o := Outer(x, y);
    DotMod(o, o, f2, Outer(f1, f1), p);
    DotOuter(o, Outer(f1, f1), x, y, f1);
  }

  /** The queries that later serve as masks. */
  lemma FirstQueries(tape: Tape, pos: nat, n: nat, k: nat)
    requires k >= 1
    ensures var lin := LinAll(tape, pos, n, k);
            && lin[0] == Query(true, DrawA(tape, pos, n)) && lin[1] == Query(true, DrawB(tape, pos, n))
            && lin[3] == Query(false, DrawA(tape, pos + 2 * n, n * n))
  {
    LinAllAt(tape, pos, n, k, 0, 0);
    LinAllAt(tape, pos, n, k, 0, 1);
    LinAllAt(tape, pos, n, k, 0, 3);
  }

  lemma HeadsFrom(lin: seq<Query>, a: seq<int>, b: seq<int>, r: seq<int>, g: (seq<int>, seq<int>), answers: seq<int>,
                  at: nat, f1: seq<int>, f2: seq<int>, c: int, p: int)
    requires p > 0 && |f2| == |f1| * |f1| && |a| == |b| == |g.0| == |f1| && |r| == |g.1| == |f2| && |lin| >= 4
    requires lin[0] == Query(true, a) && lin[1] == Query(true, b) && lin[3] == Query(false, r)
    requires AnswersRound(answers, at, lin + HeadQueries(a, b, r, g, p), f1, f2)
    ensures HeadTests(answers, at, at + |lin|, c, p)
            <==> ProductRight(a, b, f1, f2, p) && Cong(CircuitSum(c, g, f1, f2), 0, p)
  {
    var tail := HeadQueries(a, b, r, g, p);
    assert [] + (lin + tail) == lin + tail;
    TailAnswer([], lin + tail, 0, answers, at, f1, f2);
    TailAnswer([], lin + tail, 1, answers, at, f1, f2);
    TailAnswer([], lin + tail, 3, answers, at, f1, f2);
    TailAnswer(lin, tail, 0, answers, at, f1, f2);
    TailAnswer(lin, tail, 1, answers, at, f1, f2);
    TailAnswer(lin, tail, 2, answers, at, f1, f2);
    var q7 := at + |lin|;
    HeadsVerdict(a, b, r, g, f1, f2, c, p,
              answers[at], answers[at + 1], answers[at + 3], answers[q7], answers[q7 + 1], answers[q7 + 2]);
  }

  lemma HeadsVerdict(a: seq<int>, b: seq<int>, r: seq<int>, g: (seq<int>, seq<int>), f1: seq<int>, f2: seq<int>, c: int, p: int,
                  a1: int, a2: int, a4: int, a7: int, a8: int, a9: int)
    requires p > 0 && |f2| == |f1| * |f1| && |a| == |b| == |g.0| == |f1| && |r| == |g.1| == |f2|
    requires a1 == Dot(a, f1) && a2 == Dot(b, f1) && a4 == Dot(r, f2) && a7 == Dot(Correction(a, b, r, p), f2)
    requires a8 == Dot(PlusMod(a, g.0, p), f1) && a9 == Dot(PlusMod(r, g.1, p), f2)
    ensures CorrTest(a1, a2, a7, a4, p) <==> ProductRight(a, b, f1, f2, p)
    ensures (c + PairDifferences([a8, a1, a9, a4], 2)) % p == 0 <==> Cong(CircuitSum(c, g, f1, f2), 0, p)
  {
    MaskedAnswer(Outer(a, b), r, f2, p);
    CorrVerdict(a1, a2, a7, a4, Dot(Outer(a, b), f2), p);
    MaskedAnswer(a, g.0, f1, p);
    MaskedAnswer(r, g.1, f2, p);
    CktVerdict(a8, a1, a9, a4, Dot(g.0, f1), Dot(g.1, f2), c, CircuitSum(c, g, f1, f2), p);
  }

  lemma {:induction false} LinAllSized(tape: Tape, pos: nat, n: nat, k: nat)
    ensures forall j :: 0 <= j < |LinAll(tape, pos, n, k)| ==> Sized(LinAll(tape, pos, n, k)[j], n)
    decreases k
  {
    if k > 0 { LinAllSized(tape, pos, n, k - 1); }
  }

  lemma RoundSized(s: Setup, tape: Tape, pos: nat)
    requires ValidSetup(s)
    ensures forall j :: 0 <= j < |RoundQueries(s, tape, pos)| ==> Sized(RoundQueries(s, tape, pos)[j], s.n)
  {
    LinAllSized(tape, pos, s.n, s.linReps);
  }

  lemma {:induction false} TranscriptSized(s: Setup, tape: Tape, k: nat)
    requires ValidSetup(s)
    ensures forall j :: 0 <= j < |Transcript(s, tape, k)| ==> Sized(Transcript(s, tape, k)[j], s.n)
    decreases k
  {
    if k > 0 {
      TranscriptSized(s, tape, k - 1);
      RoundSized(s, tape, RoundStart(s, k - 1));
    }
  }

  // ----- all repetitions -----

  /** Every query of the transcript fits its proof vector and is answered by it. */
  ghost predicate Honest(answers: seq<int>, s: Setup, tape: Tape, reps: nat, f1: seq<int>, f2: seq<int>)
    requires ValidSetup(s) && |f2| == |f1| * |f1|
  {
    AnswersRound(answers, 0, Transcript(s, tape, reps), f1, f2) && |answers| == |Transcript(s, tape, reps)|
  }

  lemma {:induction false} TranscriptAt(s: Setup, tape: Tape, size: nat, k: nat, rho: nat, j: nat, at: nat)
    requires ValidSetup(s) && size == 6 * s.linReps + 3 && rho < k && j < size && at == rho * size + j
    ensures at < |Transcript(s, tape, k)|
    ensures Transcript(s, tape, k)[at] == RoundQueries(s, tape, RoundStart(s, rho))[j]
    decreases k
  {
    RoundFits(rho, k, size);
    var before, last := Transcript(s, tape, k - 1), RoundQueries(s, tape, RoundStart(s, k - 1));
    assert Transcript(s, tape, k) == before + last;
    if rho < k - 1 {
      TranscriptAt(s, tape, size, k - 1, rho, j, at);
    } else {
      assert (before + last)[|before| + j] == last[j];
    }
  }

  lemma RoundOf(answers: seq<int>, s: Setup, tape: Tape, reps: nat, f1: seq<int>, f2: seq<int>, rho: nat)
    requires ValidSetup(s) && |f2| == |f1| * |f1| && Honest(answers, s, tape, reps, f1, f2) && rho < reps
    ensures AnswersRound(answers, rho * (6 * s.linReps + 3), RoundQueries(s, tape, RoundStart(s, rho)), f1, f2)
  {
    var size := 6 * s.linReps + 3;
    RoundFits(rho, reps, size);
    var qs, ts := RoundQueries(s, tape, RoundStart(s, rho)), Transcript(s, tape, reps);
    forall j | 0 <= j < |qs| ensures Sized(qs[j], |f1|) && answers[rho * size + j] == Answer(qs[j], f1, f2) {
      TranscriptAt(s, tape, size, reps, rho, j, rho * size + j);
      assert Sized(ts[rho * size + j], |f1|) && answers[0 + (rho * size + j)] == Answer(ts[rho * size + j], f1, f2);
    }
  }

  /** The verifier's `gamma_0` for repetition `rho` of one instance. */
  ghost predicate Constants(cs: seq<int>, s: Setup, tape: Tape, gamma0: seq<Entry>, ios: seq<int>) {
    && EntriesFit(gamma0, s.cons, |ios|, 0)
    && forall rho: nat :: rho < |cs| ==> cs[rho] == RoundConstant(s, tape, gamma0, ios, rho)
  }

  /** The circuit value of a proof with a right second vector is the weighted sum of the constraints. */
  lemma CircuitMeans(cons: seq<Constraint>, rowss: seq<seq<Row>>, env: Env, io: Dict, vars: Dict, ios: seq<int>,
                     vals: seq<int>, alpha: seq<int>, index: seq<nat>, f1: seq<int>, f2: seq<int>, p: int, c: int)
    requires p > 0 && |cons| == |alpha| && Parsed(cons, rowss, io, vars)
    requires Stored(env, io, vars, ios, vals) && Proof(f1, f2, index, vals, p)
    requires EntriesFit(Gamma0File(rowss), |alpha|, |ios|, 0) && c == EntriesValue(Gamma0File(rowss), alpha, ios, [])
    ensures Fits12(Gamma12File(rowss), |alpha|, index, |f1|)
    ensures Cong(CircuitSum(c, Gamma12(Gamma12File(rowss), alpha, index, |f1|), f1, f2), Weighted(cons, alpha, env), p)
  {
    Aggregation(cons, rowss, env, io, vars, ios, vals, alpha, index, f1, f2, p);
    assert CircuitValue(rowss, alpha, ios, index, f1, f2)
        == CircuitSum(c, Gamma12(Gamma12File(rowss), alpha, index, |f1|), f1, f2);
  }

  /** A satisfied program makes the circuit value vanish, whatever the coefficients. */
  lemma CircuitVanishes(cons: seq<Constraint>, rowss: seq<seq<Row>>, env: Env, io: Dict, vars: Dict, ios: seq<int>,
                        vals: seq<int>, alpha: seq<int>, index: seq<nat>, f1: seq<int>, f2: seq<int>, p: int, c: int)
    requires p > 0 && |cons| == |alpha| && Parsed(cons, rowss, io, vars)
    requires Stored(env, io, vars, ios, vals) && Proof(f1, f2, index, vals, p) && Sat(cons, env, p)
    requires EntriesFit(Gamma0File(rowss), |alpha|, |ios|, 0) && c == EntriesValue(Gamma0File(rowss), alpha, ios, [])
    ensures Fits12(Gamma12File(rowss), |alpha|, index, |f1|)
    ensures Cong(CircuitSum(c, Gamma12(Gamma12File(rowss), alpha, index, |f1|), f1, f2), 0, p)
  {
    CircuitMeans(cons, rowss, env, io, vars, ios, vals, alpha, index, f1, f2, p, c);
    WeightedZero(cons, alpha, env, p);
  }

  /** The verifier accepts, for all coins: the compiled constraints, parsed into the two gamma files, hold
      for `env`; the prover's vectors store `env` shuffled; its answers are the dot products. */
  lemma PcpCompleteness(cons: seq<Constraint>, rowss: seq<seq<Row>>, env: Env, io: Dict, vars: Dict, ios: seq<int>,
                        vals: seq<int>, s: Setup, tape: Tape, f1: seq<int>, f2: seq<int>, answers: seq<int>, cs: seq<int>)
    requires ValidSetup(s) && |cons| == s.cons && s.es == Gamma12File(rowss) && s.n == |f1|
    requires Parsed(cons, rowss, io, vars) && Stored(env, io, vars, ios, vals) && Sat(cons, env, s.prime)
    requires Proof(f1, f2, s.index, vals, s.prime)
    requires Honest(answers, s, tape, |cs|, f1, f2) && Constants(cs, s, tape, Gamma0File(rowss), ios)
    ensures forall rho: nat :: rho < |cs| ==> RoundTestsAt(answers, cs, s.linReps, s.prime, rho)
  {
    forall rho: nat | rho < |cs| ensures RoundTestsAt(answers, cs, s.linReps, s.prime, rho) {
      var pos := RoundStart(s, rho);
      CircuitVanishes(cons, rowss, env, io, vars, ios, vals, RoundAlpha(s, tape, pos), s.index, f1, f2, s.prime, cs[rho]);
      RepetitionPasses(s, tape, f1, f2, answers, cs, rho);
    }
  }

  lemma RepetitionPasses(s: Setup, tape: Tape, f1: seq<int>, f2: seq<int>, answers: seq<int>, cs: seq<int>, rho: nat)
    requires ValidSetup(s) && s.n == |f1| && IsSquare(f2, f1, s.prime) && rho < |cs|
    requires Honest(answers, s, tape, |cs|, f1, f2)
    requires var g := Gamma12(s.es, RoundAlpha(s, tape, RoundStart(s, rho)), s.index, s.n);
             Cong(CircuitSum(cs[rho], g, f1, f2), 0, s.prime)
    ensures RoundTestsAt(answers, cs, s.linReps, s.prime, rho)
  {
    var at := RoundPlace(answers, s, tape, f1, f2, cs, rho);
    RoundComplete(s, tape, RoundStart(s, rho), answers, at, f1, f2, cs[rho]);
  }

  /** Where the answers of a repetition start. */
  lemma RoundPlace(answers: seq<int>, s: Setup, tape: Tape, f1: seq<int>, f2: seq<int>, cs: seq<int>, rho: nat) returns (at: nat)
    requires ValidSetup(s) && |f2| == |f1| * |f1| && Honest(answers, s, tape, |cs|, f1, f2) && rho < |cs|
    ensures |answers| == |cs| * (6 * s.linReps + 3) && at + 6 * s.linReps + 3 <= |answers|
    ensures AnswersRound(answers, at, RoundQueries(s, tape, RoundStart(s, rho)), f1, f2)
    ensures RoundTests(answers, at, s.linReps, cs[rho], s.prime) <==> RoundTestsAt(answers, cs, s.linReps, s.prime, rho)
  {
    RoundFits(rho, |cs|, 6 * s.linReps + 3);
    at := rho * (6 * s.linReps + 3);
    RoundOf(answers, s, tape, |cs|, f1, f2, rho);
  }
}
