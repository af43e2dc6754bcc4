/** What the Ginger PCP rejects: answers that are not linear, proofs whose second vector is not the square of the
    first, and violated programs. Every public draw enters the queries, so a linear prover that is accepted on
    every tape has a right proof of a satisfied program. */
module PcpSound {
  import opened Arith
  import opened Poly
  import opened Gates
  import opened Layout
  import opened Vectors
  import opened Aggregate
  import opened Gamma
  import opened Pcp
  import opened PcpComplete

  // ----- any answers: what each test rejects -----

  /** `k` is 0 for the first proof vector, 3 for the second. */
  lemma NonlinearRejected(answers: seq<int>, cs: seq<int>, linReps: nat, p: int, rho: nat, i: nat, k: nat, at: nat)
    requires p > 0 && linReps >= 1 && |answers| == |cs| * (6 * linReps + 3) && rho < |cs| && i < linReps
    requires (k == 0 || k == 3) && at == rho * (6 * linReps + 3) + 6 * i + k && at + 2 < |answers|
    requires !Cong(answers[at] + answers[at + 1], answers[at + 2], p)
    ensures !RoundTestsAt(answers, cs, linReps, p, rho)
  {
    RoundFits(rho, |cs|, 6 * linReps + 3);
    var start := rho * (6 * linReps + 3);
    assert !LinPair(answers, start, i, p);
  }

  /** The answer to the correction query is not the product of the first two answers plus the mask's. */
  lemma WrongProductRejected(answers: seq<int>, cs: seq<int>, linReps: nat, p: int, rho: nat, at: nat, q7: nat)
    requires p > 0 && linReps >= 1 && |answers| == |cs| * (6 * linReps + 3) && rho < |cs|
    requires at == rho * (6 * linReps + 3) && q7 == at + 6 * linReps && q7 + 2 < |answers|
    requires !Cong(answers[q7], answers[at] * answers[at + 1] + answers[at + 3], p)
    ensures !RoundTestsAt(answers, cs, linReps, p, rho)
  {
    RoundFits(rho, |cs|, 6 * linReps + 3);
    if CorrTest(answers[at], answers[at + 1], answers[q7], answers[at + 3], p) {
      ProductAgrees(answers[at] * answers[at + 1], answers[q7], answers[at + 3], p);
    }
  }

  lemma ProductAgrees(ab: int, c: int, d: int, p: int)
    requires p > 0 && ab % p == (c - d) % p
    ensures Cong(c, ab + d, p)
  {
    CongAdd(c - d, ab, d, d, p);
  }

  /** The unmasked circuit answers do not cancel the constant. */
  lemma WrongCircuitRejected(answers: seq<int>, cs: seq<int>, linReps: nat, p: int, rho: nat, at: nat, q7: nat)
    requires p > 0 && linReps >= 1 && |answers| == |cs| * (6 * linReps + 3) && rho < |cs|
    requires at == rho * (6 * linReps + 3) && q7 == at + 6 * linReps && q7 + 2 < |answers|
    requires !Cong(cs[rho] + (answers[q7 + 1] - answers[at]) + (answers[q7 + 2] - answers[at + 3]), 0, p)
    ensures !RoundTestsAt(answers, cs, linReps, p, rho)
  {
    RoundFits(rho, |cs|, 6 * linReps + 3);
    var arr := [answers[q7 + 1], answers[at], answers[q7 + 2], answers[at + 3]];
    assert PairDifferences(arr, 2) == PairDifferences(arr, 1) + (arr[2] - arr[3]);
    assert PairDifferences(arr, 1) == PairDifferences(arr, 0) + (arr[0] - arr[1]);
    SmallMod(0, p);
  }

  // ----- every draw is used, and used once -----

  /** `a[0], b[0], a[1], ...`. */
  function Zip(a: seq<int>, b: seq<int>): seq<int> {
    if |a| != |b| || a == [] then [] else [a[0], b[0]] + Zip(a[1..], b[1..])
  }

  function Slice(tape: Tape, pos: nat, end: nat): (r: seq<int>)
    requires pos <= end
    ensures |r| == end - pos && forall i :: 0 <= i < |r| ==> r[i] == tape(pos + i)
  {
    seq(end - pos, i requires 0 <= i < end - pos => tape(pos + i))
  }

  lemma SliceJoin(tape: Tape, a: nat, b: nat, c: nat)
    requires a <= b <= c
    ensures Slice(tape, a, b) + Slice(tape, b, c) == Slice(tape, a, c)
  {
  }

  lemma {:induction false} ZipDraws(tape: Tape, pos: nat, m: nat)
    ensures Zip(DrawA(tape, pos, m), DrawB(tape, pos, m)) == Slice(tape, pos, pos + 2 * m)
    decreases m
  {
    var a, b := DrawA(tape, pos, m), DrawB(tape, pos, m);
    if m > 0 {
      assert a[1..] == DrawA(tape, pos + 2, m - 1) && b[1..] == DrawB(tape, pos + 2, m - 1);
      ZipDraws(tape, pos + 2, m - 1);
      SliceJoin(tape, pos, pos + 2, pos + 2 * m);
      assert [a[0], b[0]] == Slice(tape, pos, pos + 2);
    }
  }

  /** The random vectors of `k` linearity repetitions, in the order they are drawn; the sums are left out. */
  function LinDrawn(qs: seq<Query>, k: nat): seq<int>
    requires 6 * k <= |qs|
  {
    if k == 0 then []
    else LinDrawn(qs, k - 1) + Zip(qs[6 * k - 6].vec, qs[6 * k - 5].vec) + Zip(qs[6 * k - 3].vec, qs[6 * k - 2].vec)
  }

  lemma {:induction false} LinDrawnPrefix(a: seq<Query>, b: seq<Query>, k: nat)
    requires 6 * k <= |a|
    ensures LinDrawn(a + b, k) == LinDrawn(a, k)
    decreases k
  {
    if k > 0 { LinDrawnPrefix(a, b, k - 1); }
  }

  lemma {:induction false} LinUsesEveryDraw(tape: Tape, pos: nat, n: nat, k: nat)
    ensures LinDrawn(LinAll(tape, pos, n, k), k) == Slice(tape, pos, LinStart(pos, n, k))
    decreases k
  {
    if k > 0 {
      LinUsesEveryDraw(tape, pos, n, k - 1);
      var start := LinStart(pos, n, k - 1);
      OneMoreRepetition(LinAll(tape, pos, n, k - 1), LinQueries(tape, start, n), tape, pos, start, n, k);
    }
  }

  lemma OneMoreRepetition(before: seq<Query>, last: seq<Query>, tape: Tape, pos: nat, start: nat, n: nat, k: nat)
    requires k >= 1 && |before| == 6 * (k - 1) && last == LinQueries(tape, start, n) && pos <= start
    requires LinDrawn(before, k - 1) == Slice(tape, pos, start)
    ensures LinDrawn(before + last, k) == Slice(tape, pos, start + LinDraws(n))
  {
    var end := start + LinDraws(n);
    LinDrawnPrefix(before, last, k - 1);
    LastSix(before, last, k);
    RepetitionDraws(tape, start, n, end);
    SliceJoin(tape, pos, start, end);
  }

  lemma RepetitionDraws(tape: Tape, start: nat, n: nat, end: nat)
    requires end == start + LinDraws(n)
    ensures var q := LinQueries(tape, start, n);
            Zip(q[0].vec, q[1].vec) + Zip(q[3].vec, q[4].vec) == Slice(tape, start, end)
  {
    ZipDraws(tape, start, n);
    ZipDraws(tape, start + 2 * n, n * n);
    SliceJoin(tape, start, start + 2 * n, end);
  }

  lemma LastSix(before: seq<Query>, last: seq<Query>, k: nat)
    requires k >= 1 && |before| == 6 * (k - 1) && |last| == 6
    ensures LinDrawn(before + last, k)
         == LinDrawn(before + last, k - 1) + (Zip(last[0].vec, last[1].vec) + Zip(last[3].vec, last[4].vec))
  {
    assert (before + last)[6 * k - 6] == last[0] && (before + last)[6 * k - 5] == last[1];
    assert (before + last)[6 * k - 3] == last[3] && (before + last)[6 * k - 2] == last[4];
  }

  /** The draws of `k` repetitions: random query vectors and coefficients. */
  ghost function Drawn(s: Setup, tape: Tape, k: nat): seq<int>
    requires ValidSetup(s)
  {
    if k == 0 then [] else Drawn(s, tape, k - 1) + RoundDrawn(s, tape, RoundStart(s, k - 1))
  }

  ghost function RoundDrawn(s: Setup, tape: Tape, pos: nat): seq<int>
    requires ValidSetup(s)
  {
    LinDrawn(RoundQueries(s, tape, pos), s.linReps) + RoundAlpha(s, tape, pos)
  }

  /** The queries and coefficients of all repetitions, put back in order, are the tape, without gaps and without
      a draw used twice. */
  lemma {:induction false} UsesEveryDraw(s: Setup, tape: Tape, k: nat)
    requires ValidSetup(s)
    ensures IsSlice(Drawn(s, tape, k), tape, 0, RoundStart(s, k))
    decreases k
  {
    if k > 0 {
      UsesEveryDraw(s, tape, k - 1);
      var pos := RoundStart(s, k - 1);
      RoundUsesEveryDraw(s, tape, pos);
      Continued(Drawn(s, tape, k - 1), RoundDrawn(s, tape, pos), tape, pos, RoundEnd(s, pos));
    }
  }

  /** Draws `pos .. end`, each once, in order. */
  ghost predicate IsSlice(a: seq<int>, tape: Tape, pos: nat, end: nat) {
    pos <= end && |a| == end - pos && forall i :: 0 <= i < |a| ==> a[i] == tape(pos + i)
  }

  lemma Continued(a: seq<int>, b: seq<int>, tape: Tape, pos: nat, end: nat)
    requires pos <= end && IsSlice(a, tape, 0, pos) && IsSlice(b, tape, pos, end)
    ensures IsSlice(a + b, tape, 0, end)
  {
  }

  lemma RoundUsesEveryDraw(s: Setup, tape: Tape, pos: nat)
    requires ValidSetup(s)
    ensures pos <= RoundEnd(s, pos)
    ensures IsSlice(RoundDrawn(s, tape, pos), tape, pos, RoundEnd(s, pos))
  {
    var start := LinStart(pos, s.n, s.linReps);
    var lin, all := LinAll(tape, pos, s.n, s.linReps), RoundQueries(s, tape, pos);
    LinUsesEveryDraw(tape, pos, s.n, s.linReps);
    assert all == lin + all[|lin|..];
    LinDrawnPrefix(lin, all[|lin|..], s.linReps);
    assert RoundAlpha(s, tape, pos) == Slice(tape, start, start + s.cons);
    SliceJoin(tape, pos, start, start + s.cons);
  }

  /** Draws may take any values: for every choice of the first two query vectors and the coefficients of the first
      repetition there is a tape that draws them. */
  lemma AnyDraws(s: Setup, x: seq<int>, y: seq<int>, alpha: seq<int>) returns (tape: Tape)
    requires s.linReps >= 1 && |x| == |y| == s.n && |alpha| == s.cons
    ensures DrawA(tape, 0, s.n) == x && DrawB(tape, 0, s.n) == y && RoundAlpha(s, tape, 0) == alpha
  {
    var n, start := s.n, LinStart(0, s.n, s.linReps);
    StartAfterFirst(s.n, s.linReps);
    tape := (k: nat) => if k < 2 * n then (if k % 2 == 0 then x[k / 2] else y[k / 2])
                        else if start <= k < start + |alpha| then alpha[k - start] else 0;
    assert DrawA(tape, 0, n) == x && DrawB(tape, 0, n) == y;
  }

  lemma {:induction false} StartAfterFirst(n: nat, k: nat)
    requires k >= 1
    ensures LinStart(0, n, k) >= 2 * n
    decreases k
  {
    if k > 1 { StartAfterFirst(n, k - 1); } else { assert LinStart(0, n, 1) == LinStart(0, n, 0) + LinDraws(n); }
  }

  // ----- linear provers: accepted on every tape exactly with a right proof of a satisfied program -----

  function UnitVec(n: nat, i: nat): (r: seq<int>)
    ensures |r| == n && forall k :: 0 <= k < n ==> r[k] == if k == i then 1 else 0
  {
    seq(n, k => if k == i then 1 else 0)
  }

  lemma DotUnit(n: nat, i: nat, f: seq<int>)
    requires i < n == |f|
    ensures Dot(UnitVec(n, i), f) == f[i]
  {
    var zero := seq(n, _ => 0);
    DotZero(zero, f, n);
    DotChange(zero, i, 1, f);
    assert zero[i := zero[i] + 1] == UnitVec(n, i);
  }

  lemma OuterUnit(n: nat, i: nat, j: nat)
    requires i < n && j < n
    ensures 0 <= i * n + j < n * n && Outer(UnitVec(n, i), UnitVec(n, j)) == UnitVec(n * n, i * n + j)
  {
    IndexInside(i, j, n, n);
    var x, y := UnitVec(n, i), UnitVec(n, j);
    var o := Outer(x, y);
    forall k | 0 <= k < n * n ensures o[k] == if k == i * n + j then 1 else 0 {
      RowAndColumn(k, n);
      assert Cell(o, k / n, k % n, n) == x[k / n] * y[k % n];
      DivModIs(i * n + j, i, j, n);
    }
  }

  /** Right answers to all product queries leave only one second vector. */
  lemma ProductsFix(f1: seq<int>, f2: seq<int>, p: int, i: nat, j: nat)
    requires p > 0 && i < |f1| && j < |f1| && |f2| == |f1| * |f1|
    requires ProductRight(UnitVec(|f1|, i), UnitVec(|f1|, j), f1, f2, p)
    ensures Cong(Cell(f2, i, j, |f1|), f1[i] * f1[j], p)
  {
    var n := |f1|;
    OuterUnit(n, i, j);
    DotUnit(n * n, i * n + j, f2);
    DotUnit(n, i, f1);
    DotUnit(n, j, f1);
  }

  /** The products of `f1`, reduced. */
  function Reduced(f1: seq<int>, p: int): (r: seq<int>)
    requires p > 0
    ensures |r| == |f1| * |f1|
  {
    var o := Outer(f1, f1);
    seq(|o|, k requires 0 <= k < |o| => o[k] % p)
  }

  lemma ReducedSquare(f1: seq<int>, p: int)
    requires p > 0
    ensures IsSquare(Reduced(f1, p), f1, p) && SameMod(Outer(f1, f1), Reduced(f1, p), p)
  {
    var n, o, r := |f1|, Outer(f1, f1), Reduced(f1, p);
    forall i: nat, j: nat | i < n && j < n ensures Cell(r, i, j, n) == (f1[i] * f1[j]) % p {
      IndexInside(i, j, n, n);
      assert Cell(o, i, j, n) == f1[i] * f1[j];
    }
    forall k | 0 <= k < |o| ensures Cong(o[k], r[k], p) { CongMod(o[k], p); }
  }

  /** The circuit value depends on the second vector only modulo `p`. */
  lemma CircuitReduced(c: int, g: (seq<int>, seq<int>), f1: seq<int>, f2: seq<int>, h2: seq<int>, p: int)
    requires p > 0 && |g.0| == |f1| && |g.1| == |f2| == |h2| && SameMod(f2, h2, p)
    ensures Cong(CircuitSum(c, g, f1, f2), CircuitSum(c, g, f1, h2), p)
  {
    DotMod(g.1, g.1, f2, h2, p);
    CongAdd(Dot(g.0, f1), Dot(g.0, f1), Dot(g.1, f2), Dot(g.1, h2), p);
    CongAdd(c, c, Dot(g.0, f1) + Dot(g.1, f2), Dot(g.0, f1) + Dot(g.1, h2), p);
  }

  /** The constraints `cons` of a compiled program, what `env` stores of it, and the first proof vector. */
  ghost predicate Claimed(cons: seq<Constraint>, rowss: seq<seq<Row>>, env: Env, io: Dict, vars: Dict, ios: seq<int>,
                          vals: seq<int>, s: Setup, f1: seq<int>)
  {
    && ValidSetup(s) && |cons| == s.cons && s.es == Gamma12File(rowss) && s.n == |f1| == |vals|
    && Parsed(cons, rowss, io, vars) && Stored(env, io, vars, ios, vals)
    && forall x :: 0 <= x < |f1| ==> Cong(f1[s.index[x]], vals[x], s.prime)
  }

  lemma ConstantFits(cons: seq<Constraint>, rowss: seq<seq<Row>>, env: Env, io: Dict, vars: Dict, ios: seq<int>,
                     vals: seq<int>, s: Setup, f1: seq<int>)
    requires Claimed(cons, rowss, env, io, vars, ios, vals, s, f1)
    ensures EntriesFit(Gamma0File(rowss), s.cons, |ios|, 0)
  {
    var alpha := seq(|cons|, _ => 0);
    WeightedParsed(cons, rowss, env, io, vars, ios, vals, alpha);
    FilesFit(rowss, alpha, ios, vals);
  }

  /** The answers a linear prover with vectors `f1`, `f2` gives to the whole transcript. */
  function LinearAnswers(s: Setup, tape: Tape, reps: nat, f1: seq<int>, f2: seq<int>): (r: seq<int>)
    requires ValidSetup(s) && s.n == |f1| && |f2| == |f1| * |f1|
    ensures |r| == reps * (6 * s.linReps + 3)
  {
    TranscriptSized(s, tape, reps);
    var qs := Transcript(s, tape, reps);
    seq(|qs|, j requires 0 <= j < |qs| => Answer(qs[j], f1, f2))
  }

  lemma LinearHonest(s: Setup, tape: Tape, reps: nat, f1: seq<int>, f2: seq<int>)
    requires ValidSetup(s) && s.n == |f1| && |f2| == |f1| * |f1|
    ensures Honest(LinearAnswers(s, tape, reps, f1, f2), s, tape, reps, f1, f2)
  {
    TranscriptSized(s, tape, reps);
  }

  function CircuitConstants(s: Setup, tape: Tape, gamma0: seq<Entry>, ios: seq<int>, reps: nat): (cs: seq<int>)
    requires EntriesFit(gamma0, s.cons, |ios|, 0)
    ensures |cs| == reps
  {
    seq(reps, rho requires 0 <= rho < reps => RoundConstant(s, tape, gamma0, ios, rho))
  }

  /** The verifier's PCP tests accept the linear prover on this tape. */
  ghost predicate LinearAccepted(s: Setup, tape: Tape, reps: nat, gamma0: seq<Entry>, ios: seq<int>, f1: seq<int>, f2: seq<int>)
    requires ValidSetup(s) && s.n == |f1| && |f2| == |f1| * |f1| && EntriesFit(gamma0, s.cons, |ios|, 0)
  {
    forall rho: nat :: rho < reps ==>
      RoundTestsAt(LinearAnswers(s, tape, reps, f1, f2), CircuitConstants(s, tape, gamma0, ios, reps), s.linReps, s.prime, rho)
  }

  /** One repetition of it, in terms of the proof. */
  lemma LinearRound(s: Setup, tape: Tape, reps: nat, gamma0: seq<Entry>, ios: seq<int>, f1: seq<int>, f2: seq<int>, rho: nat)
    requires ValidSetup(s) && s.n == |f1| && |f2| == |f1| * |f1| && EntriesFit(gamma0, s.cons, |ios|, 0) && rho < reps
    ensures var pos := RoundStart(s, rho);
            RoundTestsAt(LinearAnswers(s, tape, reps, f1, f2), CircuitConstants(s, tape, gamma0, ios, reps), s.linReps, s.prime, rho)
            <==> ProductRight(DrawA(tape, pos, s.n), DrawB(tape, pos, s.n), f1, f2, s.prime)
                 && Cong(CircuitSum(RoundConstant(s, tape, gamma0, ios, rho),
                                    Gamma12(s.es, RoundAlpha(s, tape, pos), s.index, s.n), f1, f2), 0, s.prime)
  {
    var answers, cs := LinearAnswers(s, tape, reps, f1, f2), CircuitConstants(s, tape, gamma0, ios, reps);
    LinearHonest(s, tape, reps, f1, f2);
    var at := RoundPlace(answers, s, tape, f1, f2, cs, rho);
    RoundVerdict(s, tape, RoundStart(s, rho), answers, at, f1, f2, cs[rho]);
  }

  /** The second proof vector holds the products of the first, modulo `p`. */
  ghost predicate RightSecond(f1: seq<int>, f2: seq<int>, p: int)
    requires p > 0
  {
    |f2| == |f1| * |f1| && forall i: nat, j: nat :: i < |f1| && j < |f1| ==> Cong(Cell(f2, i, j, |f1|), f1[i] * f1[j], p)
  }

  lemma RightMod(f1: seq<int>, f2: seq<int>, p: int)
    requires p > 0 && RightSecond(f1, f2, p)
    ensures SameMod(f2, Outer(f1, f1), p) && SameMod(f2, Reduced(f1, p), p)
  {
    var n, o := |f1|, Outer(f1, f1);
    ReducedSquare(f1, p);
    forall k | 0 <= k < |f2| ensures Cong(f2[k], o[k], p) {
      RowAndColumn(k, n);
      var i, j := k / n, k % n;
      assert Cong(Cell(f2, i, j, n), f1[i] * f1[j], p) && Cell(o, i, j, n) == f1[i] * f1[j];
    }
  }

  /** With a right second vector the circuit value is the weighted sum of the constraints. */
  lemma RightCircuit(cons: seq<Constraint>, rowss: seq<seq<Row>>, env: Env, io: Dict, vars: Dict, ios: seq<int>,
                     vals: seq<int>, s: Setup, f1: seq<int>, f2: seq<int>, alpha: seq<int>, c: int)
    requires Claimed(cons, rowss, env, io, vars, ios, vals, s, f1) && RightSecond(f1, f2, s.prime) && |alpha| == s.cons
    requires EntriesFit(Gamma0File(rowss), s.cons, |ios|, 0) && c == EntriesValue(Gamma0File(rowss), alpha, ios, [])
    ensures Cong(CircuitSum(c, Gamma12(s.es, alpha, s.index, s.n), f1, f2), Weighted(cons, alpha, env), s.prime)
  {
    var p := s.prime;
    var g, h2 := Gamma12(s.es, alpha, s.index, s.n), Reduced(f1, p);
    RightMod(f1, f2, p);
    ReducedSquare(f1, p);
    CircuitMeans(cons, rowss, env, io, vars, ios, vals, alpha, s.index, f1, h2, p, c);
    CircuitReduced(c, g, f1, f2, h2, p);
  }

  /** A right proof of a satisfied program is accepted on every tape. */
  lemma RightAccepted(cons: seq<Constraint>, rowss: seq<seq<Row>>, env: Env, io: Dict, vars: Dict, ios: seq<int>,
                      vals: seq<int>, s: Setup, tape: Tape, reps: nat, f1: seq<int>, f2: seq<int>)
    requires Claimed(cons, rowss, env, io, vars, ios, vals, s, f1) && EntriesFit(Gamma0File(rowss), s.cons, |ios|, 0)
    requires RightSecond(f1, f2, s.prime) && Sat(cons, env, s.prime)
    ensures LinearAccepted(s, tape, reps, Gamma0File(rowss), ios, f1, f2)
  {
    var gamma0 := Gamma0File(rowss);
    RightMod(f1, f2, s.prime);
    forall rho: nat | rho < reps
      ensures RoundTestsAt(LinearAnswers(s, tape, reps, f1, f2), CircuitConstants(s, tape, gamma0, ios, reps), s.linReps,
                           s.prime, rho)
    {
      var pos := RoundStart(s, rho);
      var alpha := RoundAlpha(s, tape, pos);
      SquareAnswers(DrawA(tape, pos, s.n), DrawB(tape, pos, s.n), f1, f2, s.prime);
      RightCircuit(cons, rowss, env, io, vars, ios, vals, s, f1, f2, alpha, RoundConstant(s, tape, gamma0, ios, rho));
      WeightedZero(cons, alpha, env, s.prime);
      LinearRound(s, tape, reps, gamma0, ios, f1, f2, rho);
    }
  }

  /** A tape whose first repetition draws `x`, `y` and `alpha`, and what acceptance on it says. */
  lemma FirstRound(s: Setup, reps: nat, gamma0: seq<Entry>, ios: seq<int>, f1: seq<int>, f2: seq<int>, x: seq<int>,
                   y: seq<int>, alpha: seq<int>)
    returns (tape: Tape)
    requires ValidSetup(s) && s.n == |f1| && |f2| == |f1| * |f1| && EntriesFit(gamma0, s.cons, |ios|, 0) && reps >= 1
    requires |x| == |y| == s.n && |alpha| == s.cons
    ensures LinearAccepted(s, tape, reps, gamma0, ios, f1, f2) ==>
            && ProductRight(x, y, f1, f2, s.prime)
            && Cong(CircuitSum(EntriesValue(gamma0, alpha, ios, []), Gamma12(s.es, alpha, s.index, s.n), f1, f2), 0, s.prime)
  {
    tape := AnyDraws(s, x, y, alpha);
    LinearRound(s, tape, reps, gamma0, ios, f1, f2, 0);
    assert RoundStart(s, 0) == 0 && RoundAlpha(s, tape, 0) == alpha;
  }

  /** A wrong entry in the second proof vector is found on some tape. */
  lemma WrongSecondRejected(s: Setup, reps: nat, gamma0: seq<Entry>, ios: seq<int>, f1: seq<int>, f2: seq<int>)
    returns (tape: Tape)
    requires ValidSetup(s) && s.n == |f1| && |f2| == |f1| * |f1| && EntriesFit(gamma0, s.cons, |ios|, 0) && reps >= 1
    requires !RightSecond(f1, f2, s.prime)
    ensures !LinearAccepted(s, tape, reps, gamma0, ios, f1, f2)
  {
    var i: nat, j: nat :| i < |f1| && j < |f1| && !Cong(Cell(f2, i, j, |f1|), f1[i] * f1[j], s.prime);
    tape := FirstRound(s, reps, gamma0, ios, f1, f2, UnitVec(s.n, i), UnitVec(s.n, j), seq(s.cons, _ => 0));
    if ProductRight(UnitVec(s.n, i), UnitVec(s.n, j), f1, f2, s.prime) { ProductsFix(f1, f2, s.prime, i, j); }
  }

  /** A violated constraint is found on some tape. */
  lemma ViolationRejected(cons: seq<Constraint>, rowss: seq<seq<Row>>, env: Env, io: Dict, vars: Dict, ios: seq<int>,
                          vals: seq<int>, s: Setup, reps: nat, f1: seq<int>, f2: seq<int>)
    returns (tape: Tape)
    requires Claimed(cons, rowss, env, io, vars, ios, vals, s, f1) && EntriesFit(Gamma0File(rowss), s.cons, |ios|, 0)
    requires RightSecond(f1, f2, s.prime) && !Sat(cons, env, s.prime) && reps >= 1
    ensures !LinearAccepted(s, tape, reps, Gamma0File(rowss), ios, f1, f2)
  {
    WeightedExact(cons, env, s.prime);
    var alpha: seq<int> :| |alpha| == |cons| && !Cong(Weighted(cons, alpha, env), 0, s.prime);
    var x := UnitVec(s.n, 0);
    tape := FirstRound(s, reps, Gamma0File(rowss), ios, f1, f2, x, x, alpha);
    RightCircuit(cons, rowss, env, io, vars, ios, vals, s, f1, f2, alpha, EntriesValue(Gamma0File(rowss), alpha, ios, []));
  }

  /** Accepted whatever is drawn. */
  ghost predicate AlwaysAccepted(s: Setup, reps: nat, gamma0: seq<Entry>, ios: seq<int>, f1: seq<int>, f2: seq<int>)
    requires ValidSetup(s) && s.n == |f1| && |f2| == |f1| * |f1| && EntriesFit(gamma0, s.cons, |ios|, 0)
  {
    forall tape: Tape :: LinearAccepted(s, tape, reps, gamma0, ios, f1, f2)
  }

  lemma OneTapeRejects(s: Setup, tape: Tape, reps: nat, gamma0: seq<Entry>, ios: seq<int>, f1: seq<int>, f2: seq<int>)
    requires ValidSetup(s) && s.n == |f1| && |f2| == |f1| * |f1| && EntriesFit(gamma0, s.cons, |ios|, 0)
    requires !LinearAccepted(s, tape, reps, gamma0, ios, f1, f2)
    ensures !AlwaysAccepted(s, reps, gamma0, ios, f1, f2)
  {
  }

  lemma RightAlwaysAccepted(cons: seq<Constraint>, rowss: seq<seq<Row>>, env: Env, io: Dict, vars: Dict, ios: seq<int>,
                            vals: seq<int>, s: Setup, reps: nat, f1: seq<int>, f2: seq<int>)
    requires Claimed(cons, rowss, env, io, vars, ios, vals, s, f1) && EntriesFit(Gamma0File(rowss), s.cons, |ios|, 0)
    requires RightSecond(f1, f2, s.prime) && Sat(cons, env, s.prime)
    ensures AlwaysAccepted(s, reps, Gamma0File(rowss), ios, f1, f2)
  {
    forall tape: Tape ensures LinearAccepted(s, tape, reps, Gamma0File(rowss), ios, f1, f2) {
      RightAccepted(cons, rowss, env, io, vars, ios, vals, s, tape, reps, f1, f2);
    }
  }

  /** Exactness: a linear prover is accepted on every tape if and only if its second vector holds the products of
      the first and the program is satisfied. */
  lemma PcpExact(cons: seq<Constraint>, rowss: seq<seq<Row>>, env: Env, io: Dict, vars: Dict, ios: seq<int>,
                 vals: seq<int>, s: Setup, reps: nat, f1: seq<int>, f2: seq<int>)
    requires Claimed(cons, rowss, env, io, vars, ios, vals, s, f1) && |f2| == |f1| * |f1| && reps >= 1
    ensures EntriesFit(Gamma0File(rowss), s.cons, |ios|, 0)
    ensures AlwaysAccepted(s, reps, Gamma0File(rowss), ios, f1, f2)
            <==> RightSecond(f1, f2, s.prime) && Sat(cons, env, s.prime)
  {
    ConstantFits(cons, rowss, env, io, vars, ios, vals, s, f1);
    if !RightSecond(f1, f2, s.prime) {
      var tape := WrongSecondRejected(s, reps, Gamma0File(rowss), ios, f1, f2);
      OneTapeRejects(s, tape, reps, Gamma0File(rowss), ios, f1, f2);
    } else if !Sat(cons, env, s.prime) {
      var tape := ViolationRejected(cons, rowss, env, io, vars, ios, vals, s, reps, f1, f2);
      OneTapeRejects(s, tape, reps, Gamma0File(rowss), ios, f1, f2);
    } else {
      RightAlwaysAccepted(cons, rowss, env, io, vars, ios, vals, s, reps, f1, f2);
    }
  }
}
