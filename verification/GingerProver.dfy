/** The prover's side of the Ginger PCP: re-deriving the queries from the public coins
    (`libv/gcomputation_p.cpp`) and answering them (`libv/prover.cpp`). */
module GingerProver {
  import opened Arith
  import opened Layout
  import opened Vectors
  import opened Expand
  import opened Aggregate
  import opened Gamma
  import opened Pcp
  import opened PcpComplete
  import opened Venezia
  import opened GingerVerifier

  /** Where the answer to a query comes from (`qquery_F_ptrs`; `Last` is the null pointer). */
  datatype Source = F1 | F2 | Last

  /** `find_cur_qlengths`: six entries a linearity repetition, then three. */
  function Sources(linReps: nat): (r: seq<Source>)
    ensures |r| == 6 * linReps + 3
  {
    LinSources(linReps) + [F2, F1, F2]
  }

  function LinSources(k: nat): (r: seq<Source>)
    ensures |r| == 6 * k
  {
    if k == 0 then [] else LinSources(k - 1) + [F1, F1, Last, F2, F2, Last]
  }

  method FindCurQlengths(linReps: nat) returns (ptrs: seq<Source>)
    ensures ptrs == Sources(linReps)
  {
    ptrs := [];
    for i := 0 to linReps
      invariant ptrs == LinSources(i)
    {
      ptrs := ptrs + [F1] + [F1] + [Last] + [F2] + [F2] + [Last];
    }
    ptrs := ptrs + [F2] + [F1] + [F2];
  }

  /** The stored queries spell `qs`; a query that is not stored is the sum of the two before it. */
  ghost predicate Spells(files: seq<Option<seq<int>>>, srcs: seq<Source>, qs: seq<Query>) {
    && |files| == |srcs| == |qs|
    && forall j :: 0 <= j < |qs| ==> SpellsAt(files, srcs, qs, j)
  }

  ghost predicate SpellsAt(files: seq<Option<seq<int>>>, srcs: seq<Source>, qs: seq<Query>, j: int)
    requires 0 <= j < |qs| && |files| == |srcs| == |qs|
  {
    match srcs[j]
    case F1 => files[j] == Some(qs[j].vec) && qs[j].first
    case F2 => files[j] == Some(qs[j].vec) && !qs[j].first
    case Last =>
      && j >= 2 && qs[j - 2].first == qs[j - 1].first == qs[j].first && |qs[j - 2].vec| == |qs[j - 1].vec|
      && qs[j].vec == SumOf(qs[j - 2].vec, qs[j - 1].vec)
  }

  lemma SpellsAppend(a: seq<Option<seq<int>>>, s: seq<Source>, q: seq<Query>, b: seq<Option<seq<int>>>, t: seq<Source>, r: seq<Query>)
    requires Spells(a, s, q) && Spells(b, t, r)
    ensures Spells(a + b, s + t, q + r)
  {
    forall j | 0 <= j < |q + r| ensures SpellsAt(a + b, s + t, q + r, j) {
      if j < |q| {
        assert SpellsAt(a, s, q, j);
      } else {
        var k := j - |q|;
        assert SpellsAt(b, t, r, k);
        assert (a + b)[j] == b[k] && (s + t)[j] == t[k] && (q + r)[j] == r[k];
        if t[k] == Last { assert (q + r)[j - 2] == r[k - 2] && (q + r)[j - 1] == r[k - 1]; }
      }
    }
  }

  lemma SixSpelled(l1: seq<int>, l2: seq<int>, m1: seq<int>, m2: seq<int>, qs: seq<Query>)
    requires |l1| == |l2| && |m1| == |m2|
    requires qs == [Query(true, l1), Query(true, l2), Query(true, SumOf(l1, l2)),
                    Query(false, m1), Query(false, m2), Query(false, SumOf(m1, m2))]
    ensures Spells([Some(l1), Some(l2), None, Some(m1), Some(m2), None], [F1, F1, Last, F2, F2, Last], qs)
  {
    var files, srcs := [Some(l1), Some(l2), None, Some(m1), Some(m2), None], [F1, F1, Last, F2, F2, Last];
    assert SpellsAt(files, srcs, qs, 0) && SpellsAt(files, srcs, qs, 1) && SpellsAt(files, srcs, qs, 2);
    assert SpellsAt(files, srcs, qs, 3) && SpellsAt(files, srcs, qs, 4) && SpellsAt(files, srcs, qs, 5);
  }

  class Prover {
    const setup: Setup
    const tape: Tape
    const f1q1: array<int>
    const f1q2: array<int>
    const f1q3: array<int>
    const f1q4: array<int>
    const f1q5: array<int>
    const f2q1: array<int>
    const f2q2: array<int>
    const f2q3: array<int>
    const f2q4: array<int>
    var pos: nat
    var files: seq<Option<seq<int>>>      // query files of the current repetition

    ghost predicate Valid() {
      && ValidSetup(setup)
      && f1q1.Length == f1q2.Length == f1q3.Length == f1q4.Length == f1q5.Length == setup.n
      && f2q1.Length == f2q2.Length == f2q3.Length == f2q4.Length == setup.n * setup.n
      && f1q1 != f1q2 && f1q1 != f1q3 && f1q1 != f1q4 && f1q1 != f1q5 && f1q2 != f1q3 && f1q2 != f1q4 && f1q2 != f1q5
      && f1q3 != f1q4 && f1q3 != f1q5 && f1q4 != f1q5
      && f2q1 != f2q2 && f2q1 != f2q3 && f2q1 != f2q4 && f2q2 != f2q3 && f2q2 != f2q4 && f2q3 != f2q4
      && {f1q1, f1q2, f1q3, f1q4, f1q5} !! {f2q1, f2q2, f2q3, f2q4}
    }

    constructor (setup: Setup, tape: Tape)
      requires ValidSetup(setup)
      ensures Valid() && pos == 0 && files == [] && this.setup == setup && this.tape == tape
      ensures fresh({f1q1, f1q2, f1q3, f1q4, f1q5, f2q1, f2q2, f2q3, f2q4})
    {
      this.setup, this.tape := setup, tape;
      var n := setup.n;
      f1q1, f1q2, f1q3 := new int[n], new int[n], new int[n];
      f1q4, f1q5 := new int[n], new int[n];
      f2q1, f2q2 := new int[n * n], new int[n * n];
      f2q3, f2q4 := new int[n * n], new int[n * n];
      pos, files := 0, [];
    }

    /** One linearity repetition: four of the six queries are written to disk. */
    method LinRepetition()
      requires Valid()
      modifies this`pos, this`files, f1q1, f1q2, f2q1, f2q2
      ensures pos == old(pos) + LinDraws(setup.n)
      ensures f1q1[..] == DrawA(tape, old(pos), setup.n) && f1q2[..] == DrawB(tape, old(pos), setup.n)
      ensures f2q1[..] == DrawA(tape, old(pos) + 2 * setup.n, setup.n * setup.n)
      ensures exists more :: files == old(files) + more
                          && Spells(more, [F1, F1, Last, F2, F2, Last], LinQueries(tape, old(pos), setup.n))
    {
      pos := CreateLinTestQueries(tape, pos, f1q1, f1q2, null, 0, 0, 0);
      pos := CreateLinTestQueries(tape, pos, f2q1, f2q2, null, 0, 0, 0);
      SixSpelled(f1q1[..], f1q2[..], f2q1[..], f2q2[..], LinQueries(tape, old(pos), setup.n));
      files := files + [Some(f1q1[..]), Some(f1q2[..]), None, Some(f2q1[..]), Some(f2q2[..]), None];
    }

    method KeepForCorrection()
      requires Valid()
      modifies f1q4, f1q5, f2q4
      ensures f1q4[..] == f1q1[..] && f1q5[..] == f1q2[..] && f2q4[..] == f2q1[..]
    {
      Copy(f1q1, f1q4);
      Copy(f1q2, f1q5);
      Copy(f2q1, f2q4);
    }

    method CreateLinQueries()
      requires Valid() && files == []
      modifies this`pos, this`files, f1q1, f1q2, f1q4, f1q5, f2q1, f2q2, f2q4
      ensures pos == LinStart(old(pos), setup.n, setup.linReps)
      ensures Spells(files, LinSources(setup.linReps), LinAll(tape, old(pos), setup.n, setup.linReps))
      ensures f1q4[..] == DrawA(tape, old(pos), setup.n) && f1q5[..] == DrawB(tape, old(pos), setup.n)
      ensures f2q4[..] == DrawA(tape, old(pos) + 2 * setup.n, setup.n * setup.n)
    {
      for i := 0 to setup.linReps
        invariant pos == LinStart(old(pos), setup.n, i)
        invariant Spells(files, LinSources(i), LinAll(tape, old(pos), setup.n, i))
        invariant i > 0 ==> f1q4[..] == DrawA(tape, old(pos), setup.n) && f1q5[..] == DrawB(tape, old(pos), setup.n)
                            && f2q4[..] == DrawA(tape, old(pos) + 2 * setup.n, setup.n * setup.n)
      {
        ghost var before, at := files, pos;
        LinRepetition();
        ghost var more :| files == before + more && Spells(more, [F1, F1, Last, F2, F2, Last], LinQueries(tape, at, setup.n));
        SpellsAppend(before, LinSources(i), LinAll(tape, old(pos), setup.n, i), more, [F1, F1, Last, F2, F2, Last],
                     LinQueries(tape, at, setup.n));
        if i == 0 {
          KeepForCorrection();
        }
      }
    }

    /** `create_qct_queries` and `create_ckt_queries`. */
    method CreateHeadQueries()
      requires Valid()
      modifies this`pos, this`files, f1q2, f1q3, f2q1, f2q3
      ensures pos == old(pos) + setup.cons
      ensures var g := Gamma12(setup.es, DrawVec(tape, old(pos), setup.cons), setup.index, setup.n);
              files == old(files) + [Some(Correction(f1q4[..], f1q5[..], f2q4[..], setup.prime)),
                                     Some(PlusMod(f1q4[..], g.0, setup.prime)), Some(PlusMod(f2q4[..], g.1, setup.prime))]
    {
      CreateCorrTestQueries(f1q4, f1q5, f2q1, f2q4, null, 0, setup.prime);
      var q7 := f2q1[..];
      var alpha := DrawVec(tape, pos, setup.cons);
      pos := pos + setup.cons;
      ParseGamma12(setup.es, alpha, setup.index, f1q2, f2q1);
      CreateCktTestQueries(f1q2, f1q3, f1q4, null, 0, setup.prime);
      CreateCktTestQueries(f2q1, f2q3, f2q4, null, 0, setup.prime);
      files := files + [Some(q7), Some(f1q3[..]), Some(f2q3[..])];
    }

    /** `deduce_queries`, one repetition: what is on disk spells the verifier's queries. */
    method DeduceRound()
      requires Valid() && files == []
      modifies this`pos, this`files, f1q1, f1q2, f1q3, f1q4, f1q5, f2q1, f2q2, f2q3, f2q4
      ensures pos == RoundEnd(setup, old(pos))
      ensures Spells(files, Sources(setup.linReps), RoundQueries(setup, tape, old(pos)))
    {
      ghost var start := pos;
      CreateLinQueries();
      ghost var lin := files;
      CreateHeadQueries();
      ghost var g := Gamma12(setup.es, RoundAlpha(setup, tape, start), setup.index, setup.n);
      HeadsSpelled(f1q4[..], f1q5[..], f2q4[..], g, setup.prime, lin, LinSources(setup.linReps),
                   LinAll(tape, start, setup.n, setup.linReps), files);
    }
  }

  lemma HeadsSpelled(a: seq<int>, b: seq<int>, c: seq<int>, g: (seq<int>, seq<int>), p: int, lin: seq<Option<seq<int>>>,
                     srcs: seq<Source>, qs: seq<Query>, files: seq<Option<seq<int>>>)
    requires p > 0 && |a| == |b| == |g.0| && |c| == |g.1| == |a| * |a| && Spells(lin, srcs, qs)
    requires files == lin + [Some(Correction(a, b, c, p)), Some(PlusMod(a, g.0, p)), Some(PlusMod(c, g.1, p))]
    ensures Spells(files, srcs + [F2, F1, F2], qs + HeadQueries(a, b, c, g, p))
  {
    var more := [Some(Correction(a, b, c, p)), Some(PlusMod(a, g.0, p)), Some(PlusMod(c, g.1, p))];
    var t, r := [F2, F1, F2], HeadQueries(a, b, c, g, p);
    assert SpellsAt(more, t, r, 0) && SpellsAt(more, t, r, 1) && SpellsAt(more, t, r, 2);
    SpellsAppend(lin, srcs, qs, more, t, r);
  }

  // ----- answering -----

  /** `prover_answer_queries`, one repetition: a query that was never materialised is answered by adding the
      last two answers. */
  method AnswerRound(files: seq<Option<seq<int>>>, srcs: seq<Source>, f1: seq<int>, f2: seq<int>, ghost qs: seq<Query>)
    returns (answers: seq<int>)
    requires |f2| == |f1| * |f1| && Spells(files, srcs, qs) && forall j :: 0 <= j < |qs| ==> Sized(qs[j], |f1|)
    ensures |answers| == |qs| && AnswersRound(answers, 0, qs, f1, f2)
  {
    answers := [];
    var a1, a2 := 0, 0;
    for j := 0 to |srcs|
      invariant |answers| == j
      invariant forall k :: 0 <= k < j ==> answers[k] == Answer(qs[k], f1, f2)
      invariant j >= 1 ==> a2 == answers[j - 1]
      invariant j >= 2 ==> a1 == answers[j - 2]
    {
      assert SpellsAt(files, srcs, qs, j);
      var answer;
      match srcs[j] {
        case Last =>
          LastTwo(qs[j - 2], qs[j - 1], qs[j], f1, f2);
          answer := a1 + a2;
        case F1 => answer := DotProduct(files[j].value, f1);
        case F2 => answer := DotProduct(files[j].value, f2);
      }
      answers := answers + [answer];
      if j == 0 {
        a2 := answer;
      } else {
        a1 := a2;
        a2 := answer;
      }
    }
  }

  lemma LastTwo(a: Query, b: Query, c: Query, f1: seq<int>, f2: seq<int>)
    requires |f2| == |f1| * |f1| && Sized(a, |f1|) && Sized(b, |f1|) && Sized(c, |f1|)
    requires a.first == b.first == c.first && c.vec == SumOf(a.vec, b.vec)
    ensures Answer(c, f1, f2) == Answer(a, f1, f2) + Answer(b, f1, f2)
  {
    assert IsSum(c.vec, a.vec, 1, b.vec);
    DotSum(c.vec, a.vec, 1, b.vec, if a.first then f1 else f2);
  }

  // ----- all repetitions -----

  lemma AnswersAppend(a: seq<int>, q: seq<Query>, b: seq<int>, r: seq<Query>, f1: seq<int>, f2: seq<int>)
    requires |f2| == |f1| * |f1| && |a| == |q| && |b| == |r|
    requires AnswersRound(a, 0, q, f1, f2) && AnswersRound(b, 0, r, f1, f2)
    ensures AnswersRound(a + b, 0, q + r, f1, f2)
  {
    forall j | 0 <= j < |q + r| ensures Sized((q + r)[j], |f1|) && (a + b)[0 + j] == Answer((q + r)[j], f1, f2) {
      if j < |q| {
        assert Sized(q[j], |f1|) && a[0 + j] == Answer(q[j], f1, f2);
      } else {
        var k := j - |q|;
        assert Sized(r[k], |f1|) && b[0 + k] == Answer(r[k], f1, f2);
      }
    }
  }

  /** Deducing and answering every repetition: the honest answers to the verifier's transcript. */
  method AnswerQueries(prover: Prover, reps: nat, f1: seq<int>, f2: seq<int>) returns (answers: seq<int>)
    requires prover.Valid() && prover.pos == 0 && |f1| == prover.setup.n && |f2| == |f1| * |f1|
    modifies prover`pos, prover`files, prover.f1q1, prover.f1q2, prover.f1q3, prover.f1q4, prover.f1q5
    modifies prover.f2q1, prover.f2q2, prover.f2q3, prover.f2q4
    ensures Honest(answers, prover.setup, prover.tape, reps, f1, f2)
  {
    var srcs := FindCurQlengths(prover.setup.linReps);
    answers := [];
    for rho := 0 to reps
      invariant prover.pos == RoundStart(prover.setup, rho)
      invariant Honest(answers, prover.setup, prover.tape, rho, f1, f2)
    {
      ghost var qs := RoundQueries(prover.setup, prover.tape, prover.pos);
      RoundSized(prover.setup, prover.tape, prover.pos);
      prover.files := [];
      prover.DeduceRound();
      var more := AnswerRound(prover.files, srcs, f1, f2, qs);
      AnswersAppend(answers, Transcript(prover.setup, prover.tape, rho), more, qs, f1, f2);
      answers := answers + more;
    }
  }
}
