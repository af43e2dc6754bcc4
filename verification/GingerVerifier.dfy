/** The verifier's side of the Ginger PCP (`libv/gcomputation_v.cpp`): query buffers reused from step to
    step, the consistency vectors accumulated along the way. */
module GingerVerifier {
  import opened Arith
  import opened Layout
  import opened Vectors
  import opened Expand
  import opened Aggregate
  import opened Gamma
  import opened Pcp
  import opened Venezia
  import opened Parties

  class Verifier {
    const setup: Setup
    const tape: Tape                    // public coins, shared with the prover
    const priv: Tape                    // private coins, one per query
    const f1q1: array<int>
    const f1q2: array<int>
    const f1q3: array<int>
    const f1q4: array<int>
    const f1q5: array<int>
    const f2q1: array<int>
    const f2q2: array<int>
    const f2q3: array<int>
    const f2q4: array<int>
    const con1: array<int>
    const con2: array<int>
    ghost const r1: seq<int>            // committed randomness, which the consistency vectors start from
    ghost const r2: seq<int>
    var pos: nat
    var coins: seq<int>
    var alpha: seq<int>
    ghost var asked: seq<Query>

    ghost predicate Valid() {
      && ValidSetup(setup)
      && f1q1.Length == f1q2.Length == f1q3.Length == f1q4.Length == f1q5.Length == con1.Length == |r1| == setup.n
      && f2q1.Length == f2q2.Length == f2q3.Length == f2q4.Length == con2.Length == |r2| == setup.n * setup.n
      && f1q1 != f1q2 && f1q1 != f1q3 && f1q1 != f1q4 && f1q1 != f1q5 && f1q2 != f1q3 && f1q2 != f1q4 && f1q2 != f1q5
      && f1q3 != f1q4 && f1q3 != f1q5 && f1q4 != f1q5
      && f2q1 != f2q2 && f2q1 != f2q3 && f2q1 != f2q4 && f2q2 != f2q3 && f2q2 != f2q4 && f2q3 != f2q4
      && {f1q1, f1q2, f1q3, f1q4, f1q5} !! {f2q1, f2q2, f2q3, f2q4}
      && con1 !in {f1q1, f1q2, f1q3, f1q4, f1q5, f2q1, f2q2, f2q3, f2q4, con2}
      && con2 !in {f1q1, f1q2, f1q3, f1q4, f1q5, f2q1, f2q2, f2q3, f2q4}
    }

    /** The consistency vectors combine exactly the queries asked so far. */
    ghost predicate Consistent()
      requires Valid()
      reads this, con1, con2
    {
      Accumulates(con1[..], con2[..], r1, r2, coins, asked, setup.n, priv)
    }

    constructor (setup: Setup, tape: Tape, priv: Tape, r1: seq<int>, r2: seq<int>)
      requires ValidSetup(setup) && |r1| == setup.n && |r2| == setup.n * setup.n
      ensures Valid() && Consistent() && asked == [] && pos == 0
      ensures this.setup == setup && this.tape == tape && this.priv == priv && this.r1 == r1 && this.r2 == r2
      ensures fresh({f1q1, f1q2, f1q3, f1q4, f1q5, f2q1, f2q2, f2q3, f2q4, con1, con2})
    {
      this.setup, this.tape, this.priv, this.r1, this.r2 := setup, tape, priv, r1, r2;
      var n := setup.n;
      f1q1, f1q2, f1q3 := new int[n], new int[n], new int[n];
      f1q4, f1q5 := new int[n], new int[n];
      f2q1, f2q2 := new int[n * n], new int[n * n];
      f2q3, f2q4 := new int[n * n], new int[n * n];
      con1 := new int[n](i requires 0 <= i < n => r1[i]);
      con2 := new int[n * n](i requires 0 <= i < n * n => r2[i]);
      pos, coins, alpha, asked := 0, [], [], [];
      new;
      assert con1[..] == r1 && con2[..] == r2;
    }

    /** Linearity queries to the first proof vector. */
    method LinFirst()
      requires Valid() && Consistent()
      modifies this`pos, this`coins, this`asked, f1q1, f1q2, con1
      ensures Consistent() && pos == old(pos) + 2 * setup.n
      ensures f1q1[..] == DrawA(tape, old(pos), setup.n) && f1q2[..] == DrawB(tape, old(pos), setup.n)
      ensures asked == old(asked) + Triple(true, f1q1[..], f1q2[..])
    {
      var c := NextCoins(coins, 3, priv);
      pos := CreateLinTestQueries(tape, pos, f1q1, f1q2, con1, c[0], c[1], c[2]);
      assert Folded(con1[..], old(con1[..]), c, f1q1[..], f1q2[..]);
      LinStepFirst(old(con1[..]), con2[..], r1, r2, coins, asked, setup.n, priv, f1q1[..], f1q2[..], con1[..]);
      coins, asked := coins + c, asked + Triple(true, f1q1[..], f1q2[..]);
    }

    /** Linearity queries to the second. */
    method LinSecond()
      requires Valid() && Consistent()
      modifies this`pos, this`coins, this`asked, f2q1, f2q2, con2
      ensures Consistent() && pos == old(pos) + 2 * (setup.n * setup.n)
      ensures f2q1[..] == DrawA(tape, old(pos), setup.n * setup.n) && f2q2[..] == DrawB(tape, old(pos), setup.n * setup.n)
      ensures asked == old(asked) + Triple(false, f2q1[..], f2q2[..])
    {
      var c := NextCoins(coins, 3, priv);
      pos := CreateLinTestQueries(tape, pos, f2q1, f2q2, con2, c[0], c[1], c[2]);
      assert Folded(con2[..], old(con2[..]), c, f2q1[..], f2q2[..]);
      LinStepSecond(con1[..], old(con2[..]), r1, r2, coins, asked, setup.n, priv, f2q1[..], f2q2[..], con2[..]);
      coins, asked := coins + c, asked + Triple(false, f2q1[..], f2q2[..]);
    }

    /** One linearity repetition. */
    method LinRepetition()
      requires Valid() && Consistent()
      modifies this`pos, this`coins, this`asked, f1q1, f1q2, f2q1, f2q2, con1, con2
      ensures Consistent() && pos == old(pos) + LinDraws(setup.n)
      ensures asked == old(asked) + LinQueries(tape, old(pos), setup.n)
      ensures f1q1[..] == DrawA(tape, old(pos), setup.n) && f1q2[..] == DrawB(tape, old(pos), setup.n)
      ensures f2q1[..] == DrawA(tape, old(pos) + 2 * setup.n, setup.n * setup.n)
    {
      LinFirst();
      LinSecond();
      assert Triple(true, f1q1[..], f1q2[..]) + Triple(false, f2q1[..], f2q2[..]) == LinQueries(tape, old(pos), setup.n);
    }

    method KeepForCorrection()
      requires Valid()
      modifies f1q4, f1q5, f2q4
      ensures f1q4[..] == f1q1[..] && f1q5[..] == f1q2[..] && f2q4[..] == f2q1[..]
    {
      Copy(f1q1, f1q4);
      Copy(f1q2, f1q5);
      Copy(f2q1, f2q4);
    }

    /** `create_lin_queries`; the queries of the first repetition are kept for self-correction. */
    method CreateLinQueries()
      requires Valid() && Consistent()
      modifies this`pos, this`coins, this`asked, f1q1, f1q2, f1q4, f1q5, f2q1, f2q2, f2q4, con1, con2
      ensures Consistent() && pos == LinStart(old(pos), setup.n, setup.linReps)
      ensures asked == old(asked) + LinAll(tape, old(pos), setup.n, setup.linReps)
      ensures f1q4[..] == DrawA(tape, old(pos), setup.n) && f1q5[..] == DrawB(tape, old(pos), setup.n)
      ensures f2q4[..] == DrawA(tape, old(pos) + 2 * setup.n, setup.n * setup.n)
    {
      for i := 0 to setup.linReps
        invariant Consistent() && pos == LinStart(old(pos), setup.n, i)
        invariant asked == old(asked) + LinAll(tape, old(pos), setup.n, i)
        invariant i > 0 ==> f1q4[..] == DrawA(tape, old(pos), setup.n) && f1q5[..] == DrawB(tape, old(pos), setup.n)
                            && f2q4[..] == DrawA(tape, old(pos) + 2 * setup.n, setup.n * setup.n)
      {
        LinRepetition();
        if i == 0 {
          KeepForCorrection();
        }
      }
    }

    /** `create_qct_queries`: the product of two linearity queries, masked by a third. */
    method CreateQctQueries(ghost start: nat)
      requires Valid() && Consistent()
      requires f1q4[..] == DrawA(tape, start, setup.n) && f1q5[..] == DrawB(tape, start, setup.n)
      requires f2q4[..] == DrawA(tape, start + 2 * setup.n, setup.n * setup.n)
      modifies this`coins, this`asked, f2q1, con2
      ensures Consistent()
      ensures asked == old(asked) + [Query(false, Correction(f1q4[..], f1q5[..], f2q4[..], setup.prime))]
    {
      CreateCorrTestQueries(f1q4, f1q5, f2q1, f2q4, con2, priv(|coins|), setup.prime);
      ghost var q := Query(false, f2q1[..]);
      OneStep(con1[..], old(con2[..]), r1, r2, coins, asked, setup.n, priv, q, con1[..], con2[..]);
      coins, asked := coins + [priv(|coins|)], asked + [q];
    }

    /** `create_gamma12`: draw one coefficient per constraint, then fill `f1q2` and `f2q1`. */
    method CreateGamma12()
      requires Valid()
      modifies this`pos, this`alpha, f1q2, f2q1
      ensures pos == old(pos) + setup.cons && alpha == DrawVec(tape, old(pos), setup.cons)
      ensures forall i :: 0 <= i < setup.cons ==> alpha[i] == tape(old(pos) + i)
      ensures (f1q2[..], f2q1[..]) == Gamma12(setup.es, alpha, setup.index, setup.n)
    {
      alpha := DrawVec(tape, pos, setup.cons);
      pos := pos + setup.cons;
      ParseGamma12(setup.es, alpha, setup.index, f1q2, f2q1);
    }

    method AskFirst()
      requires Valid() && Consistent()
      modifies this`coins, this`asked, f1q3, con1
      ensures Consistent() && asked == old(asked) + [Query(true, PlusMod(f1q4[..], f1q2[..], setup.prime))]
    {
      CreateCktTestQueries(f1q2, f1q3, f1q4, con1, priv(|coins|), setup.prime);
      ghost var q := Query(true, f1q3[..]);
      OneStep(old(con1[..]), con2[..], r1, r2, coins, asked, setup.n, priv, q, con1[..], con2[..]);
      coins, asked := coins + [priv(|coins|)], asked + [q];
    }

    method AskSecond()
      requires Valid() && Consistent()
      modifies this`coins, this`asked, f2q3, con2
      ensures Consistent() && asked == old(asked) + [Query(false, PlusMod(f2q4[..], f2q1[..], setup.prime))]
    {
      CreateCktTestQueries(f2q1, f2q3, f2q4, con2, priv(|coins|), setup.prime);
      ghost var q := Query(false, f2q3[..]);
      OneStep(con1[..], old(con2[..]), r1, r2, coins, asked, setup.n, priv, q, con1[..], con2[..]);
      coins, asked := coins + [priv(|coins|)], asked + [q];
    }

    /** The queries after the linearity ones; `start` is where the repetition's draws began. */
    method CreateHeadQueries(ghost start: nat)
      requires Valid() && Consistent()
      requires f1q4[..] == DrawA(tape, start, setup.n) && f1q5[..] == DrawB(tape, start, setup.n)
      requires f2q4[..] == DrawA(tape, start + 2 * setup.n, setup.n * setup.n)
      modifies this`pos, this`coins, this`asked, this`alpha, f1q2, f1q3, f2q1, f2q3, con1, con2
      ensures Consistent() && pos == old(pos) + setup.cons && alpha == DrawVec(tape, old(pos), setup.cons)
      ensures asked == old(asked) + HeadQueries(f1q4[..], f1q5[..], f2q4[..],
                                                Gamma12(setup.es, alpha, setup.index, setup.n), setup.prime)
    {
      CreateQctQueries(start);
      CreateGamma12();
      AskFirst();
      AskSecond();
      RoundConcat(old(asked), f1q4[..], f1q5[..], f2q4[..], (f1q2[..], f2q1[..]), setup.prime);
    }

    /** One repetition of the PCP: the buffers are reused, yet the queries are those of `RoundQueries`. */
    method CreateRound()
      requires Valid() && Consistent()
      modifies this`pos, this`coins, this`asked, this`alpha, f1q1, f1q2, f1q3, f1q4, f1q5, f2q1, f2q2, f2q3, f2q4, con1, con2
      ensures Consistent() && pos == RoundEnd(setup, old(pos)) && alpha == RoundAlpha(setup, tape, old(pos))
      ensures asked == old(asked) + RoundQueries(setup, tape, old(pos))
    {
      ghost var start := pos;
      CreateLinQueries();
      CreateHeadQueries(start);
    }

    method RoundWithConstant(gamma0: seq<Entry>, ios: seq<int>, ghost rho: nat) returns (c: int)
      requires Valid() && Consistent() && pos == RoundStart(setup, rho) && EntriesFit(gamma0, setup.cons, |ios|, 0)
      requires asked == Transcript(setup, tape, rho)
      modifies this`pos, this`coins, this`asked, this`alpha, f1q1, f1q2, f1q3, f1q4, f1q5, f2q1, f2q2, f2q3, f2q4, con1, con2
      ensures Consistent() && pos == RoundStart(setup, rho + 1) && asked == Transcript(setup, tape, rho + 1)
      ensures c == RoundConstant(setup, tape, gamma0, ios, rho)
    {
      CreateRound();
      c := ParseGamma0(gamma0, alpha, ios, 0);
    }

    /** `create_plain_queries`, with `gamma_0` of one instance evaluated after each repetition. */
    method CreatePlainQueries(reps: nat, gamma0: seq<Entry>, ios: seq<int>) returns (cs: seq<int>)
      requires Valid() && Consistent() && asked == [] && pos == 0 && EntriesFit(gamma0, setup.cons, |ios|, 0)
      modifies this`pos, this`coins, this`asked, this`alpha, f1q1, f1q2, f1q3, f1q4, f1q5, f2q1, f2q2, f2q3, f2q4, con1, con2
      ensures Consistent() && asked == Transcript(setup, tape, reps)
      ensures |cs| == reps && forall rho: nat :: rho < reps ==> cs[rho] == RoundConstant(setup, tape, gamma0, ios, rho)
    {
      cs := [];
      for rho := 0 to reps
        invariant Consistent() && asked == Transcript(setup, tape, rho) && pos == RoundStart(setup, rho)
        invariant |cs| == rho && AllConstants(cs, setup, tape, gamma0, ios)
      {
        var c := RoundWithConstant(gamma0, ios, rho);
        AllConstantsSnoc(cs, c, setup, tape, gamma0, ios);
        cs := cs + [c];
      }
    }
  }

  ghost predicate AllConstants(cs: seq<int>, s: Setup, tape: Tape, gamma0: seq<Entry>, ios: seq<int>)
    requires EntriesFit(gamma0, s.cons, |ios|, 0)
  {
    forall k: nat :: k < |cs| ==> cs[k] == RoundConstant(s, tape, gamma0, ios, k)
  }

  lemma AllConstantsSnoc(cs: seq<int>, c: int, s: Setup, tape: Tape, gamma0: seq<Entry>, ios: seq<int>)
    requires EntriesFit(gamma0, s.cons, |ios|, 0) && AllConstants(cs, s, tape, gamma0, ios)
    requires c == RoundConstant(s, tape, gamma0, ios, |cs|)
    ensures AllConstants(cs + [c], s, tape, gamma0, ios)
  {
  }

  lemma RoundConcat(before: seq<Query>, a: seq<int>, b: seq<int>, c: seq<int>, g: (seq<int>, seq<int>), p: int)
    requires p > 0 && |a| == |b| == |g.0| && |c| == |g.1| == |a| * |a|
    ensures before + [Query(false, Correction(a, b, c, p))] + [Query(true, PlusMod(a, g.0, p))]
            + [Query(false, PlusMod(c, g.1, p))]
         == before + HeadQueries(a, b, c, g, p)
  {
  }
}
