/** The fixed-point comparison gate (`less_than_as_basic_constraints_f`): the difference is a negative
    numerator of `na` bits over a denominator `2^k`, `k <= nb`. */
module FloatGate {
  import opened Arith
  import opened Bits
  import opened Poly
  import opened Gates

  // ----- the one-hot denominator -----

  function DBooleans(target: string, k: nat): seq<Constraint> {
    if k == 0 then [] else DBooleans(target, k - 1) + [Boolean(Var(Aux(target, DBit(k - 1))))]
  }

  /** `- 2^nb D0 - 2^(nb-1) D1 - ...`, the first `k` bits. */
  function DWeights(target: string, k: nat, nb: nat): seq<Term>
    requires k <= nb + 1
  {
    if k == 0 then []
    else DWeights(target, k - 1, nb) + [Term(true, [Const(Pow(2, nb + 1 - k)), Var(Aux(target, DBit(k - 1)))])]
  }

  function DCounts(target: string, k: nat): seq<Term> {
    if k == 0 then [] else DCounts(target, k - 1) + [PosTerm(Var(Aux(target, DBit(k - 1))))]
  }

  function DSum(target: string, k: nat, nb: nat, env: Env): int
    requires k <= nb + 1
  {
    if k == 0 then 0 else DSum(target, k - 1, nb, env) + Pow(2, nb + 1 - k) * env(Aux(target, DBit(k - 1)))
  }

  function DCount(target: string, k: nat, env: Env): int {
    if k == 0 then 0 else DCount(target, k - 1, env) + env(Aux(target, DBit(k - 1)))
  }

  lemma {:induction false} DWeightsEval(target: string, k: nat, nb: nat, env: Env)
    requires k <= nb + 1
    ensures EvalTerms(DWeights(target, k, nb), env) == -DSum(target, k, nb, env)
    ensures EvalTerms(DCounts(target, k), env) == DCount(target, k, env)
    decreases k
  {
    if k > 0 {
      DWeightsEval(target, k - 1, nb, env);
      var f, w := Var(Aux(target, DBit(k - 1))), Pow(2, nb + 1 - k);
      var t, u := Term(true, [Const(w), f]), PosTerm(f);
      EvalTermsAppend(DWeights(target, k - 1, nb), [t], env);
      EvalTermsAppend(DCounts(target, k - 1), [u], env);
      EvalSmall(f, w, env);
      assert EvalTerm(t, env) == -EvalTerm(Scale(w, f), env);
      EvalOne(t, env); EvalOne(u, env);
    }
  }

  /** `c` bits are set; with exactly one, the weighted sum is that bit's weight. */
  lemma {:induction false} DBitsSound(target: string, k: nat, nb: nat, env: Env, p: int)
      returns (c: nat, w: int, j: nat)
    requires IsPrime(p) && k <= nb + 1 && Sat(DBooleans(target, k), env, p)
    ensures c <= k && Cong(DCount(target, k, env), c, p) && Cong(DSum(target, k, nb, env), w, p)
    ensures c == 0 ==> w == 0
    ensures c == 1 ==> j <= nb && w == Pow(2, nb - j)
    decreases k
  {
    c, w, j := 0, 0, 0;
    if k > 0 {
      var f, q := Var(Aux(target, DBit(k - 1))), Pow(2, nb + 1 - k);
      SatAppend(DBooleans(target, k - 1), [Boolean(f)], env, p);
      var c', w', j' := DBitsSound(target, k - 1, nb, env, p);
      assert Holds([Boolean(f)][0], env, p);
      var x := EvalFactor(f, env);
      BooleanEval(f, env);
      BooleanValue(x, p);
      var b := if Cong(x, 1, p) then 1 else 0;
      CongMul(q, q, x, b, p);
      CongAdd(DCount(target, k - 1, env), c', x, b, p);
      CongAdd(DSum(target, k - 1, nb, env), w', q * x, q * b, p);
      c, w, j := c' + b, w' + q * b, if b == 1 then k - 1 else j';
    }
  }

  lemma {:induction false} DBitsComplete(target: string, k: nat, nb: nat, env: Env, p: int, j: nat)
    requires IsPrime(p) && k <= nb + 1 && j <= nb
    requires forall i: nat :: i <= nb ==> Cong(env(Aux(target, DBit(i))), if i == j then 1 else 0, p)
    ensures Sat(DBooleans(target, k), env, p)
    ensures Cong(DCount(target, k, env), if j < k then 1 else 0, p)
    ensures Cong(DSum(target, k, nb, env), if j < k then Pow(2, nb - j) else 0, p)
    decreases k
  {
    if k > 0 {
      DBitsComplete(target, k - 1, nb, env, p, j);
      var f, q := Var(Aux(target, DBit(k - 1))), Pow(2, nb + 1 - k);
      var x, b := EvalFactor(f, env), if k - 1 == j then 1 else 0;
      assert Cong(x, b, p);
      BooleanEval(f, env);
      BooleanValue(x, p);
      assert Sat([Boolean(f)], env, p);
      SatAppend(DBooleans(target, k - 1), [Boolean(f)], env, p);
      CongMul(q, q, x, b, p);
      CongAdd(DCount(target, k - 1, env), if j < k - 1 then 1 else 0, x, b, p);
      CongAdd(DSum(target, k - 1, nb, env), if j < k - 1 then Pow(2, nb - j) else 0, q * x, q * b, p);
    }
  }

  // ----- the gate -----

  /** `- N0 - ... + N + 2^na`. */
  function NumLink(target: string, na: nat): Constraint {
    Constraint(EMPTY, EMPTY, Poly(MinusNBits(target, na) + [PosTerm(Var(Aux(target, Num))), PosTerm(Const(Pow(2, na)))]))
  }

  /** `- 2^nb D0 - ... + 2^nb D`. */
  function DenLink(target: string, nb: nat): Constraint {
    Constraint(EMPTY, EMPTY, Poly(DWeights(target, nb + 1, nb) + [Scale(Pow(2, nb), Var(Aux(target, Den)))]))
  }

  /** `D0 + ... - 1`. */
  function OneHot(target: string, nb: nat): Constraint {
    Constraint(EMPTY, EMPTY, Poly(DCounts(target, nb + 1) + [NegTerm(Const(1))]))
  }

  /** `( N ) * ( D ) + ( - ND )`. */
  function Quotient(target: string): Constraint {
    Constraint(Poly([PosTerm(Var(Aux(target, Num)))]), Poly([PosTerm(Var(Aux(target, Den)))]),
               Poly([NegTerm(Var(Aux(target, NumDen)))]))
  }

  /** `x - y - ND`. */
  function Short(x: Factor, y: Factor, target: string): Poly {
    Poly([PosTerm(x), NegTerm(y)] + [NegTerm(Var(Aux(target, NumDen)))])
  }

  function LessFloat(x: Factor, y: Factor, target: string, na: nat, nb: nat): seq<Constraint> {
    NBits(target, na) + ([NumLink(target, na)] + (DBooleans(target, nb + 1)
    + ([DenLink(target, nb), OneHot(target, nb)] + (Selector(target) + ([Quotient(target)] + FloatTail(x, y, target))))))
  }

  function FloatTail(x: Factor, y: Factor, target: string): seq<Constraint> {
    [Guard(target, Mlt, Short(x, y, target)),
     Guard(target, Meq, Difference(x, y)),
     Guard(target, Mgt, Short(y, x, target)),
     Output(target)]
  }

  lemma LinksEval(target: string, na: nat, nb: nat, env: Env)
    ensures EvalConstraint(NumLink(target, na), env) == env(Aux(target, Num)) + Pow(2, na) - NBitSum(target, na, env)
    ensures EvalConstraint(DenLink(target, nb), env) == Pow(2, nb) * env(Aux(target, Den)) - DSum(target, nb + 1, nb, env)
    ensures EvalConstraint(OneHot(target, nb), env) == DCount(target, nb + 1, env) - 1
  {
    var n, k := PosTerm(Var(Aux(target, Num))), PosTerm(Const(Pow(2, na)));
    MinusNBitsEval(target, na, env);
    EvalTermsAppend(MinusNBits(target, na), [n, k], env);
    EvalSmall(Var(Aux(target, Num)), 0, env); EvalSmall(Const(Pow(2, na)), 0, env);
    EvalTwo(n, k, env);
    DWeightsEval(target, nb + 1, nb, env);
    var d := Scale(Pow(2, nb), Var(Aux(target, Den)));
    EvalTermsAppend(DWeights(target, nb + 1, nb), [d], env);
    EvalSmall(Var(Aux(target, Den)), Pow(2, nb), env); EvalOne(d, env);
    EvalTermsAppend(DCounts(target, nb + 1), [NegTerm(Const(1))], env);
    EvalSmall(Const(1), 0, env); EvalOne(NegTerm(Const(1)), env);
  }

  lemma QuotientEval(x: Factor, y: Factor, target: string, env: Env)
    ensures EvalConstraint(Quotient(target), env)
         == env(Aux(target, Num)) * env(Aux(target, Den)) - env(Aux(target, NumDen))
    ensures EvalPoly(Short(x, y, target), env) == EvalFactor(x, env) - EvalFactor(y, env) - env(Aux(target, NumDen))
  {
    EvalSmall(Var(Aux(target, Num)), 0, env); EvalSmall(Var(Aux(target, Den)), 0, env);
    EvalSmall(Var(Aux(target, NumDen)), 0, env);
    EvalOne(PosTerm(Var(Aux(target, Num))), env); EvalOne(PosTerm(Var(Aux(target, Den))), env);
    EvalOne(NegTerm(Var(Aux(target, NumDen))), env);
    DifferenceEval(x, y, env);
    EvalTermsAppend([PosTerm(x), NegTerm(y)], [NegTerm(Var(Aux(target, NumDen)))], env);
  }

  ghost predicate FloatLinks(target: string, na: nat, nb: nat, env: Env, p: int)
    requires p > 0
  {
    && Sat(NBits(target, na), env, p) && Holds(NumLink(target, na), env, p)
    && Sat(DBooleans(target, nb + 1), env, p) && Holds(DenLink(target, nb), env, p) && Holds(OneHot(target, nb), env, p)
    && Sat(Selector(target), env, p) && Holds(Quotient(target), env, p)
  }

  lemma FloatParts(x: Factor, y: Factor, target: string, na: nat, nb: nat, env: Env, p: int)
    requires p > 0
    ensures Sat(LessFloat(x, y, target, na, nb), env, p) <==>
              && FloatLinks(target, na, nb, env, p)
              && Holds(Guard(target, Mlt, Short(x, y, target)), env, p)
              && Holds(Guard(target, Meq, Difference(x, y)), env, p)
              && Holds(Guard(target, Mgt, Short(y, x, target)), env, p)
              && Holds(Output(target), env, p)
  {
    var tail := FloatTail(x, y, target);
    var t1 := [Quotient(target)] + tail;
    var t2 := Selector(target) + t1;
    var t3 := [DenLink(target, nb), OneHot(target, nb)] + t2;
    var t4 := DBooleans(target, nb + 1) + t3;
    var t5 := [NumLink(target, na)] + t4;
    SatAppend(NBits(target, na), t5, env, p);
    SatAppend([NumLink(target, na)], t4, env, p);
    SatAppend(DBooleans(target, nb + 1), t3, env, p);
    SatAppend([DenLink(target, nb), OneHot(target, nb)], t2, env, p);
    SatAppend(Selector(target), t1, env, p);
    SatAppend([Quotient(target)], tail, env, p);
    SatFour(tail, env, p);
    SatOne(NumLink(target, na), env, p);
    SatOne(Quotient(target), env, p);
    SatTwo(DenLink(target, nb), OneHot(target, nb), env, p);
  }

  lemma SatOne(c: Constraint, env: Env, p: int)
    requires p > 0
    ensures Sat([c], env, p) <==> Holds(c, env, p)
  {
    assert [c][0] == c;
  }

  lemma SatTwo(c: Constraint, d: Constraint, env: Env, p: int)
    requires p > 0
    ensures Sat([c, d], env, p) <==> Holds(c, env, p) && Holds(d, env, p)
  {
    assert [c, d][0] == c && [c, d][1] == d;
  }

  /** The numerator is a negative integer of at most `na` bits. */
  lemma NumeratorSound(target: string, na: nat, env: Env, p: int) returns (m: int)
    requires IsPrime(p) && Sat(NBits(target, na), env, p) && Holds(NumLink(target, na), env, p)
    ensures -Pow(2, na) <= m <= -1 && Cong(env(Aux(target, Num)), m, p)
  {
    LinksEval(target, na, 0, env);
    var s := NBitsSound(target, na, env, p);
    var n, sum, k := env(Aux(target, Num)), NBitSum(target, na, env), Pow(2, na);
    CongAdd(n + k - sum, 0, sum, s, p);
    CongAdd(n + k, s, k, k, p);
    m := s - k;
  }

  /** The denominator variable is `2^(-j)` for some `j <= nb`. */
  lemma DenominatorSound(target: string, nb: nat, env: Env, p: int) returns (j: nat)
    requires IsPrime(p) && nb + 2 < p && Sat(DBooleans(target, nb + 1), env, p)
    requires Holds(DenLink(target, nb), env, p) && Holds(OneHot(target, nb), env, p)
    ensures j <= nb && Cong(Pow(2, nb) * env(Aux(target, Den)), Pow(2, nb - j), p)
  {
    LinksEval(target, 0, nb, env);
    var c, w, k := DBitsSound(target, nb + 1, nb, env, p);
    CongAdd(DCount(target, nb + 1, env), c, 1, 1, p);
    CongClose(c - 1, 0, p);
    j := k;
    var x, sum := Pow(2, nb) * env(Aux(target, Den)), DSum(target, nb + 1, nb, env);
    CongAdd(x - sum, 0, sum, w, p);
  }

  lemma ScaledQuotient(n: int, d: int, nd: int, q: int, m: int, w: int, p: int)
    requires p > 0 && Cong(n, m, p) && Cong(q * d, w, p) && Cong(n * d - nd, 0, p)
    ensures Cong(nd * q, m * w, p)
  {
    CongAdd(n * d, n * d, n * d - nd, 0, p);
    CongMul(nd, n * d, q, q, p);
    CongMul(n, m, q * d, w, p);
    assert (n * d) * q == n * (q * d) by { MulAssoc(n, d, q); assert d * q == q * d; }
  }

  lemma QuotientRange(m: int, na: nat, nb: nat, j: nat)
    requires -Pow(2, na) <= m <= -1 && j <= nb
    ensures -Pow(2, na + nb) <= m * Pow(2, nb - j) <= -1
  {
    var w := Pow(2, nb - j);
    MulMono(1, -m, 1, w);
    PowMonotone(2, nb - j, nb);
    MulMono(-m, Pow(2, na), w, Pow(2, nb));
    PowAdd(2, na, nb);
    assert (-m) * w == -(m * w);
  }

  /** Satisfied links: `N D 2^nb` is congruent to a negative integer of at most `na + nb` bits. */
  lemma LinksSound(target: string, na: nat, nb: nat, env: Env, p: int) returns (t: int)
    requires IsPrime(p) && nb + 2 < p && FloatLinks(target, na, nb, env, p)
    ensures -Pow(2, na + nb) <= t <= -1
    ensures Cong(env(Aux(target, NumDen)) * Pow(2, nb), t, p)
  {
    var m := NumeratorSound(target, na, env, p);
    var j := DenominatorSound(target, nb, env, p);
    QuotientEval(Const(0), Const(0), target, env);
    ScaledQuotient(env(Aux(target, Num)), env(Aux(target, Den)), env(Aux(target, NumDen)), Pow(2, nb), m, Pow(2, nb - j), p);
    QuotientRange(m, na, nb, j);
    t := m * Pow(2, nb - j);
  }

  /** A shortfall that vanishes in the field shows that the scaled difference is negative. */
  lemma ShortMeans(u: int, v: int, nd: int, q: int, diff: int, t: int, bound: int, p: int)
    requires p > 0 && Cong((u - v) * q, diff, p) && Cong(nd * q, t, p) && Cong(u - v - nd, 0, p)
    requires -bound <= t <= -1 && -bound <= diff <= bound && 2 * bound < p
    ensures diff < 0
  {
    CongAdd(u - v - nd, 0, nd, nd, p);
    CongMul(u - v, nd, q, q, p);
    CongClose(diff, t, p);
  }

  /** Soundness: `diff` is the difference scaled by `2^nb`; the target reports its sign. */
  lemma LessFloatSound(a: Factor, b: Factor, target: string, na: nat, nb: nat, env: Env, p: int, diff: int)
    requires IsPrime(p) && Pow(2, na + nb + 1) < p
    requires Cong((EvalFactor(a, env) - EvalFactor(b, env)) * Pow(2, nb), diff, p)
    requires -Pow(2, na + nb) <= diff <= Pow(2, na + nb)
    requires Sat(LessFloat(a, b, target, na, nb), env, p)
    ensures Cong(env(Plain(target)), if diff < 0 then 1 else 0, p)
  {
    FloatParts(a, b, target, na, nb, env, p);
    PowersExceed(na, nb);
    var t := LinksSound(target, na, nb, env, p);
    var which := SelectorSound(target, env, p);
    OutputEval(target, env, p);
    GuardEval(target, Mlt, Short(a, b, target), env, p);
    GuardEval(target, Meq, Difference(a, b), env, p);
    GuardEval(target, Mgt, Short(b, a, target), env, p);
    QuotientEval(a, b, target, env);
    QuotientEval(b, a, target, env);
    DifferenceEval(a, b, env);
    var u, v, q, bound := EvalFactor(a, env), EvalFactor(b, env), Pow(2, nb), Pow(2, na + nb);
    if which == -1 {
      ShortMeans(u, v, env(Aux(target, NumDen)), q, diff, t, bound, p);
    } else if which == 1 {
      CongMul((u - v) * q, diff, -1, -1, p);
      assert ((u - v) * q) * -1 == (v - u) * q;
      ShortMeans(v, u, env(Aux(target, NumDen)), q, -diff, t, bound, p);
    } else {
      CongMul(u - v, 0, q, q, p);
      CongClose(diff, 0, p);
    }
  }

  lemma {:induction false} PowersExceed(na: nat, nb: nat)
    ensures nb + 2 <= Pow(2, na + nb + 1)
    decreases nb
  {
    if nb == 0 {
      assert Pow(2, na + 1) == 2 * Pow(2, na);
    } else {
      PowersExceed(na, nb - 1);
      assert Pow(2, na + nb + 1) == 2 * Pow(2, na + (nb - 1) + 1);
    }
  }

  /** Completeness: numerator bits, one-hot denominator and quotient as the prover fills them in. */
  lemma LessFloatComplete(a: Factor, b: Factor, target: string, na: nat, nb: nat, env: Env, p: int,
                          which: int, num: int, j: nat)
    requires IsPrime(p) && -1 <= which <= 1 && j <= nb && -Pow(2, na) <= num <= -1
    requires Selects(target, env, p, which) && Cong(env(Plain(target)), env(Aux(target, Mlt)), p)
    requires NBitsAre(target, na, env, Pow(2, na) + num, p) && Cong(env(Aux(target, Num)), num, p)
    requires forall i: nat :: i <= nb ==> Cong(env(Aux(target, DBit(i))), if i == j then 1 else 0, p)
    requires Cong(env(Aux(target, Den)) * Pow(2, j), 1, p)
    requires Cong(env(Aux(target, NumDen)), env(Aux(target, Num)) * env(Aux(target, Den)), p)
    requires which == -1 ==> Cong(EvalFactor(a, env) - EvalFactor(b, env), env(Aux(target, NumDen)), p)
    requires which == 0 ==> Cong(EvalFactor(a, env), EvalFactor(b, env), p)
    requires which == 1 ==> Cong(EvalFactor(b, env) - EvalFactor(a, env), env(Aux(target, NumDen)), p)
    ensures Sat(LessFloat(a, b, target, na, nb), env, p)
  {
    FloatParts(a, b, target, na, nb, env, p);
    LinksComplete(target, na, nb, env, p, which, num, j);
    FloatGuards(a, b, target, env, p, which);
  }

  /** Only the guard of the selected case has to vanish. */
  lemma FloatGuards(a: Factor, b: Factor, target: string, env: Env, p: int, which: int)
    requires p > 0 && -1 <= which <= 1
    requires Selects(target, env, p, which) && Cong(env(Plain(target)), env(Aux(target, Mlt)), p)
    requires which == -1 ==> Cong(EvalFactor(a, env) - EvalFactor(b, env), env(Aux(target, NumDen)), p)
    requires which == 0 ==> Cong(EvalFactor(a, env), EvalFactor(b, env), p)
    requires which == 1 ==> Cong(EvalFactor(b, env) - EvalFactor(a, env), env(Aux(target, NumDen)), p)
    ensures Holds(Guard(target, Mlt, Short(a, b, target)), env, p) && Holds(Guard(target, Meq, Difference(a, b)), env, p)
    ensures Holds(Guard(target, Mgt, Short(b, a, target)), env, p) && Holds(Output(target), env, p)
  {
    OutputEval(target, env, p);
    GuardEval(target, Mlt, Short(a, b, target), env, p);
    GuardEval(target, Meq, Difference(a, b), env, p);
    GuardEval(target, Mgt, Short(b, a, target), env, p);
    QuotientEval(a, b, target, env);
    QuotientEval(b, a, target, env);
    DifferenceEval(a, b, env);
    var u, v, nd := EvalFactor(a, env), EvalFactor(b, env), env(Aux(target, NumDen));
    if which == -1 {
      CongAdd(u - v, nd, nd, nd, p);
    } else if which == 1 {
      CongAdd(v - u, nd, nd, nd, p);
    } else {
      CongAdd(u, v, v, v, p);
    }
  }

  lemma LinksComplete(target: string, na: nat, nb: nat, env: Env, p: int, which: int, num: int, j: nat)
    requires IsPrime(p) && -1 <= which <= 1 && j <= nb && -Pow(2, na) <= num <= -1
    requires Selects(target, env, p, which)
    requires NBitsAre(target, na, env, Pow(2, na) + num, p) && Cong(env(Aux(target, Num)), num, p)
    requires forall i: nat :: i <= nb ==> Cong(env(Aux(target, DBit(i))), if i == j then 1 else 0, p)
    requires Cong(env(Aux(target, Den)) * Pow(2, j), 1, p)
    requires Cong(env(Aux(target, NumDen)), env(Aux(target, Num)) * env(Aux(target, Den)), p)
    ensures FloatLinks(target, na, nb, env, p)
  {
    SelectorComplete(target, env, p, which);
    NumeratorComplete(target, na, env, p, num);
    DenominatorComplete(target, nb, env, p, j);
    QuotientEval(Const(0), Const(0), target, env);
    var nd, x := env(Aux(target, NumDen)), env(Aux(target, Num)) * env(Aux(target, Den));
    CongAdd(x, x, nd, x, p);
  }

  lemma NumeratorComplete(target: string, na: nat, env: Env, p: int, num: int)
    requires IsPrime(p) && -Pow(2, na) <= num <= -1
    requires NBitsAre(target, na, env, Pow(2, na) + num, p) && Cong(env(Aux(target, Num)), num, p)
    ensures Sat(NBits(target, na), env, p) && Holds(NumLink(target, na), env, p)
  {
    LinksEval(target, na, 0, env);
    var v, k, n := Pow(2, na) + num, Pow(2, na), env(Aux(target, Num));
    NBitsComplete(target, na, env, v, p);
    SmallMod(v, k);
    CongAdd(n, num, k, k, p);
    CongAdd(n + k, v, NBitSum(target, na, env), v, p);
  }

  lemma DenominatorComplete(target: string, nb: nat, env: Env, p: int, j: nat)
    requires IsPrime(p) && j <= nb
    requires forall i: nat :: i <= nb ==> Cong(env(Aux(target, DBit(i))), if i == j then 1 else 0, p)
    requires Cong(env(Aux(target, Den)) * Pow(2, j), 1, p)
    ensures Sat(DBooleans(target, nb + 1), env, p)
    ensures Holds(DenLink(target, nb), env, p) && Holds(OneHot(target, nb), env, p)
  {
    LinksEval(target, 0, nb, env);
    DBitsComplete(target, nb + 1, nb, env, p, j);
    var d, w := env(Aux(target, Den)), Pow(2, nb - j);
    CongAdd(DCount(target, nb + 1, env), 1, 1, 1, p);
    CongMul(w, w, d * Pow(2, j), 1, p);
    assert Pow(2, nb) * d == w * (d * Pow(2, j)) by {
      PowAdd(2, nb - j, j);
      MulAssoc(w, Pow(2, j), d);
      assert Pow(2, j) * d == d * Pow(2, j);
    }
    CongAdd(Pow(2, nb) * d, w, DSum(target, nb + 1, nb, env), w, p);
  }
}
