/** Field constraints for comparison, inequality and bit-split gates, and why they pin down the gate's
    result (the `*_as_basic_constraints*` generators of `code/compiler/backend/zcc_parser.py`). */
module Gates {
  import opened Arith
  import opened Bits
  import opened Poly

  /** A basic constraint `( a ) * ( b ) + ( c )`, required to be 0 in the field. */
  datatype Constraint = Constraint(a: Poly, b: Poly, c: Poly)

  function EvalConstraint(c: Constraint, env: Env): int {
    EvalPoly(c.a, env) * EvalPoly(c.b, env) + EvalPoly(c.c, env)
  }

  ghost predicate Holds(c: Constraint, env: Env, p: int)
    requires p > 0
  {
    Cong(EvalConstraint(c, env), 0, p)
  }

  ghost predicate Sat(cs: seq<Constraint>, env: Env, p: int)
    requires p > 0
  {
    forall i :: 0 <= i < |cs| ==> Holds(cs[i], env, p)
  }

  lemma SatAppend(a: seq<Constraint>, b: seq<Constraint>, env: Env, p: int)
    requires p > 0
    ensures Sat(a + b, env, p) <==> Sat(a, env, p) && Sat(b, env, p)
  {
    if Sat(a + b, env, p) {
      forall i | 0 <= i < |a| ensures Holds(a[i], env, p) { assert (a + b)[i] == a[i]; }
      forall i | 0 <= i < |b| ensures Holds(b[i], env, p) { assert (a + b)[|a| + i] == b[i]; }
    }
  }

  // ----- small expressions -----

  function PosTerm(f: Factor): Term { Term(false, [f]) }
  function NegTerm(f: Factor): Term { Term(true, [f]) }
  function Scale(k: int, f: Factor): Term { Term(false, [Const(k), f]) }
  const EMPTY := Poly([])

  lemma EvalSmall(f: Factor, k: int, env: Env)
    ensures EvalTerm(PosTerm(f), env) == EvalFactor(f, env)
    ensures EvalTerm(NegTerm(f), env) == -EvalFactor(f, env)
    ensures EvalTerm(Scale(k, f), env) == k * EvalFactor(f, env)
  {
    assert EvalFactors([f], env) == EvalFactor(f, env) * EvalFactors([f][1..], env);
    assert [Const(k), f][1..] == [f];
    assert EvalFactors([Const(k), f], env) == EvalFactor(Const(k), env) * EvalFactors([f], env);
  }

  lemma EvalOne(t: Term, env: Env)
    ensures EvalPoly(Poly([t]), env) == EvalTerm(t, env)
  {
    assert EvalTerms([t], env) == EvalTerm(t, env) + EvalTerms([t][1..], env);
  }

  lemma EvalTwo(t: Term, u: Term, env: Env)
    ensures EvalPoly(Poly([t, u]), env) == EvalTerm(t, env) + EvalTerm(u, env)
  {
    EvalOne(u, env);
    assert [t, u][1..] == [u];
  }

  /** `( f ) * ( k - f )`: the value is 0 or `k`. */
  function ZeroOr(f: Factor, k: int): Constraint {
    Constraint(Poly([PosTerm(f)]), Poly([PosTerm(Const(k)), NegTerm(f)]), EMPTY)
  }

  lemma ZeroOrEval(f: Factor, k: int, env: Env)
    ensures EvalConstraint(ZeroOr(f, k), env) == EvalFactor(f, env) * (k - EvalFactor(f, env))
  {
    EvalSmall(f, 0, env); EvalSmall(Const(k), 0, env);
    EvalOne(PosTerm(f), env); EvalTwo(PosTerm(Const(k)), NegTerm(f), env);
  }

  /** `( f ) * ( f - 1 )`: the value is 0 or 1. */
  function Boolean(f: Factor): Constraint {
    Constraint(Poly([PosTerm(f)]), Poly([PosTerm(f), NegTerm(Const(1))]), EMPTY)
  }

  lemma BooleanEval(f: Factor, env: Env)
    ensures EvalConstraint(Boolean(f), env) == EvalFactor(f, env) * (EvalFactor(f, env) - 1)
  {
    EvalSmall(f, 0, env); EvalSmall(Const(1), 0, env);
    EvalOne(PosTerm(f), env); EvalTwo(PosTerm(f), NegTerm(Const(1)), env);
  }

  lemma ZeroOrValue(x: int, k: int, p: int)
    requires IsPrime(p)
    ensures Cong(x * (k - x), 0, p) <==> Cong(x, 0, p) || Cong(x, k, p)
  {
    if Cong(x * (k - x), 0, p) {
      NoZeroDivisors(x, k - x, p);
      if Cong(k - x, 0, p) { CongAdd(k - x, 0, x, x, p); }
    }
    if Cong(x, 0, p) { CongMul(x, 0, k - x, k - x, p); }
    if Cong(x, k, p) {
      CongAdd(k, k, x, k, p);
      CongMul(x, x, k - x, 0, p);
    }
  }

  lemma BooleanValue(x: int, p: int)
    requires IsPrime(p)
    ensures Cong(x * (x - 1), 0, p) <==> Cong(x, 0, p) || Cong(x, 1, p)
  {
    ZeroOrValue(x, 1, p);
    assert x * (1 - x) == (x * (x - 1)) * -1;
    if Cong(x * (x - 1), 0, p) { CongMul(x * (x - 1), 0, -1, -1, p); }
    if Cong(x * (1 - x), 0, p) {
      CongMul(x * (1 - x), 0, -1, -1, p);
      assert (x * (1 - x)) * -1 == x * (x - 1);
    }
  }

  // ----- weighted bits -----

  /** The weight constraints `( Ni ) * ( 2^i - Ni )` for `i < k`. */
  function NBits(target: string, k: nat): seq<Constraint> {
    if k == 0 then [] else NBits(target, k - 1) + [ZeroOr(Var(Aux(target, NBit(k - 1))), Pow(2, k - 1))]
  }

  /** `- N0 - N1 - ...`. */
  function MinusNBits(target: string, k: nat): seq<Term> {
    if k == 0 then [] else MinusNBits(target, k - 1) + [NegTerm(Var(Aux(target, NBit(k - 1))))]
  }

  function NBitSum(target: string, k: nat, env: Env): int {
    if k == 0 then 0 else NBitSum(target, k - 1, env) + env(Aux(target, NBit(k - 1)))
  }

  lemma {:induction false} MinusNBitsEval(target: string, k: nat, env: Env)
    ensures EvalTerms(MinusNBits(target, k), env) == -NBitSum(target, k, env)
    decreases k
  {
    if k > 0 {
      MinusNBitsEval(target, k - 1, env);
      var t := NegTerm(Var(Aux(target, NBit(k - 1))));
      EvalTermsAppend(MinusNBits(target, k - 1), [t], env);
      EvalSmall(Var(Aux(target, NBit(k - 1))), 0, env);
      EvalOne(t, env);
    }
  }

  /** Satisfied weight constraints make the bit sum a number below `2^k`. */
  lemma {:induction false} NBitsSound(target: string, k: nat, env: Env, p: int) returns (s: nat)
    requires IsPrime(p) && Sat(NBits(target, k), env, p)
    ensures s < Pow(2, k) && Cong(NBitSum(target, k, env), s, p)
    decreases k
  {
    if k == 0 {
      s := 0;
    } else {
      var f := Var(Aux(target, NBit(k - 1)));
      SatAppend(NBits(target, k - 1), [ZeroOr(f, Pow(2, k - 1))], env, p);
      s := NBitsSound(target, k - 1, env, p);
      assert Holds([ZeroOr(f, Pow(2, k - 1))][0], env, p);
      ZeroOrEval(f, Pow(2, k - 1), env);
      ZeroOrValue(EvalFactor(f, env), Pow(2, k - 1), p);
      if Cong(EvalFactor(f, env), 0, p) {
        CongAdd(NBitSum(target, k - 1, env), s, EvalFactor(f, env), 0, p);
      } else {
        CongAdd(NBitSum(target, k - 1, env), s, EvalFactor(f, env), Pow(2, k - 1), p);
        s := s + Pow(2, k - 1);
      }
    }
  }

  /** The prover's bits of `v`: bit `i` carries 0 or `2^i`. */
  ghost predicate NBitsAre(target: string, k: nat, env: Env, v: nat, p: int)
    requires p > 0
  {
    forall i: nat :: i < k ==> Cong(env(Aux(target, NBit(i))), (Shift(v, i) % 2) * Pow(2, i), p)
  }

  lemma {:induction false} NBitsComplete(target: string, k: nat, env: Env, v: nat, p: int)
    requires IsPrime(p) && NBitsAre(target, k, env, v, p)
    ensures Sat(NBits(target, k), env, p)
    ensures Cong(NBitSum(target, k, env), v % Pow(2, k), p)
    decreases k
  {
    if k == 0 {
      assert v % 1 == 0;
    } else {
      NBitsComplete(target, k - 1, env, v, p);
      var f, w := Var(Aux(target, NBit(k - 1))), Pow(2, k - 1);
      var b := Shift(v, k - 1) % 2;
      assert Cong(env(Aux(target, NBit(k - 1))), b * w, p);
      BitTimes(b, w);
      ZeroOrEval(f, w, env);
      ZeroOrValue(EvalFactor(f, env), w, p);
      assert Sat([ZeroOr(f, w)], env, p);
      SatAppend(NBits(target, k - 1), [ZeroOr(f, w)], env, p);
      LowBitsStep(v, k - 1, 1);
      PowOne(2);
      CongAdd(NBitSum(target, k - 1, env), v % w, EvalFactor(f, env), b * w, p);
    }
  }

  lemma BitTimes(b: int, w: int)
    requires 0 <= b <= 1
    ensures b * w == w * b && (b * w == 0 || b * w == w)
  {
    if b == 0 { assert b * w == 0; } else { assert b * w == w; }
  }

  // ----- the three-way selector -----

  function Selector(target: string): seq<Constraint> {
    [Boolean(Var(Aux(target, Mlt))),
     Boolean(Var(Aux(target, Meq))),
     Boolean(Var(Aux(target, Mgt))),
     Constraint(EMPTY, EMPTY, Poly([PosTerm(Var(Aux(target, Mlt))), PosTerm(Var(Aux(target, Meq))),
                                    PosTerm(Var(Aux(target, Mgt))), NegTerm(Const(1))]))]
  }

  lemma SelectorSumEval(target: string, env: Env)
    ensures EvalConstraint(Selector(target)[3], env)
         == env(Aux(target, Mlt)) + env(Aux(target, Meq)) + env(Aux(target, Mgt)) - 1
  {
    var t, u, v, w := PosTerm(Var(Aux(target, Mlt))), PosTerm(Var(Aux(target, Meq))), PosTerm(Var(Aux(target, Mgt))), NegTerm(Const(1));
    EvalSmall(Var(Aux(target, Mlt)), 0, env); EvalSmall(Var(Aux(target, Meq)), 0, env);
    EvalSmall(Var(Aux(target, Mgt)), 0, env); EvalSmall(Const(1), 0, env);
    EvalTwo(t, u, env);
    EvalTwo(v, w, env);
    EvalTermsAppend([t, u], [v, w], env);
    assert [t, u] + [v, w] == [t, u, v, w];
  }

  /** Which case the selector picks: -1 less, 0 equal, 1 greater. */
  ghost predicate Selects(target: string, env: Env, p: int, which: int)
    requires p > 0
  {
    && Cong(env(Aux(target, Mlt)), if which == -1 then 1 else 0, p)
    && Cong(env(Aux(target, Meq)), if which == 0 then 1 else 0, p)
    && Cong(env(Aux(target, Mgt)), if which == 1 then 1 else 0, p)
  }

  lemma SelectorSound(target: string, env: Env, p: int) returns (which: int)
    requires IsPrime(p) && 2 < p && Sat(Selector(target), env, p)
    ensures -1 <= which <= 1 && Selects(target, env, p, which)
  {
    var cs := Selector(target);
    var x, y, z := env(Aux(target, Mlt)), env(Aux(target, Meq)), env(Aux(target, Mgt));
    assert Holds(cs[0], env, p) && Holds(cs[1], env, p) && Holds(cs[2], env, p) && Holds(cs[3], env, p);
    BooleanEval(Var(Aux(target, Mlt)), env); BooleanValue(x, p);
    BooleanEval(Var(Aux(target, Meq)), env); BooleanValue(y, p);
    BooleanEval(Var(Aux(target, Mgt)), env); BooleanValue(z, p);
    SelectorSumEval(target, env);
    var a := if Cong(x, 1, p) then 1 else 0;
    var b := if Cong(y, 1, p) then 1 else 0;
    var c := if Cong(z, 1, p) then 1 else 0;
    CongAdd(x, a, y, b, p);
    CongAdd(x + y, a + b, z, c, p);
    CongAdd(x + y + z, a + b + c, 1, 1, p);
    CongClose(a + b + c - 1, 0, p);
    which := if a == 1 then -1 else if b == 1 then 0 else 1;
  }

  lemma SelectorComplete(target: string, env: Env, p: int, which: int)
    requires IsPrime(p) && -1 <= which <= 1 && Selects(target, env, p, which)
    ensures Sat(Selector(target), env, p)
  {
    var cs := Selector(target);
    var x, y, z := env(Aux(target, Mlt)), env(Aux(target, Meq)), env(Aux(target, Mgt));
    BooleanEval(Var(Aux(target, Mlt)), env); BooleanValue(x, p);
    BooleanEval(Var(Aux(target, Meq)), env); BooleanValue(y, p);
    BooleanEval(Var(Aux(target, Mgt)), env); BooleanValue(z, p);
    SelectorSumEval(target, env);
    var a, b, c := if which == -1 then 1 else 0, if which == 0 then 1 else 0, if which == 1 then 1 else 0;
    CongAdd(x, a, y, b, p);
    CongAdd(x + y, a + b, z, c, p);
    CongAdd(x + y + z, 1, 1, 1, p);
    assert Holds(cs[0], env, p) && Holds(cs[1], env, p) && Holds(cs[2], env, p) && Holds(cs[3], env, p);
  }

  /** `( m ) * ( q )`: `q` must vanish where the selector `m` is 1. */
  function Guard(target: string, m: Tag, q: Poly): Constraint {
    Constraint(Poly([PosTerm(Var(Aux(target, m)))]), q, EMPTY)
  }

  lemma GuardEval(target: string, m: Tag, q: Poly, env: Env, p: int)
    requires p > 0
    ensures EvalConstraint(Guard(target, m, q), env) == env(Aux(target, m)) * EvalPoly(q, env)
    ensures Cong(env(Aux(target, m)), 0, p) ==> Holds(Guard(target, m, q), env, p)
    ensures Cong(EvalPoly(q, env), 0, p) ==> Holds(Guard(target, m, q), env, p)
    ensures Holds(Guard(target, m, q), env, p) && Cong(env(Aux(target, m)), 1, p) ==> Cong(EvalPoly(q, env), 0, p)
  {
    var x, v := env(Aux(target, m)), EvalPoly(q, env);
    EvalSmall(Var(Aux(target, m)), 0, env);
    EvalOne(PosTerm(Var(Aux(target, m))), env);
    if Cong(x, 0, p) { CongMul(x, 0, v, v, p); }
    if Cong(v, 0, p) { CongMul(x, x, v, 0, p); }
    if Cong(x, 1, p) { CongMul(x, 1, v, v, p); }
  }

  /** `( ) * ( ) + ( Mlt - target )`. */
  function Output(target: string): Constraint {
    Constraint(EMPTY, EMPTY, Poly([PosTerm(Var(Aux(target, Mlt))), NegTerm(Var(Plain(target)))]))
  }

  lemma OutputEval(target: string, env: Env, p: int)
    requires p > 0
    ensures Holds(Output(target), env, p) <==> Cong(env(Plain(target)), env(Aux(target, Mlt)), p)
  {
    var x, y := env(Aux(target, Mlt)), env(Plain(target));
    EvalSmall(Var(Aux(target, Mlt)), 0, env); EvalSmall(Var(Plain(target)), 0, env);
    EvalTwo(PosTerm(Var(Aux(target, Mlt))), NegTerm(Var(Plain(target))), env);
    if Cong(x - y, 0, p) { CongAdd(x - y, 0, y, y, p); }
    if Cong(y, x, p) { CongAdd(x, x, y, x, p); }
  }

  function Difference(x: Factor, y: Factor): Poly {
    Poly([PosTerm(x), NegTerm(y)])
  }

  lemma DifferenceEval(x: Factor, y: Factor, env: Env)
    ensures EvalPoly(Difference(x, y), env) == EvalFactor(x, env) - EvalFactor(y, env)
  {
    EvalSmall(x, 0, env); EvalSmall(y, 0, env);
    EvalTwo(PosTerm(x), NegTerm(y), env);
  }

  // ----- integer comparison -----

  /** `x - y - N0 - ... - N(k-1) + 2^k`. */
  function Gap(x: Factor, y: Factor, target: string, k: nat): Poly {
    Poly([PosTerm(x), NegTerm(y)] + MinusNBits(target, k) + [PosTerm(Const(Pow(2, k)))])
  }

  lemma GapEval(x: Factor, y: Factor, target: string, k: nat, env: Env)
    ensures EvalPoly(Gap(x, y, target, k), env)
         == EvalFactor(x, env) - EvalFactor(y, env) - NBitSum(target, k, env) + Pow(2, k)
  {
    DifferenceEval(x, y, env);
    EvalTermsAppend([PosTerm(x), NegTerm(y)] + MinusNBits(target, k), [PosTerm(Const(Pow(2, k)))], env);
    EvalTermsAppend([PosTerm(x), NegTerm(y)], MinusNBits(target, k), env);
    MinusNBitsEval(target, k, env);
    EvalSmall(Const(Pow(2, k)), 0, env);
    EvalOne(PosTerm(Const(Pow(2, k))), env);
  }

  /** `less_than_as_basic_constraints_i` with `n` bits of difference. */
  function LessInt(x: Factor, y: Factor, target: string, n: nat): seq<Constraint>
    requires 1 <= n
  {
    NBits(target, n - 1) + (Selector(target) + LessIntTail(x, y, target, n))
  }

  function LessIntTail(x: Factor, y: Factor, target: string, n: nat): seq<Constraint>
    requires 1 <= n
  {
    [Guard(target, Mlt, Gap(x, y, target, n - 1)),
     Guard(target, Meq, Difference(x, y)),
     Guard(target, Mgt, Gap(y, x, target, n - 1)),
     Output(target)]
  }

  lemma LessIntParts(x: Factor, y: Factor, target: string, n: nat, env: Env, p: int)
    requires 1 <= n && p > 0
    ensures Sat(LessInt(x, y, target, n), env, p) <==>
              && Sat(NBits(target, n - 1), env, p) && Sat(Selector(target), env, p)
              && Holds(Guard(target, Mlt, Gap(x, y, target, n - 1)), env, p)
              && Holds(Guard(target, Meq, Difference(x, y)), env, p)
              && Holds(Guard(target, Mgt, Gap(y, x, target, n - 1)), env, p)
              && Holds(Output(target), env, p)
  {
    var tail := LessIntTail(x, y, target, n);
    SatAppend(NBits(target, n - 1), Selector(target) + tail, env, p);
    SatAppend(Selector(target), tail, env, p);
    SatFour(tail, env, p);
  }

  lemma SatFour(cs: seq<Constraint>, env: Env, p: int)
    requires p > 0 && |cs| == 4
    ensures Sat(cs, env, p) <==>
              Holds(cs[0], env, p) && Holds(cs[1], env, p) && Holds(cs[2], env, p) && Holds(cs[3], env, p)
  {
  }

  /** A gap that vanishes in the field shows which integer is smaller. */
  lemma GapMeans(u: int, v: int, x: int, y: int, sum: int, s: nat, half: int, p: int)
    requires p > 0 && Cong(u, x, p) && Cong(v, y, p) && Cong(sum, s, p)
    requires s < half && -half <= x - y <= half && 2 * half < p
    requires Cong(u - v - sum + half, 0, p)
    ensures x < y
  {
    CongAdd(u, x, v, y, p);
    CongAdd(u - v, x - y, sum, s, p);
    CongAdd(u - v - sum, x - y - s, half, half, p);
    CongClose(x - y - s + half, 0, p);
  }

  /** Soundness: whatever satisfies the constraints reports `x < y` correctly. */
  lemma LessIntSound(a: Factor, b: Factor, target: string, n: nat, env: Env, p: int, x: int, y: int)
    requires IsPrime(p) && 1 <= n && Pow(2, n) < p
    requires Cong(EvalFactor(a, env), x, p) && Cong(EvalFactor(b, env), y, p)
    requires -Pow(2, n - 1) <= x - y <= Pow(2, n - 1)
    requires Sat(LessInt(a, b, target, n), env, p)
    ensures Cong(env(Plain(target)), if x < y then 1 else 0, p)
  {
    var half := Pow(2, n - 1);
    LessIntParts(a, b, target, n, env, p);
    var which := SelectorSound(target, env, p);
    var s := NBitsSound(target, n - 1, env, p);
    OutputEval(target, env, p);
    GuardEval(target, Mlt, Gap(a, b, target, n - 1), env, p);
    GuardEval(target, Meq, Difference(a, b), env, p);
    GuardEval(target, Mgt, Gap(b, a, target, n - 1), env, p);
    GapEval(a, b, target, n - 1, env);
    GapEval(b, a, target, n - 1, env);
    DifferenceEval(a, b, env);
    var u, v, sum := EvalFactor(a, env), EvalFactor(b, env), NBitSum(target, n - 1, env);
    if which == -1 {
      GapMeans(u, v, x, y, sum, s, half, p);
    } else if which == 1 {
      GapMeans(v, u, y, x, sum, s, half, p);
    } else {
      CongAdd(u, x, v, y, p);
      CongClose(x - y, 0, p);
    }
  }

  /** Completeness: the prover's selector and difference bits satisfy the constraints. */
  lemma LessIntComplete(a: Factor, b: Factor, target: string, n: nat, env: Env, p: int, x: int, y: int, v: nat)
    requires IsPrime(p) && 1 <= n
    requires Cong(EvalFactor(a, env), x, p) && Cong(EvalFactor(b, env), y, p)
    requires -Pow(2, n - 1) <= x - y <= Pow(2, n - 1)
    requires v == Pow(2, n - 1) + (if x <= y then x - y else y - x)
    requires Selects(target, env, p, if x < y then -1 else if x == y then 0 else 1)
    requires NBitsAre(target, n - 1, env, v, p)
    requires Cong(env(Plain(target)), env(Aux(target, Mlt)), p)
    ensures Sat(LessInt(a, b, target, n), env, p)
  {
    LessIntParts(a, b, target, n, env, p);
    SelectorComplete(target, env, p, if x < y then -1 else if x == y then 0 else 1);
    NBitsComplete(target, n - 1, env, v, p);
    OutputEval(target, env, p);
    if x != y { SmallMod(v, Pow(2, n - 1)); }
    GuardsComplete(a, b, target, n, env, p, x, y, v);
  }

  /** Only the guard of the case at hand has to vanish. */
  lemma GuardsComplete(a: Factor, b: Factor, target: string, n: nat, env: Env, p: int, x: int, y: int, v: nat)
    requires p > 0 && 1 <= n && Cong(EvalFactor(a, env), x, p) && Cong(EvalFactor(b, env), y, p)
    requires v == Pow(2, n - 1) + (if x <= y then x - y else y - x)
    requires Selects(target, env, p, if x < y then -1 else if x == y then 0 else 1)
    requires x != y ==> Cong(NBitSum(target, n - 1, env), v, p)
    ensures Holds(Guard(target, Mlt, Gap(a, b, target, n - 1)), env, p) && Holds(Guard(target, Meq, Difference(a, b)), env, p)
    ensures Holds(Guard(target, Mgt, Gap(b, a, target, n - 1)), env, p)
  {
    var half := Pow(2, n - 1);
    GuardEval(target, Mlt, Gap(a, b, target, n - 1), env, p);
    GuardEval(target, Meq, Difference(a, b), env, p);
    GuardEval(target, Mgt, Gap(b, a, target, n - 1), env, p);
    GapEval(a, b, target, n - 1, env);
    GapEval(b, a, target, n - 1, env);
    DifferenceEval(a, b, env);
    var u, w, sum := EvalFactor(a, env), EvalFactor(b, env), NBitSum(target, n - 1, env);
    CongAdd(u, x, w, y, p);
    CongAdd(w, y, u, x, p);
    if x != y {
      CongAdd(u - w, x - y, sum, v, p);
      CongAdd(u - w - sum, x - y - v, half, half, p);
      CongAdd(w - u, y - x, sum, v, p);
      CongAdd(w - u - sum, y - x - v, half, half, p);
    }
  }
}
