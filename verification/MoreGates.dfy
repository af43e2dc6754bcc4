/** Inequality and bit-split gates (`not_equal_as_basic_constraints` and `split_as_basic_constraints` in
    `code/compiler/backend/zcc_parser.py`). */
module MoreGates {
  import opened Arith
  import opened Bits
  import opened Poly
  import opened Gates

  // ----- x != y -----

  /** `( M ) * ( x - y ) + ( - r )` and `( r ) * ( x - y ) + ( - x + y )`; `r` is the result variable. */
  function NotEqualCore(x: Factor, y: Factor, target: string, r: Id): seq<Constraint> {
    [Constraint(Poly([PosTerm(Var(Aux(target, M)))]), Difference(x, y), Poly([NegTerm(Var(r))])),
     Constraint(Poly([PosTerm(Var(r))]), Difference(x, y), Poly([NegTerm(x), PosTerm(y)]))]
  }

  /** Ginger cannot multiply by an output, so an output target goes through an intermediate `M2`. */
  function NotEqual(x: Factor, y: Factor, target: string, viaM2: bool): seq<Constraint> {
    if viaM2 then
      NotEqualCore(x, y, target, Aux(target, M2))
      + [Constraint(EMPTY, EMPTY, Difference(Var(Aux(target, M2)), Var(Plain(target))))]
    else NotEqualCore(x, y, target, Plain(target))
  }

  lemma NotEqualEval(x: Factor, y: Factor, target: string, r: Id, env: Env)
    ensures var d := EvalFactor(x, env) - EvalFactor(y, env);
            && EvalConstraint(NotEqualCore(x, y, target, r)[0], env) == env(Aux(target, M)) * d - env(r)
            && EvalConstraint(NotEqualCore(x, y, target, r)[1], env) == env(r) * d - d
  {
    EvalSmall(Var(Aux(target, M)), 0, env); EvalOne(PosTerm(Var(Aux(target, M))), env);
    EvalSmall(Var(r), 0, env); EvalOne(NegTerm(Var(r)), env); EvalOne(PosTerm(Var(r)), env);
    DifferenceEval(x, y, env);
    EvalSmall(x, 0, env); EvalSmall(y, 0, env); EvalTwo(NegTerm(x), PosTerm(y), env);
  }

  /** Soundness: the result is 1 exactly when the operands differ in the field. */
  lemma NotEqualCoreSound(x: Factor, y: Factor, target: string, r: Id, env: Env, p: int)
    requires IsPrime(p) && Sat(NotEqualCore(x, y, target, r), env, p)
    ensures Cong(env(r), if Cong(EvalFactor(x, env), EvalFactor(y, env), p) then 0 else 1, p)
  {
    var cs := NotEqualCore(x, y, target, r);
    assert Holds(cs[0], env, p) && Holds(cs[1], env, p);
    NotEqualEval(x, y, target, r, env);
    NotEqualNumbers(EvalFactor(x, env), EvalFactor(y, env), env(Aux(target, M)), env(r), p);
  }

  lemma NotEqualNumbers(u: int, v: int, m: int, z: int, p: int)
    requires IsPrime(p) && Cong(m * (u - v) - z, 0, p) && Cong(z * (u - v) - (u - v), 0, p)
    ensures Cong(z, if Cong(u, v, p) then 0 else 1, p)
  {
    if Cong(u, v, p) {
      CongAdd(u, v, v, v, p);
      NoDifference(m, u - v, z, p);
    } else {
      if Cong(u - v, 0, p) { CongAdd(u - v, 0, v, v, p); }
      SomeDifference(u - v, z, p);
    }
  }

  lemma NoDifference(m: int, d: int, z: int, p: int)
    requires p > 0 && Cong(d, 0, p) && Cong(m * d - z, 0, p)
    ensures Cong(z, 0, p)
  {
    CongMul(m, m, d, 0, p);
    CongAdd(m * d, 0, m * d - z, 0, p);
  }

  lemma SomeDifference(d: int, z: int, p: int)
    requires IsPrime(p) && !Cong(d, 0, p) && Cong(z * d - d, 0, p)
    ensures Cong(z, 1, p)
  {
    MulDist(d, z, 1);
    NoZeroDivisors(z - 1, d, p);
    CongAdd(z - 1, 0, 1, 1, p);
  }

  lemma NotEqualSound(x: Factor, y: Factor, target: string, viaM2: bool, env: Env, p: int)
    requires IsPrime(p) && Sat(NotEqual(x, y, target, viaM2), env, p)
    ensures Cong(env(Plain(target)), if Cong(EvalFactor(x, env), EvalFactor(y, env), p) then 0 else 1, p)
  {
    if viaM2 {
      var r := Aux(target, M2);
      var link := Constraint(EMPTY, EMPTY, Difference(Var(r), Var(Plain(target))));
      SatAppend(NotEqualCore(x, y, target, r), [link], env, p);
      NotEqualCoreSound(x, y, target, r, env, p);
      assert Holds([link][0], env, p);
      DifferenceEval(Var(r), Var(Plain(target)), env);
      CongAdd(env(r), env(r), env(r) - env(Plain(target)), 0, p);
    } else {
      NotEqualCoreSound(x, y, target, Plain(target), env, p);
    }
  }

  /** Completeness: with `M` the inverse of the difference (only in the field), both constraints hold. */
  lemma NotEqualComplete(x: Factor, y: Factor, target: string, viaM2: bool, env: Env, p: int)
    requires IsPrime(p)
    requires var d := EvalFactor(x, env) - EvalFactor(y, env);
             var r := if viaM2 then Aux(target, M2) else Plain(target);
             && (if Cong(d, 0, p) then Cong(env(r), 0, p) && Cong(env(Aux(target, M)), 0, p)
                 else Cong(env(r), 1, p) && Cong(env(Aux(target, M)) * d, 1, p))
             && Cong(env(Plain(target)), env(r), p)
    ensures Sat(NotEqual(x, y, target, viaM2), env, p)
  {
    var r := if viaM2 then Aux(target, M2) else Plain(target);
    var d, m, z := EvalFactor(x, env) - EvalFactor(y, env), env(Aux(target, M)), env(r);
    var cs := NotEqualCore(x, y, target, r);
    NotEqualEval(x, y, target, r, env);
    if Cong(d, 0, p) {
      CongMul(m, 0, d, d, p);
      CongMul(z, 0, d, d, p);
      CongAdd(m * d, 0, z, 0, p);
      CongAdd(z * d, 0, d, 0, p);
    } else {
      CongAdd(m * d, 1, z, 1, p);
      CongMul(z, 1, d, d, p);
      CongAdd(z * d, d, d, d, p);
    }
    assert Holds(cs[0], env, p) && Holds(cs[1], env, p);
    assert Sat(cs, env, p);
    if viaM2 {
      var link := Constraint(EMPTY, EMPTY, Difference(Var(r), Var(Plain(target))));
      DifferenceEval(Var(r), Var(Plain(target)), env);
      CongAdd(z, z, env(Plain(target)), z, p);
      assert Sat([link], env, p);
      SatAppend(cs, [link], env, p);
    }
  }

  // ----- splitting into bits -----

  /** Weight of bit `i` of `n`: the top bit of a signed number counts negatively. */
  function Weight(i: nat, n: nat, signed: bool): int {
    if signed && i == n - 1 then -Pow(2, i) else Pow(2, i)
  }

  function SplitBooleans(bits: seq<Id>, k: nat): seq<Constraint>
    requires k <= |bits|
  {
    if k == 0 then [] else SplitBooleans(bits, k - 1) + [Boolean(Var(bits[k - 1]))]
  }

  function SplitTerms(bits: seq<Id>, k: nat, signed: bool): seq<Term>
    requires k <= |bits|
  {
    if k == 0 then [] else SplitTerms(bits, k - 1, signed) + [Scale(Weight(k - 1, |bits|, signed), Var(bits[k - 1]))]
  }

  /** `split_as_basic_constraints`: every bit boolean, the weighted bits equal to the input. */
  function Split(x: Factor, bits: seq<Id>, signed: bool): seq<Constraint> {
    SplitBooleans(bits, |bits|)
    + [Constraint(EMPTY, EMPTY, Poly(SplitTerms(bits, |bits|, signed) + [NegTerm(x)]))]
  }

  function WeightedSum(vals: seq<int>, k: nat, n: nat, signed: bool): int
    requires k <= |vals|
  {
    if k == 0 then 0 else WeightedSum(vals, k - 1, n, signed) + Weight(k - 1, n, signed) * vals[k - 1]
  }

  function Values(bits: seq<Id>, env: Env): (r: seq<int>)
    ensures |r| == |bits| && forall i :: 0 <= i < |bits| ==> r[i] == env(bits[i])
  {
    seq(|bits|, i requires 0 <= i < |bits| => env(bits[i]))
  }

  lemma {:induction false} SplitTermsEval(bits: seq<Id>, k: nat, signed: bool, env: Env)
    requires k <= |bits|
    ensures EvalTerms(SplitTerms(bits, k, signed), env) == WeightedSum(Values(bits, env), k, |bits|, signed)
    decreases k
  {
    if k > 0 {
      SplitTermsEval(bits, k - 1, signed, env);
      var t := Scale(Weight(k - 1, |bits|, signed), Var(bits[k - 1]));
      EvalTermsAppend(SplitTerms(bits, k - 1, signed), [t], env);
      EvalSmall(Var(bits[k - 1]), Weight(k - 1, |bits|, signed), env);
      EvalOne(t, env);
    }
  }

  lemma SplitParts(x: Factor, bits: seq<Id>, signed: bool, env: Env, p: int)
    requires p > 0
    ensures Sat(Split(x, bits, signed), env, p) <==>
              && Sat(SplitBooleans(bits, |bits|), env, p)
              && Cong(WeightedSum(Values(bits, env), |bits|, |bits|, signed), EvalFactor(x, env), p)
  {
    var ts := SplitTerms(bits, |bits|, signed);
    var c := Constraint(EMPTY, EMPTY, Poly(ts + [NegTerm(x)]));
    SatAppend(SplitBooleans(bits, |bits|), [c], env, p);
    SplitTermsEval(bits, |bits|, signed, env);
    EvalTermsAppend(ts, [NegTerm(x)], env);
    EvalSmall(x, 0, env);
    EvalOne(NegTerm(x), env);
    var w, v := WeightedSum(Values(bits, env), |bits|, |bits|, signed), EvalFactor(x, env);
    assert EvalConstraint(c, env) == w - v;
    if Cong(w, v, p) { CongAdd(w, v, v, v, p); }
    if Cong(w - v, 0, p) { CongAdd(w - v, 0, v, v, p); }
    assert Sat([c], env, p) <==> Holds([c][0], env, p);
  }

  ghost predicate IsBits(b: seq<int>) {
    forall i :: 0 <= i < |b| ==> b[i] == 0 || b[i] == 1
  }

  /** Field values that are congruent to the integer bits `b`. */
  ghost predicate Represent(vals: seq<int>, b: seq<int>, k: nat, p: int)
    requires p > 0
  {
    k <= |vals| == |b| && forall i :: 0 <= i < k ==> Cong(vals[i], b[i], p)
  }

  lemma {:induction false} WeightedCong(vals: seq<int>, b: seq<int>, k: nat, n: nat, signed: bool, p: int)
    requires p > 0 && Represent(vals, b, k, p)
    ensures Cong(WeightedSum(vals, k, n, signed), WeightedSum(b, k, n, signed), p)
    decreases k
  {
    if k > 0 {
      WeightedCong(vals, b, k - 1, n, signed, p);
      var w := Weight(k - 1, n, signed);
      CongMul(w, w, vals[k - 1], b[k - 1], p);
      CongAdd(WeightedSum(vals, k - 1, n, signed), WeightedSum(b, k - 1, n, signed), w * vals[k - 1], w * b[k - 1], p);
    }
  }

  lemma {:induction false} BooleansSound(bits: seq<Id>, k: nat, env: Env, p: int) returns (b: seq<int>)
    requires IsPrime(p) && k <= |bits| && Sat(SplitBooleans(bits, k), env, p)
    ensures |b| == |bits| && IsBits(b) && Represent(Values(bits, env), b, k, p)
    decreases k
  {
    if k == 0 {
      b := seq(|bits|, _ => 0);
    } else {
      var f := Var(bits[k - 1]);
      SatAppend(SplitBooleans(bits, k - 1), [Boolean(f)], env, p);
      var b' := BooleansSound(bits, k - 1, env, p);
      assert Holds([Boolean(f)][0], env, p);
      BooleanEval(f, env);
      BooleanValue(env(bits[k - 1]), p);
      b := b'[k - 1 := if Cong(env(bits[k - 1]), 1, p) then 1 else 0];
      assert forall i :: 0 <= i < k - 1 ==> b[i] == b'[i];
    }
  }

  lemma {:induction false} BooleansComplete(bits: seq<Id>, b: seq<int>, k: nat, env: Env, p: int)
    requires IsPrime(p) && k <= |bits| == |b| && IsBits(b) && Represent(Values(bits, env), b, k, p)
    ensures Sat(SplitBooleans(bits, k), env, p)
    decreases k
  {
    if k > 0 {
      BooleansComplete(bits, b, k - 1, env, p);
      var f := Var(bits[k - 1]);
      assert Cong(Values(bits, env)[k - 1], b[k - 1], p);
      BooleanEval(f, env);
      BooleanValue(env(bits[k - 1]), p);
      assert Sat([Boolean(f)], env, p);
      SatAppend(SplitBooleans(bits, k - 1), [Boolean(f)], env, p);
    }
  }

  /** The range a split of `n` bits covers. */
  ghost predicate InRange(x: int, n: nat, signed: bool) {
    if signed then 1 <= n && -Pow(2, n - 1) <= x < Pow(2, n - 1) else 0 <= x < Pow(2, n)
  }

  lemma {:induction false} UnsignedRange(b: seq<int>, k: nat, n: nat, signed: bool)
    requires k <= |b| && IsBits(b) && (signed ==> k < n)
    ensures 0 <= WeightedSum(b, k, n, signed) < Pow(2, k)
    decreases k
  {
    if k > 0 { UnsignedRange(b, k - 1, n, signed); }
  }

  lemma WeightedRange(b: seq<int>, signed: bool)
    requires IsBits(b) && (signed ==> 1 <= |b|)
    ensures InRange(WeightedSum(b, |b|, |b|, signed), |b|, signed)
  {
    var n := |b|;
    if signed {
      UnsignedRange(b, n - 1, n, signed);
    } else {
      UnsignedRange(b, n, n, signed);
    }
  }

  /** Soundness: the bits are boolean and spell the input, as an integer, for `p > 2^n`. */
  lemma SplitSound(x: Factor, bits: seq<Id>, signed: bool, env: Env, p: int, v: int) returns (b: seq<int>)
    requires IsPrime(p) && Pow(2, |bits|) < p && (signed ==> 1 <= |bits|)
    requires Cong(EvalFactor(x, env), v, p) && InRange(v, |bits|, signed)
    requires Sat(Split(x, bits, signed), env, p)
    ensures |b| == |bits| && IsBits(b) && Represent(Values(bits, env), b, |bits|, p)
    ensures WeightedSum(b, |b|, |b|, signed) == v
  {
    SplitParts(x, bits, signed, env, p);
    b := BooleansSound(bits, |bits|, env, p);
    WeightedCong(Values(bits, env), b, |bits|, |bits|, signed, p);
    WeightedRange(b, signed);
    CongClose(WeightedSum(b, |b|, |b|, signed), v, p);
  }

  /** Bit `i` the prover stores: low bits of `v` (shifted into range when negative), then the sign. */
  function SplitBit(v: int, i: nat, n: nat, signed: bool): int
    requires v < 0 ==> 0 <= v + Pow(2, n)
  {
    if signed && i == n - 1 then (if v < 0 then 1 else 0)
    else Shift(if v < 0 then v + Pow(2, n) else v, i) % 2
  }

  lemma {:induction false} LowWeighted(v: int, b: seq<int>, k: nat, n: nat, signed: bool)
    requires (v < 0 ==> 0 <= v + Pow(2, n)) && k <= |b| && (signed ==> k < n)
    requires forall i :: 0 <= i < k ==> b[i] == SplitBit(v, i, n, signed)
    ensures WeightedSum(b, k, n, signed) == (if v < 0 then v + Pow(2, n) else v) % Pow(2, k)
    decreases k
  {
    var u := if v < 0 then v + Pow(2, n) else v;
    if k == 0 {
      assert u % 1 == 0;
    } else {
      LowWeighted(v, b, k - 1, n, signed);
      LowBitsStep(u, k - 1, 1);
      PowOne(2);
    }
  }

  /** The prover's bits spell the input. */
  lemma SplitBitsSum(v: int, b: seq<int>, signed: bool)
    requires InRange(v, |b|, signed) && (v < 0 ==> 0 <= v + Pow(2, |b|))
    requires forall i :: 0 <= i < |b| ==> b[i] == SplitBit(v, i, |b|, signed)
    ensures IsBits(b) && WeightedSum(b, |b|, |b|, signed) == v
  {
    var n := |b|;
    if signed {
      LowWeighted(v, b, n - 1, n, signed);
      var half := Pow(2, n - 1);
      var u := if v < 0 then v + 2 * half else v;
      if v < 0 {
        CongShift(v + half, 1, half);
        SmallMod(v + half, half);
      } else {
        SmallMod(v, half);
      }
      assert b[n - 1] == SplitBit(v, n - 1, n, signed);
    } else {
      LowWeighted(v, b, n, n, signed);
      SmallMod(v, Pow(2, n));
    }
  }

  /** Completeness of the split gate. */
  lemma SplitComplete(x: Factor, bits: seq<Id>, signed: bool, env: Env, p: int, v: int, b: seq<int>)
    requires IsPrime(p) && |b| == |bits|
    requires Cong(EvalFactor(x, env), v, p) && InRange(v, |bits|, signed) && (v < 0 ==> 0 <= v + Pow(2, |b|))
    requires forall i :: 0 <= i < |b| ==> b[i] == SplitBit(v, i, |b|, signed)
    requires Represent(Values(bits, env), b, |bits|, p)
    ensures Sat(Split(x, bits, signed), env, p)
  {
    SplitBitsSum(v, b, signed);
    BooleansComplete(bits, b, |bits|, env, p);
    WeightedCong(Values(bits, env), b, |bits|, |bits|, signed, p);
    SplitParts(x, bits, signed, env, p);
  }
}
