/** Completeness of the compiler: the honest prover's worksheet satisfies every constraint. */
module CompileProof {
  import opened Arith
  import opened Bits
  import opened Poly
  import opened Rational
  import opened Gates
  import opened MoreGates
  import opened FloatGate
  import opened Worksheet
  import opened Compile
  import opened LowestTerms

  // ----- instructions leave other variables alone -----

  lemma {:induction false} NBitsFrame(s: Store, target: string, k: nat, v: nat, id: Id)
    ensures Get(WriteNBits(s, target, k, v), id)
         == if id.Aux? && id.target == target && id.tag.NBit? && id.tag.i < k
            then Q((Shift(v, id.tag.i) % 2) * Pow(2, id.tag.i), 1) else Get(s, id)
    decreases k
  {
    if k > 0 { NBitsFrame(s, target, k - 1, v, id); }
  }

  lemma {:induction false} DBitsFrame(s: Store, target: string, k: nat, v: nat, id: Id)
    ensures Get(WriteDBits(s, target, k, v), id)
         == if id.Aux? && id.target == target && id.tag.DBit? && id.tag.i < k
            then Q(Shift(v, id.tag.i) % 2, 1) else Get(s, id)
    decreases k
  {
    if k > 0 { DBitsFrame(s, target, k - 1, v, id); }
  }

  ghost predicate Distinct(bits: seq<Id>) {
    forall i, j :: 0 <= i < j < |bits| ==> bits[i] != bits[j]
  }

  lemma {:induction false} SplitFrame(s: Store, bits: seq<Id>, k: nat, v: int, signed: bool)
    requires k <= |bits| && (v < 0 ==> 0 <= v + Pow(2, |bits|))
    ensures forall id :: (forall i :: 0 <= i < k ==> bits[i] != id) ==> Get(WriteSplit(s, bits, k, v, signed), id) == Get(s, id)
    ensures Distinct(bits) ==> forall i :: 0 <= i < k ==>
              Get(WriteSplit(s, bits, k, v, signed), bits[i]) == Q(SplitBit(v, i, |bits|, signed), 1)
    decreases k
  {
    if k > 0 { SplitFrame(s, bits, k - 1, v, signed); }
  }

  /** An instruction changes only what it writes. */
  lemma ExecFrame(line: Line, s: Store, p: int, id: Id)
    requires p >= 2 && Runs(line, s) && id !in Writes(line)
    ensures Get(Exec(line, s, p), id) == Get(s, id)
  {
    match line
    case PolyLine(a, b, c, k, target) =>
    case NotEqualLine(x, y, target, viaM2) =>
    case LessLine(x, y, target, n) =>
      var (u, v) := Operands(x, y, s);
      NBitsFrame(WriteSelector(s, target, Compare(u, v)), target, n - 1, Pow(2, n - 1) + LowDifference(x, y, s).num, id);
    case LessFloatLine(x, y, target, na, nb) =>
      var (u, v) := Operands(x, y, s);
      var num, den := FloatNumerator(x, y, s), FloatDenominator(x, y, s);
      var s1 := WriteFraction(s, target, Compare(u, v), num, den);
      NBitsFrame(s1, target, na, Pow(2, na) + num, id);
      DBitsFrame(WriteNBits(s1, target, na, Pow(2, na) + num), target, nb + 1, den, id);
    case SplitLine(x, bits, signed) =>
      SplitFrame(s, bits, |bits|, FactorQ(x, s).num, signed);
  }

  // ----- what the source demands of a line and its operands -----

  ghost predicate Simple(f: Factor) {
    !f.Paren?
  }

  /** In lowest terms the numerator has at most `na` bits and the denominator is a power of two up to `2^nb`. */
  ghost predicate FixedPoint(q: Q, na: nat, nb: nat) {
    -Pow(2, na) <= q.num <= Pow(2, na) && exists j: nat :: j <= nb && q.den == Pow(2, j)
  }

  /** A difference in range gives a negative numerator and a denominator in range, whichever operand is larger. */
  lemma FloatRange(x: Factor, y: Factor, s: Store, na: nat, nb: nat) returns (j: nat)
    requires !(x.Const? && y.Const?) && FixedPoint(Sub(FactorQ(x, s), FactorQ(y, s)), na, nb)
    ensures -Pow(2, na) <= FloatNumerator(x, y, s) <= -1
    ensures j <= nb && FloatDenominator(x, y, s) == Pow(2, j)
  {
    var u, v := FactorQ(x, s), FactorQ(y, s);
    SubSign(u, v);
    PowOne(2);
    if u.num * v.den == v.num * u.den { j := 0; } else { j :| j <= nb && Sub(u, v).den == Pow(2, j); }
  }

  /** The order of the operands, as the comparison stores it. */
  ghost predicate Ordered(t: Store, target: string, u: Rat, v: Rat) {
    && Get(t, Plain(target)) == Get(t, Aux(target, Mlt)) == Flag(u.num * v.den < v.num * u.den)
    && Get(t, Aux(target, Meq)) == Flag(u.num * v.den == v.num * u.den)
    && Get(t, Aux(target, Mgt)) == Flag(u.num * v.den > v.num * u.den)
  }

  /** The line is well formed and its operands are in range for the field of size `p`. */
  ghost predicate LineOk(line: Line, s: Store, p: int)
    requires p >= 2
  {
    && Writes(line) !! Reads(line)
    && match line
       case PolyLine(a, b, c, k, target) =>
         && (a.terms == [] <==> b.terms == [])
         && Nonempty(a.terms) && Nonempty(b.terms) && Nonempty(c.terms) && !Cong(k, 0, p)
       case NotEqualLine(x, y, target, viaM2) =>
         && Simple(x) && Simple(y)
         && (FactorQ(x, s) == FactorQ(y, s) || !Cong(Sub(FactorQ(x, s), FactorQ(y, s)).num, 0, p))
       case LessLine(x, y, target, n) =>
         && Simple(x) && Simple(y) && !(x.Const? && y.Const?) && 1 <= n
         && FactorQ(x, s).den == 1 && FactorQ(y, s).den == 1
         && -Pow(2, n - 1) <= FactorQ(x, s).num - FactorQ(y, s).num <= Pow(2, n - 1)
       case LessFloatLine(x, y, target, na, nb) =>
         && Simple(x) && Simple(y) && !(x.Const? && y.Const?) && Pow(2, nb) < p
         && FixedPoint(Sub(FactorQ(x, s), FactorQ(y, s)), na, nb)
       case SplitLine(x, bits, signed) =>
         && Simple(x) && Distinct(bits) && FactorQ(x, s).den == 1 && (signed ==> 1 <= |bits|)
         && InRange(FactorQ(x, s).num, |bits|, signed)
  }

  lemma OkRuns(line: Line, s: Store, p: int)
    requires p >= 2 && LineOk(line, s, p)
    ensures Runs(line, s)
  {
    match line
    case PolyLine(a, b, c, k, target) => SmallMod(0, p);
    case NotEqualLine(x, y, target, viaM2) =>
    case LessLine(x, y, target, n) => IntegerDifference(x, y, s);
    case LessFloatLine(x, y, target, na, nb) => var j := FloatRange(x, y, s, na, nb);
    case SplitLine(x, bits, signed) =>
  }

  lemma IntegerDifference(x: Factor, y: Factor, s: Store)
    requires !(x.Const? && y.Const?) && FactorQ(x, s).den == 1 && FactorQ(y, s).den == 1
    ensures var d := FactorQ(x, s).num - FactorQ(y, s).num;
            && LowDifference(x, y, s) == Q(if d <= 0 then d else -d, 1)
            && Compare(FactorQ(x, s), FactorQ(y, s)) == if d < 0 then -1 else if d == 0 then 0 else 1
  {
    SubIntegers(FactorQ(x, s), FactorQ(y, s));
    SubIntegers(FactorQ(y, s), FactorQ(x, s));
  }

  lemma SubIntegers(u: Rat, v: Rat)
    requires u.den == 1 && v.den == 1
    ensures Sub(u, v) == Q(u.num - v.num, 1)
  {
    var n := u.num - v.num;
    assert n % 1 == 0 && n / 1 == n;
    assert Sub(u, v) == Canon(n, 1);
  }

  // ----- values after the instruction -----

  /** Operands read the same before and after. */
  lemma ReadsKept(line: Line, s: Store, p: int, f: Factor)
    requires p >= 2 && Runs(line, s) && FactorVars(f) !! Writes(line)
    ensures EvalFactor(f, FieldEnv(Exec(line, s, p), p)) == EvalFactor(f, FieldEnv(s, p))
  {
    forall id | id in FactorVars(f) ensures FieldEnv(Exec(line, s, p), p)(id) == FieldEnv(s, p)(id) {
      ExecFrame(line, s, p, id);
    }
    FactorAgree(f, FieldEnv(s, p), FieldEnv(Exec(line, s, p), p));
  }

  lemma TermsKept(line: Line, s: Store, p: int, ts: seq<Term>)
    requires p >= 2 && Runs(line, s) && TermsVars(ts) !! Writes(line)
    ensures EvalTerms(ts, FieldEnv(Exec(line, s, p), p)) == EvalTerms(ts, FieldEnv(s, p))
  {
    forall id | id in TermsVars(ts) ensures FieldEnv(Exec(line, s, p), p)(id) == FieldEnv(s, p)(id) {
      ExecFrame(line, s, p, id);
    }
    TermsAgree(ts, FieldEnv(s, p), FieldEnv(Exec(line, s, p), p));
  }

  lemma IntegerImage(n: int, p: int)
    requires IsPrime(p)
    ensures Unit(Q(n, 1), p) && Cong(ToField(Q(n, 1), p), n, p)
  {
    FieldInteger(n, p);
  }

  // ----- polynomial lines -----

  lemma WorkPolyNonempty(a: Poly, b: Poly, c: Poly)
    requires (a.terms == [] <==> b.terms == []) && Nonempty(a.terms) && Nonempty(b.terms) && Nonempty(c.terms)
    ensures Nonempty(WorkPoly(a, b, c).terms)
  {
    if a.terms != [] {
      var t := Term(false, [Paren(a), Paren(b)]);
      assert NonemptyFactor(Paren(a)) && NonemptyFactor(Paren(b));
      assert NonemptyTerm(t);
      forall i | 0 <= i < |WorkPoly(a, b, c).terms| ensures NonemptyTerm(WorkPoly(a, b, c).terms[i]) {
        if i > 0 { assert WorkPoly(a, b, c).terms[i] == c.terms[i - 1]; }
      }
    }
  }

  lemma WorkPolyEval(a: Poly, b: Poly, c: Poly, env: Env)
    requires a.terms == [] <==> b.terms == []
    ensures EvalPoly(WorkPoly(a, b, c), env) == EvalPoly(a, env) * EvalPoly(b, env) + EvalPoly(c, env)
  {
    if a.terms != [] {
      var fs := [Paren(a), Paren(b)];
      var t := Term(false, fs);
      assert fs[1..] == [Paren(b)] && fs[1..][1..] == [];
      assert EvalFactors(fs[1..], env) == EvalFactor(Paren(b), env) * EvalFactors(fs[1..][1..], env);
      assert EvalFactors(fs, env) == EvalFactor(Paren(a), env) * EvalFactors(fs[1..], env);
      assert EvalTerm(t, env) == EvalPoly(a, env) * EvalPoly(b, env);
      EvalTermsAppend([t], c.terms, env);
      EvalOne(t, env);
    }
  }

  lemma TargetTermEval(k: int, target: string, env: Env)
    ensures EvalTerm(TargetTerm(k, target), env) == -(k * env(Plain(target)))
  {
    EvalSmall(Var(Plain(target)), k, env);
  }

  /** What the `P` and `/` instructions leave in the target: `k` times it is the polynomial's value. */
  lemma TargetValue(q: Poly, k: int, s: Store, p: int)
    requires IsPrime(p) && Units(s, p) && Nonempty(q.terms) && !Cong(k, 0, p) && k != 0
    ensures var r: Rat := if k == 1 then PolyQ(q, s) else Div(PolyQ(q, s), Q(k, 1));
            Unit(r, p) && Cong(k * ToField(r, p), EvalPoly(q, FieldEnv(s, p)), p)
  {
    PolyField(q, s, p);
    if k != 1 {
      var v := PolyQ(q, s);
      IntegerImage(k, p);
      FieldDiv(v, Q(k, 1), p);
      ScaleBack(ToField(Div(v, Q(k, 1)), p), ToField(Q(k, 1), p), ToField(v, p), k, p);
    }
  }

  lemma ScaleBack(r: int, d: int, f: int, k: int, p: int)
    requires p > 0 && Cong(r * d, f, p) && Cong(d, k, p)
    ensures Cong(k * r, f, p)
  {
    CongMul(r, r, d, k, p);
    assert k * r == r * k;
  }

  lemma LineEval(a: Poly, b: Poly, c: Poly, k: int, target: string, env: Env)
    ensures EvalConstraint(Constraint(a, b, Poly(c.terms + [TargetTerm(k, target)])), env)
         == EvalPoly(a, env) * EvalPoly(b, env) + (EvalPoly(c, env) - k * env(Plain(target)))
  {
    TargetTermEval(k, target, env);
    EvalTermsAppend(c.terms, [TargetTerm(k, target)], env);
    EvalOne(TargetTerm(k, target), env);
    assert EvalPoly(Poly(c.terms + [TargetTerm(k, target)]), env) == EvalPoly(c, env) - k * env(Plain(target));
  }

  lemma LineValue(a: Poly, b: Poly, c: Poly, k: int, target: string, env: Env, p: int)
    requires p > 0
    requires Cong(k * env(Plain(target)), EvalPoly(a, env) * EvalPoly(b, env) + EvalPoly(c, env), p)
    ensures Holds(Constraint(a, b, Poly(c.terms + [TargetTerm(k, target)])), env, p)
  {
    LineEval(a, b, c, k, target, env);
    var con := Constraint(a, b, Poly(c.terms + [TargetTerm(k, target)]));
    CancelTarget(EvalPoly(a, env) * EvalPoly(b, env), EvalPoly(c, env), k * env(Plain(target)), EvalConstraint(con, env), p);
  }

  lemma CancelTarget(ab: int, c: int, x: int, z: int, p: int)
    requires p > 0 && Cong(x, ab + c, p) && z == ab + (c - x)
    ensures Cong(z, 0, p)
  {
    CongAdd(ab + c, ab + c, x, ab + c, p);
  }

  lemma PolyLineComplete(line: Line, s: Store, p: int)
    requires IsPrime(p) && Units(s, p) && line.PolyLine? && LineOk(line, s, p)
    ensures Runs(line, s)
    ensures Units(Exec(line, s, p), p)
    ensures Sat(Constraints(line), FieldEnv(Exec(line, s, p), p), p)
  {
    OkRuns(line, s, p);
    var q := WorkPoly(line.a, line.b, line.c);
    WorkPolyNonempty(line.a, line.b, line.c);
    TargetValue(q, line.k, s, p);
    WorkPolyEval(line.a, line.b, line.c, FieldEnv(s, p));
    TermsKept(line, s, p, line.a.terms);
    TermsKept(line, s, p, line.b.terms);
    TermsKept(line, s, p, line.c.terms);
    LineValue(line.a, line.b, line.c, line.k, line.target, FieldEnv(Exec(line, s, p), p), p);
  }

  // ----- inequality lines -----

  /** The field difference of two stored values vanishes exactly when the rationals are equal. */
  lemma StoredDifference(u: Rat, v: Rat, p: int)
    requires IsPrime(p) && Unit(u, p) && Unit(v, p)
    requires u == v || !Cong(Sub(u, v).num, 0, p)
    ensures Cong(ToField(u, p) - ToField(v, p), 0, p) <==> u == v
    ensures u != v ==> Cong((Inv(Sub(u, v).num, p) * Sub(u, v).den) * (ToField(u, p) - ToField(v, p)), 1, p)
  {
    FieldArithmetic(u, v, p);
    var d := Sub(u, v);
    FieldTimesDen(d, p);
    var e, f := ToField(u, p) - ToField(v, p), ToField(d, p);
    if u != v {
      InvCorrect(d.num, p);
      InverseOfFraction(f, e, d.num, d.den, Inv(d.num, p), p);
    }
  }

  lemma InverseOfFraction(f: int, e: int, n: int, d: int, i: int, p: int)
    requires p > 1 && Cong(f, e, p) && Cong(f * d, n, p) && Cong(n * i, 1, p)
    ensures Cong((i * d) * e, 1, p) && !Cong(e, 0, p)
  {
    CongMul(f, e, d, d, p);
    CongMul(e * d, n, i, i, p);
    assert (e * d) * i == (i * d) * e by { MulAssoc(e, d, i); assert d * i == i * d; assert e * (i * d) == (i * d) * e; }
    if Cong(e, 0, p) {
      CongMul(i * d, i * d, e, 0, p);
      SmallMod(0, p); SmallMod(1, p);
    }
  }

  lemma NotEqualUnits(x: Factor, y: Factor, target: string, viaM2: bool, s: Store, p: int)
    requires IsPrime(p) && Units(s, p)
    ensures Units(ExecNotEqual(x, y, target, viaM2, s, p), p)
  {
    var d := Sub(FactorQ(x, s), FactorQ(y, s));
    IntegerImage(0, p); IntegerImage(1, p); IntegerImage(Inv(d.num, p) * d.den, p);
  }

  /** The result and witness variables of an inequality hold these values. */
  ghost predicate NotEqualHeld(t: Store, target: string, viaM2: bool, m: int, differ: bool) {
    && Get(t, Aux(target, M)) == Q(m, 1) && Get(t, Plain(target)) == Flag(differ)
    && Get(t, if viaM2 then Aux(target, M2) else Plain(target)) == Flag(differ)
  }

  /** What `!=` stores. */
  lemma NotEqualStored(x: Factor, y: Factor, target: string, viaM2: bool, s: Store, p: int)
    requires p >= 2
    ensures var u, v := FactorQ(x, s), FactorQ(y, s);
            NotEqualHeld(ExecNotEqual(x, y, target, viaM2, s, p), target, viaM2,
                         if u == v then 0 else Inv(Sub(u, v).num, p) * Sub(u, v).den, u != v)
  {
  }

  lemma WitnessNumbers(x: int, y: int, u: int, v: int, m: int, i: int, p: int)
    requires p > 0 && Cong(x, u, p) && Cong(y, v, p)
    ensures Cong(x - y, 0, p) <==> Cong(u - v, 0, p)
    ensures Cong(m, i, p) && Cong(i * (u - v), 1, p) ==> Cong(m * (x - y), 1, p)
  {
    CongAdd(x, u, y, v, p);
    if Cong(m, i, p) { CongMul(m, i, x - y, u - v, p); }
  }

  /** The same, seen in the field. */
  lemma NotEqualImages(t: Store, target: string, viaM2: bool, m: int, differ: bool, p: int)
    requires IsPrime(p) && NotEqualHeld(t, target, viaM2, m, differ)
    ensures var env := FieldEnv(t, p);
            && Cong(env(Aux(target, M)), m, p) && Cong(env(Plain(target)), if differ then 1 else 0, p)
            && Cong(env(if viaM2 then Aux(target, M2) else Plain(target)), if differ then 1 else 0, p)
  {
    IntegerImage(0, p); IntegerImage(1, p); IntegerImage(m, p);
  }

  lemma NotEqualWitness(x: Factor, y: Factor, target: string, viaM2: bool, t: Store, u: Rat, v: Rat, m: int, p: int)
    requires IsPrime(p) && Unit(u, p) && Unit(v, p) && (u == v || !Cong(Sub(u, v).num, 0, p))
    requires Cong(EvalFactor(x, FieldEnv(t, p)), ToField(u, p), p) && Cong(EvalFactor(y, FieldEnv(t, p)), ToField(v, p), p)
    requires NotEqualHeld(t, target, viaM2, m, u != v)
    requires m == if u == v then 0 else Inv(Sub(u, v).num, p) * Sub(u, v).den
    ensures Sat(NotEqual(x, y, target, viaM2), FieldEnv(t, p), p)
  {
    var env := FieldEnv(t, p);
    StoredDifference(u, v, p);
    NotEqualImages(t, target, viaM2, m, u != v, p);
    WitnessNumbers(EvalFactor(x, env), EvalFactor(y, env), ToField(u, p), ToField(v, p), env(Aux(target, M)), m, p);
    NotEqualComplete(x, y, target, viaM2, env, p);
  }

  lemma NotEqualLineComplete(line: Line, s: Store, p: int)
    requires IsPrime(p) && Units(s, p) && line.NotEqualLine? && LineOk(line, s, p)
    ensures Runs(line, s)
    ensures Units(Exec(line, s, p), p)
    ensures Sat(Constraints(line), FieldEnv(Exec(line, s, p), p), p)
  {
    var x, y := line.x, line.y;
    var u, v := FactorQ(x, s), FactorQ(y, s);
    ReadsKept(line, s, p, x);
    ReadsKept(line, s, p, y);
    SimpleField(x, s, p);
    SimpleField(y, s, p);
    NotEqualUnits(x, y, line.target, line.viaM2, s, p);
    NotEqualStored(x, y, line.target, line.viaM2, s, p);
    var m := if u == v then 0 else Inv(Sub(u, v).num, p) * Sub(u, v).den;
    NotEqualWitness(x, y, line.target, line.viaM2, Exec(line, s, p), u, v, m, p);
  }

  /** A constant or variable has as field value the image of its rational value. */
  lemma SimpleField(f: Factor, s: Store, p: int)
    requires IsPrime(p) && Units(s, p) && Simple(f)
    ensures Unit(FactorQ(f, s), p) && Cong(EvalFactor(f, FieldEnv(s, p)), ToField(FactorQ(f, s), p), p)
    ensures f.Var? ==> EvalFactor(f, FieldEnv(s, p)) == ToField(FactorQ(f, s), p)
  {
    FactorField(f, s, p);
  }

  // ----- integer comparison lines -----

  lemma {:induction false} NBitsUnits(s: Store, target: string, k: nat, v: nat, p: int)
    requires IsPrime(p) && Units(s, p)
    ensures Units(WriteNBits(s, target, k, v), p)
    decreases k
  {
    if k > 0 {
      NBitsUnits(s, target, k - 1, v, p);
      IntegerImage((Shift(v, k - 1) % 2) * Pow(2, k - 1), p);
    }
  }

  lemma SelectorUnits(s: Store, target: string, which: int, p: int)
    requires IsPrime(p) && Units(s, p)
    ensures Units(WriteSelector(s, target, which), p)
  {
    IntegerImage(0, p);
    IntegerImage(1, p);
  }

  /** A store that has been given the selector and kept it. */
  lemma StoredSelector(s: Store, target: string, which: int, p: int)
    requires IsPrime(p) && -1 <= which <= 1
    requires Get(s, Aux(target, Mlt)) == Flag(which == -1) && Get(s, Aux(target, Meq)) == Flag(which == 0)
    requires Get(s, Aux(target, Mgt)) == Flag(which == 1)
    ensures Selects(target, FieldEnv(s, p), p, which)
  {
    IntegerImage(0, p);
    IntegerImage(1, p);
  }

  lemma StoredNBits(s: Store, s1: Store, target: string, k: nat, v: nat, p: int)
    requires IsPrime(p)
    requires forall i: nat :: i < k ==> Get(s, Aux(target, NBit(i))) == Get(WriteNBits(s1, target, k, v), Aux(target, NBit(i)))
    ensures NBitsAre(target, k, FieldEnv(s, p), v, p)
  {
    forall i: nat | i < k ensures Cong(FieldEnv(s, p)(Aux(target, NBit(i))), (Shift(v, i) % 2) * Pow(2, i), p) {
      NBitsFrame(s1, target, k, v, Aux(target, NBit(i)));
      IntegerImage((Shift(v, i) % 2) * Pow(2, i), p);
    }
  }

  lemma LessLineComplete(line: Line, s: Store, p: int)
    requires IsPrime(p) && Units(s, p) && line.LessLine? && LineOk(line, s, p)
    ensures Runs(line, s)
    ensures Units(Exec(line, s, p), p)
    ensures Sat(Constraints(line), FieldEnv(Exec(line, s, p), p), p)
  {
    OkRuns(line, s, p);
    ReadsKept(line, s, p, line.x);
    ReadsKept(line, s, p, line.y);
    IntegerOperand(line.x, s, p);
    IntegerOperand(line.y, s, p);
    var u, v := FactorQ(line.x, s).num, FactorQ(line.y, s).num;
    var which, w := LessEffect(line.x, line.y, line.target, line.n, s, u, v);
    LessWitness(line.x, line.y, line.target, line.n, s, Exec(line, s, p), which, w, u, v, p);
  }

  lemma LessEffect(x: Factor, y: Factor, target: string, n: nat, s: Store, u: int, v: int) returns (which: int, w: nat)
    requires !(x.Const? && y.Const?) && FactorQ(x, s) == Q(u, 1) && FactorQ(y, s) == Q(v, 1)
    requires 1 <= n && -Pow(2, n - 1) <= u - v <= Pow(2, n - 1)
    ensures which == if u < v then -1 else if u == v then 0 else 1
    ensures w == Pow(2, n - 1) + (if u <= v then u - v else v - u)
    ensures 0 <= Pow(2, n - 1) + LowDifference(x, y, s).num
    ensures ExecLess(x, y, target, n, s) == WriteNBits(WriteSelector(s, target, which), target, n - 1, w)
  {
    which := if u < v then -1 else if u == v then 0 else 1;
    w := Pow(2, n - 1) + (if u <= v then u - v else v - u);
    assert LowDifference(x, y, s).num == (if u <= v then u - v else v - u) && Compare(Q(u, 1), Q(v, 1)) == which by {
      IntegerDifference(x, y, s);
    }
    assert Operands(x, y, s) == (Q(u, 1), Q(v, 1));
  }

  lemma LessWitness(x: Factor, y: Factor, target: string, n: nat, s: Store, s': Store, which: int, w: nat, u: int, v: int,
                    p: int)
    requires IsPrime(p) && Units(s, p) && 1 <= n
    requires which == if u < v then -1 else if u == v then 0 else 1
    requires w == Pow(2, n - 1) + (if u <= v then u - v else v - u)
    requires s' == WriteNBits(WriteSelector(s, target, which), target, n - 1, w)
    requires -Pow(2, n - 1) <= u - v <= Pow(2, n - 1)
    requires Cong(EvalFactor(x, FieldEnv(s', p)), u, p) && Cong(EvalFactor(y, FieldEnv(s', p)), v, p)
    ensures Units(s', p) && Sat(LessInt(x, y, target, n), FieldEnv(s', p), p)
  {
    ComparisonStored(s, target, which, n - 1, w, p);
    LessIntComplete(x, y, target, n, FieldEnv(s', p), p, u, v, w);
  }

  lemma IntegerOperand(f: Factor, s: Store, p: int)
    requires IsPrime(p) && Units(s, p) && Simple(f) && FactorQ(f, s).den == 1
    ensures Cong(EvalFactor(f, FieldEnv(s, p)), FactorQ(f, s).num, p)
  {
    SimpleField(f, s, p);
    IntegerImage(FactorQ(f, s).num, p);
  }

  /** Selector, result and bits as the comparison stores them, seen in the field. */
  lemma ComparisonStored(s: Store, target: string, which: int, k: nat, v: nat, p: int)
    requires IsPrime(p) && Units(s, p) && -1 <= which <= 1
    ensures var s' := WriteNBits(WriteSelector(s, target, which), target, k, v);
            && Units(s', p) && Selects(target, FieldEnv(s', p), p, which)
            && NBitsAre(target, k, FieldEnv(s', p), v, p)
            && FieldEnv(s', p)(Plain(target)) == FieldEnv(s', p)(Aux(target, Mlt))
  {
    var s1 := WriteSelector(s, target, which);
    SelectorUnits(s, target, which, p);
    NBitsUnits(s1, target, k, v, p);
    SelectorThenBits(s, target, which, k, v);
    StoredSelector(WriteNBits(s1, target, k, v), target, which, p);
    StoredNBits(WriteNBits(s1, target, k, v), s1, target, k, v, p);
  }

  /** Writing bits keeps the selector. */
  lemma SelectorThenBits(s: Store, target: string, which: int, k: nat, v: nat)
    ensures var s' := WriteNBits(WriteSelector(s, target, which), target, k, v);
            && Get(s', Aux(target, Mlt)) == Get(s', Plain(target)) == Flag(which == -1)
            && Get(s', Aux(target, Meq)) == Flag(which == 0) && Get(s', Aux(target, Mgt)) == Flag(which == 1)
  {
    var s1 := WriteSelector(s, target, which);
    NBitsFrame(s1, target, k, v, Aux(target, Mlt)); NBitsFrame(s1, target, k, v, Aux(target, Meq));
    NBitsFrame(s1, target, k, v, Aux(target, Mgt)); NBitsFrame(s1, target, k, v, Plain(target));
  }

  /** What `<I` stores about the order of its operands. */
  lemma LessOutcome(x: Factor, y: Factor, target: string, n: nat, s: Store)
    requires !(x.Const? && y.Const?) && 1 <= n && 0 <= Pow(2, n - 1) + LowDifference(x, y, s).num
    ensures Ordered(ExecLess(x, y, target, n, s), target, FactorQ(x, s), FactorQ(y, s))
  {
    SelectorThenBits(s, target, Compare(FactorQ(x, s), FactorQ(y, s)), n - 1, Pow(2, n - 1) + LowDifference(x, y, s).num);
  }

  /** Two constant operands share a temporary: the comparison reports "equal", and the constraints are
      violated unless the constants agree in the field. */
  lemma ConstantComparison(c: int, d: int, target: string, n: nat, s: Store, p: int)
    requires IsPrime(p) && 2 < p && 1 <= n && Units(s, p)
    ensures 0 <= Pow(2, n - 1) + LowDifference(Const(c), Const(d), s).num
    ensures Sat(LessInt(Const(c), Const(d), target, n), FieldEnv(ExecLess(Const(c), Const(d), target, n, s), p), p)
            <==> Cong(c, d, p)
  {
    SubIntegers(Q(d, 1), Q(d, 1));
    var s' := ExecLess(Const(c), Const(d), target, n, s);
    assert s' == WriteNBits(WriteSelector(s, target, 0), target, n - 1, Pow(2, n - 1));
    ConstantOutcome(c, d, target, n, s, s', p);
  }

  /** `0 < 1`: whatever the width, the prover's values violate the constraints. */
  lemma ConstantComparisonFails(target: string, n: nat, s: Store, p: int)
    requires IsPrime(p) && 2 < p && 1 <= n && Units(s, p)
    ensures 0 <= Pow(2, n - 1) + LowDifference(Const(0), Const(1), s).num
    ensures !Sat(LessInt(Const(0), Const(1), target, n), FieldEnv(ExecLess(Const(0), Const(1), target, n, s), p), p)
  {
    ConstantComparison(0, 1, target, n, s, p);
    SmallMod(0, p);
    SmallMod(1, p);
  }

  lemma ConstantOutcome(c: int, d: int, target: string, n: nat, s: Store, s': Store, p: int)
    requires IsPrime(p) && 2 < p && 1 <= n && Units(s, p)
    requires s' == WriteNBits(WriteSelector(s, target, 0), target, n - 1, Pow(2, n - 1))
    ensures Sat(LessInt(Const(c), Const(d), target, n), FieldEnv(s', p), p) <==> Cong(c, d, p)
  {
    ComparisonStored(s, target, 0, n - 1, Pow(2, n - 1), p);
    if Cong(c, d, p) {
      LessIntComplete(Const(c), Const(d), target, n, FieldEnv(s', p), p, d, d, Pow(2, n - 1));
    } else if Sat(LessInt(Const(c), Const(d), target, n), FieldEnv(s', p), p) {
      ConstantClash(c, d, target, n, FieldEnv(s', p), p);
    }
  }

  lemma ConstantClash(c: int, d: int, target: string, n: nat, env: Env, p: int)
    requires p > 0 && 1 <= n && Sat(LessInt(Const(c), Const(d), target, n), env, p)
    requires Cong(env(Aux(target, Meq)), 1, p)
    ensures Cong(c, d, p)
  {
    var x, y := Const(c), Const(d);
    LessIntParts(x, y, target, n, env, p);
    GuardEval(target, Meq, Difference(x, y), env, p);
    DifferenceEval(x, y, env);
    CongAdd(c - d, 0, d, d, p);
  }
}
