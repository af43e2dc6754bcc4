/** Soundness of a compiled program: a field assignment that satisfies the constraints and has the
    program's inputs has the program's results, whatever it puts in the gates' own variables. */
module CompileSound {
  import opened Arith
  import opened Bits
  import opened Poly
  import opened Rational
  import opened Gates
  import opened MoreGates
  import opened FloatGate
  import opened Worksheet
  import opened Compile
  import opened CompileProof
  import opened CompileFloat
  import opened CompileProgram

  // ----- congruent assignments give congruent values -----

  ghost predicate Match(e: Env, e': Env, vars: set<Id>, p: int)
    requires p > 0
  {
    forall v :: v in vars ==> Cong(e(v), e'(v), p)
  }

  lemma {:induction false} FactorMatch(f: Factor, e: Env, e': Env, p: int)
    requires p > 0 && Match(e, e', FactorVars(f), p)
    ensures Cong(EvalFactor(f, e), EvalFactor(f, e'), p)
    decreases f, 2
  {
    match f
    case Const(c) =>
    case Var(v) =>
    case Paren(q) =>
      assert FactorVars(f) == TermsVars(q.terms);
      TermsMatch(q.terms, e, e', p);
  }

  lemma {:induction false} FactorsMatch(fs: seq<Factor>, e: Env, e': Env, p: int)
    requires p > 0 && Match(e, e', FactorsVars(fs), p)
    ensures Cong(EvalFactors(fs, e), EvalFactors(fs, e'), p)
    decreases fs, 0
  {
    if fs != [] {
      FactorMatch(fs[0], e, e', p);
      FactorsMatch(fs[1..], e, e', p);
      CongMul(EvalFactor(fs[0], e), EvalFactor(fs[0], e'), EvalFactors(fs[1..], e), EvalFactors(fs[1..], e'), p);
    }
  }

  lemma {:induction false} TermsMatch(ts: seq<Term>, e: Env, e': Env, p: int)
    requires p > 0 && Match(e, e', TermsVars(ts), p)
    ensures Cong(EvalTerms(ts, e), EvalTerms(ts, e'), p)
    decreases ts, 0
  {
    if ts != [] {
      var t := ts[0];
      FactorsMatch(t.factors, e, e', p);
      CongMul(EvalFactors(t.factors, e), EvalFactors(t.factors, e'), -1, -1, p);
      TermsMatch(ts[1..], e, e', p);
      CongAdd(EvalTerm(t, e), EvalTerm(t, e'), EvalTerms(ts[1..], e), EvalTerms(ts[1..], e'), p);
    }
  }

  // ----- results of a line -----

  /** The variables a line defines for the rest of the program. */
  function Results(line: Line): set<Id> {
    match line
    case SplitLine(x, bits, signed) => set i | 0 <= i < |bits| :: bits[i]
    case _ => {Plain(line.target)}
  }

  /** The field is large enough for the gate to be sound. */
  ghost predicate FieldFits(line: Line, p: int) {
    match line
    case PolyLine(_, _, _, _, _) => true
    case NotEqualLine(_, _, _, _) => true
    case LessLine(_, _, _, n) => Pow(2, n) < p
    case LessFloatLine(_, _, _, na, nb) => Pow(2, na + nb + 1) < p
    case SplitLine(_, bits, _) => Pow(2, |bits|) < p
  }

  lemma FlagImage(b: bool, p: int)
    requires IsPrime(p)
    ensures Cong(ToField(Flag(b), p), if b then 1 else 0, p)
  {
    IntegerImage(0, p);
    IntegerImage(1, p);
  }

  /** A satisfied polynomial line determines its target, because its coefficient is a unit. */
  lemma PolyTarget(a: Poly, b: Poly, c: Poly, k: int, target: string, e: Env, p: int)
    requires p > 0 && Holds(Constraint(a, b, Poly(c.terms + [TargetTerm(k, target)])), e, p)
    ensures Cong(k * e(Plain(target)), EvalConstraint(Constraint(a, b, c), e), p)
  {
    LineSplits(a, b, c, k, target, e);
    var con := Constraint(a, b, Poly(c.terms + [TargetTerm(k, target)]));
    RestoreTarget(EvalConstraint(Constraint(a, b, c), e), k * e(Plain(target)), EvalConstraint(con, e), p);
  }

  lemma LineSplits(a: Poly, b: Poly, c: Poly, k: int, target: string, e: Env)
    ensures EvalConstraint(Constraint(a, b, Poly(c.terms + [TargetTerm(k, target)])), e)
         == EvalConstraint(Constraint(a, b, c), e) - k * e(Plain(target))
  {
    TargetTermEval(k, target, e);
    EvalTermsAppend(c.terms, [TargetTerm(k, target)], e);
    EvalOne(TargetTerm(k, target), e);
  }

  lemma RestoreTarget(y: int, x: int, z: int, p: int)
    requires p > 0 && Cong(z, 0, p) && z == y - x
    ensures Cong(x, y, p)
  {
    CongAdd(z, 0, x, x, p);
  }

  lemma BodyMatch(a: Poly, b: Poly, c: Poly, e: Env, e': Env, p: int)
    requires p > 0 && Match(e, e', PolyVars(a) + PolyVars(b) + PolyVars(c), p)
    ensures Cong(EvalConstraint(Constraint(a, b, c), e), EvalConstraint(Constraint(a, b, c), e'), p)
  {
    TermsMatch(a.terms, e, e', p);
    TermsMatch(b.terms, e, e', p);
    TermsMatch(c.terms, e, e', p);
    var con := Constraint(a, b, c);
    CongMulAdd(EvalPoly(a, e), EvalPoly(a, e'), EvalPoly(b, e), EvalPoly(b, e'), EvalPoly(c, e), EvalPoly(c, e'),
               EvalConstraint(con, e), EvalConstraint(con, e'), p);
  }

  lemma CongMulAdd(a: int, a': int, b: int, b': int, c: int, c': int, z: int, z': int, p: int)
    requires p > 0 && Cong(a, a', p) && Cong(b, b', p) && Cong(c, c', p)
    requires z == a * b + c && z' == a' * b' + c'
    ensures Cong(z, z', p)
  {
    CongMul(a, a', b, b', p);
    CongAdd(a * b, a' * b', c, c', p);
  }

  lemma PolyLineSound(line: Line, s: Store, env: Env, p: int)
    requires IsPrime(p) && Units(s, p) && line.PolyLine? && LineOk(line, s, p) && Runs(line, s)
    requires Match(env, FieldEnv(s, p), Reads(line), p) && Sat(Constraints(line), env, p)
    ensures Match(env, FieldEnv(Exec(line, s, p), p), Results(line), p)
  {
    var e := FieldEnv(s, p);
    var q := WorkPoly(line.a, line.b, line.c);
    WorkPolyNonempty(line.a, line.b, line.c);
    TargetValue(q, line.k, s, p);
    WorkPolyEval(line.a, line.b, line.c, e);
    assert Holds(Constraints(line)[0], env, p);
    PolyTarget(line.a, line.b, line.c, line.k, line.target, env, p);
    BodyMatch(line.a, line.b, line.c, env, e, p);
    assert EvalPoly(q, e) == EvalConstraint(Constraint(line.a, line.b, line.c), e);
    CancelFactor(line.k, env(Plain(line.target)), FieldEnv(Exec(line, s, p), p)(Plain(line.target)), p);
  }

  lemma NotEqualLineSound(line: Line, s: Store, env: Env, p: int)
    requires IsPrime(p) && Units(s, p) && line.NotEqualLine? && LineOk(line, s, p)
    requires Match(env, FieldEnv(s, p), Reads(line), p) && Sat(Constraints(line), env, p)
    ensures Match(env, FieldEnv(Exec(line, s, p), p), Results(line), p)
  {
    OperandsDiffer(line.x, line.y, s, env, p);
    NotEqualSound(line.x, line.y, line.target, line.viaM2, env, p);
    FlagImage(FactorQ(line.x, s) != FactorQ(line.y, s), p);
    NotEqualTarget(line.x, line.y, line.target, line.viaM2, s, p);
  }

  lemma OperandsDiffer(x: Factor, y: Factor, s: Store, env: Env, p: int)
    requires IsPrime(p) && Units(s, p) && Simple(x) && Simple(y)
    requires FactorQ(x, s) == FactorQ(y, s) || !Cong(Sub(FactorQ(x, s), FactorQ(y, s)).num, 0, p)
    requires Match(env, FieldEnv(s, p), FactorVars(x) + FactorVars(y), p)
    ensures Cong(EvalFactor(x, env), EvalFactor(y, env), p) <==> FactorQ(x, s) == FactorQ(y, s)
  {
    var u, v := FactorQ(x, s), FactorQ(y, s);
    FactorMatch(x, env, FieldEnv(s, p), p);
    FactorMatch(y, env, FieldEnv(s, p), p);
    SimpleField(x, s, p); SimpleField(y, s, p);
    StoredDifference(u, v, p);
    SameWhenEqual(EvalFactor(x, env), EvalFactor(y, env), ToField(u, p), ToField(v, p), p);
  }

  lemma NotEqualTarget(x: Factor, y: Factor, target: string, viaM2: bool, s: Store, p: int)
    requires p >= 2
    ensures Get(ExecNotEqual(x, y, target, viaM2, s, p), Plain(target)) == Flag(FactorQ(x, s) != FactorQ(y, s))
  {
  }

  lemma SameWhenEqual(a: int, b: int, f: int, g: int, p: int)
    requires p > 0 && Cong(a, f, p) && Cong(b, g, p)
    ensures Cong(a, b, p) <==> Cong(f - g, 0, p)
  {
    if Cong(a, b, p) { CongAdd(f, g, g, g, p); }
    if Cong(f - g, 0, p) { CongAdd(f - g, 0, g, g, p); }
  }

  lemma LessLineSound(line: Line, s: Store, env: Env, p: int)
    requires IsPrime(p) && Units(s, p) && line.LessLine? && LineOk(line, s, p) && FieldFits(line, p) && Runs(line, s)
    requires Match(env, FieldEnv(s, p), Reads(line), p) && Sat(Constraints(line), env, p)
    ensures Match(env, FieldEnv(Exec(line, s, p), p), Results(line), p)
  {
    var x, y, n := line.x, line.y, line.n;
    var u, v := FactorQ(x, s).num, FactorQ(y, s).num;
    FactorMatch(x, env, FieldEnv(s, p), p);
    FactorMatch(y, env, FieldEnv(s, p), p);
    IntegerOperand(x, s, p); IntegerOperand(y, s, p);
    LessIntSound(x, y, line.target, n, env, p, u, v);
    LessTarget(x, y, line.target, n, s, u, v);
    FlagImage(u < v, p);
  }

  lemma LessTarget(x: Factor, y: Factor, target: string, n: nat, s: Store, u: int, v: int)
    requires !(x.Const? && y.Const?) && FactorQ(x, s) == Q(u, 1) && FactorQ(y, s) == Q(v, 1)
    requires 1 <= n && -Pow(2, n - 1) <= u - v <= Pow(2, n - 1)
    ensures 0 <= Pow(2, n - 1) + LowDifference(x, y, s).num
    ensures Get(ExecLess(x, y, target, n, s), Plain(target)) == Flag(u < v)
  {
    var which, w := LessEffect(x, y, target, n, s, u, v);
    SelectorThenBits(s, target, which, n - 1, w);
  }

  /** The difference scaled by `2^nb` is an integer whose sign is the outcome of the comparison. */
  lemma ScaledDifference(a: int, b: int, f: int, num: int, j: nat, na: nat, nb: nat, p: int) returns (diff: int)
    requires p > 0 && j <= nb && -Pow(2, na) <= num <= -1
    requires Cong(f * Pow(2, j), num, p) && Cong(a - b, f, p)
    ensures -Pow(2, na + nb) <= diff < 0
    ensures Cong((a - b) * Pow(2, nb), diff, p) && Cong((b - a) * Pow(2, nb), -diff, p)
  {
    var r := Pow(2, nb - j);
    diff := num * r;
    PowAdd(2, j, nb - j);
    ScaledCong(a - b, f, Pow(2, j), r, num, p);
    CongMul((a - b) * Pow(2, nb), diff, -1, -1, p);
    assert ((a - b) * Pow(2, nb)) * -1 == (b - a) * Pow(2, nb);
    ScaledRange(num, na, nb, j, r);
  }

  lemma ScaledCong(d: int, f: int, q: int, r: int, num: int, p: int)
    requires p > 0 && Cong(f * q, num, p) && Cong(d, f, p)
    ensures Cong(d * (q * r), num * r, p)
  {
    CongMul(d, f, q * r, q * r, p);
    MulAssoc(f, q, r);
    CongMul(f * q, num, r, r, p);
  }

  lemma ScaledRange(num: int, na: nat, nb: nat, j: nat, r: int)
    requires j <= nb && -Pow(2, na) <= num <= -1 && r == Pow(2, nb - j)
    ensures -Pow(2, na + nb) <= num * r < 0
  {
    PowAdd(2, na, nb - j);
    PowMonotone(2, na + (nb - j), na + nb);
    MulMono(-num, Pow(2, na), r, r);
    MulMono(1, -num, 1, r);
    assert (-num) * r == -(num * r);
  }

  lemma FloatOutcome(x: Factor, y: Factor, target: string, na: nat, nb: nat, env: Env, a: int, b: int, which: int, num: int,
                     j: nat, f: int, p: int)
    requires IsPrime(p) && Pow(2, na + nb + 1) < p && j <= nb && -Pow(2, na) <= num <= -1 && -1 <= which <= 1
    requires a == EvalFactor(x, env) && b == EvalFactor(y, env) && Sat(LessFloat(x, y, target, na, nb), env, p)
    requires which != 0 ==> Cong(f * Pow(2, j), num, p)
    requires which == -1 ==> Cong(a - b, f, p)
    requires which == 0 ==> Cong(a, b, p)
    requires which == 1 ==> Cong(b - a, f, p)
    ensures Cong(env(Plain(target)), if which == -1 then 1 else 0, p)
  {
    if which == -1 {
      var diff := ScaledDifference(a, b, f, num, j, na, nb, p);
      LessFloatSound(x, y, target, na, nb, env, p, diff);
    } else if which == 1 {
      var diff := ScaledDifference(b, a, f, num, j, na, nb, p);
      LessFloatSound(x, y, target, na, nb, env, p, -diff);
    } else {
      CongAdd(a, b, b, b, p);
      CongMul(a - b, 0, Pow(2, nb), Pow(2, nb), p);
      LessFloatSound(x, y, target, na, nb, env, p, 0);
    }
  }

  lemma MatchOperands(x: Factor, y: Factor, env: Env, e: Env, f: int, p: int)
    requires p > 0 && Match(env, e, FactorVars(x) + FactorVars(y), p)
    ensures Cong(EvalFactor(x, env) - EvalFactor(y, env), EvalFactor(x, e) - EvalFactor(y, e), p)
    ensures Cong(EvalFactor(y, env) - EvalFactor(x, env), EvalFactor(y, e) - EvalFactor(x, e), p)
    ensures Cong(EvalFactor(x, e), EvalFactor(y, e), p) ==> Cong(EvalFactor(x, env), EvalFactor(y, env), p)
  {
    FactorMatch(x, env, e, p);
    FactorMatch(y, env, e, p);
    CongAdd(EvalFactor(x, env), EvalFactor(x, e), EvalFactor(y, env), EvalFactor(y, e), p);
    CongAdd(EvalFactor(y, env), EvalFactor(y, e), EvalFactor(x, env), EvalFactor(x, e), p);
  }

  lemma LessFloatBodySound(x: Factor, y: Factor, target: string, na: nat, nb: nat, s: Store, env: Env, j: nat, p: int)
    requires IsPrime(p) && Units(s, p) && Simple(x) && Simple(y) && !(x.Const? && y.Const?)
    requires Pow(2, na + nb + 1) < p && -Pow(2, na) <= FloatNumerator(x, y, s) <= -1
    requires j <= nb && FloatDenominator(x, y, s) == Pow(2, j)
    requires Match(env, FieldEnv(s, p), FactorVars(x) + FactorVars(y), p)
    requires Sat(LessFloat(x, y, target, na, nb), env, p)
    ensures var u, v := FactorQ(x, s), FactorQ(y, s);
            Cong(env(Plain(target)), if u.num * v.den < v.num * u.den then 1 else 0, p)
  {
    var e := FieldEnv(s, p);
    var which, num, den, f := OperandImages(x, y, s, EvalFactor(x, e), EvalFactor(y, e), p);
    MatchOperands(x, y, env, e, f, p);
    FloatOutcome(x, y, target, na, nb, env, EvalFactor(x, env), EvalFactor(y, env), which, num, j, f, p);
  }

  lemma LessFloatLineSound(line: Line, s: Store, env: Env, p: int)
    requires IsPrime(p) && Units(s, p) && line.LessFloatLine? && LineOk(line, s, p) && FieldFits(line, p) && Runs(line, s)
    requires Match(env, FieldEnv(s, p), Reads(line), p) && Sat(Constraints(line), env, p)
    ensures Match(env, FieldEnv(Exec(line, s, p), p), Results(line), p)
  {
    var x, y, target, na, nb := line.x, line.y, line.target, line.na, line.nb;
    var j := FloatRange(x, y, s, na, nb);
    var u, v := FactorQ(x, s), FactorQ(y, s);
    LessFloatBodySound(x, y, target, na, nb, s, env, j, p);
    FloatTarget(x, y, target, na, nb, s);
    FlagImage(u.num * v.den < v.num * u.den, p);
  }

  /** A number has one bit pattern. */
  lemma {:induction false} LowBitsUnique(b: seq<int>, c: seq<int>, k: nat, n: nat, signed: bool)
    requires k <= |b| == |c| && IsBits(b) && IsBits(c) && (signed ==> k < n)
    requires WeightedSum(b, k, n, signed) == WeightedSum(c, k, n, signed)
    ensures forall i :: 0 <= i < k ==> b[i] == c[i]
    decreases k
  {
    if k > 0 {
      UnsignedRange(b, k - 1, n, signed);
      UnsignedRange(c, k - 1, n, signed);
      TopBitSame(b[k - 1], c[k - 1], WeightedSum(b, k - 1, n, signed), WeightedSum(c, k - 1, n, signed), Pow(2, k - 1));
      LowBitsUnique(b, c, k - 1, n, signed);
    }
  }

  lemma TopBitSame(x: int, y: int, u: int, v: int, w: int)
    requires 0 <= x <= 1 && 0 <= y <= 1 && 0 <= u < w && 0 <= v < w
    requires u + w * x == v + w * y || u - w * x == v - w * y
    ensures x == y && u == v
  {
  }

  lemma BitsUnique(b: seq<int>, c: seq<int>, signed: bool)
    requires |b| == |c| && IsBits(b) && IsBits(c)
    requires WeightedSum(b, |b|, |b|, signed) == WeightedSum(c, |c|, |c|, signed)
    ensures b == c
  {
    var n := |b|;
    if signed && n > 0 {
      UnsignedRange(b, n - 1, n, signed);
      UnsignedRange(c, n - 1, n, signed);
      TopBitSame(b[n - 1], c[n - 1], WeightedSum(b, n - 1, n, signed), WeightedSum(c, n - 1, n, signed), Pow(2, n - 1));
      LowBitsUnique(b, c, n - 1, n, signed);
    } else if n > 0 {
      LowBitsUnique(b, c, n, n, signed);
    }
  }

  lemma SplitLineSound(line: Line, s: Store, env: Env, p: int)
    requires IsPrime(p) && Units(s, p) && line.SplitLine? && LineOk(line, s, p) && FieldFits(line, p) && Runs(line, s)
    requires Match(env, FieldEnv(s, p), Reads(line), p) && Sat(Constraints(line), env, p)
    ensures Match(env, FieldEnv(Exec(line, s, p), p), Results(line), p)
  {
    var x, bits, signed := line.x, line.bits, line.signed;
    var v := FactorQ(x, s).num;
    FactorMatch(x, env, FieldEnv(s, p), p);
    IntegerOperand(x, s, p);
    var b := SplitSound(x, bits, signed, env, p, v);
    var c := seq(|bits|, i requires 0 <= i < |bits| => SplitBit(v, i, |bits|, signed));
    SplitBitsSum(v, c, signed);
    BitsUnique(b, c, signed);
    SplitFrame(s, bits, |bits|, v, signed);
    forall i | 0 <= i < |bits| ensures Cong(env(bits[i]), FieldEnv(Exec(line, s, p), p)(bits[i]), p) {
      IntegerImage(c[i], p);
      assert Cong(Values(bits, env)[i], b[i], p);
    }
  }

  lemma LineSound(line: Line, s: Store, env: Env, p: int)
    requires IsPrime(p) && Units(s, p) && LineOk(line, s, p) && FieldFits(line, p) && Runs(line, s)
    requires Match(env, FieldEnv(s, p), Reads(line), p) && Sat(Constraints(line), env, p)
    ensures Match(env, FieldEnv(Exec(line, s, p), p), Results(line), p)
  {
    match line
    case PolyLine(_, _, _, _, _) => PolyLineSound(line, s, env, p);
    case NotEqualLine(_, _, _, _) => NotEqualLineSound(line, s, env, p);
    case LessLine(_, _, _, _) => LessLineSound(line, s, env, p);
    case LessFloatLine(_, _, _, _, _) => LessFloatLineSound(line, s, env, p);
    case SplitLine(_, _, _) => SplitLineSound(line, s, env, p);
  }

  // ----- programs -----

  /** Lines read inputs and results of earlier lines only, and assign nothing that is already known. */
  ghost predicate DefinedBefore(lines: seq<Line>, known: set<Id>) {
    lines == [] || (Reads(lines[0]) <= known && Writes(lines[0]) !! known
                    && DefinedBefore(lines[1..], known + Results(lines[0])))
  }

  function Known(lines: seq<Line>, known: set<Id>): set<Id> {
    if lines == [] then known else Known(lines[1..], known + Results(lines[0]))
  }

  /** Every assignment that meets all constraints and has the inputs of the run has its results. */
  lemma {:induction false} ProgramSound(lines: seq<Line>, s: Store, env: Env, known: set<Id>, p: int)
    requires IsPrime(p) && Units(s, p) && InRangeRun(lines, s, p) && DefinedBefore(lines, known)
    requires forall i :: 0 <= i < |lines| ==> FieldFits(lines[i], p) && (lines[i].LessLine? ==> 1 <= lines[i].n)
    requires forall i :: 0 <= i < |lines| ==> Sat(Constraints(lines[i]), env, p)
    requires Match(env, FieldEnv(s, p), known, p)
    ensures Match(env, FieldEnv(Run(lines, s, p), p), Known(lines, known), p)
    decreases |lines|
  {
    if lines != [] {
      var line, s1, rest := lines[0], Exec(lines[0], s, p), lines[1..];
      LineComplete(line, s, p);
      LineSound(line, s, env, p);
      forall v | v in known + Results(line) ensures Cong(env(v), FieldEnv(s1, p)(v), p) {
        if v in known { ExecFrame(line, s, p, v); }
      }
      forall i | 0 <= i < |rest|
        ensures FieldFits(rest[i], p) && (rest[i].LessLine? ==> 1 <= rest[i].n) && Sat(Constraints(rest[i]), env, p) {
        assert rest[i] == lines[i + 1];
      }
      ProgramSound(rest, s1, env, known + Results(line), p);
    }
  }
}
