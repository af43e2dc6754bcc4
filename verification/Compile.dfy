/** From source lines to verifier constraints and prover worksheet instructions, and why running the
    worksheet satisfies the constraints (`to_basic_constraints`, `generate_computation_line` in
    `code/compiler/backend/zcc_parser.py`; `compute_from_pws` in `libv/computation_p.cpp`). */
module Compile {
  import opened Arith
  import opened Bits
  import opened Poly
  import opened Rational
  import opened Gates
  import opened MoreGates
  import opened FloatGate
  import opened Worksheet

  /** A line of the constraint program. Operands `x`, `y` are constants or variables. */
  datatype Line =
    | PolyLine(a: Poly, b: Poly, c: Poly, k: int, target: string)       // ( a ) * ( b ) + ( c - k * target )
    | NotEqualLine(x: Factor, y: Factor, target: string, viaM2: bool)   // x != y - target
    | LessLine(x: Factor, y: Factor, target: string, n: nat)            // x < y - target, integers
    | LessFloatLine(x: Factor, y: Factor, target: string, na: nat, nb: nat)
    | SplitLine(x: Factor, bits: seq<Id>, signed: bool)                 // SIL

  // ----- verifier side -----

  function TargetTerm(k: int, target: string): Term {
    if k == 1 then NegTerm(Var(Plain(target))) else Term(true, [Const(k), Var(Plain(target))])
  }

  function Constraints(line: Line): seq<Constraint>
    requires line.LessLine? ==> 1 <= line.n
  {
    match line
    case PolyLine(a, b, c, k, target) => [Constraint(a, b, Poly(c.terms + [TargetTerm(k, target)]))]
    case NotEqualLine(x, y, target, viaM2) => NotEqual(x, y, target, viaM2)
    case LessLine(x, y, target, n) => LessInt(x, y, target, n)
    case LessFloatLine(x, y, target, na, nb) => LessFloat(x, y, target, na, nb)
    case SplitLine(x, bits, signed) => Split(x, bits, signed)
  }

  // ----- prover side -----

  /** The polynomial of the `P` instruction: `( a ) * ( b ) + c`, the product left out when empty. */
  function WorkPoly(a: Poly, b: Poly, c: Poly): Poly {
    if a.terms == [] then c else Poly([Term(false, [Paren(a), Paren(b)])] + c.terms)
  }

  /** Operands of a comparison. Two constants share one temporary, so the second overwrites the first. */
  function Operands(x: Factor, y: Factor, s: Store): (Rat, Rat) {
    if x.Const? && y.Const? then (FactorQ(y, s), FactorQ(y, s)) else (FactorQ(x, s), FactorQ(y, s))
  }

  /** `mpq_cmp`. */
  function Compare(a: Rat, b: Rat): int {
    var l, r := a.num * b.den, b.num * a.den;
    if l < r then -1 else if l == r then 0 else 1
  }

  function Flag(b: bool): Rat {
    if b then Q(1, 1) else Q(0, 1)
  }

  function WriteSelector(s: Store, target: string, which: int): Store {
    s[Aux(target, Mlt) := Flag(which == -1)][Aux(target, Meq) := Flag(which == 0)]
     [Aux(target, Mgt) := Flag(which == 1)][Plain(target) := Flag(which == -1)]
  }

  /** Bit `i` of `v` as 0 or `2^i`, for `i < k`. */
  function WriteNBits(s: Store, target: string, k: nat, v: nat): Store {
    if k == 0 then s
    else WriteNBits(s, target, k - 1, v)[Aux(target, NBit(k - 1)) := Q((Shift(v, k - 1) % 2) * Pow(2, k - 1), 1)]
  }

  function WriteDBits(s: Store, target: string, k: nat, v: nat): Store {
    if k == 0 then s
    else WriteDBits(s, target, k - 1, v)[Aux(target, DBit(k - 1)) := Q(Shift(v, k - 1) % 2, 1)]
  }

  function WriteSplit(s: Store, bits: seq<Id>, k: nat, v: int, signed: bool): Store
    requires k <= |bits| && (v < 0 ==> 0 <= v + Pow(2, |bits|))
  {
    if k == 0 then s
    else WriteSplit(s, bits, k - 1, v, signed)[bits[k - 1] := Q(SplitBit(v, k - 1, |bits|, signed), 1)]
  }

  /** What can be executed: a nonzero divisor, a difference that fits its bits, a number that fits. */
  predicate Runs(line: Line, s: Store) {
    match line
    case PolyLine(a, b, c, k, target) => k != 0
    case NotEqualLine(x, y, target, viaM2) => true
    case LessLine(x, y, target, n) => 1 <= n && 0 <= Pow(2, n - 1) + LowDifference(x, y, s).num
    case LessFloatLine(x, y, target, na, nb) => 0 <= Pow(2, na) + FloatNumerator(x, y, s)
    case SplitLine(x, bits, signed) => FactorQ(x, s).num < 0 ==> 0 <= FactorQ(x, s).num + Pow(2, |bits|)
  }

  /** Smaller operand minus larger. */
  function LowDifference(x: Factor, y: Factor, s: Store): Rat {
    var (u, v) := Operands(x, y, s);
    if Compare(u, v) <= 0 then Sub(u, v) else Sub(v, u)
  }

  function FloatNumerator(x: Factor, y: Factor, s: Store): int {
    var (u, v) := Operands(x, y, s);
    if Compare(u, v) == 0 then -1 else LowDifference(x, y, s).num
  }

  function FloatDenominator(x: Factor, y: Factor, s: Store): (d: int)
    ensures 0 < d
  {
    var (u, v) := Operands(x, y, s);
    if Compare(u, v) == 0 then 1 else LowDifference(x, y, s).den
  }

  /** `P target = ...`, then `/` when the target has a coefficient. */
  function ExecPoly(q: Poly, k: int, target: string, s: Store): Store
    requires k != 0
  {
    s[Plain(target) := if k == 1 then PolyQ(q, s) else Div(PolyQ(q, s), Q(k, 1))]
  }

  /** `!=`: the witness `M` is the inverse of the difference in the field, not in the rationals. */
  function ExecNotEqual(x: Factor, y: Factor, target: string, viaM2: bool, s: Store, p: int): Store
    requires p >= 2
  {
    var u, v := FactorQ(x, s), FactorQ(y, s);
    var d := Sub(u, v);
    var m: Rat := if u == v then Q(0, 1) else Q(Inv(d.num, p) * d.den, 1);
    var r := Flag(u != v);
    var s1 := s[Aux(target, M) := m];
    if viaM2 then s1[Aux(target, M2) := r][Plain(target) := r] else s1[Plain(target) := r]
  }

  /** `<I`. */
  function ExecLess(x: Factor, y: Factor, target: string, n: nat, s: Store): Store
    requires 1 <= n && 0 <= Pow(2, n - 1) + LowDifference(x, y, s).num
  {
    var (u, v) := Operands(x, y, s);
    WriteNBits(WriteSelector(s, target, Compare(u, v)), target, n - 1, Pow(2, n - 1) + LowDifference(x, y, s).num)
  }

  /** `<F`, up to the bits: selector, numerator, inverted denominator and quotient. */
  function WriteFraction(s: Store, target: string, which: int, num: int, den: int): Store
    requires 0 < den
  {
    var n: Rat, d: Rat := Q(num, 1), Q(1, den);
    WriteSelector(s, target, which)[Aux(target, Num) := n][Aux(target, Den) := d][Aux(target, NumDen) := Mul(n, d)]
  }

  function ExecLessFloat(x: Factor, y: Factor, target: string, na: nat, nb: nat, s: Store): Store
    requires 0 <= Pow(2, na) + FloatNumerator(x, y, s)
  {
    var (u, v) := Operands(x, y, s);
    var num, den := FloatNumerator(x, y, s), FloatDenominator(x, y, s);
    var s1 := WriteFraction(s, target, Compare(u, v), num, den);
    WriteDBits(WriteNBits(s1, target, na, Pow(2, na) + num), target, nb + 1, den)
  }

  /** The worksheet instructions for one line, executed. */
  function Exec(line: Line, s: Store, p: int): Store
    requires p >= 2 && Runs(line, s)
  {
    match line
    case PolyLine(a, b, c, k, target) => ExecPoly(WorkPoly(a, b, c), k, target, s)
    case NotEqualLine(x, y, target, viaM2) => ExecNotEqual(x, y, target, viaM2, s, p)
    case LessLine(x, y, target, n) => ExecLess(x, y, target, n, s)
    case LessFloatLine(x, y, target, na, nb) => ExecLessFloat(x, y, target, na, nb, s)
    case SplitLine(x, bits, signed) => WriteSplit(s, bits, |bits|, FactorQ(x, s).num, signed)
  }

  // ----- the bit loops, as the prover runs them -----

  /** The `for` loop of `compute_less_than_int`: peel off the low bit, keep the rest. */
  method FillNBits(s: Store, target: string, k: nat, v: nat) returns (r: Store)
    ensures r == WriteNBits(s, target, k, v)
  {
    var temp := v;
    r := s;
    for i := 0 to k
      invariant temp == Shift(v, i) && r == WriteNBits(s, target, i, v)
    {
      r := r[Aux(target, NBit(i)) := Q((temp % 2) * Pow(2, i), 1)];
      temp := temp / 2;
    }
  }

  /** The `for` loop of `compute_split_int_le`. */
  method FillSplit(s: Store, bits: seq<Id>, v: int, signed: bool) returns (r: Store)
    requires v < 0 ==> 0 <= v + Pow(2, |bits|)
    ensures r == WriteSplit(s, bits, |bits|, v, signed)
  {
    var start: nat := if v < 0 then v + Pow(2, |bits|) else v;
    var temp := start;
    r := s;
    for i := 0 to |bits|
      invariant i < |bits| || !signed ==> temp == Shift(start, i)
      invariant r == WriteSplit(s, bits, i, v, signed)
    {
      if i == |bits| - 1 && signed {
        r := r[bits[i] := Flag(v < 0)];
      } else {
        r := r[bits[i] := Q(temp % 2, 1)];
        temp := temp / 2;
      }
    }
  }

  // ----- which variables a line touches -----

  function FactorVars(f: Factor): set<Id>
    decreases f, 2
  {
    match f
    case Const(c) => {}
    case Var(v) => {v}
    case Paren(p) => PolyVars(p)
  }

  function FactorsVars(fs: seq<Factor>): set<Id>
    decreases fs, 0
  {
    if fs == [] then {} else FactorVars(fs[0]) + FactorsVars(fs[1..])
  }

  function TermsVars(ts: seq<Term>): set<Id>
    decreases ts, 0
  {
    if ts == [] then {} else FactorsVars(ts[0].factors) + TermsVars(ts[1..])
  }

  function PolyVars(p: Poly): set<Id>
    decreases p, 1
  {
    TermsVars(p.terms)
  }

  ghost predicate Agree(e: Env, e': Env, vars: set<Id>) {
    forall v :: v in vars ==> e(v) == e'(v)
  }

  lemma {:induction false} FactorAgree(f: Factor, e: Env, e': Env)
    requires Agree(e, e', FactorVars(f))
    ensures EvalFactor(f, e) == EvalFactor(f, e')
    decreases f, 2
  {
    match f
    case Const(c) =>
    case Var(v) =>
    case Paren(p) =>
      assert FactorVars(f) == TermsVars(p.terms);
      TermsAgree(p.terms, e, e');
  }

  lemma {:induction false} FactorsAgree(fs: seq<Factor>, e: Env, e': Env)
    requires Agree(e, e', FactorsVars(fs))
    ensures EvalFactors(fs, e) == EvalFactors(fs, e')
    decreases fs, 0
  {
    if fs != [] {
      FactorAgree(fs[0], e, e');
      FactorsAgree(fs[1..], e, e');
    }
  }

  lemma {:induction false} TermsAgree(ts: seq<Term>, e: Env, e': Env)
    requires Agree(e, e', TermsVars(ts))
    ensures EvalTerms(ts, e) == EvalTerms(ts, e')
    decreases ts, 0
  {
    if ts != [] {
      FactorsAgree(ts[0].factors, e, e');
      TermsAgree(ts[1..], e, e');
    }
  }

  function ConstraintVars(c: Constraint): set<Id> {
    PolyVars(c.a) + PolyVars(c.b) + PolyVars(c.c)
  }

  lemma ConstraintAgree(c: Constraint, e: Env, e': Env)
    requires Agree(e, e', ConstraintVars(c))
    ensures EvalConstraint(c, e) == EvalConstraint(c, e')
  {
    TermsAgree(c.a.terms, e, e');
    TermsAgree(c.b.terms, e, e');
    TermsAgree(c.c.terms, e, e');
  }

  /** Variables the line's instructions assign. */
  function Writes(line: Line): set<Id> {
    match line
    case PolyLine(a, b, c, k, target) => {Plain(target)}
    case NotEqualLine(x, y, target, viaM2) => {Plain(target), Aux(target, M), Aux(target, M2)}
    case LessLine(x, y, target, n) =>
      {Plain(target), Aux(target, Mlt), Aux(target, Meq), Aux(target, Mgt)} + set i | 0 <= i < n :: Aux(target, NBit(i))
    case LessFloatLine(x, y, target, na, nb) =>
      {Plain(target), Aux(target, Mlt), Aux(target, Meq), Aux(target, Mgt), Aux(target, Num), Aux(target, Den),
       Aux(target, NumDen)} + (set i | 0 <= i < na :: Aux(target, NBit(i))) + set i | 0 <= i <= nb :: Aux(target, DBit(i))
    case SplitLine(x, bits, signed) => set i | 0 <= i < |bits| :: bits[i]
  }

  /** Variables the line's instructions read. */
  function Reads(line: Line): set<Id> {
    match line
    case PolyLine(a, b, c, k, target) => PolyVars(a) + PolyVars(b) + PolyVars(c)
    case NotEqualLine(x, y, target, viaM2) => FactorVars(x) + FactorVars(y)
    case LessLine(x, y, target, n) => FactorVars(x) + FactorVars(y)
    case LessFloatLine(x, y, target, na, nb) => FactorVars(x) + FactorVars(y)
    case SplitLine(x, bits, signed) => FactorVars(x)
  }
}
