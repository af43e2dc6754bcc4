/** Whole programs: single assignment and definition before use make the prover's run satisfy every
    constraint of every line. */
module CompileProgram {
  import opened Arith
  import opened Bits
  import opened Poly
  import opened Rational
  import opened Gates
  import opened MoreGates
  import opened FloatGate
  import opened Worksheet
  import opened Compile
  import opened CompileProof
  import opened CompileFloat

  // ----- a constraint mentions only what its line reads and writes -----

  ghost predicate Within(cs: seq<Constraint>, vars: set<Id>) {
    forall i :: 0 <= i < |cs| ==> ConstraintVars(cs[i]) <= vars
  }

  lemma {:induction false} TermsVarsAppend(a: seq<Term>, b: seq<Term>)
    ensures TermsVars(a + b) == TermsVars(a) + TermsVars(b)
    decreases |a|
  {
    if a == [] {
      assert a + b == b;
    } else {
      assert (a + b)[1..] == a[1..] + b;
      TermsVarsAppend(a[1..], b);
    }
  }

  lemma OneVars(neg: bool, c: int, f: Factor)
    ensures TermsVars([Term(neg, [f])]) == FactorVars(f)
    ensures TermsVars([Term(neg, [Const(c), f])]) == FactorVars(f)
  {
    assert FactorsVars([f]) == FactorVars(f) + FactorsVars([f][1..]);
    assert [Const(c), f][1..] == [f];
    assert FactorsVars([Const(c), f]) == FactorVars(Const(c)) + FactorsVars([f]);
    var t, u := Term(neg, [f]), Term(neg, [Const(c), f]);
    assert TermsVars([t]) == FactorsVars(t.factors) + TermsVars([t][1..]);
    assert TermsVars([u]) == FactorsVars(u.factors) + TermsVars([u][1..]);
  }

  lemma PairVars(t: Term, u: Term)
    ensures TermsVars([t, u]) == TermsVars([t]) + TermsVars([u])
  {
    TermsVarsAppend([t], [u]);
    assert [t] + [u] == [t, u];
  }

  lemma ZeroOrVars(f: Factor, k: int)
    ensures ConstraintVars(ZeroOr(f, k)) == FactorVars(f) && ConstraintVars(Boolean(f)) == FactorVars(f)
  {
    OneVars(false, 0, f); OneVars(true, 0, f); OneVars(false, 0, Const(k)); OneVars(true, 0, Const(1));
    PairVars(PosTerm(Const(k)), NegTerm(f));
    PairVars(PosTerm(f), NegTerm(Const(1)));
  }

  lemma {:induction false} NBitsWithin(target: string, k: nat, vars: set<Id>)
    requires forall i: nat :: i < k ==> Aux(target, NBit(i)) in vars
    ensures Within(NBits(target, k), vars) && TermsVars(MinusNBits(target, k)) <= vars
    decreases k
  {
    if k > 0 {
      NBitsWithin(target, k - 1, vars);
      var f := Var(Aux(target, NBit(k - 1)));
      ZeroOrVars(f, Pow(2, k - 1));
      OneVars(true, 0, f);
      TermsVarsAppend(MinusNBits(target, k - 1), [NegTerm(f)]);
    }
  }

  lemma DifferenceVars(x: Factor, y: Factor)
    ensures PolyVars(Difference(x, y)) == FactorVars(x) + FactorVars(y)
  {
    OneVars(false, 0, x); OneVars(true, 0, y);
    PairVars(PosTerm(x), NegTerm(y));
  }

  lemma SelectorWithin(target: string, vars: set<Id>)
    requires Aux(target, Mlt) in vars && Aux(target, Meq) in vars && Aux(target, Mgt) in vars
    ensures Within(Selector(target), vars)
  {
    var a, b, c := Var(Aux(target, Mlt)), Var(Aux(target, Meq)), Var(Aux(target, Mgt));
    ZeroOrVars(a, 0); ZeroOrVars(b, 0); ZeroOrVars(c, 0);
    OneVars(false, 0, a); OneVars(false, 0, b); OneVars(false, 0, c); OneVars(true, 0, Const(1));
    PairVars(PosTerm(a), PosTerm(b));
    PairVars(PosTerm(c), NegTerm(Const(1)));
    TermsVarsAppend([PosTerm(a), PosTerm(b)], [PosTerm(c), NegTerm(Const(1))]);
    assert [PosTerm(a), PosTerm(b)] + [PosTerm(c), NegTerm(Const(1))]
        == [PosTerm(a), PosTerm(b), PosTerm(c), NegTerm(Const(1))];
  }

  lemma GuardVars(target: string, m: Tag, q: Poly)
    ensures ConstraintVars(Guard(target, m, q)) == {Aux(target, m)} + PolyVars(q)
  {
    OneVars(false, 0, Var(Aux(target, m)));
  }

  lemma OutputVars(target: string)
    ensures ConstraintVars(Output(target)) == {Aux(target, Mlt), Plain(target)}
  {
    OneVars(false, 0, Var(Aux(target, Mlt))); OneVars(true, 0, Var(Plain(target)));
    PairVars(PosTerm(Var(Aux(target, Mlt))), NegTerm(Var(Plain(target))));
  }

  lemma GapVars(x: Factor, y: Factor, target: string, k: nat)
    ensures PolyVars(Gap(x, y, target, k)) == FactorVars(x) + FactorVars(y) + TermsVars(MinusNBits(target, k))
  {
    DifferenceVars(x, y);
    OneVars(false, 0, Const(Pow(2, k)));
    TermsVarsAppend([PosTerm(x), NegTerm(y)], MinusNBits(target, k));
    TermsVarsAppend([PosTerm(x), NegTerm(y)] + MinusNBits(target, k), [PosTerm(Const(Pow(2, k)))]);
  }

  lemma LessWithin(x: Factor, y: Factor, target: string, n: nat, vars: set<Id>)
    requires 1 <= n && vars >= FactorVars(x) + FactorVars(y) + Writes(LessLine(x, y, target, n))
    ensures Within(LessInt(x, y, target, n), vars)
  {
    NBitsWithin(target, n - 1, vars);
    SelectorWithin(target, vars);
    LessTailWithin(x, y, target, n, vars);
    WithinAppend(Selector(target), LessIntTail(x, y, target, n), vars);
    WithinAppend(NBits(target, n - 1), Selector(target) + LessIntTail(x, y, target, n), vars);
  }

  lemma WithinAppend(a: seq<Constraint>, b: seq<Constraint>, vars: set<Id>)
    requires Within(a, vars) && Within(b, vars)
    ensures Within(a + b, vars)
  {
  }

  lemma LessTailWithin(x: Factor, y: Factor, target: string, n: nat, vars: set<Id>)
    requires 1 <= n && FactorVars(x) <= vars && FactorVars(y) <= vars && TermsVars(MinusNBits(target, n - 1)) <= vars
    requires Aux(target, Mlt) in vars && Aux(target, Meq) in vars && Aux(target, Mgt) in vars && Plain(target) in vars
    ensures Within(LessIntTail(x, y, target, n), vars)
  {
    GapVars(x, y, target, n - 1); GapVars(y, x, target, n - 1); DifferenceVars(x, y);
    GuardVars(target, Mlt, Gap(x, y, target, n - 1));
    GuardVars(target, Meq, Difference(x, y));
    GuardVars(target, Mgt, Gap(y, x, target, n - 1));
    OutputVars(target);
  }

  lemma NotEqualWithin(x: Factor, y: Factor, target: string, viaM2: bool, vars: set<Id>)
    requires vars >= FactorVars(x) + FactorVars(y) + {Plain(target), Aux(target, M), Aux(target, M2)}
    ensures Within(NotEqual(x, y, target, viaM2), vars)
  {
    var r := if viaM2 then Aux(target, M2) else Plain(target);
    OneVars(false, 0, Var(Aux(target, M))); OneVars(false, 0, Var(r)); OneVars(true, 0, Var(r));
    OneVars(true, 0, x); OneVars(false, 0, y);
    PairVars(NegTerm(x), PosTerm(y));
    DifferenceVars(x, y);
    DifferenceVars(Var(r), Var(Plain(target)));
  }

  lemma {:induction false} DBitsWithin(target: string, k: nat, nb: nat, vars: set<Id>)
    requires k <= nb + 1 && forall i: nat :: i <= nb ==> Aux(target, DBit(i)) in vars
    ensures Within(DBooleans(target, k), vars)
    ensures TermsVars(DWeights(target, k, nb)) <= vars && TermsVars(DCounts(target, k)) <= vars
    decreases k
  {
    if k > 0 {
      DBitsWithin(target, k - 1, nb, vars);
      var f, w := Var(Aux(target, DBit(k - 1))), Pow(2, nb + 1 - k);
      ZeroOrVars(f, 0);
      OneVars(true, w, f); OneVars(false, w, f);
      TermsVarsAppend(DWeights(target, k - 1, nb), [Term(true, [Const(w), f])]);
      TermsVarsAppend(DCounts(target, k - 1), [PosTerm(f)]);
    }
  }

  lemma LinksWithin(target: string, na: nat, nb: nat, vars: set<Id>)
    requires TermsVars(MinusNBits(target, na)) <= vars
    requires TermsVars(DWeights(target, nb + 1, nb)) <= vars && TermsVars(DCounts(target, nb + 1)) <= vars
    requires Aux(target, Num) in vars && Aux(target, Den) in vars && Aux(target, NumDen) in vars
    ensures Within([NumLink(target, na)], vars) && Within([DenLink(target, nb), OneHot(target, nb)], vars)
    ensures Within([Quotient(target)], vars)
  {
    var n, d, nd, k := Var(Aux(target, Num)), Var(Aux(target, Den)), Var(Aux(target, NumDen)), PosTerm(Const(Pow(2, na)));
    OneVars(false, 0, n); OneVars(false, Pow(2, nb), d); OneVars(true, 0, nd); OneVars(false, 0, Const(Pow(2, na)));
    OneVars(true, 0, Const(1));
    PairVars(PosTerm(n), k);
    TermsVarsAppend(MinusNBits(target, na), [PosTerm(n), k]);
    TermsVarsAppend(DWeights(target, nb + 1, nb), [Scale(Pow(2, nb), d)]);
    TermsVarsAppend(DCounts(target, nb + 1), [NegTerm(Const(1))]);
  }

  lemma FloatTailWithin(x: Factor, y: Factor, target: string, vars: set<Id>)
    requires FactorVars(x) <= vars && FactorVars(y) <= vars
    requires Aux(target, Mlt) in vars && Aux(target, Meq) in vars && Aux(target, Mgt) in vars
    requires Plain(target) in vars && Aux(target, NumDen) in vars
    ensures Within(FloatTail(x, y, target), vars)
  {
    var nd := Var(Aux(target, NumDen));
    DifferenceVars(x, y); DifferenceVars(y, x);
    OneVars(true, 0, nd);
    TermsVarsAppend([PosTerm(x), NegTerm(y)], [NegTerm(nd)]);
    TermsVarsAppend([PosTerm(y), NegTerm(x)], [NegTerm(nd)]);
    GuardVars(target, Mlt, Short(x, y, target));
    GuardVars(target, Meq, Difference(x, y));
    GuardVars(target, Mgt, Short(y, x, target));
    OutputVars(target);
  }

  lemma LessFloatWithin(x: Factor, y: Factor, target: string, na: nat, nb: nat, vars: set<Id>)
    requires vars >= FactorVars(x) + FactorVars(y) + Writes(LessFloatLine(x, y, target, na, nb))
    ensures Within(LessFloat(x, y, target, na, nb), vars)
  {
    NBitsWithin(target, na, vars);
    DBitsWithin(target, nb + 1, nb, vars);
    LinksWithin(target, na, nb, vars);
    SelectorWithin(target, vars);
    FloatTailWithin(x, y, target, vars);
    var t1 := [Quotient(target)] + FloatTail(x, y, target);
    WithinAppend([Quotient(target)], FloatTail(x, y, target), vars);
    var t2 := Selector(target) + t1;
    WithinAppend(Selector(target), t1, vars);
    var t3 := [DenLink(target, nb), OneHot(target, nb)] + t2;
    WithinAppend([DenLink(target, nb), OneHot(target, nb)], t2, vars);
    var t4 := DBooleans(target, nb + 1) + t3;
    WithinAppend(DBooleans(target, nb + 1), t3, vars);
    WithinAppend([NumLink(target, na)], t4, vars);
    WithinAppend(NBits(target, na), [NumLink(target, na)] + t4, vars);
  }

  lemma {:induction false} SplitBitsWithin(bits: seq<Id>, k: nat, signed: bool, vars: set<Id>)
    requires k <= |bits| && forall i :: 0 <= i < |bits| ==> bits[i] in vars
    ensures Within(SplitBooleans(bits, k), vars) && TermsVars(SplitTerms(bits, k, signed)) <= vars
    decreases k
  {
    if k > 0 {
      SplitBitsWithin(bits, k - 1, signed, vars);
      var f, w := Var(bits[k - 1]), Weight(k - 1, |bits|, signed);
      ZeroOrVars(f, 0);
      OneVars(false, w, f);
      TermsVarsAppend(SplitTerms(bits, k - 1, signed), [Scale(w, f)]);
    }
  }

  lemma ConstraintsWithin(line: Line)
    requires line.LessLine? ==> 1 <= line.n
    ensures Within(Constraints(line), Reads(line) + Writes(line))
  {
    var vars := Reads(line) + Writes(line);
    match line
    case PolyLine(a, b, c, k, target) =>
      OneVars(true, k, Var(Plain(target)));
      TermsVarsAppend(c.terms, [TargetTerm(k, target)]);
    case NotEqualLine(x, y, target, viaM2) => NotEqualWithin(x, y, target, viaM2, vars);
    case LessLine(x, y, target, n) => LessWithin(x, y, target, n, vars);
    case LessFloatLine(x, y, target, na, nb) => LessFloatWithin(x, y, target, na, nb, vars);
    case SplitLine(x, bits, signed) =>
      SplitBitsWithin(bits, |bits|, signed, vars);
      OneVars(true, 0, x);
      TermsVarsAppend(SplitTerms(bits, |bits|, signed), [NegTerm(x)]);
  }

  // ----- completeness of a program -----

  /** One line: the instructions run, and what they store satisfies the line's constraints. */
  lemma LineComplete(line: Line, s: Store, p: int)
    requires IsPrime(p) && Units(s, p) && LineOk(line, s, p)
    ensures Runs(line, s)
    ensures Units(Exec(line, s, p), p)
    ensures Sat(Constraints(line), FieldEnv(Exec(line, s, p), p), p)
  {
    match line
    case PolyLine(_, _, _, _, _) => PolyLineComplete(line, s, p);
    case NotEqualLine(_, _, _, _) => NotEqualLineComplete(line, s, p);
    case LessLine(_, _, _, _) => LessLineComplete(line, s, p);
    case LessFloatLine(_, _, _, _, _) => LessFloatLineComplete(line, s, p);
    case SplitLine(_, _, _) => SplitLineComplete(line, s, p);
  }

  /** No variable is assigned twice, and none is read before it is assigned. */
  ghost predicate SingleAssignment(lines: seq<Line>) {
    forall i, j :: 0 <= i < j < |lines| ==> Writes(lines[j]) !! Reads(lines[i]) + Writes(lines[i])
  }

  /** Each line is in range in the state the lines before it leave. */
  ghost predicate InRangeRun(lines: seq<Line>, s: Store, p: int)
    requires p >= 2
  {
    lines == [] || (LineOk(lines[0], s, p) && Runs(lines[0], s) && InRangeRun(lines[1..], Exec(lines[0], s, p), p))
  }

  /** `compute_from_pws`: the whole worksheet. */
  ghost function Run(lines: seq<Line>, s: Store, p: int): Store
    requires p >= 2 && InRangeRun(lines, s, p)
  {
    if lines == [] then s else Run(lines[1..], Exec(lines[0], s, p), p)
  }

  lemma {:induction false} RunFrame(lines: seq<Line>, s: Store, p: int, id: Id)
    requires p >= 2 && InRangeRun(lines, s, p)
    requires forall i :: 0 <= i < |lines| ==> id !in Writes(lines[i])
    ensures Get(Run(lines, s, p), id) == Get(s, id)
    decreases |lines|
  {
    if lines != [] {
      ExecFrame(lines[0], s, p, id);
      RunFrame(lines[1..], Exec(lines[0], s, p), p, id);
    }
  }

  /** What later lines cannot touch stays satisfied. */
  lemma LineKept(line: Line, rest: seq<Line>, s: Store, p: int)
    requires p >= 2 && InRangeRun(rest, s, p) && (line.LessLine? ==> 1 <= line.n)
    requires forall i :: 0 <= i < |rest| ==> Writes(rest[i]) !! Reads(line) + Writes(line)
    requires Sat(Constraints(line), FieldEnv(s, p), p)
    ensures Sat(Constraints(line), FieldEnv(Run(rest, s, p), p), p)
  {
    ConstraintsWithin(line);
    var cs, e, e' := Constraints(line), FieldEnv(s, p), FieldEnv(Run(rest, s, p), p);
    forall i | 0 <= i < |cs| ensures Holds(cs[i], e', p) {
      forall id | id in ConstraintVars(cs[i]) ensures e(id) == e'(id) {
        RunFrame(rest, s, p, id);
      }
      ConstraintAgree(cs[i], e, e');
    }
  }

  /** The prover's final assignment, converted to the field, satisfies every constraint of every line. */
  lemma {:induction false} ProgramComplete(lines: seq<Line>, s: Store, p: int)
    requires IsPrime(p) && Units(s, p) && SingleAssignment(lines) && InRangeRun(lines, s, p)
    ensures Units(Run(lines, s, p), p)
    ensures forall i :: 0 <= i < |lines| ==>
              (lines[i].LessLine? ==> 1 <= lines[i].n) && Sat(Constraints(lines[i]), FieldEnv(Run(lines, s, p), p), p)
    decreases |lines|
  {
    if lines != [] {
      var s1, rest := Exec(lines[0], s, p), lines[1..];
      LineComplete(lines[0], s, p);
      ProgramComplete(rest, s1, p);
      LineKept(lines[0], rest, s1, p);
      forall i | 0 <= i < |lines|
        ensures (lines[i].LessLine? ==> 1 <= lines[i].n) && Sat(Constraints(lines[i]), FieldEnv(Run(lines, s, p), p), p) {
        if i > 0 { assert lines[i] == rest[i - 1]; }
      }
    }
  }
}
