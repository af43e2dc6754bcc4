/** Every constraint the comparison, inequality and split gates produce can be expanded without losing
    its meaning: no product in it has a prefix that expands to zero. Its parts are linear, so its expansion
    can be parsed. */
module GateExpansion {
  import opened Arith
  import opened Poly
  import opened Expand
  import opened Gates
  import opened MoreGates
  import opened FloatGate
  import opened Aggregate
  import opened Degree

  /** Terms that expand to their own value and are linear. */
  predicate Fine(ts: seq<Term>) { SafeTerms(ts) && DegTerms(ts) <= 1 }

  predicate FinePoly(p: Poly) { Fine(p.terms) }

  /** The constraint expands to its own value, and its parts are linear. */
  predicate Ready(c: Constraint) {
    Expandable(c) && DegTerms(c.a.terms) <= 1 && DegTerms(c.b.terms) <= 1 && DegTerms(c.c.terms) <= 1
  }

  ghost predicate AllExpandable(cs: seq<Constraint>) {
    forall i :: 0 <= i < |cs| ==> Ready(cs[i])
  }

  lemma {:induction false} SafeJoin(a: seq<Term>, b: seq<Term>)
    requires SafeTerms(a) && SafeTerms(b)
    ensures SafeTerms(a + b)
    decreases |a|
  {
    if a == [] {
      assert a + b == b;
    } else {
      SafeJoin(a[1..], b);
      assert (a + b)[1..] == a[1..] + b;
    }
  }

  lemma SafeAppend(a: seq<Term>, b: seq<Term>)
    requires Fine(a) && Fine(b)
    ensures Fine(a + b)
  {
    SafeJoin(a, b);
    DegAppend(a, b);
  }

  lemma SmallDegree(neg: bool, k: int, f: Factor)
    requires !f.Paren?
    ensures DegTerms([Term(neg, [f])]) <= 1 && DegTerms([Term(neg, [Const(k), f])]) <= 1
  {
    var t, u := Term(neg, [f]), Term(neg, [Const(k), f]);
    assert [t][1..] == [] && [u][1..] == [] && [f][1..] == [] && [Const(k), f][1..] == [f];
    assert DegFactors([f]) == DegFactor(f) + DegFactors([]);
    assert DegFactors([Const(k), f]) == DegFactor(Const(k)) + DegFactors([f]);
    assert DegTerms([t]) == Max(DegFactors([f]), DegTerms([])) && DegTerms([u]) == Max(DegFactors([Const(k), f]), DegTerms([]));
  }

  /** A single factor, or a nonzero constant times one. */
  lemma SmallSafe(neg: bool, k: int, f: Factor)
    requires !f.Paren?
    ensures Fine([Term(neg, [f])])
    ensures k != 0 ==> Fine([Term(neg, [Const(k), f])])
  {
    SmallDegree(neg, k, f);
    assert [f][1..] == [];
    var t, u := Term(neg, [f]), Term(neg, [Const(k), f]);
    assert SafeTerm(t) && [t][1..] == [];
    if k != 0 {
      assert [Const(k), f][1..] == [f];
      assert SafeNested([Const(k), f]);
      var m := TimesFactor(Start(neg), Const(k));
      assert m != [] by {
        if neg { assert ProductRow(Mono(k, []), [Mono(-1, [])]) == ProductTerm(Mono(k, []), Mono(-1, [])) + ProductRow(Mono(k, []), []); }
      }
      assert NoZeroPrefix(m, [f]);
      assert SafeTerm(u) && [u][1..] == [];
    }
  }

  lemma PairSafe(t: Term, u: Term)
    requires Fine([t]) && Fine([u])
    ensures Fine([t, u])
  {
    SafeAppend([t], [u]);
    assert [t] + [u] == [t, u];
  }

  /** A single variable does not vanish. */
  lemma VarStays(v: Id)
    ensures ExpandPoly(Poly([PosTerm(Var(v))])) == [Mono(1, [v])]
  {
    var t, m := PosTerm(Var(v)), Mono(1, [v]);
    assert [Var(v)][1..] == [] && [t][1..] == [] && [m][1..] == [];
    assert [] + [v] == [v];
    assert TimesFactor([], Var(v)) == [m];
    assert TimesFactors([], [Var(v)]) == TimesFactors([m], [Var(v)][1..]);
    assert AddTerms([], [m]) == AddTerms(AddTerm([], m), [m][1..]);
    assert ExpandTerms([t], []) == ExpandTerms([t][1..], AddTerms([], [m]));
  }

  lemma GuardExpandable(v: Id, b: Poly, c: Poly)
    requires FinePoly(b) && FinePoly(c)
    ensures Ready(Constraint(Poly([PosTerm(Var(v))]), b, c))
  {
    SmallSafe(false, 0, Var(v));
    VarStays(v);
  }

  lemma BitExpandable(v: Id, k: int)
    ensures Ready(ZeroOr(Var(v), k)) && Ready(Boolean(Var(v)))
  {
    SmallSafe(false, 0, Const(k)); SmallSafe(true, 0, Var(v)); SmallSafe(false, 0, Var(v)); SmallSafe(true, 0, Const(1));
    PairSafe(PosTerm(Const(k)), NegTerm(Var(v)));
    PairSafe(PosTerm(Var(v)), NegTerm(Const(1)));
    GuardExpandable(v, Poly([PosTerm(Const(k)), NegTerm(Var(v))]), EMPTY);
    GuardExpandable(v, Poly([PosTerm(Var(v)), NegTerm(Const(1))]), EMPTY);
  }

  lemma {:induction false} NBitsExpandable(target: string, k: nat)
    ensures AllExpandable(NBits(target, k)) && Fine(MinusNBits(target, k))
    decreases k
  {
    if k > 0 {
      NBitsExpandable(target, k - 1);
      var v := Aux(target, NBit(k - 1));
      BitExpandable(v, Pow(2, k - 1));
      SmallSafe(true, 0, Var(v));
      SafeAppend(MinusNBits(target, k - 1), [NegTerm(Var(v))]);
    }
  }

  lemma DifferenceSafe(x: Factor, y: Factor)
    requires !x.Paren? && !y.Paren?
    ensures Fine([PosTerm(x), NegTerm(y)]) && Fine([NegTerm(x), PosTerm(y)])
  {
    SmallSafe(false, 0, x); SmallSafe(true, 0, y); SmallSafe(true, 0, x); SmallSafe(false, 0, y);
    PairSafe(PosTerm(x), NegTerm(y));
    PairSafe(NegTerm(x), PosTerm(y));
  }

  lemma SelectorExpandable(target: string)
    ensures AllExpandable(Selector(target)) && Ready(Output(target))
  {
    var a, b, c := Aux(target, Mlt), Aux(target, Meq), Aux(target, Mgt);
    BitExpandable(a, 0); BitExpandable(b, 0); BitExpandable(c, 0);
    SmallSafe(false, 0, Var(a)); SmallSafe(false, 0, Var(b)); SmallSafe(false, 0, Var(c)); SmallSafe(true, 0, Const(1));
    PairSafe(PosTerm(Var(a)), PosTerm(Var(b)));
    PairSafe(PosTerm(Var(c)), NegTerm(Const(1)));
    SafeAppend([PosTerm(Var(a)), PosTerm(Var(b))], [PosTerm(Var(c)), NegTerm(Const(1))]);
    assert [PosTerm(Var(a)), PosTerm(Var(b))] + [PosTerm(Var(c)), NegTerm(Const(1))]
        == [PosTerm(Var(a)), PosTerm(Var(b)), PosTerm(Var(c)), NegTerm(Const(1))];
    DifferenceSafe(Var(a), Var(Plain(target)));
    assert FinePoly(EMPTY);
  }

  lemma GapSafe(x: Factor, y: Factor, target: string, k: nat)
    requires !x.Paren? && !y.Paren?
    ensures FinePoly(Gap(x, y, target, k))
  {
    DifferenceSafe(x, y);
    NBitsExpandable(target, k);
    SmallSafe(false, 0, Const(Pow(2, k)));
    SafeAppend([PosTerm(x), NegTerm(y)], MinusNBits(target, k));
    SafeAppend([PosTerm(x), NegTerm(y)] + MinusNBits(target, k), [PosTerm(Const(Pow(2, k)))]);
  }

  /** The integer comparison gate. */
  lemma LessIntExpandable(x: Factor, y: Factor, target: string, n: nat)
    requires 1 <= n && !x.Paren? && !y.Paren?
    ensures AllExpandable(LessInt(x, y, target, n))
  {
    NBitsExpandable(target, n - 1);
    SelectorExpandable(target);
    GapSafe(x, y, target, n - 1); GapSafe(y, x, target, n - 1); DifferenceSafe(x, y);
    GuardExpandable(Aux(target, Mlt), Gap(x, y, target, n - 1), EMPTY);
    GuardExpandable(Aux(target, Meq), Difference(x, y), EMPTY);
    GuardExpandable(Aux(target, Mgt), Gap(y, x, target, n - 1), EMPTY);
  }

  /** The inequality gate. */
  lemma NotEqualExpandable(x: Factor, y: Factor, target: string, viaM2: bool)
    requires !x.Paren? && !y.Paren?
    ensures AllExpandable(NotEqual(x, y, target, viaM2))
  {
    var r := if viaM2 then Aux(target, M2) else Plain(target);
    DifferenceSafe(x, y);
    SmallSafe(true, 0, Var(r));
    GuardExpandable(Aux(target, M), Difference(x, y), Poly([NegTerm(Var(r))]));
    GuardExpandable(r, Difference(x, y), Poly([NegTerm(x), PosTerm(y)]));
    DifferenceSafe(Var(r), Var(Plain(target)));
    assert FinePoly(EMPTY);
  }

  lemma {:induction false} DBitsExpandable(target: string, k: nat, nb: nat)
    requires k <= nb + 1
    ensures AllExpandable(DBooleans(target, k)) && Fine(DWeights(target, k, nb)) && Fine(DCounts(target, k))
    decreases k
  {
    if k > 0 {
      DBitsExpandable(target, k - 1, nb);
      var v, w := Aux(target, DBit(k - 1)), Pow(2, nb + 1 - k);
      BitExpandable(v, 0);
      SmallSafe(true, w, Var(v)); SmallSafe(false, 0, Var(v));
      SafeAppend(DWeights(target, k - 1, nb), [Term(true, [Const(w), Var(v)])]);
      SafeAppend(DCounts(target, k - 1), [PosTerm(Var(v))]);
    }
  }

  lemma LinksExpandable(target: string, na: nat, nb: nat)
    ensures Ready(NumLink(target, na)) && Ready(DenLink(target, nb)) && Ready(OneHot(target, nb))
    ensures Ready(Quotient(target))
  {
    var n, d, nd, k := Var(Aux(target, Num)), Var(Aux(target, Den)), Var(Aux(target, NumDen)), PosTerm(Const(Pow(2, na)));
    NBitsExpandable(target, na);
    DBitsExpandable(target, nb + 1, nb);
    SmallSafe(false, 0, n); SmallSafe(false, 0, Const(Pow(2, na))); SmallSafe(false, Pow(2, nb), d);
    SmallSafe(true, 0, Const(1)); SmallSafe(true, 0, nd);
    PairSafe(PosTerm(n), k);
    SafeAppend(MinusNBits(target, na), [PosTerm(n), k]);
    SafeAppend(DWeights(target, nb + 1, nb), [Scale(Pow(2, nb), d)]);
    SafeAppend(DCounts(target, nb + 1), [NegTerm(Const(1))]);
    GuardExpandable(Aux(target, Num), Poly([PosTerm(d)]), Poly([NegTerm(nd)]));
    assert FinePoly(EMPTY);
  }

  lemma FloatTailExpandable(x: Factor, y: Factor, target: string)
    requires !x.Paren? && !y.Paren?
    ensures AllExpandable(FloatTail(x, y, target))
  {
    var nd := Var(Aux(target, NumDen));
    SelectorExpandable(target);
    DifferenceSafe(x, y); DifferenceSafe(y, x);
    SmallSafe(true, 0, nd);
    SafeAppend([PosTerm(x), NegTerm(y)], [NegTerm(nd)]);
    SafeAppend([PosTerm(y), NegTerm(x)], [NegTerm(nd)]);
    GuardExpandable(Aux(target, Mlt), Short(x, y, target), EMPTY);
    GuardExpandable(Aux(target, Meq), Difference(x, y), EMPTY);
    GuardExpandable(Aux(target, Mgt), Short(y, x, target), EMPTY);
  }

  lemma AllAppend(a: seq<Constraint>, b: seq<Constraint>)
    requires AllExpandable(a) && AllExpandable(b)
    ensures AllExpandable(a + b)
  {
  }

  /** The fixed-point comparison gate. */
  lemma LessFloatExpandable(x: Factor, y: Factor, target: string, na: nat, nb: nat)
    requires !x.Paren? && !y.Paren?
    ensures AllExpandable(LessFloat(x, y, target, na, nb))
  {
    NBitsExpandable(target, na);
    DBitsExpandable(target, nb + 1, nb);
    LinksExpandable(target, na, nb);
    SelectorExpandable(target);
    FloatTailExpandable(x, y, target);
    var t1 := [Quotient(target)] + FloatTail(x, y, target);
    AllAppend([Quotient(target)], FloatTail(x, y, target));
    var t2 := Selector(target) + t1;
    AllAppend(Selector(target), t1);
    var t3 := [DenLink(target, nb), OneHot(target, nb)] + t2;
    AllAppend([DenLink(target, nb), OneHot(target, nb)], t2);
    var t4 := DBooleans(target, nb + 1) + t3;
    AllAppend(DBooleans(target, nb + 1), t3);
    AllAppend([NumLink(target, na)], t4);
    AllAppend(NBits(target, na), [NumLink(target, na)] + t4);
  }

  lemma {:induction false} SplitBitsExpandable(bits: seq<Id>, k: nat, signed: bool)
    requires k <= |bits|
    ensures AllExpandable(SplitBooleans(bits, k)) && Fine(SplitTerms(bits, k, signed))
    decreases k
  {
    if k > 0 {
      SplitBitsExpandable(bits, k - 1, signed);
      BitExpandable(bits[k - 1], 0);
      var w := Weight(k - 1, |bits|, signed);
      SmallSafe(false, w, Var(bits[k - 1]));
      SafeAppend(SplitTerms(bits, k - 1, signed), [Scale(w, Var(bits[k - 1]))]);
    }
  }

  /** The bit-split gate. */
  lemma SplitExpandable(x: Factor, bits: seq<Id>, signed: bool)
    requires !x.Paren?
    ensures AllExpandable(Split(x, bits, signed))
  {
    SplitBitsExpandable(bits, |bits|, signed);
    SmallSafe(true, 0, x);
    SafeAppend(SplitTerms(bits, |bits|, signed), [NegTerm(x)]);
    assert FinePoly(EMPTY);
  }
}
