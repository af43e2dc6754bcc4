/** Degrees of expressions, and why every constraint of a gate can be written to the gamma files: expansion adds
    no variable and raises no degree (`expand_polynomial`, `parse_basic_constraint` in
    `code/compiler/backend/zcc_parser.py`). */
module Degree {
  import opened Poly
  import opened Expand
  import opened Compile
  import opened Gates
  import opened Layout
  import opened Aggregate

  function DegFactor(f: Factor): nat
    decreases f, 2
  {
    match f
    case Const(c) => 0
    case Var(v) => 1
    case Paren(p) => DegTerms(p.terms)
  }

  function DegFactors(fs: seq<Factor>): nat
    decreases fs, 0
  {
    if fs == [] then 0 else DegFactor(fs[0]) + DegFactors(fs[1..])
  }

  function DegTerms(ts: seq<Term>): nat
    decreases ts, 0
  {
    if ts == [] then 0 else Max(DegFactors(ts[0].factors), DegTerms(ts[1..]))
  }

  function Max(a: nat, b: nat): nat { if a < b then b else a }

  lemma {:induction false} DegAppend(a: seq<Term>, b: seq<Term>)
    ensures DegTerms(a + b) == Max(DegTerms(a), DegTerms(b))
    decreases |a|
  {
    if a == [] {
      assert a + b == b;
    } else {
      assert (a + b)[1..] == a[1..] + b;
      DegAppend(a[1..], b);
    }
  }

  // ----- monomials of an expansion -----

  /** At most `k` names, all of them in `names`. */
  ghost predicate Small(m: Mono, k: nat, names: set<Id>) {
    |m.vars| <= k && forall i :: 0 <= i < |m.vars| ==> m.vars[i] in names
  }

  ghost predicate Bounded(ms: seq<Mono>, k: nat, names: set<Id>) {
    forall i :: 0 <= i < |ms| ==> Small(ms[i], k, names)
  }

  lemma AddTermBounded(e: seq<Mono>, m: Mono, k: nat, names: set<Id>)
    requires Bounded(e, k, names) && Small(m, k, names)
    ensures Bounded(AddTerm(e, m), k, names)
  {
  }

  lemma {:induction false} AddTermsBounded(e: seq<Mono>, ms: seq<Mono>, k: nat, names: set<Id>)
    requires Bounded(e, k, names) && Bounded(ms, k, names)
    ensures Bounded(AddTerms(e, ms), k, names)
    decreases |ms|
  {
    if ms != [] {
      AddTermBounded(e, ms[0], k, names);
      AddTermsBounded(AddTerm(e, ms[0]), ms[1..], k, names);
    }
  }

  lemma {:induction false} RowBounded(a: Mono, ms: seq<Mono>, j: nat, k: nat, names: set<Id>)
    requires Small(a, j, names) && Bounded(ms, k, names)
    ensures Bounded(ProductRow(a, ms), j + k, names)
    decreases |ms|
  {
    if ms != [] {
      assert Small(ms[0], k, names);
      assert Bounded(ProductTerm(a, ms[0]), j + k, names);
      RowBounded(a, ms[1..], j, k, names);
    }
  }

  lemma {:induction false} CrossBounded(a: seq<Mono>, b: seq<Mono>, j: nat, k: nat, names: set<Id>)
    requires Bounded(a, j, names) && Bounded(b, k, names)
    ensures Bounded(Cross(a, b), j + k, names)
    decreases |a|
  {
    if a != [] {
      RowBounded(a[0], b, j, k, names);
      CrossBounded(a[1..], b, j, k, names);
    }
  }

  lemma TokenBounded(multiply: seq<Mono>, tok: Mono, j: nat, k: nat, names: set<Id>)
    requires Bounded(multiply, j, names) && Small(tok, k, names)
    ensures Bounded(TimesToken(multiply, tok), j + k, names)
  {
    if multiply != [] { RowBounded(tok, multiply, k, j, names); }
  }

  lemma {:induction false} FactorBounded(multiply: seq<Mono>, f: Factor, j: nat, names: set<Id>)
    requires Bounded(multiply, j, names) && FactorVars(f) <= names
    ensures Bounded(TimesFactor(multiply, f), j + DegFactor(f), names)
    decreases f, 2
  {
    match f
    case Const(c) => TokenBounded(multiply, Mono(c, []), j, 0, names);
    case Var(v) => TokenBounded(multiply, Mono(1, [v]), j, 1, names);
    case Paren(p) =>
      TermsBounded(p.terms, [], DegTerms(p.terms), names);
      if multiply != [] { CrossBounded(multiply, ExpandPoly(p), j, DegTerms(p.terms), names); }
  }

  lemma {:induction false} FactorsBounded(multiply: seq<Mono>, fs: seq<Factor>, j: nat, names: set<Id>)
    requires Bounded(multiply, j, names) && FactorsVars(fs) <= names
    ensures Bounded(TimesFactors(multiply, fs), j + DegFactors(fs), names)
    decreases fs, 0
  {
    if fs != [] {
      FactorBounded(multiply, fs[0], j, names);
      FactorsBounded(TimesFactor(multiply, fs[0]), fs[1..], j + DegFactor(fs[0]), names);
    }
  }

  /** Expansion adds no name and raises no degree. */
  lemma {:induction false} TermsBounded(ts: seq<Term>, e: seq<Mono>, k: nat, names: set<Id>)
    requires Bounded(e, k, names) && DegTerms(ts) <= k && TermsVars(ts) <= names
    ensures Bounded(ExpandTerms(ts, e), k, names)
    decreases ts, 0
  {
    if ts != [] {
      var t := ts[0];
      FactorsBounded(Start(t.neg), t.factors, 0, names);
      AddTermsBounded(e, ExpandTerm(t), k, names);
      TermsBounded(ts[1..], AddTerms(e, ExpandTerm(t)), k, names);
    }
  }

  // ----- rows -----

  ghost predicate Rowable(ms: seq<Mono>, io: Dict, vars: Dict) {
    forall i :: 0 <= i < |ms| ==> ParseMono(ms[i], io, vars).Some?
  }

  lemma {:induction false} RowsExist(ms: seq<Mono>, io: Dict, vars: Dict)
    requires Rowable(ms, io, vars)
    ensures ParseRows(ms, io, vars).Some?
    decreases |ms|
  {
    if ms != [] { RowsExist(ms[1..], io, vars); }
  }

  lemma {:induction false} RowableAdd(e: seq<Mono>, ms: seq<Mono>, io: Dict, vars: Dict)
    requires Rowable(e, io, vars) && Rowable(ms, io, vars)
    ensures Rowable(AddTerms(e, ms), io, vars)
    decreases |ms|
  {
    if ms != [] {
      assert Rowable(AddTerm(e, ms[0]), io, vars);
      RowableAdd(AddTerm(e, ms[0]), ms[1..], io, vars);
    }
  }

  lemma QuadraticRows(ms: seq<Mono>, k: nat, io: Dict, vars: Dict)
    requires k <= 2 && Bounded(ms, k, vars.Keys)
    ensures Rowable(ms, io, vars)
  {
    forall i | 0 <= i < |ms| ensures ParseMono(ms[i], io, vars).Some? {
      assert Small(ms[i], k, vars.Keys);
    }
  }

  /** Parsing succeeds on a constraint whose product has degree at most 2 over variables, and whose rest is linear
      in variables, inputs and outputs. */
  lemma ConstraintParses(c: Constraint, io: Dict, vars: Dict)
    requires DegTerms(c.a.terms) <= 1 && DegTerms(c.b.terms) <= 1 && DegTerms(c.c.terms) <= 1
    requires PolyVars(c.a) + PolyVars(c.b) <= vars.Keys && PolyVars(c.c) <= vars.Keys + io.Keys
    ensures ParseRows(Expanded(c), io, vars).Some?
  {
    var t := Whole(c).terms[0];
    assert t.factors[1..] == [Paren(c.b)] && t.factors[1..][1..] == [];
    assert DegFactors(t.factors[1..]) == DegFactor(Paren(c.b)) + DegFactors([]);
    assert FactorsVars(t.factors[1..]) == FactorVars(Paren(c.b)) + FactorsVars([]);
    assert DegFactors(t.factors) == DegFactor(Paren(c.a)) + DegFactors(t.factors[1..]);
    assert FactorsVars(t.factors) == FactorVars(Paren(c.a)) + FactorsVars(t.factors[1..]);
    FactorsBounded([], t.factors, 0, vars.Keys);
    QuadraticRows(ExpandTerm(t), DegFactors(t.factors), io, vars);
    TermsBounded(c.c.terms, [], 1, vars.Keys + io.Keys);
    assert Rowable(ExpandPoly(c.c), io, vars);
    WholeParts(c);
    RowableAdd([], ExpandTerm(t), io, vars);
    RowableAdd(AddTerms([], ExpandTerm(t)), ExpandPoly(c.c), io, vars);
    RowsExist(Expanded(c), io, vars);
  }
}
