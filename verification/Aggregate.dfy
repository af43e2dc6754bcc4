/** From expanded constraints to the circuit-test queries: parsing monomials into rows
    (`parse_basic_constraint`, `generate_gamma0`, `generate_gamma12` in
    `code/compiler/backend/zcc_parser.py`) and adding up the rows with one random coefficient per
    constraint (`parse_gamma0`, `parse_gamma12` in `libv/gcomputation_v.cpp`). */
module Aggregate {
  import opened Arith
  import opened Poly
  import opened Expand
  import opened Gates
  import opened Layout
  import opened Vectors

  // ----- one constraint, as the Ginger compiler expands it -----

  /** `( ( a ) * ( b ) + ( c ) )`. */
  function Whole(c: Constraint): Poly {
    Poly([Term(false, [Paren(c.a), Paren(c.b)]), Term(false, [Paren(c.c)])])
  }

  function Expanded(c: Constraint): seq<Mono> {
    ExpandPoly(Whole(c))
  }

  /** Parts are safe to expand, and an `a` that vanishes comes with a `b` that vanishes. */
  predicate Expandable(c: Constraint) {
    SafePoly(c.a) && SafePoly(c.b) && SafePoly(c.c) && (ExpandPoly(c.a) == [] ==> ExpandPoly(c.b) == [])
  }

  lemma WholeParts(c: Constraint)
    ensures Expanded(c) == AddTerms(AddTerms([], ExpandTerm(Whole(c).terms[0])), ExpandPoly(c.c))
  {
    var t, u := Whole(c).terms[0], Whole(c).terms[1];
    assert [t, u][1..] == [u] && [u][1..] == [];
    var e := AddTerms([], ExpandTerm(t));
    assert u.factors[1..] == [];
    assert TimesFactors([], u.factors) == TimesFactors(TimesFactor([], u.factors[0]), u.factors[1..]);
    assert ExpandTerm(u) == ExpandPoly(c.c);
    assert ExpandTerms([u], e) == ExpandTerms([u][1..], AddTerms(e, ExpandTerm(u)));
    assert ExpandTerms([t, u], []) == ExpandTerms([u], e);
  }

  lemma ProductExact(a: Poly, b: Poly, env: Env)
    requires SafePoly(a) && SafePoly(b)
    ensures var v := SumValue(ExpandTerm(Term(false, [Paren(a), Paren(b)])), env);
            && (ExpandPoly(a) != [] ==> v == EvalPoly(a, env) * EvalPoly(b, env))
            && (ExpandPoly(a) == [] ==> v == EvalPoly(b, env) && EvalPoly(a, env) == 0)
  {
    var fs := [Paren(a), Paren(b)];
    assert fs[1..] == [Paren(b)] && fs[1..][1..] == [];
    var m := TimesFactor([], fs[0]);
    assert m == ExpandPoly(a);
    assert TimesFactors(m, fs[1..]) == TimesFactors(TimesFactor(m, fs[1..][0]), fs[1..][1..]);
    assert TimesFactors([], fs) == TimesFactors(m, fs[1..]);
    ExpansionMeaning(a, env);
    ExpansionMeaning(b, env);
    CrossValue(ExpandPoly(a), ExpandPoly(b), env);
  }

  /** The expansion of a constraint has the constraint's value exactly when its first factor does not
      vanish or its second evaluates to 0. */
  lemma ExpandedExact(c: Constraint, env: Env)
    requires SafePoly(c.a) && SafePoly(c.b) && SafePoly(c.c)
    ensures SumValue(Expanded(c), env) == EvalConstraint(c, env)
            <==> (ExpandPoly(c.a) != [] || EvalPoly(c.b, env) == 0)
  {
    var m := ExpandTerm(Whole(c).terms[0]);
    WholeParts(c);
    ProductExact(c.a, c.b, env);
    ExpansionMeaning(c.c, env);
    AddTermsValue([], m, env);
    AddTermsValue(AddTerms([], m), ExpandPoly(c.c), env);
  }

  /** `( 0 ) * ( x )` expands to `x`. */
  lemma ExpandedFails(x: Id, env: Env)
    requires env(x) != 0
    ensures var c := Constraint(Poly([Term(false, [Const(0)])]), Poly([Term(false, [Var(x)])]), Poly([]));
            EvalConstraint(c, env) == 0 && SumValue(Expanded(c), env) != 0
  {
    var zero, one := Term(false, [Const(0)]), Term(false, [Var(x)]);
    var c := Constraint(Poly([zero]), Poly([one]), Poly([]));
    assert [zero][1..] == [] && [one][1..] == [] && zero.factors[1..] == [] && one.factors[1..] == [];
    assert ExpandTerm(zero) == TimesFactors(TimesFactor([], Const(0)), []);
    assert ExpandPoly(c.a) == ExpandTerms([], AddTerms([], ExpandTerm(zero)));
    assert EvalFactors(zero.factors, env) == 0 * EvalFactors([], env);
    assert EvalFactors(one.factors, env) == env(x) * EvalFactors([], env);
    assert EvalTerms([zero], env) == EvalTerm(zero, env) + EvalTerms([], env);
    assert EvalTerms([one], env) == EvalTerm(one, env) + EvalTerms([], env);
    assert EvalPoly(c.a, env) == 0 && EvalPoly(c.b, env) == env(x);
    assert SafeNested([]) && SafeTerm(zero) && SafeTerm(one) && SafeTerms([]);
    ExpandedExact(c, env);
  }

  lemma ExpandedMeaning(c: Constraint, env: Env)
    requires Expandable(c)
    ensures SumValue(Expanded(c), env) == EvalConstraint(c, env)
  {
    ExpandedExact(c, env);
    ExpansionMeaning(c.b, env);
  }

  // ----- rows -----

  /** A monomial as it goes into the gamma files: a constant, a multiple of an input or output, of a
      variable, or of two variables. */
  datatype Row = Literal(k: int) | InOut(k: int, v: nat) | Linear(k: int, x: nat) | Product(k: int, x: nat, y: nat)

  /** `parse_basic_constraint` on one monomial; `None` where it stops with an error: degree above 2, or a
      product with an input or output. */
  function ParseMono(m: Mono, io: Dict, vars: Dict): Option<Row> {
    if |m.vars| == 0 then Some(Literal(m.coeff))
    else if |m.vars| == 1 && m.vars[0] in io then Some(InOut(m.coeff, io[m.vars[0]]))
    else if |m.vars| == 1 && m.vars[0] in vars then Some(Linear(m.coeff, vars[m.vars[0]]))
    else if |m.vars| == 2 && m.vars[0] in vars && m.vars[1] in vars then
      Some(Product(m.coeff, vars[m.vars[0]], vars[m.vars[1]]))
    else None
  }

  function ParseRows(ms: seq<Mono>, io: Dict, vars: Dict): Option<seq<Row>> {
    if ms == [] then Some([])
    else
      var r := ParseMono(ms[0], io, vars);
      var rest := ParseRows(ms[1..], io, vars);
      if r.Some? && rest.Some? then Some([r.value] + rest.value) else None
  }

  /** Rows address existing inputs, outputs and variables. */
  predicate RowFits(r: Row, ios: nat, n: nat) {
    match r
    case Literal(_) => true
    case InOut(_, v) => v < ios
    case Linear(_, x) => x < n
    case Product(_, x, y) => x < n && y < n
  }

  function RowValue(r: Row, ios: seq<int>, vals: seq<int>): int
    requires RowFits(r, |ios|, |vals|)
  {
    match r
    case Literal(k) => k
    case InOut(k, v) => k * ios[v]
    case Linear(k, x) => k * vals[x]
    case Product(k, x, y) => k * (vals[x] * vals[y])
  }

  ghost predicate RowsFit(rows: seq<Row>, ios: nat, n: nat) {
    forall i :: 0 <= i < |rows| ==> RowFits(rows[i], ios, n)
  }

  function RowsValue(rows: seq<Row>, ios: seq<int>, vals: seq<int>): int
    requires RowsFit(rows, |ios|, |vals|)
  {
    if rows == [] then 0 else RowValue(rows[0], ios, vals) + RowsValue(rows[1..], ios, vals)
  }

  /** `env` gives every name the value stored under its index. */
  ghost predicate Stored(env: Env, io: Dict, vars: Dict, ios: seq<int>, vals: seq<int>) {
    && (forall v :: v in io ==> io[v] < |ios| && env(v) == ios[io[v]])
    && forall v :: v in vars ==> vars[v] < |vals| && env(v) == vals[vars[v]]
  }

  lemma MonoRow(m: Mono, env: Env, io: Dict, vars: Dict, ios: seq<int>, vals: seq<int>)
    requires Stored(env, io, vars, ios, vals) && ParseMono(m, io, vars).Some?
    ensures RowFits(ParseMono(m, io, vars).value, |ios|, |vals|)
    ensures RowValue(ParseMono(m, io, vars).value, ios, vals) == MonoValue(m, env)
  {
    if |m.vars| >= 1 {
      assert VarsValue(m.vars, env) == env(m.vars[0]) * VarsValue(m.vars[1..], env);
    }
    if |m.vars| == 2 {
      assert VarsValue(m.vars[1..], env) == env(m.vars[1]) * VarsValue(m.vars[1..][1..], env);
    }
  }

  /** Parsing keeps the value of the expanded constraint. */
  lemma {:induction false} ParseMeaning(ms: seq<Mono>, env: Env, io: Dict, vars: Dict, ios: seq<int>, vals: seq<int>)
    requires Stored(env, io, vars, ios, vals) && ParseRows(ms, io, vars).Some?
    ensures RowsFit(ParseRows(ms, io, vars).value, |ios|, |vals|)
    ensures RowsValue(ParseRows(ms, io, vars).value, ios, vals) == SumValue(ms, env)
    decreases |ms|
  {
    if ms != [] {
      var r, rest := ParseMono(ms[0], io, vars).value, ParseRows(ms[1..], io, vars).value;
      MonoRow(ms[0], env, io, vars, ios, vals);
      ParseMeaning(ms[1..], env, io, vars, ios, vals);
      assert ([r] + rest)[1..] == rest;
      assert RowsFit([r] + rest, |ios|, |vals|);
    }
  }

  // ----- the two files -----

  /** A line of a gamma file: the row and the constraint it belongs to. */
  datatype Entry = Entry(con: nat, row: Row)

  /** 0 constant, 1 input or output, 2 linear, 3 quadratic. */
  function Kind(r: Row): nat {
    match r
    case Literal(_) => 0
    case InOut(_, _) => 1
    case Linear(_, _) => 2
    case Product(_, _, _) => 3
  }

  /** The lines one constraint contributes: linear before quadratic, inputs before constants. */
  function Select(rows: seq<Row>, con: nat, kind: nat): seq<Entry> {
    if rows == [] then []
    else (if Kind(rows[0]) == kind then [Entry(con, rows[0])] else []) + Select(rows[1..], con, kind)
  }

  function Gamma12Lines(rows: seq<Row>, con: nat): seq<Entry> {
    Select(rows, con, 2) + Select(rows, con, 3)
  }

  function Gamma0Lines(rows: seq<Row>, con: nat): seq<Entry> {
    Select(rows, con, 1) + Select(rows, con, 0)
  }

  /** `generate_gamma12` / `generate_gamma0` for constraints `0 .. n`. */
  function Gamma12File(rowss: seq<seq<Row>>): seq<Entry> {
    if rowss == [] then [] else Gamma12File(rowss[..|rowss| - 1]) + Gamma12Lines(rowss[|rowss| - 1], |rowss| - 1)
  }

  function Gamma0File(rowss: seq<seq<Row>>): seq<Entry> {
    if rowss == [] then [] else Gamma0File(rowss[..|rowss| - 1]) + Gamma0Lines(rowss[|rowss| - 1], |rowss| - 1)
  }

  ghost predicate EntriesFit(es: seq<Entry>, cons: nat, ios: nat, n: nat) {
    forall i :: 0 <= i < |es| ==> es[i].con < cons && RowFits(es[i].row, ios, n)
  }

  /** Value of a file under one coefficient per constraint. */
  function EntriesValue(es: seq<Entry>, alpha: seq<int>, ios: seq<int>, vals: seq<int>): int
    requires EntriesFit(es, |alpha|, |ios|, |vals|)
  {
    if es == [] then 0
    else EntriesValue(es[..|es| - 1], alpha, ios, vals)
         + alpha[es[|es| - 1].con] * RowValue(es[|es| - 1].row, ios, vals)
  }

  lemma {:induction false} EntriesAppend(a: seq<Entry>, b: seq<Entry>, alpha: seq<int>, ios: seq<int>, vals: seq<int>)
    requires EntriesFit(a, |alpha|, |ios|, |vals|) && EntriesFit(b, |alpha|, |ios|, |vals|)
    ensures EntriesFit(a + b, |alpha|, |ios|, |vals|)
    ensures EntriesValue(a + b, alpha, ios, vals) == EntriesValue(a, alpha, ios, vals) + EntriesValue(b, alpha, ios, vals)
    decreases |b|
  {
    if b == [] {
      assert a + b == a;
    } else {
      EntriesAppend(a, b[..|b| - 1], alpha, ios, vals);
      assert (a + b)[..|a + b| - 1] == a + b[..|b| - 1];
    }
  }

  function KeptValue(rows: seq<Row>, kind: nat, ios: seq<int>, vals: seq<int>): int
    requires RowsFit(rows, |ios|, |vals|)
  {
    if rows == [] then 0
    else (if Kind(rows[0]) == kind then RowValue(rows[0], ios, vals) else 0) + KeptValue(rows[1..], kind, ios, vals)
  }

  lemma {:induction false} SelectValue(rows: seq<Row>, con: nat, kind: nat, alpha: seq<int>, ios: seq<int>,
                                       vals: seq<int>)
    requires RowsFit(rows, |ios|, |vals|) && con < |alpha|
    ensures EntriesFit(Select(rows, con, kind), |alpha|, |ios|, |vals|)
    ensures EntriesValue(Select(rows, con, kind), alpha, ios, vals) == alpha[con] * KeptValue(rows, kind, ios, vals)
    decreases |rows|
  {
    if rows != [] {
      SelectValue(rows[1..], con, kind, alpha, ios, vals);
      var rest := Select(rows[1..], con, kind);
      if Kind(rows[0]) == kind {
        var e := Entry(con, rows[0]);
        assert [e][..0] == [];
        assert EntriesValue([e], alpha, ios, vals) == EntriesValue([e][..0], alpha, ios, vals) + alpha[con] * RowValue(e.row, ios, vals);
        EntriesAppend([e], rest, alpha, ios, vals);
        MulDist(alpha[con], RowValue(rows[0], ios, vals), KeptValue(rows[1..], kind, ios, vals));
      } else {
        assert Select(rows, con, kind) == rest;
      }
    }
  }

  lemma {:induction false} FourKinds(rows: seq<Row>, ios: seq<int>, vals: seq<int>)
    requires RowsFit(rows, |ios|, |vals|)
    ensures RowsValue(rows, ios, vals)
         == KeptValue(rows, 2, ios, vals) + KeptValue(rows, 3, ios, vals)
          + KeptValue(rows, 1, ios, vals) + KeptValue(rows, 0, ios, vals)
    decreases |rows|
  {
    if rows != [] { FourKinds(rows[1..], ios, vals); }
  }

  lemma LinesValue(rows: seq<Row>, con: nat, alpha: seq<int>, ios: seq<int>, vals: seq<int>)
    requires RowsFit(rows, |ios|, |vals|) && con < |alpha|
    ensures EntriesFit(Gamma12Lines(rows, con), |alpha|, |ios|, |vals|)
    ensures EntriesFit(Gamma0Lines(rows, con), |alpha|, |ios|, |vals|)
    ensures EntriesValue(Gamma12Lines(rows, con), alpha, ios, vals) + EntriesValue(Gamma0Lines(rows, con), alpha, ios, vals)
         == alpha[con] * RowsValue(rows, ios, vals)
  {
    TwoKinds(rows, con, 2, 3, alpha, ios, vals);
    TwoKinds(rows, con, 1, 0, alpha, ios, vals);
    FourKinds(rows, ios, vals);
    FourProducts(alpha[con], KeptValue(rows, 2, ios, vals), KeptValue(rows, 3, ios, vals),
                 KeptValue(rows, 1, ios, vals), KeptValue(rows, 0, ios, vals), RowsValue(rows, ios, vals),
                 EntriesValue(Gamma12Lines(rows, con), alpha, ios, vals), EntriesValue(Gamma0Lines(rows, con), alpha, ios, vals));
  }

  lemma TwoKinds(rows: seq<Row>, con: nat, s: nat, t: nat, alpha: seq<int>, ios: seq<int>, vals: seq<int>)
    requires RowsFit(rows, |ios|, |vals|) && con < |alpha|
    ensures EntriesFit(Select(rows, con, s) + Select(rows, con, t), |alpha|, |ios|, |vals|)
    ensures EntriesValue(Select(rows, con, s) + Select(rows, con, t), alpha, ios, vals)
         == alpha[con] * KeptValue(rows, s, ios, vals) + alpha[con] * KeptValue(rows, t, ios, vals)
  {
    SelectValue(rows, con, s, alpha, ios, vals);
    SelectValue(rows, con, t, alpha, ios, vals);
    EntriesAppend(Select(rows, con, s), Select(rows, con, t), alpha, ios, vals);
  }

  lemma FourProducts(a: int, w: int, x: int, y: int, z: int, total: int, e: int, e': int)
    requires total == w + x + y + z && e == a * w + a * x && e' == a * y + a * z
    ensures e + e' == a * total
  {
    MulDist(a, w, x); MulDist(a, y, z); MulDist(a, w + x, y + z);
  }

  /** The alpha-weighted sum of the constraints. */
  function WeightedRows(rowss: seq<seq<Row>>, alpha: seq<int>, ios: seq<int>, vals: seq<int>): int
    requires |rowss| <= |alpha| && forall c :: 0 <= c < |rowss| ==> RowsFit(rowss[c], |ios|, |vals|)
  {
    if rowss == [] then 0
    else WeightedRows(rowss[..|rowss| - 1], alpha, ios, vals)
         + alpha[|rowss| - 1] * RowsValue(rowss[|rowss| - 1], ios, vals)
  }

  /** The two files together hold every row once, under its own constraint's coefficient. */
  lemma {:induction false} FilesValue(rowss: seq<seq<Row>>, alpha: seq<int>, ios: seq<int>, vals: seq<int>)
    requires |rowss| <= |alpha| && forall c :: 0 <= c < |rowss| ==> RowsFit(rowss[c], |ios|, |vals|)
    ensures EntriesFit(Gamma12File(rowss), |alpha|, |ios|, |vals|) && EntriesFit(Gamma0File(rowss), |alpha|, |ios|, |vals|)
    ensures EntriesValue(Gamma12File(rowss), alpha, ios, vals) + EntriesValue(Gamma0File(rowss), alpha, ios, vals)
         == WeightedRows(rowss, alpha, ios, vals)
    decreases |rowss|
  {
    if rowss != [] {
      var c := |rowss| - 1;
      FilesValue(rowss[..c], alpha, ios, vals);
      LinesValue(rowss[c], c, alpha, ios, vals);
      EntriesAppend(Gamma12File(rowss[..c]), Gamma12Lines(rowss[c], c), alpha, ios, vals);
      EntriesAppend(Gamma0File(rowss[..c]), Gamma0Lines(rowss[c], c), alpha, ios, vals);
    }
  }
}
