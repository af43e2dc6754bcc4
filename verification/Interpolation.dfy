/** Evaluating the interpolated matrix columns at a random point, and what the result means: the value there
    of any polynomial of small enough degree through the column's entries. */
module Interpolation {
  import opened Arith
  import opened Barycentric

  // ----- evaluation of sparse columns -----

  /** A nonzero matrix entry: row (constraint) `j`, column (variable) `i`. */
  datatype Coeff = Coeff(i: nat, j: nat, c: int)

  ghost predicate InMatrix(es: seq<Coeff>, columns: nat, rows: nat) {
    forall k :: 0 <= k < |es| ==> es[k].i < columns && es[k].j < rows
  }

  /** Column `i`, written out; entries at the same place add up. */
  function Column(es: seq<Coeff>, i: nat, rows: nat): (y: seq<int>)
    requires forall k :: 0 <= k < |es| ==> es[k].j < rows
    ensures |y| == rows
  {
    if es == [] then seq(rows, _ => 0)
    else
      var y := Column(es[..|es| - 1], i, rows);
      var e := es[|es| - 1];
      if e.i == i then y[e.j := y[e.j] + e.c] else y
  }

  /** What the loop adds to `eval[i]`. */
  function Partial(es: seq<Coeff>, i: nat, v: seq<int>, nodes: seq<int>, tau: int, p: int): int
    requires p >= 2 && |v| == |nodes| && forall k :: 0 <= k < |es| ==> es[k].j < |v|
  {
    if es == [] then 0
    else
      var e := es[|es| - 1];
      Partial(es[..|es| - 1], i, v, nodes, tau, p)
      + if e.i == i then (v[e.j] * e.c) * Inv(tau - nodes[e.j], p) else 0
  }

  lemma {:induction false} LagrangeChange(y: seq<int>, j: nat, c: int, v: seq<int>, nodes: seq<int>, x: int, n: nat)
    requires |y| == |v| == |nodes| && j < |y| && n <= |y|
    ensures LagrangeTo(y[j := y[j] + c], v, nodes, x, n)
         == LagrangeTo(y, v, nodes, x, n) + (if j < n then c * (v[j] * Others(x, nodes, j)) else 0)
    decreases n
  {
    if n > 0 {
      LagrangeChange(y, j, c, v, nodes, x, n - 1);
      if n - 1 == j { MulDist(v[j] * Others(x, nodes, j), y[j], c); }
    }
  }

  lemma {:induction false} LagrangeZero(rows: nat, v: seq<int>, nodes: seq<int>, x: int, n: nat)
    requires |v| == |nodes| == rows && n <= rows
    ensures LagrangeTo(seq(rows, _ => 0), v, nodes, x, n) == 0
    decreases n
  {
    if n > 0 { LagrangeZero(rows, v, nodes, x, n - 1); }
  }

  /** Dividing one factor out of the full product leaves the others. */
  lemma DivideOut(tau: int, nodes: seq<int>, j: nat, l: int, p: int)
    requires IsPrime(p) && j < |nodes| && !Cong(tau - nodes[j], 0, p) && Cong(l, Span(tau, nodes, 0, |nodes|), p)
    ensures Cong(Inv(tau - nodes[j], p) * l, Others(tau, nodes, j), p)
  {
    var d, o := tau - nodes[j], Others(tau, nodes, j);
    SpanOthers(tau, nodes, j);
    InvCorrect(d, p);
    CongMul(Inv(d, p), Inv(d, p), l, d * o, p);
    MulAssoc(Inv(d, p), d, o);
    assert Inv(d, p) * d == d * Inv(d, p);
    CongMul(d * Inv(d, p), 1, o, o, p);
  }

  /** The barycentric form equals the Lagrange form. */
  lemma {:induction false} PartialIsLagrange(es: seq<Coeff>, i: nat, v: seq<int>, nodes: seq<int>, tau: int, l: int, p: int)
    requires IsPrime(p) && |v| == |nodes| && forall k :: 0 <= k < |es| ==> es[k].j < |v|
    requires forall j :: 0 <= j < |nodes| ==> !Cong(tau - nodes[j], 0, p)
    requires Cong(l, Span(tau, nodes, 0, |nodes|), p)
    ensures Cong(Partial(es, i, v, nodes, tau, p) * l, Lagrange(Column(es, i, |v|), v, nodes, tau), p)
    decreases |es|
  {
    if es == [] {
      LagrangeZero(|v|, v, nodes, tau, |v|);
    } else {
      var init, e := es[..|es| - 1], es[|es| - 1];
      PartialIsLagrange(init, i, v, nodes, tau, l, p);
      if e.i == i {
        var inv, o := Inv(tau - nodes[e.j], p), Others(tau, nodes, e.j);
        DivideOut(tau, nodes, e.j, l, p);
        LagrangeChange(Column(init, i, |v|), e.j, e.c, v, nodes, tau, |v|);
        AddEntry(Partial(init, i, v, nodes, tau, p), Lagrange(Column(init, i, |v|), v, nodes, tau), v[e.j], e.c, inv, l, o, p);
      }
    }
  }

  lemma AddEntry(s: int, t: int, v: int, c: int, inv: int, l: int, o: int, p: int)
    requires p > 0 && Cong(s * l, t, p) && Cong(inv * l, o, p)
    ensures Cong((s + (v * c) * inv) * l, t + c * (v * o), p)
  {
    MulDist(l, s, (v * c) * inv);
    MulAssoc(v * c, inv, l);
    CongMul(v * c, v * c, inv * l, o, p);
    assert (v * c) * o == c * (v * o) by { assert v * c == c * v; MulAssoc(c, v, o); }
    CongAdd(s * l, t, (v * c) * (inv * l), c * (v * o), p);
  }

  /** `l(tau)`. */
  method FullProduct(tau: int, nodes: seq<int>, p: int) returns (l: int)
    requires p > 0
    ensures Cong(l, Span(tau, nodes, 0, |nodes|), p)
  {
    l := 1;
    for i := 0 to |nodes|
      invariant Cong(l, Span(tau, nodes, 0, i), p)
    {
      CongMul(l, Span(tau, nodes, 0, i), tau - nodes[i], tau - nodes[i], p);
      CongMod(l * (tau - nodes[i]), p);
      l := (l * (tau - nodes[i])) % p;
    }
  }

  /** One matrix of `evaluate_polynomial_at_random_point`: each column's interpolant at `tau`. */
  method EvaluateColumns(es: seq<Coeff>, columns: nat, v: seq<int>, nodes: seq<int>, tau: int, l: int, p: int)
    returns (eval: array<int>)
    requires IsPrime(p) && |v| == |nodes| && InMatrix(es, columns, |v|)
    requires forall j :: 0 <= j < |nodes| ==> !Cong(tau - nodes[j], 0, p)
    requires Cong(l, Span(tau, nodes, 0, |nodes|), p)
    ensures fresh(eval) && eval.Length == columns
    ensures forall i: nat :: i < columns ==> Cong(eval[i], Lagrange(Column(es, i, |v|), v, nodes, tau), p)
  {
    eval := SumEntries(es, columns, v, nodes, tau, p);
    for i := 0 to columns
      invariant forall k: nat :: i <= k < columns ==> Cong(eval[k], Partial(es, k, v, nodes, tau, p), p)
      invariant forall k: nat :: k < i ==> Cong(eval[k], Lagrange(Column(es, k, |v|), v, nodes, tau), p)
    {
      PartialIsLagrange(es, i, v, nodes, tau, l, p);
      CongMul(eval[i], Partial(es, i, v, nodes, tau, p), l, l, p);
      CongMod(eval[i] * l, p);
      eval[i] := (eval[i] * l) % p;
    }
  }

  method SumEntries(es: seq<Coeff>, columns: nat, v: seq<int>, nodes: seq<int>, tau: int, p: int) returns (eval: array<int>)
    requires IsPrime(p) && |v| == |nodes| && InMatrix(es, columns, |v|)
    ensures fresh(eval) && eval.Length == columns
    ensures forall i: nat :: i < columns ==> Cong(eval[i], Partial(es, i, v, nodes, tau, p), p)
  {
    eval := new int[columns](_ => 0);
    for k := 0 to |es|
      invariant forall i: nat :: i < columns ==> Cong(eval[i], Partial(es[..k], i, v, nodes, tau, p), p)
    {
      var e := es[k];
      assert es[..k + 1][..k] == es[..k];
      var temp := (v[e.j] * e.c) % p;
      var inv := Inv(tau - nodes[e.j], p);
      EntryStep(eval[e.i], Partial(es[..k], e.i, v, nodes, tau, p), v[e.j] * e.c, inv, p);
      eval[e.i] := (eval[e.i] + temp * inv) % p;
    }
    assert es[..|es|] == es;
  }

  lemma EntryStep(x: int, s: int, t: int, inv: int, p: int)
    requires p > 0 && Cong(x, s, p)
    ensures Cong((x + (t % p) * inv) % p, s + t * inv, p)
  {
    CongMod(t, p);
    CongMul(t % p, t, inv, inv, p);
    CongAdd(x, s, (t % p) * inv, t * inv, p);
    CongMod(x + (t % p) * inv, p);
  }

  /** `d_star`: the product over all nodes but the first. */
  method DStar(tau: int, nodes: seq<int>, l: int, p: int) returns (d: int)
    requires IsPrime(p) && nodes != [] && !Cong(tau - nodes[0], 0, p) && Cong(l, Span(tau, nodes, 0, |nodes|), p)
    ensures Cong(d, Span(tau, nodes, 1, |nodes|), p)
  {
    DivideOut(tau, nodes, 0, l, p);
    CongMod(Inv(tau - nodes[0], p) * l, p);
    d := (Inv(tau - nodes[0], p) * l) % p;
  }

  // ----- the interpolant is the only polynomial of its degree -----

  /** The polynomial with coefficients `c`, lowest first. */
  function Eval(c: seq<int>, x: int): int {
    if c == [] then 0 else c[0] + x * Eval(c[1..], x)
  }

  /** The quotient of a polynomial by `X - a`. */
  function DivideBy(c: seq<int>, a: int): (q: seq<int>)
    ensures |q| == if c == [] then 0 else |c| - 1
  {
    if |c| <= 1 then [] else [Eval(c[1..], a)] + DivideBy(c[1..], a)
  }

  lemma {:induction false} Division(c: seq<int>, a: int, x: int)
    ensures Eval(c, x) == Eval(c, a) + (x - a) * Eval(DivideBy(c, a), x)
    decreases |c|
  {
    if c != [] {
      var t := c[1..];
      Division(t, a, x);
      if |c| > 1 {
        var q := DivideBy(t, a);
        assert DivideBy(c, a)[1..] == q;
        DivisionStep(c[0], x, a, Eval(t, x), Eval(t, a), Eval(q, x));
      }
    }
  }

  lemma DivisionStep(c: int, x: int, a: int, tx: int, ta: int, q: int)
    requires tx == ta + (x - a) * q
    ensures c + x * tx == (c + a * ta) + (x - a) * (ta + x * q)
  {
    MulDist(x, ta, (x - a) * q);
    MulDist(x - a, ta, x * q);
    MulSwap(x, x - a, q);
    MulDist(ta, x, a);
  }

  /** A polynomial with as many roots as coefficients vanishes everywhere. */
  lemma {:induction false} RootsKill(c: seq<int>, nodes: seq<int>, x: int, p: int)
    requires IsPrime(p) && |c| <= |nodes| && Separate(nodes, p)
    requires forall j :: 0 <= j < |nodes| ==> Cong(Eval(c, nodes[j]), 0, p)
    ensures Cong(Eval(c, x), 0, p)
    decreases |c|
  {
    if c != [] {
      var n := |nodes| - 1;
      var a, q := nodes[n], DivideBy(c, nodes[n]);
      forall j | 0 <= j < n ensures Cong(Eval(q, nodes[..n][j]), 0, p) {
        Division(c, a, nodes[j]);
        var d := (nodes[j] - a) * Eval(q, nodes[j]);
        CongAdd(Eval(c, nodes[j]), 0, Eval(c, a), 0, p);
        NoZeroDivisors(nodes[j] - a, Eval(q, nodes[j]), p);
      }
      RootsKill(q, nodes[..n], x, p);
      Division(c, a, x);
      CongMul(x - a, x - a, Eval(q, x), 0, p);
      CongAdd(Eval(c, a), 0, (x - a) * Eval(q, x), 0, p);
    }
  }

  // ----- coefficients of the interpolant -----

  function AddCoeffs(a: seq<int>, k: int, b: seq<int>): (r: seq<int>)
    ensures |r| == if |a| >= |b| then |a| else |b|
  {
    if b == [] then a
    else if a == [] then [k * b[0]] + AddCoeffs([], k, b[1..])
    else [a[0] + k * b[0]] + AddCoeffs(a[1..], k, b[1..])
  }

  lemma {:induction false} AddEval(a: seq<int>, k: int, b: seq<int>, x: int)
    ensures Eval(AddCoeffs(a, k, b), x) == Eval(a, x) + k * Eval(b, x)
    decreases |b|
  {
    if b != [] {
      var t := if a == [] then [] else a[1..];
      AddEval(t, k, b[1..], x);
      assert AddCoeffs(a, k, b)[1..] == AddCoeffs(t, k, b[1..]);
      var u, w := Eval(t, x), Eval(b[1..], x);
      MulDist(x, u, k * w); MulSwap(x, k, w); MulDist(k, b[0], x * w);
    }
  }

  /** Coefficients of `c(X) * (X - a)`. */
  function TimesLinear(c: seq<int>, a: int): (r: seq<int>)
    ensures |r| == |c| + 1
  {
    AddCoeffs([0] + c, -a, c)
  }

  lemma TimesLinearEval(c: seq<int>, a: int, x: int)
    ensures Eval(TimesLinear(c, a), x) == Eval(c, x) * (x - a)
  {
    AddEval([0] + c, -a, c, x);
    assert ([0] + c)[1..] == c;
    assert x * Eval(c, x) + -a * Eval(c, x) == Eval(c, x) * (x - a);
  }

  lemma {:induction false} SpanCoeffs(nodes: seq<int>, a: nat, b: nat, start: seq<int>) returns (c: seq<int>)
    requires a <= b <= |nodes|
    ensures |c| == |start| + (b - a) && forall x :: Eval(c, x) == Eval(start, x) * Span(x, nodes, a, b)
    decreases b - a
  {
    if a == b {
      c := start;
    } else {
      var d := SpanCoeffs(nodes, a, b - 1, start);
      c := TimesLinear(d, nodes[b - 1]);
      forall x ensures Eval(c, x) == Eval(start, x) * Span(x, nodes, a, b) {
        TimesLinearEval(d, nodes[b - 1], x);
        MulAssoc(Eval(start, x), Span(x, nodes, a, b - 1), x - nodes[b - 1]);
      }
    }
  }

  lemma OthersCoeffs(nodes: seq<int>, j: nat) returns (c: seq<int>)
    requires j < |nodes|
    ensures |c| == |nodes| && forall x :: Eval(c, x) == Others(x, nodes, j)
  {
    var d := SpanCoeffs(nodes, 0, j, [1]);
    c := SpanCoeffs(nodes, j + 1, |nodes|, d);
    forall x ensures Eval(c, x) == Others(x, nodes, j) {
      assert Eval([1], x) == 1 + x * Eval([1][1..], x);
    }
  }

  lemma {:induction false} LagrangeCoeffs(y: seq<int>, v: seq<int>, nodes: seq<int>, n: nat) returns (c: seq<int>)
    requires |y| == |v| == |nodes| && n <= |y|
    ensures |c| <= |nodes| && forall x :: Eval(c, x) == LagrangeTo(y, v, nodes, x, n)
    decreases n
  {
    if n == 0 {
      c := [];
    } else {
      var d := LagrangeCoeffs(y, v, nodes, n - 1);
      var o := OthersCoeffs(nodes, n - 1);
      c := AddCoeffs(d, y[n - 1] * v[n - 1], o);
      forall x ensures Eval(c, x) == LagrangeTo(y, v, nodes, x, n) {
        AddEval(d, y[n - 1] * v[n - 1], o, x);
        MulAssoc(y[n - 1], v[n - 1], Others(x, nodes, n - 1));
      }
    }
  }

  /** Any polynomial with at most as many coefficients as there are nodes, through the values `y`, has the
      interpolant's value at every point. */
  lemma InterpolantUnique(c: seq<int>, y: seq<int>, v: seq<int>, nodes: seq<int>, x: int, p: int)
    requires IsPrime(p) && |y| == |nodes| && AreWeights(v, nodes, p) && Separate(nodes, p) && |c| <= |nodes|
    requires forall j :: 0 <= j < |nodes| ==> Cong(Eval(c, nodes[j]), y[j], p)
    ensures Cong(Eval(c, x), Lagrange(y, v, nodes, x), p)
  {
    var l := LagrangeCoeffs(y, v, nodes, |y|);
    var d := AddCoeffs(c, -1, l);
    forall j | 0 <= j < |nodes| ensures Cong(Eval(d, nodes[j]), 0, p) {
      LagrangeAtNode(y, v, nodes, j, |y|, p);
      DifferenceRoot(c, l, nodes[j], y[j], Lagrange(y, v, nodes, nodes[j]), p);
    }
    RootsKill(d, nodes, x, p);
    SameValue(c, l, x, Lagrange(y, v, nodes, x), p);
  }

  lemma DifferenceRoot(c: seq<int>, l: seq<int>, x: int, y: int, z: int, p: int)
    requires p > 0 && Cong(Eval(c, x), y, p) && Eval(l, x) == z && Cong(z, y, p)
    ensures Cong(Eval(AddCoeffs(c, -1, l), x), 0, p)
  {
    AddEval(c, -1, l, x);
    CongAdd(Eval(c, x), y, z, y, p);
  }

  lemma SameValue(c: seq<int>, l: seq<int>, x: int, z: int, p: int)
    requires p > 0 && Eval(l, x) == z && Cong(Eval(AddCoeffs(c, -1, l), x), 0, p)
    ensures Cong(Eval(c, x), z, p)
  {
    AddEval(c, -1, l, x);
    CongAdd(Eval(AddCoeffs(c, -1, l), x), 0, z, z, p);
  }
}
