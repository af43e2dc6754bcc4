/** The circuit-test vectors gamma_1 and gamma_2 and the constant gamma_0 (`parse_gamma12`,
    `parse_gamma0` in `libv/gcomputation_v.cpp`), and the products of variables the prover adds to its
    proof (`compute_assignment_vectors` in `libv/gcomputation_p.cpp`). */
module Gamma {
  import opened Arith
  import opened Poly
  import opened Expand
  import opened Gates
  import opened Layout
  import opened Vectors
  import opened Aggregate

  // ----- F2 = F1 (x) F1 -----

  /** `f2` holds the products of `f1` modulo `p`, row by row. */
  ghost predicate IsSquare(f2: seq<int>, f1: seq<int>, p: int)
    requires p > 0
  {
    |f2| == |f1| * |f1| && forall i: nat, j: nat :: i < |f1| && j < |f1| ==> Cell(f2, i, j, |f1|) == (f1[i] * f1[j]) % p
  }

  lemma SquareMod(f2: seq<int>, f1: seq<int>, p: int)
    requires p > 0 && IsSquare(f2, f1, p)
    ensures SameMod(f2, Outer(f1, f1), p)
  {
    var n := |f1|;
    forall k | 0 <= k < |f2| ensures Cong(f2[k], Outer(f1, f1)[k], p) {
      RowAndColumn(k, n);
      var i, j := k / n, k % n;
      assert k == i * n + j;
      assert Cell(f2, i, j, n) == (f1[i] * f1[j]) % p && Cell(Outer(f1, f1), i, j, n) == f1[i] * f1[j];
      CongMod(f1[i] * f1[j], p);
    }
  }

  lemma RowAndColumn(k: int, n: nat)
    requires 0 <= k < n * n
    ensures n > 0 && 0 <= k / n < n && 0 <= k % n < n && k == (k / n) * n + k % n
  {
    if k / n >= n { MulMono(n, k / n, n, n); }
  }

  /** First pass: the lower triangle, multiplied out. Second pass: the upper triangle, copied. */
  method ComputeAssignmentVectors(f1: array<int>, f2: array<int>, prime: int)
    requires prime > 0 && f2.Length == f1.Length * f1.Length && f1 != f2
    modifies f2
    ensures IsSquare(f2[..], f1[..], prime)
  {
    var n := f1.Length;
    for i := 0 to n
      invariant f1[..] == old(f1[..])
      invariant LowerFilled(f2[..], f1[..], prime, i)
    {
      LowerRow(f1, f2, prime, i);
    }
    for i := 0 to n
      invariant LowerFilled(f2[..], f1[..], prime, n)
      invariant UpperFilled(f2[..], f1[..], prime, i)
    {
      UpperRow(f1, f2, prime, i);
    }
  }

  ghost predicate LowerFilled(f2: seq<int>, f1: seq<int>, p: int, m: int)
    requires p > 0
  {
    forall i: nat, j: nat :: i < m && j <= i && i < |f1| ==> Cell(f2, i, j, |f1|) == (f1[i] * f1[j]) % p
  }

  ghost predicate UpperFilled(f2: seq<int>, f1: seq<int>, p: int, m: int)
    requires p > 0
  {
    forall i: nat, j: nat :: i < m && i < j < |f1| ==> Cell(f2, i, j, |f1|) == (f1[i] * f1[j]) % p
  }

  method LowerRow(f1: array<int>, f2: array<int>, prime: int, i: nat)
    requires prime > 0 && i < f1.Length && f2.Length == f1.Length * f1.Length && f1 != f2
    requires LowerFilled(f2[..], f1[..], prime, i)
    modifies f2
    ensures LowerFilled(f2[..], f1[..], prime, i + 1)
  {
    var n := f1.Length;
    for j := 0 to i + 1
      invariant LowerFilled(f2[..], f1[..], prime, i)
      invariant forall k: nat :: k < j ==> Cell(f2[..], i, k, n) == (f1[i] * f1[k]) % prime
    {
      IndexInside(i, j, n, n);
      ghost var before := f2[..];
      f2[i * n + j] := (f1[i] * f1[j]) % prime;
      assert f2[..] == before[i * n + j := (f1[i] * f1[j]) % prime];
      forall i': nat, j': nat | i' < n && j' < n
        ensures Cell(f2[..], i', j', n) == if i == i' && j == j' then (f1[i] * f1[j]) % prime else Cell(before, i', j', n) {
        OtherCell(before, i, j, n, n, (f1[i] * f1[j]) % prime, i', j');
      }
    }
  }

  method UpperRow(f1: array<int>, f2: array<int>, prime: int, i: nat)
    requires prime > 0 && i < f1.Length && f2.Length == f1.Length * f1.Length && f1 != f2
    requires LowerFilled(f2[..], f1[..], prime, f1.Length) && UpperFilled(f2[..], f1[..], prime, i)
    modifies f2
    ensures LowerFilled(f2[..], f1[..], prime, f1.Length) && UpperFilled(f2[..], f1[..], prime, i + 1)
  {
    var n := f1.Length;
    for j := i + 1 to n
      invariant LowerFilled(f2[..], f1[..], prime, n) && UpperFilled(f2[..], f1[..], prime, i)
      invariant forall k: nat :: i < k < j ==> Cell(f2[..], i, k, n) == (f1[i] * f1[k]) % prime
    {
      IndexInside(i, j, n, n);
      IndexInside(j, i, n, n);
      ghost var before := f2[..];
      assert Cell(before, j, i, n) == (f1[j] * f1[i]) % prime;
      f2[i * n + j] := f2[j * n + i];
      assert f1[j] * f1[i] == f1[i] * f1[j];
      assert f2[..] == before[i * n + j := (f1[i] * f1[j]) % prime];
      forall i': nat, j': nat | i' < n && j' < n
        ensures Cell(f2[..], i', j', n) == if i == i' && j == j' then (f1[i] * f1[j]) % prime else Cell(before, i', j', n) {
        OtherCell(before, i, j, n, n, (f1[i] * f1[j]) % prime, i', j');
      }
    }
  }

  // ----- gamma_1 and gamma_2 -----

  /** Variable `x` lives at position `index[x]`. */
  ghost predicate Fits12(es: seq<Entry>, cons: nat, index: seq<nat>, n: nat) {
    EntriesFit(es, cons, 0, n) && |index| == n && forall x :: 0 <= x < n ==> index[x] < n
  }

  /** One line added to the vectors. */
  function AddEntry(g: (seq<int>, seq<int>), e: Entry, alpha: seq<int>, index: seq<nat>, n: nat): (r: (seq<int>, seq<int>))
    requires |g.0| == n && |g.1| == n * n && |index| == n && e.con < |alpha| && RowFits(e.row, 0, n)
    requires forall x :: 0 <= x < n ==> index[x] < n
    ensures |r.0| == n && |r.1| == n * n
  {
    match e.row
    case Linear(k, x) => (g.0[index[x] := g.0[index[x]] + alpha[e.con] * k], g.1)
    case Product(k, x, y) =>
      IndexInside(index[x], index[y], n, n);
      var i := index[x] * n + index[y];
      (g.0, g.1[i := g.1[i] + alpha[e.con] * k])
    case _ => g
  }

  function Gamma12(es: seq<Entry>, alpha: seq<int>, index: seq<nat>, n: nat): (r: (seq<int>, seq<int>))
    requires Fits12(es, |alpha|, index, n)
    ensures |r.0| == n && |r.1| == n * n
  {
    if es == [] then (seq(n, _ => 0), seq(n * n, _ => 0))
    else AddEntry(Gamma12(es[..|es| - 1], alpha, index, n), es[|es| - 1], alpha, index, n)
  }

  /** `parse_gamma12` after the random coefficients are drawn: empty both vectors, then add line by line. */
  method ParseGamma12(es: seq<Entry>, alpha: seq<int>, index: seq<nat>, g1: array<int>, g2: array<int>)
    requires g1 != g2 && g2.Length == g1.Length * g1.Length && Fits12(es, |alpha|, index, g1.Length)
    modifies g1, g2
    ensures (g1[..], g2[..]) == Gamma12(es, alpha, index, g1.Length)
  {
    var n := g1.Length;
    for i := 0 to n
      invariant forall k :: 0 <= k < i ==> g1[k] == 0
    {
      g1[i] := 0;
    }
    for i := 0 to n * n
      invariant forall k :: 0 <= k < n ==> g1[k] == 0
      invariant forall k :: 0 <= k < i ==> g2[k] == 0
    {
      g2[i] := 0;
    }
    assert g1[..] == seq(n, _ => 0) && g2[..] == seq(n * n, _ => 0);
    for i := 0 to |es|
      invariant (g1[..], g2[..]) == Gamma12(es[..i], alpha, index, n)
    {
      assert es[..i + 1][..i] == es[..i];
      AddLine(es[i], alpha, index, g1, g2);
    }
    assert es[..|es|] == es;
  }

  method AddLine(e: Entry, alpha: seq<int>, index: seq<nat>, g1: array<int>, g2: array<int>)
    requires g1 != g2 && g2.Length == g1.Length * g1.Length && |index| == g1.Length
    requires e.con < |alpha| && RowFits(e.row, 0, g1.Length) && forall x :: 0 <= x < g1.Length ==> index[x] < g1.Length
    modifies g1, g2
    ensures (g1[..], g2[..]) == AddEntry(old((g1[..], g2[..])), e, alpha, index, g1.Length)
  {
    match e.row
    case Linear(k, x) =>
      g1[index[x]] := g1[index[x]] + alpha[e.con] * k;
    case Product(k, x, y) =>
      IndexInside(index[x], index[y], g1.Length, g1.Length);
      var i := index[x] * g1.Length + index[y];
      g2[i] := g2[i] + alpha[e.con] * k;
    case _ =>
  }

  /** What one line is worth against proof vectors. */
  function LineValue(e: Entry, alpha: seq<int>, index: seq<nat>, f1: seq<int>, f2: seq<int>): int
    requires e.con < |alpha| && RowFits(e.row, 0, |f1|) && |index| == |f1| && |f2| == |f1| * |f1|
    requires forall x :: 0 <= x < |f1| ==> index[x] < |f1|
  {
    match e.row
    case Linear(k, x) => (alpha[e.con] * k) * f1[index[x]]
    case Product(k, x, y) => (alpha[e.con] * k) * Cell(f2, index[x], index[y], |f1|)
    case _ => 0
  }

  function LinesTotal(es: seq<Entry>, alpha: seq<int>, index: seq<nat>, f1: seq<int>, f2: seq<int>): int
    requires Fits12(es, |alpha|, index, |f1|) && |f2| == |f1| * |f1|
  {
    if es == [] then 0
    else LinesTotal(es[..|es| - 1], alpha, index, f1, f2) + LineValue(es[|es| - 1], alpha, index, f1, f2)
  }

  /** Answering gamma_1 and gamma_2 adds up what the lines are worth. */
  lemma {:induction false} GammaAnswers(es: seq<Entry>, alpha: seq<int>, index: seq<nat>, f1: seq<int>, f2: seq<int>)
    requires Fits12(es, |alpha|, index, |f1|) && |f2| == |f1| * |f1|
    ensures var g := Gamma12(es, alpha, index, |f1|);
            Dot(g.0, f1) + Dot(g.1, f2) == LinesTotal(es, alpha, index, f1, f2)
    decreases |es|
  {
    var n := |f1|;
    if es == [] {
      DotZero(seq(n, _ => 0), f1, n);
      DotZero(seq(n * n, _ => 0), f2, n * n);
    } else {
      var e, init := es[|es| - 1], es[..|es| - 1];
      GammaAnswers(init, alpha, index, f1, f2);
      var g := Gamma12(init, alpha, index, n);
      match e.row
      case Linear(k, x) => DotChange(g.0, index[x], alpha[e.con] * k, f1);
      case Product(k, x, y) =>
        IndexInside(index[x], index[y], n, n);
        DotChange(g.1, index[x] * n + index[y], alpha[e.con] * k, f2);
      case _ =>
    }
  }

  /** The proof vectors hold the variables' values: `f1` shuffled, `f2` their products. */
  ghost predicate Proof(f1: seq<int>, f2: seq<int>, index: seq<nat>, vals: seq<int>, p: int)
    requires p > 0
  {
    && |f1| == |index| == |vals| && IsSquare(f2, f1, p)
    && (forall x :: 0 <= x < |f1| ==> index[x] < |f1|)
    && forall x :: 0 <= x < |f1| ==> Cong(f1[index[x]], vals[x], p)
  }

  ghost predicate In12(es: seq<Entry>) {
    forall i :: 0 <= i < |es| ==> es[i].row.Linear? || es[i].row.Product?
  }

  lemma LineMod(e: Entry, alpha: seq<int>, index: seq<nat>, f1: seq<int>, f2: seq<int>, vals: seq<int>, p: int)
    requires p > 0 && e.con < |alpha| && RowFits(e.row, 0, |f1|) && Proof(f1, f2, index, vals, p)
    requires e.row.Linear? || e.row.Product?
    ensures Cong(LineValue(e, alpha, index, f1, f2), alpha[e.con] * RowValue(e.row, [], vals), p)
  {
    var a := alpha[e.con];
    match e.row
    case Linear(k, x) =>
      CongMul(a * k, a * k, f1[index[x]], vals[x], p);
      MulAssoc(a, k, vals[x]);
    case Product(k, x, y) =>
      var u, v := f1[index[x]], f1[index[y]];
      CongMod(u * v, p);
      CongMul(u, vals[x], v, vals[y], p);
      CongMul(a * k, a * k, (u * v) % p, vals[x] * vals[y], p);
      MulAssoc(a, k, vals[x] * vals[y]);
  }

  lemma {:induction false} LinesMod(es: seq<Entry>, alpha: seq<int>, index: seq<nat>, f1: seq<int>, f2: seq<int>,
                                    vals: seq<int>, p: int)
    requires p > 0 && Fits12(es, |alpha|, index, |f1|) && Proof(f1, f2, index, vals, p) && In12(es)
    ensures Cong(LinesTotal(es, alpha, index, f1, f2), EntriesValue(es, alpha, [], vals), p)
    decreases |es|
  {
    if es != [] {
      var e, init := es[|es| - 1], es[..|es| - 1];
      LinesMod(init, alpha, index, f1, f2, vals, p);
      LineMod(e, alpha, index, f1, f2, vals, p);
      CongAdd(LinesTotal(init, alpha, index, f1, f2), EntriesValue(init, alpha, [], vals),
              LineValue(e, alpha, index, f1, f2), alpha[e.con] * RowValue(e.row, [], vals), p);
    }
  }

  // ----- gamma_0 -----

  /** `parse_gamma0` for one instance: inputs, outputs and constants enter as a number. */
  method ParseGamma0(es: seq<Entry>, alpha: seq<int>, ios: seq<int>, start: int) returns (c: int)
    requires EntriesFit(es, |alpha|, |ios|, 0)
    ensures c == start + EntriesValue(es, alpha, ios, [])
  {
    c := start;
    for i := 0 to |es|
      invariant c == start + EntriesValue(es[..i], alpha, ios, [])
    {
      var e := es[i];
      assert es[..i + 1][..i] == es[..i];
      assert RowFits(e.row, |ios|, 0);
      match e.row
      case InOut(k, v) =>
        MulAssoc(alpha[e.con], k, ios[v]);
        c := c + alpha[e.con] * k * ios[v];
      case Literal(k) => c := c + alpha[e.con] * k;
    }
    assert es[..|es|] == es;
  }

  // ----- the aggregated constraint -----

  ghost predicate In0(es: seq<Entry>) {
    forall i :: 0 <= i < |es| ==> es[i].row.InOut? || es[i].row.Literal?
  }

  lemma {:induction false} SelectKinds(rows: seq<Row>, con: nat, kind: nat)
    ensures forall i :: 0 <= i < |Select(rows, con, kind)| ==> Kind(Select(rows, con, kind)[i].row) == kind
    decreases |rows|
  {
    if rows != [] { SelectKinds(rows[1..], con, kind); }
  }

  lemma {:induction false} FileKinds(rowss: seq<seq<Row>>)
    ensures In12(Gamma12File(rowss)) && In0(Gamma0File(rowss))
    decreases |rowss|
  {
    if rowss != [] {
      var c := |rowss| - 1;
      FileKinds(rowss[..c]);
      SelectKinds(rowss[c], c, 2);
      SelectKinds(rowss[c], c, 3);
      SelectKinds(rowss[c], c, 1);
      SelectKinds(rowss[c], c, 0);
    }
  }

  /** gamma_1 and gamma_2 need no inputs, gamma_0 no variables. */
  lemma {:induction false} KindsSeparate(es: seq<Entry>, alpha: seq<int>, ios: seq<int>, vals: seq<int>)
    requires EntriesFit(es, |alpha|, |ios|, |vals|)
    ensures In12(es) ==> EntriesFit(es, |alpha|, 0, |vals|)
                         && EntriesValue(es, alpha, [], vals) == EntriesValue(es, alpha, ios, vals)
    ensures In0(es) ==> EntriesFit(es, |alpha|, |ios|, 0)
                        && EntriesValue(es, alpha, ios, []) == EntriesValue(es, alpha, ios, vals)
    decreases |es|
  {
    if es != [] {
      KindsSeparate(es[..|es| - 1], alpha, ios, vals);
      if In12(es) {
        assert forall i :: 0 <= i < |es| ==> RowFits(es[i].row, |ios|, |vals|);
        assert EntriesFit(es, |alpha|, 0, |vals|);
      }
    }
  }

  /** The constraints, weighted. */
  function Weighted(cons: seq<Constraint>, alpha: seq<int>, env: Env): int
    requires |cons| <= |alpha|
  {
    if cons == [] then 0
    else Weighted(cons[..|cons| - 1], alpha, env) + alpha[|cons| - 1] * EvalConstraint(cons[|cons| - 1], env)
  }

  /** Each constraint expands safely and parses into its rows. */
  ghost predicate Parsed(cons: seq<Constraint>, rowss: seq<seq<Row>>, io: Dict, vars: Dict) {
    |rowss| == |cons| && forall c :: 0 <= c < |cons| ==>
      Expandable(cons[c]) && ParseRows(Expanded(cons[c]), io, vars) == Some(rowss[c])
  }

  lemma {:induction false} WeightedParsed(cons: seq<Constraint>, rowss: seq<seq<Row>>, env: Env, io: Dict, vars: Dict,
                                          ios: seq<int>, vals: seq<int>, alpha: seq<int>)
    requires Parsed(cons, rowss, io, vars) && Stored(env, io, vars, ios, vals) && |cons| <= |alpha|
    ensures forall c :: 0 <= c < |rowss| ==> RowsFit(rowss[c], |ios|, |vals|)
    ensures WeightedRows(rowss, alpha, ios, vals) == Weighted(cons, alpha, env)
    decreases |cons|
  {
    forall c | 0 <= c < |rowss| ensures RowsFit(rowss[c], |ios|, |vals|) {
      ParseMeaning(Expanded(cons[c]), env, io, vars, ios, vals);
    }
    if cons != [] {
      var c := |cons| - 1;
      WeightedParsed(cons[..c], rowss[..c], env, io, vars, ios, vals, alpha);
      ParseMeaning(Expanded(cons[c]), env, io, vars, ios, vals);
      ExpandedMeaning(cons[c], env);
    }
  }

  /** gamma_0 plus the answers to gamma_1 and gamma_2. */
  function CircuitValue(rowss: seq<seq<Row>>, alpha: seq<int>, ios: seq<int>, index: seq<nat>, f1: seq<int>, f2: seq<int>): int
    requires EntriesFit(Gamma0File(rowss), |alpha|, |ios|, 0) && Fits12(Gamma12File(rowss), |alpha|, index, |f1|)
    requires |f2| == |f1| * |f1|
  {
    var g := Gamma12(Gamma12File(rowss), alpha, index, |f1|);
    EntriesValue(Gamma0File(rowss), alpha, ios, []) + (Dot(g.0, f1) + Dot(g.1, f2))
  }

  lemma FilesFit(rowss: seq<seq<Row>>, alpha: seq<int>, ios: seq<int>, vals: seq<int>)
    requires |rowss| <= |alpha| && forall c :: 0 <= c < |rowss| ==> RowsFit(rowss[c], |ios|, |vals|)
    ensures EntriesFit(Gamma0File(rowss), |alpha|, |ios|, 0) && EntriesFit(Gamma12File(rowss), |alpha|, 0, |vals|)
    ensures In12(Gamma12File(rowss))
    ensures EntriesValue(Gamma12File(rowss), alpha, [], vals) + EntriesValue(Gamma0File(rowss), alpha, ios, [])
         == WeightedRows(rowss, alpha, ios, vals)
  {
    FilesValue(rowss, alpha, ios, vals);
    FileKinds(rowss);
    KindsSeparate(Gamma12File(rowss), alpha, ios, vals);
    KindsSeparate(Gamma0File(rowss), alpha, ios, vals);
  }

  lemma AnswersMod(es: seq<Entry>, alpha: seq<int>, index: seq<nat>, f1: seq<int>, f2: seq<int>, vals: seq<int>, p: int, z: int)
    requires p > 0 && Fits12(es, |alpha|, index, |f1|) && Proof(f1, f2, index, vals, p) && In12(es)
    requires var g := Gamma12(es, alpha, index, |f1|); z == Dot(g.0, f1) + Dot(g.1, f2)
    ensures Cong(z, EntriesValue(es, alpha, [], vals), p)
  {
    GammaAnswers(es, alpha, index, f1, f2);
    assert z == LinesTotal(es, alpha, index, f1, f2);
    LinesMod(es, alpha, index, f1, f2, vals, p);
  }

  /** For every choice of coefficients and every shuffle the aggregate is the weighted sum of the
      constraints. */
  lemma Aggregation(cons: seq<Constraint>, rowss: seq<seq<Row>>, env: Env, io: Dict, vars: Dict, ios: seq<int>,
                    vals: seq<int>, alpha: seq<int>, index: seq<nat>, f1: seq<int>, f2: seq<int>, p: int)
    requires p > 0 && |cons| <= |alpha| && Parsed(cons, rowss, io, vars)
    requires Stored(env, io, vars, ios, vals) && Proof(f1, f2, index, vals, p)
    ensures EntriesFit(Gamma0File(rowss), |alpha|, |ios|, 0) && Fits12(Gamma12File(rowss), |alpha|, index, |f1|)
    ensures Cong(CircuitValue(rowss, alpha, ios, index, f1, f2), Weighted(cons, alpha, env), p)
  {
    WeightedParsed(cons, rowss, env, io, vars, ios, vals, alpha);
    FilesFit(rowss, alpha, ios, vals);
    var g := Gamma12(Gamma12File(rowss), alpha, index, |f1|);
    var z, c0 := Dot(g.0, f1) + Dot(g.1, f2), EntriesValue(Gamma0File(rowss), alpha, ios, []);
    AnswersMod(Gamma12File(rowss), alpha, index, f1, f2, vals, p, z);
    CongTotal(c0, z, EntriesValue(Gamma12File(rowss), alpha, [], vals), CircuitValue(rowss, alpha, ios, index, f1, f2),
              Weighted(cons, alpha, env), p);
  }

  lemma CongTotal(c: int, z: int, e: int, t: int, w: int, p: int)
    requires p > 0 && Cong(z, e, p) && t == c + z && w == e + c
    ensures Cong(t, w, p)
  {
    CongAdd(c, c, z, e, p);
  }

  lemma {:induction false} WeightedZero(cons: seq<Constraint>, alpha: seq<int>, env: Env, p: int)
    requires p > 0 && |cons| <= |alpha| && Sat(cons, env, p)
    ensures Cong(Weighted(cons, alpha, env), 0, p)
    decreases |cons|
  {
    if cons != [] {
      var c := |cons| - 1;
      WeightedZero(cons[..c], alpha, env, p);
      assert Holds(cons[c], env, p);
      CongMul(alpha[c], alpha[c], EvalConstraint(cons[c], env), 0, p);
      CongAdd(Weighted(cons[..c], alpha, env), 0, alpha[c] * EvalConstraint(cons[c], env), 0, p);
    }
  }

  lemma {:induction false} WeightedUnit(cons: seq<Constraint>, alpha: seq<int>, env: Env, c: nat)
    requires |cons| <= |alpha| && c < |alpha|
    requires forall k :: 0 <= k < |alpha| ==> alpha[k] == if k == c then 1 else 0
    ensures Weighted(cons, alpha, env) == if c < |cons| then EvalConstraint(cons[c], env) else 0
    decreases |cons|
  {
    if cons != [] { WeightedUnit(cons[..|cons| - 1], alpha, env, c); }
  }

  /** The weighted sum vanishes for every choice of coefficients exactly when every constraint holds. */
  lemma WeightedExact(cons: seq<Constraint>, env: Env, p: int)
    requires p > 0
    ensures Sat(cons, env, p)
            <==> forall alpha: seq<int> :: |alpha| == |cons| ==> Cong(Weighted(cons, alpha, env), 0, p)
  {
    if Sat(cons, env, p) {
      forall alpha: seq<int> | |alpha| == |cons| ensures Cong(Weighted(cons, alpha, env), 0, p) {
        WeightedZero(cons, alpha, env, p);
      }
    } else {
      var c :| 0 <= c < |cons| && !Holds(cons[c], env, p);
      var alpha := seq(|cons|, k => if k == c then 1 else 0);
      WeightedUnit(cons, alpha, env, c);
      assert !Cong(Weighted(cons, alpha, env), 0, p);
    }
  }
}
