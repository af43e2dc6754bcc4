/** The circuit-test vectors of the Hamming-distance application (`apps_tailored/hdist_v.cpp`): whatever the
    random coefficients, they combine exactly the `2 m^2 + 2 m` constraints. */
module HammingQueries {
  import opened Arith
  import opened Vectors
  import opened Hamming

  // ----- sums over constraints -----

  /** What one coefficient loop contributes per step, put to the proof vector `f`: the name says which
      variable of which constraint. Step `k` of a loop over pairs stands for `i m + j`. */
  datatype Term =
    | A(f: seq<int>)                             // A_j in constraint m^2 + k
    | I(f: seq<int>)                             // -A_i in constraint 2 m^2 + m + i
    | M(f: seq<int>)                             // -b_ij M_ij in constraint k
    | S(f: seq<int>)                             // -S_ij in constraint k
    | BS(f: seq<int>)                            // b_ij S_ij in constraint m^2 + k
    | Row(f: seq<int>)                           // -S_ij in constraint 2 m^2 + i
    | Pair(f: seq<int>, off: nat, sign: int)     // A_j times position k, stored at j m^2 + k
    | Constant                                   // -b_ij in constraint m^2 + k
    | Public(y: seq<int>, off: nat)              // an output or input
    | Both(t: Term, u: Term)

  /** The random coefficients and the strings to compare with. */
  datatype Test = Test(m: nat, alpha: seq<int>, b: seq<int>)

  ghost predicate ValidTest(t: Test) {
    t.m > 0 && |t.alpha| == 2 * (t.m * t.m) + 2 * t.m && |t.b| == t.m * t.m
  }

  function Coeff(c: Test, k: int): int { At(c.alpha, k) }

  function Val(t: Term, c: Test, k: nat): int
    requires c.m > 0
  {
    match t
    case A(f) => Coeff(c, c.m * c.m + k) * At(f, k % c.m)
    case I(f) => (-Coeff(c, 2 * (c.m * c.m) + c.m + k)) * At(f, k)
    case M(f) => (-Coeff(c, k) * At(c.b, k)) * At(f, k)
    case S(f) => (-Coeff(c, k)) * At(f, k)
    case BS(f) => (Coeff(c, c.m * c.m + k) * At(c.b, k)) * At(f, k)
    case Row(f) => (-Coeff(c, 2 * (c.m * c.m) + k / c.m)) * At(f, k)
    case Pair(f, off, sign) => (sign * Coeff(c, off + k)) * At(f, (k % c.m) * (c.m * c.m) + k)
    case Constant => At(c.b, k) * -Coeff(c, c.m * c.m + k)
    case Public(y, off) => At(y, k) * Coeff(c, off + k)
    case Both(t, u) => Val(t, c, k) + Val(u, c, k)
  }

  function Sum(t: Term, c: Test, n: nat): int
    requires c.m > 0
    decreases n
  {
    if n == 0 then 0 else Sum(t, c, n - 1) + Val(t, c, n - 1)
  }

  lemma {:induction false} SumBoth(t: Term, u: Term, c: Test, n: nat)
    requires c.m > 0
    ensures Sum(Both(t, u), c, n) == Sum(t, c, n) + Sum(u, c, n)
    decreases n
  {
    if n > 0 { SumBoth(t, u, c, n - 1); }
  }

  // ----- the coefficient loops; `f` is any proof vector the query is put to -----

  /** One accumulation step: `q[i] += t`. */
  method AddAt(q: array<int>, i: nat, t: int, ghost f: seq<int>)
    requires i < q.Length == |f|
    modifies q
    ensures Dot(q[..], f) == old(Dot(q[..], f)) + t * f[i]
  {
    ghost var before := q[..];
    q[i] := q[i] + t;
    assert q[..] == before[i := before[i] + t];
    DotChange(before, i, t, f);
  }

  method Gamma1(c: Test, ghost f: seq<int>) returns (q: array<int>)
    requires ValidTest(c) && |f| == c.m
    ensures fresh(q) && q.Length == c.m && Dot(q[..], f) == Sum(A(f), c, c.m * c.m) + Sum(I(f), c, c.m)
  {
    q := new int[c.m](_ => 0);
    DotZero(q[..], f, c.m);
    AddA(c, q, f);
    AddI(c, q, f);
  }

  method AddA(c: Test, q: array<int>, ghost f: seq<int>)
    requires ValidTest(c) && q.Length == |f| == c.m
    modifies q
    ensures Dot(q[..], f) == old(Dot(q[..], f)) + Sum(A(f), c, c.m * c.m)
  {
    var m, k := c.m, 0;
    for i := 0 to m
      invariant k == i * m && Dot(q[..], f) == old(Dot(q[..], f)) + Sum(A(f), c, k)
    {
      RowBelow(i, m, m);
      for j := 0 to m
        invariant k == i * m + j && Dot(q[..], f) == old(Dot(q[..], f)) + Sum(A(f), c, k)
      {
        DivModIs(k, i, j, m);
        AddAt(q, j, c.alpha[m * m + k], f);
        k := k + 1;
      }
      MulDist(m, i, 1);
    }
  }

  method AddI(c: Test, q: array<int>, ghost f: seq<int>)
    requires ValidTest(c) && q.Length == |f| == c.m
    modifies q
    ensures Dot(q[..], f) == old(Dot(q[..], f)) + Sum(I(f), c, c.m)
  {
    for i := 0 to c.m
      invariant Dot(q[..], f) == old(Dot(q[..], f)) + Sum(I(f), c, i)
    {
      AddAt(q, i, -c.alpha[2 * (c.m * c.m) + c.m + i], f);
    }
  }

  method Gamma2(c: Test, ghost f: seq<int>) returns (q: array<int>)
    requires ValidTest(c) && |f| == c.m * c.m
    ensures fresh(q) && q.Length == c.m * c.m && Dot(q[..], f) == Sum(M(f), c, c.m * c.m)
  {
    q := new int[c.m * c.m](_ => 0);
    DotZero(q[..], f, c.m * c.m);
    for k := 0 to c.m * c.m
      invariant Dot(q[..], f) == Sum(M(f), c, k)
    {
      AddAt(q, k, -c.alpha[k] * c.b[k], f);
    }
  }

  method Gamma3(c: Test, ghost f: seq<int>) returns (q: array<int>)
    requires ValidTest(c) && |f| == c.m * c.m
    ensures fresh(q) && q.Length == c.m * c.m
    ensures Dot(q[..], f) == Sum(S(f), c, c.m * c.m) + Sum(BS(f), c, c.m * c.m) + Sum(Row(f), c, c.m * c.m)
  {
    q := new int[c.m * c.m](_ => 0);
    DotZero(q[..], f, c.m * c.m);
    AddS(c, q, f);
    AddBS(c, q, f);
    AddRows(c, q, f);
  }

  method AddS(c: Test, q: array<int>, ghost f: seq<int>)
    requires ValidTest(c) && q.Length == |f| == c.m * c.m
    modifies q
    ensures Dot(q[..], f) == old(Dot(q[..], f)) + Sum(S(f), c, c.m * c.m)
  {
    for k := 0 to c.m * c.m
      invariant Dot(q[..], f) == old(Dot(q[..], f)) + Sum(S(f), c, k)
    {
      AddAt(q, k, -c.alpha[k], f);
    }
  }

  method AddBS(c: Test, q: array<int>, ghost f: seq<int>)
    requires ValidTest(c) && q.Length == |f| == c.m * c.m
    modifies q
    ensures Dot(q[..], f) == old(Dot(q[..], f)) + Sum(BS(f), c, c.m * c.m)
  {
    for k := 0 to c.m * c.m
      invariant Dot(q[..], f) == old(Dot(q[..], f)) + Sum(BS(f), c, k)
    {
      AddAt(q, k, c.alpha[c.m * c.m + k] * c.b[k], f);
    }
  }

  method AddRow(c: Test, q: array<int>, ghost f: seq<int>, i: nat, at: nat)
    requires ValidTest(c) && q.Length == |f| == c.m * c.m && i < c.m && at == i * c.m && at + c.m <= c.m * c.m
    modifies q
    ensures Dot(q[..], f) == old(Dot(q[..], f)) + Sum(Row(f), c, at + c.m) - Sum(Row(f), c, at)
  {
    for j := 0 to c.m
      invariant Dot(q[..], f) == old(Dot(q[..], f)) + Sum(Row(f), c, at + j) - Sum(Row(f), c, at)
    {
      DivModIs(at + j, i, j, c.m);
      AddAt(q, at + j, -c.alpha[2 * (c.m * c.m) + i], f);
    }
  }

  method AddRows(c: Test, q: array<int>, ghost f: seq<int>)
    requires ValidTest(c) && q.Length == |f| == c.m * c.m
    modifies q
    ensures Dot(q[..], f) == old(Dot(q[..], f)) + Sum(Row(f), c, c.m * c.m)
  {
    var m := c.m;
    ghost var k := 0;
    for i := 0 to m
      invariant k == i * m && Dot(q[..], f) == old(Dot(q[..], f)) + Sum(Row(f), c, k)
    {
      RowBelow(i, m, m);
      AddRow(c, q, f, i, i * m);
      k := k + m;
      MulDist(m, i, 1);
    }
  }

  /** gamma_4 (`off = 0`, `sign = 1`) and gamma_5 (`off = m^2`, `sign = -1`). */
  method Gamma45(c: Test, off: nat, sign: int, ghost f: seq<int>) returns (q: array<int>)
    requires ValidTest(c) && off + c.m * c.m <= |c.alpha| && |f| == c.m * (c.m * c.m)
    ensures fresh(q) && q.Length == c.m * (c.m * c.m) && Dot(q[..], f) == Sum(Pair(f, off, sign), c, c.m * c.m)
  {
    var m := c.m;
    MulMono(0, m, 0, m * m);
    q := new int[m * (m * m)](_ => 0);
    DotZero(q[..], f, m * (m * m));
    var k := 0;
    for i := 0 to m
      invariant k == i * m && Dot(q[..], f) == Sum(Pair(f, off, sign), c, k)
    {
      RowBelow(i, m, m);
      for j := 0 to m
        invariant k == i * m + j && Dot(q[..], f) == Sum(Pair(f, off, sign), c, k)
      {
        DivModIs(k, i, j, m);
        IndexInside(j, k, m, m * m);
        AddAt(q, j * (m * m) + k, sign * c.alpha[off + k], f);
        k := k + 1;
      }
      MulDist(m, i, 1);
    }
  }

  /** gamma_0: the constants, the outputs and the inputs. */
  method Gamma0(c: Test, y: seq<int>, input: seq<int>, p: int) returns (r: int)
    requires p > 0 && ValidTest(c) && |y| == |input| == c.m
    ensures Cong(r, Sum(Constant, c, c.m * c.m) + Sum(Public(y, 2 * (c.m * c.m)), c, c.m)
                    + Sum(Public(input, 2 * (c.m * c.m) + c.m), c, c.m), p)
  {
    var init := AddConstants(c);
    var r1 := AddPublic(c, init, y, 2 * (c.m * c.m));
    var r2 := AddPublic(c, r1, input, 2 * (c.m * c.m) + c.m);
    CongMod(r2, p);
    r := r2 % p;
  }

  method AddConstants(c: Test) returns (r: int)
    requires ValidTest(c)
    ensures r == Sum(Constant, c, c.m * c.m)
  {
    r := 0;
    for k := 0 to c.m * c.m
      invariant r == Sum(Constant, c, k)
    {
      r := r + c.b[k] * -c.alpha[c.m * c.m + k];
    }
  }

  method AddPublic(c: Test, start: int, y: seq<int>, off: nat) returns (r: int)
    requires ValidTest(c) && |y| == c.m && off + c.m <= |c.alpha|
    ensures r == start + Sum(Public(y, off), c, c.m)
  {
    r := start;
    for i := 0 to c.m
      invariant r == start + Sum(Public(y, off), c, i)
    {
      r := r + y[i] * c.alpha[off + i];
    }
  }

  // ----- the combined constraint -----

  /** The constraints weighted with their coefficients: those of the pairs, and those of the rows. */
  function WeightedPairs(c: Test, v: Values, n: nat): int
    requires c.m > 0 && v.m == c.m
  {
    if n == 0 then 0
    else WeightedPairs(c, v, n - 1) + Coeff(c, n - 1) * C1(v, c.b, n - 1) + Coeff(c, c.m * c.m + n - 1) * C2(v, c.b, n - 1)
  }

  function WeightedRows(c: Test, v: Values, n: nat): int
    requires c.m > 0 && v.m == c.m
  {
    if n == 0 then 0
    else WeightedRows(c, v, n - 1) + Coeff(c, 2 * (c.m * c.m) + n - 1) * C3(v, n - 1)
         + Coeff(c, 2 * (c.m * c.m) + c.m + n - 1) * C4(v, n - 1)
  }

  /** The product vectors hold `F1 (x) F2` and `F1 (x) F3` in the field. */
  ghost predicate Products(v: Values, f4: seq<int>, f5: seq<int>, p: int)
    requires p > 0 && v.m > 0
  {
    forall k: nat :: k < v.m * v.m ==>
      && Cong(At(f4, (k % v.m) * (v.m * v.m) + k), At(v.a, k % v.m) * At(v.mm, k), p)
      && Cong(At(f5, (k % v.m) * (v.m * v.m) + k), At(v.a, k % v.m) * At(v.s, k), p)
  }

  /** The pair terms of all loops together. */
  function PairTerms(v: Values, f4: seq<int>, f5: seq<int>): Term {
    Both(Both(Pair(f4, 0, 1), Both(M(v.mm), S(v.s))),
         Both(A(v.a), Both(Pair(f5, v.m * v.m, -1), Both(BS(v.s), Constant))))
  }

  lemma PairStep(x: int, y: int, a: int, m: int, s: int, b: int, f4: int, f5: int, t: int, p: int)
    requires p > 0 && Cong(f4, a * m, p) && Cong(f5, a * s, p)
    requires t == ((1 * x) * f4 + ((-x * b) * m + (-x) * s)) + (y * a + ((-1 * y) * f5 + ((y * b) * s + b * -y)))
    ensures Cong(t, x * (a * m - b * m - s) + y * (a - a * s + b * s - b), p)
  {
    CongMul(x, x, f4, a * m, p);
    CongMul(-y, -y, f5, a * s, p);
    CongAdd(x * f4, x * (a * m), (-y) * f5, (-y) * (a * s), p);
    var rest := (-x * b) * m + (-x) * s + (y * a + ((y * b) * s + b * -y));
    CongAdd(x * f4 + (-y) * f5, x * (a * m) + (-y) * (a * s), rest, rest, p);
    assert t == x * f4 + (-y) * f5 + rest;
    assert x * (a * m) + (-y) * (a * s) + rest == x * (a * m - b * m - s) + y * (a - a * s + b * s - b) by {
      Distribute(x, a * m, b * m, s);
      Distribute(-y, a * s, b * s, a - b);
      MulAssoc(-x, b, m); MulAssoc(y, b, s);
    }
  }

  lemma Distribute(x: int, u: int, v: int, w: int)
    ensures x * (u - v - w) == x * u - x * v - x * w
  {
    MulDist(x, u - v, -w); MulDist(x, u, -v);
  }

  lemma {:induction false} PairsCombine(c: Test, v: Values, f4: seq<int>, f5: seq<int>, n: nat, p: int)
    requires p > 0 && ValidTest(c) && v.m == c.m && Products(v, f4, f5, p) && n <= c.m * c.m
    ensures Cong(Sum(PairTerms(v, f4, f5), c, n), WeightedPairs(c, v, n), p)
    decreases n
  {
    if n > 0 {
      var k := n - 1;
      PairsCombine(c, v, f4, f5, k, p);
      PairVal(c, v, f4, f5, k, p);
      var w := Coeff(c, k) * C1(v, c.b, k) + Coeff(c, c.m * c.m + k) * C2(v, c.b, k);
      CongAdd(Sum(PairTerms(v, f4, f5), c, k), WeightedPairs(c, v, k), Val(PairTerms(v, f4, f5), c, k), w, p);
    }
  }

  lemma PairVal(c: Test, v: Values, f4: seq<int>, f5: seq<int>, k: nat, p: int)
    requires p > 0 && ValidTest(c) && v.m == c.m && Products(v, f4, f5, p) && k < c.m * c.m
    ensures Cong(Val(PairTerms(v, f4, f5), c, k), Coeff(c, k) * C1(v, c.b, k) + Coeff(c, c.m * c.m + k) * C2(v, c.b, k), p)
  {
    var i := (k % c.m) * (c.m * c.m) + k;
    var p4, ms, p5, bc := Pair(f4, 0, 1), Both(M(v.mm), S(v.s)), Pair(f5, v.m * v.m, -1), Both(BS(v.s), Constant);
    assert Val(ms, c, k) == Val(M(v.mm), c, k) + Val(S(v.s), c, k);
    assert Val(bc, c, k) == Val(BS(v.s), c, k) + Val(Constant, c, k);
    assert Val(Both(p4, ms), c, k) == Val(p4, c, k) + Val(ms, c, k);
    assert Val(Both(p5, bc), c, k) == Val(p5, c, k) + Val(bc, c, k);
    assert Val(Both(A(v.a), Both(p5, bc)), c, k) == Val(A(v.a), c, k) + Val(Both(p5, bc), c, k);
    PairStep(Coeff(c, k), Coeff(c, c.m * c.m + k), At(v.a, k % c.m), At(v.mm, k), At(v.s, k), At(c.b, k), At(f4, i), At(f5, i),
             Val(PairTerms(v, f4, f5), c, k), p);
  }

  // ----- rows -----

  lemma {:induction false} RowTerms(c: Test, s: seq<int>, i: nat, at: nat, j: nat)
    requires ValidTest(c) && i < c.m && j <= c.m && at == i * c.m
    ensures Sum(Row(s), c, at + j) == Sum(Row(s), c, at) - Coeff(c, 2 * (c.m * c.m) + i) * RowSum(s, at, j)
    decreases j
  {
    if j > 0 {
      RowTerms(c, s, i, at, j - 1);
      RowTerm(c, s, i, at, j - 1);
      MulDist(Coeff(c, 2 * (c.m * c.m) + i), RowSum(s, at, j - 1), At(s, at + j - 1));
    }
  }

  lemma RowTerm(c: Test, s: seq<int>, i: nat, at: nat, j: nat)
    requires ValidTest(c) && i < c.m && j < c.m && at == i * c.m
    ensures Val(Row(s), c, at + j) == -(Coeff(c, 2 * (c.m * c.m) + i) * At(s, at + j))
  {
    DivModIs(at + j, i, j, c.m);
  }

  lemma {:induction false} RowsCombine(c: Test, v: Values, n: nat)
    requires ValidTest(c) && v.m == c.m && n <= c.m
    ensures 0 <= n * c.m
    ensures Sum(Row(v.s), c, n * c.m) + Sum(I(v.a), c, n) + Sum(Public(v.y, 2 * (c.m * c.m)), c, n)
            + Sum(Public(v.input, 2 * (c.m * c.m) + c.m), c, n)
         == WeightedRows(c, v, n)
    decreases n
  {
    MulMono(0, n, 0, c.m);
    if n > 0 {
      var i, m := n - 1, c.m;
      RowsCombine(c, v, i);
      MulMono(0, i, 0, m);
      RowTerms(c, v.s, i, i * m, m);
      MulDist(m, i, 1);
      var x, z := Coeff(c, 2 * (m * m) + i), Coeff(c, 2 * (m * m) + m + i);
      RowStep(x, z, At(v.y, i), RowSum(v.s, i * m, m), At(v.input, i), At(v.a, i));
    }
  }

  lemma RowStep(x: int, z: int, y: int, s: int, u: int, a: int)
    ensures -(x * s) + (-z) * a + y * x + u * z == x * (y - s) + z * (u - a)
  {
    MulDist(x, y, -s); MulDist(z, u, -a);
  }

  /** For every choice of coefficients, gamma_0 plus the answers to gamma_1 .. gamma_5 is the weighted sum of
      the constraints. */
  lemma CombinedConstraint(c: Test, v: Values, f4: seq<int>, f5: seq<int>, p: int, g0: int, d1: int, d2: int, d3: int, d4: int,
                           d5: int)
    requires p > 0 && ValidTest(c) && v.m == c.m && Products(v, f4, f5, p)
    requires Cong(g0, Sum(Constant, c, c.m * c.m) + Sum(Public(v.y, 2 * (c.m * c.m)), c, c.m)
                      + Sum(Public(v.input, 2 * (c.m * c.m) + c.m), c, c.m), p)
    requires d1 == Sum(A(v.a), c, c.m * c.m) + Sum(I(v.a), c, c.m) && d2 == Sum(M(v.mm), c, c.m * c.m)
    requires d3 == Sum(S(v.s), c, c.m * c.m) + Sum(BS(v.s), c, c.m * c.m) + Sum(Row(v.s), c, c.m * c.m)
    requires d4 == Sum(Pair(f4, 0, 1), c, c.m * c.m) && d5 == Sum(Pair(f5, c.m * c.m, -1), c, c.m * c.m)
    ensures Cong(g0 + (d1 + d2 + d3 + d4 + d5), WeightedPairs(c, v, c.m * c.m) + WeightedRows(c, v, c.m), p)
  {
    var n := c.m * c.m;
    SumPairs(c, v, f4, f5, n);
    PairsCombine(c, v, f4, f5, n, p);
    RowsCombine(c, v, c.m);
    var pub := Sum(Public(v.y, 2 * n), c, c.m) + Sum(Public(v.input, 2 * n + c.m), c, c.m);
    TotalStep(g0, Sum(Constant, c, n), pub, d1 + d2 + d3 + d4 + d5, Sum(PairTerms(v, f4, f5), c, n), WeightedPairs(c, v, n),
              WeightedRows(c, v, c.m), p);
  }

  lemma SumPairs(c: Test, v: Values, f4: seq<int>, f5: seq<int>, n: nat)
    requires c.m > 0 && v.m == c.m
    ensures Sum(PairTerms(v, f4, f5), c, n)
         == Sum(Pair(f4, 0, 1), c, n) + (Sum(M(v.mm), c, n) + Sum(S(v.s), c, n))
          + (Sum(A(v.a), c, n) + (Sum(Pair(f5, v.m * v.m, -1), c, n) + (Sum(BS(v.s), c, n) + Sum(Constant, c, n))))
  {
    var p4, ms, p5, bc := Pair(f4, 0, 1), Both(M(v.mm), S(v.s)), Pair(f5, v.m * v.m, -1), Both(BS(v.s), Constant);
    SumBoth(M(v.mm), S(v.s), c, n);
    SumBoth(BS(v.s), Constant, c, n);
    SumBoth(p4, ms, c, n);
    SumBoth(p5, bc, c, n);
    SumBoth(A(v.a), Both(p5, bc), c, n);
    SumBoth(Both(p4, ms), Both(A(v.a), Both(p5, bc)), c, n);
  }

  lemma TotalStep(g: int, k: int, pub: int, d: int, pairs: int, wp: int, wr: int, p: int)
    requires p > 0 && Cong(g, k + pub, p) && Cong(pairs, wp, p) && k + pub + d == pairs + wr
    ensures Cong(g + d, wp + wr, p)
  {
    CongAdd(g, k + pub, d, d, p);
    CongAdd(pairs, wp, wr, wr, p);
  }

  lemma {:induction false} PairsVanish(c: Test, v: Values, n: nat, p: int)
    requires p > 0 && c.m > 0 && v.m == c.m && Meets(v, c.b, p) && n <= c.m * c.m
    ensures Cong(WeightedPairs(c, v, n), 0, p)
    decreases n
  {
    if n > 0 {
      var k := n - 1;
      PairsVanish(c, v, k, p);
      var x, y := Coeff(c, k), Coeff(c, c.m * c.m + k);
      CongMul(x, x, C1(v, c.b, k), 0, p);
      CongMul(y, y, C2(v, c.b, k), 0, p);
      CongAdd(WeightedPairs(c, v, k), 0, x * C1(v, c.b, k), 0, p);
      CongAdd(WeightedPairs(c, v, k) + x * C1(v, c.b, k), 0, y * C2(v, c.b, k), 0, p);
    }
  }

  lemma {:induction false} RowsVanish(c: Test, v: Values, n: nat, p: int)
    requires p > 0 && c.m > 0 && v.m == c.m && Meets(v, c.b, p) && n <= c.m
    ensures Cong(WeightedRows(c, v, n), 0, p)
    decreases n
  {
    if n > 0 {
      var i := n - 1;
      RowsVanish(c, v, i, p);
      var x, y := Coeff(c, 2 * (c.m * c.m) + i), Coeff(c, 2 * (c.m * c.m) + c.m + i);
      CongMul(x, x, C3(v, i), 0, p);
      CongMul(y, y, C4(v, i), 0, p);
      CongAdd(WeightedRows(c, v, i), 0, x * C3(v, i), 0, p);
      CongAdd(WeightedRows(c, v, i) + x * C3(v, i), 0, y * C4(v, i), 0, p);
    }
  }

  /** The prover's products, `F4 = F1 (x) F2` and `F5 = F1 (x) F3`. */
  method FillProducts(m: nat, f: seq<int>, g: seq<int>, p: int) returns (q: array<int>)
    requires p > 0 && m > 0 && |f| == m && |g| == m * m
    ensures q.Length == m * (m * m)
    ensures forall r: nat, k: nat :: r < m && k < m * m ==> Cell(q[..], r, k, m * m) == (f[r] * g[k]) % p
  {
    var n := m * m;
    MulMono(0, m, 0, n);
    q := new int[m * n];
    for i := 0 to m
      invariant forall r: nat, k: nat :: r < i && k < n ==> Cell(q[..], r, k, n) == (f[r] * g[k]) % p
    {
      for j := 0 to n
        invariant forall r: nat, k: nat :: r < i && k < n ==> Cell(q[..], r, k, n) == (f[r] * g[k]) % p
        invariant forall k: nat :: k < j ==> Cell(q[..], i, k, n) == (f[i] * g[k]) % p
      {
        IndexInside(i, j, m, n);
        ghost var before := q[..];
        q[i * n + j] := (f[i] * g[j]) % p;
        assert q[..] == before[i * n + j := (f[i] * g[j]) % p];
        forall r: nat, k: nat | r < m && k < n
          ensures Cell(q[..], r, k, n) == if i == r && j == k then (f[i] * g[j]) % p else Cell(before, r, k, n) {
          OtherCell(before, i, j, m, n, (f[i] * g[j]) % p, r, k);
        }
      }
    }
  }

  lemma ProductAt(q: seq<int>, f: seq<int>, g: seq<int>, m: nat, k: nat, p: int)
    requires p > 0 && m > 0 && |f| == m && |g| == m * m && |q| == m * (m * m) && k < m * m
    requires forall r: nat, j: nat :: r < m && j < m * m ==> Cell(q, r, j, m * m) == (f[r] * g[j]) % p
    ensures Cong(At(q, (k % m) * (m * m) + k), At(f, k % m) * At(g, k), p)
  {
    IndexInside(k % m, k, m, m * m);
    assert Cell(q, k % m, k, m * m) == (f[k % m] * g[k]) % p;
    CongMod(f[k % m] * g[k], p);
  }

  /** One circuit test of the application, whatever the assignment: the queries, their answers and gamma_0
      add up to the weighted constraints. */
  method CircuitTest(c: Test, v: Values, f4: seq<int>, f5: seq<int>, p: int) returns (total: int)
    requires p > 0 && ValidTest(c) && v.m == c.m && Products(v, f4, f5, p)
    requires |v.a| == |v.y| == |v.input| == c.m && |v.mm| == |v.s| == c.m * c.m && |f4| == |f5| == c.m * (c.m * c.m)
    ensures Cong(total, WeightedPairs(c, v, c.m * c.m) + WeightedRows(c, v, c.m), p)
  {
    var m := c.m;
    var q1 := Gamma1(c, v.a);
    var q2 := Gamma2(c, v.mm);
    var q3 := Gamma3(c, v.s);
    var q4 := Gamma45(c, 0, 1, f4);
    var q5 := Gamma45(c, m * m, -1, f5);
    var g0 := Gamma0(c, v.y, v.input, p);
    var d1 := DotProduct(q1[..], v.a);
    var d2 := DotProduct(q2[..], v.mm);
    var d3 := DotProduct(q3[..], v.s);
    var d4 := DotProduct(q4[..], f4);
    var d5 := DotProduct(q5[..], f5);
    total := g0 + (d1 + d2 + d3 + d4 + d5);
    CombinedConstraint(c, v, f4, f5, p, g0, d1, d2, d3, d4, d5);
  }

  /** The honest prover: its outputs are the distances, and the circuit test vanishes for all coefficients. */
  method HonestCircuitTest(c: Test, input: seq<int>, p: int) returns (total: int, y: array<int>)
    requires IsPrime(p) && ValidTest(c) && |input| == c.m && FieldRange(input, p) && FieldRange(c.b, p)
    ensures y.Length == c.m
    ensures forall i: nat :: i < c.m ==> Cong(y[i], Differences(input, c.b, i * c.m, c.m, p), p)
    ensures Cong(total, 0, p)
  {
    var m := c.m;
    var f2, f3;
    f2, f3, y := Assign(m, input, c.b, p);
    var f4 := FillProducts(m, input, f2[..], p);
    var f5 := FillProducts(m, input, f3[..], p);
    var v := Values(m, input, f2[..], f3[..], y[..], input);
    forall k: nat | k < m * m
      ensures Cong(At(f4[..], (k % m) * (m * m) + k), At(input, k % m) * At(v.mm, k), p)
      ensures Cong(At(f5[..], (k % m) * (m * m) + k), At(input, k % m) * At(v.s, k), p)
    {
      ProductAt(f4[..], input, f2[..], m, k, p);
      ProductAt(f5[..], input, f3[..], m, k, p);
    }
    total := CircuitTest(c, v, f4[..], f5[..], p);
    PairsVanish(c, v, m * m, p);
    RowsVanish(c, v, m, p);
    CongAdd(WeightedPairs(c, v, m * m), 0, WeightedRows(c, v, m), 0, p);
    forall i: nat | i < m ensures Cong(y[i], Differences(input, c.b, i * m, m, p), p) {
      HammingSound(v, c.b, i, p);
    }
  }
}
