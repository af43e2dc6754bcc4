/** Dot products of query and proof vectors (`Venezia::dot_product` in `libv/libv.cpp`). */
module Vectors {
  import opened Arith

  /** The first `k` products, added up in order. */
  function DotTo(q: seq<int>, f: seq<int>, k: nat): int
    requires k <= |q| && k <= |f|
  {
    if k == 0 then 0 else DotTo(q, f, k - 1) + q[k - 1] * f[k - 1]
  }

  function Dot(q: seq<int>, f: seq<int>): int
    requires |q| == |f|
  {
    DotTo(q, f, |q|)
  }

  /** `dot_product`: over the integers, never reduced. */
  method DotProduct(q: seq<int>, d: seq<int>) returns (output: int)
    requires |q| == |d|
    ensures output == Dot(q, d)
  {
    output := 0;
    for i := 0 to |q|
      invariant output == DotTo(q, d, i)
    {
      output := output + d[i] * q[i];
    }
  }

  /** `r` is `con` with `k` times `q` added to it. */
  ghost predicate IsSum(r: seq<int>, con: seq<int>, k: int, q: seq<int>) {
    |r| == |con| == |q| && forall i :: 0 <= i < |r| ==> r[i] == con[i] + k * q[i]
  }

  lemma {:induction false} DotSumTo(r: seq<int>, con: seq<int>, k: int, q: seq<int>, f: seq<int>, n: nat)
    requires IsSum(r, con, k, q) && n <= |r| == |f|
    ensures DotTo(r, f, n) == DotTo(con, f, n) + k * DotTo(q, f, n)
    decreases n
  {
    if n > 0 {
      DotSumTo(r, con, k, q, f, n - 1);
      SumStep(r[n - 1], con[n - 1], k, q[n - 1], f[n - 1], DotTo(con, f, n - 1), DotTo(q, f, n - 1));
    }
  }

  lemma SumStep(r: int, c: int, k: int, q: int, f: int, x: int, y: int)
    requires r == c + k * q
    ensures (x + k * y) + r * f == (x + c * f) + k * (y + q * f)
  {
    MulDist(f, c, k * q);
    MulAssoc(k, q, f);
    MulDist(k, y, q * f);
  }

  /** Adding a multiple of a query to the consistency query adds that multiple of its answer. */
  lemma DotSum(r: seq<int>, con: seq<int>, k: int, q: seq<int>, f: seq<int>)
    requires IsSum(r, con, k, q) && |r| == |f|
    ensures Dot(r, f) == Dot(con, f) + k * Dot(q, f)
  {
    DotSumTo(r, con, k, q, f, |r|);
  }

  ghost predicate SameMod(a: seq<int>, b: seq<int>, p: int)
    requires p > 0
  {
    |a| == |b| && forall i :: 0 <= i < |a| ==> Cong(a[i], b[i], p)
  }

  lemma {:induction false} DotModTo(a: seq<int>, b: seq<int>, f: seq<int>, g: seq<int>, p: int, n: nat)
    requires p > 0 && SameMod(a, b, p) && SameMod(f, g, p) && n <= |a| == |f|
    ensures Cong(DotTo(a, f, n), DotTo(b, g, n), p)
    decreases n
  {
    if n > 0 {
      DotModTo(a, b, f, g, p, n - 1);
      CongMul(a[n - 1], b[n - 1], f[n - 1], g[n - 1], p);
      CongAdd(DotTo(a, f, n - 1), DotTo(b, g, n - 1), a[n - 1] * f[n - 1], b[n - 1] * g[n - 1], p);
    }
  }

  lemma DotMod(a: seq<int>, b: seq<int>, f: seq<int>, g: seq<int>, p: int)
    requires p > 0 && SameMod(a, b, p) && SameMod(f, g, p) && |a| == |f|
    ensures Cong(Dot(a, f), Dot(b, g), p)
  {
    DotModTo(a, b, f, g, p, |a|);
  }

  lemma {:induction false} DotChangeTo(q: seq<int>, r: seq<int>, i: nat, t: int, f: seq<int>, n: nat)
    requires i < |q| == |r| == |f| && n <= |q|
    requires r == q[i := q[i] + t]
    ensures DotTo(r, f, n) == DotTo(q, f, n) + (if i < n then t * f[i] else 0)
    decreases n
  {
    if n > 0 {
      DotChangeTo(q, r, i, t, f, n - 1);
      if n - 1 == i { MulDist(f[i], q[i], t); }
    }
  }

  /** Adding to one entry of a query adds to its answer. */
  lemma DotChange(q: seq<int>, i: nat, t: int, f: seq<int>)
    requires i < |q| == |f|
    ensures Dot(q[i := q[i] + t], f) == Dot(q, f) + t * f[i]
  {
    DotChangeTo(q, q[i := q[i] + t], i, t, f, |q|);
  }

  lemma {:induction false} DotZero(q: seq<int>, f: seq<int>, n: nat)
    requires n <= |q| && n <= |f| && forall i :: 0 <= i < |q| ==> q[i] == 0
    ensures DotTo(q, f, n) == 0
    decreases n
  {
    if n > 0 { DotZero(q, f, n - 1); }
  }

  // ----- outer products, laid out row by row -----

  lemma IndexInside(i: nat, j: nat, m: nat, n: nat)
    requires i < m && j < n
    ensures 0 <= i * n <= i * n + j < m * n
  {
    assert m * n == (m - 1) * n + n;
    MulMono(i, m - 1, n, n);
  }

  /** `q` holds `x[i] * y[j]` at `i * |y| + j`. */
  ghost predicate IsOuter(q: seq<int>, x: seq<int>, y: seq<int>) {
    |q| == |x| * |y| && forall i: nat, j: nat :: i < |x| && j < |y| ==> Cell(q, i, j, |y|) == x[i] * y[j]
  }

  function Cell(q: seq<int>, i: nat, j: nat, n: nat): int
  {
    if i * n + j < |q| then q[i * n + j] else 0
  }

  /** Writing one cell leaves the others alone. */
  lemma OtherCell(f: seq<int>, i: nat, j: nat, m: nat, n: nat, t: int, i': nat, j': nat)
    requires i < m && j < n && i' < m && j' < n && |f| == m * n
    ensures i * n + j < |f|
    ensures Cell(f[i * n + j := t], i', j', n) == if i == i' && j == j' then t else Cell(f, i', j', n)
  {
    IndexInside(i, j, m, n);
    IndexInside(i', j', m, n);
    DivModIs(i * n + j, i, j, n);
    DivModIs(i' * n + j', i', j', n);
  }

  lemma {:induction false} DotOuterTo(q: seq<int>, g: seq<int>, x: seq<int>, y: seq<int>, f: seq<int>, i: nat, j: nat)
    requires |x| == |y| == |f| && IsOuter(q, x, y) && IsOuter(g, f, f)
    requires (i < |x| && j <= |x|) || (i == |x| && j == 0)
    ensures i * |x| + j <= |q| && i * |x| + j <= |g|
    ensures DotTo(q, g, i * |x| + j)
         == DotTo(x, f, i) * Dot(y, f) + (if i < |x| then (x[i] * f[i]) * DotTo(y, f, j) else 0)
    decreases i, j
  {
    var n := |x|;
    if j > 0 {
      IndexInside(i, j - 1, n, n);
      DotOuterTo(q, g, x, y, f, i, j - 1);
      assert Cell(q, i, j - 1, n) == x[i] * y[j - 1] && Cell(g, i, j - 1, n) == f[i] * f[j - 1];
      var k := i * n + j;
      assert DotTo(q, g, k) == DotTo(q, g, k - 1) + q[k - 1] * g[k - 1];
      OuterStep(x[i], f[i], y[j - 1], f[j - 1], DotTo(y, f, j - 1));
    } else if i > 0 {
      assert i * n + j == (i - 1) * n + n;
      DotOuterTo(q, g, x, y, f, i - 1, n);
      MulDist(Dot(y, f), DotTo(x, f, i - 1), x[i - 1] * f[i - 1]);
    } else {
      assert i * n + j == 0;
      assert n == 0 || (x[0] * f[0]) * DotTo(y, f, 0) == 0;
    }
  }

  lemma OuterStep(a: int, f: int, b: int, g: int, d: int)
    ensures (a * b) * (f * g) == (a * f) * (b * g)
    ensures (a * f) * d + (a * b) * (f * g) == (a * f) * (d + b * g)
  {
    MulAssoc(a, b, f * g); MulSwap(b, f, g); MulAssoc(a, f, b * g);
    MulDist(a * f, d, b * g);
  }

  /** The query `x (x) y` put to the proof `f (x) f` returns the product of the answers to `x` and `y`. */
  lemma DotOuter(q: seq<int>, g: seq<int>, x: seq<int>, y: seq<int>, f: seq<int>)
    requires |x| == |y| == |f| && IsOuter(q, x, y) && IsOuter(g, f, f)
    ensures |q| == |g| && Dot(q, g) == Dot(x, f) * Dot(y, f)
  {
    DotOuterTo(q, g, x, y, f, |x|, 0);
  }

  /** `x (x) y` written out. */
  function Outer(x: seq<int>, y: seq<int>): (r: seq<int>)
    requires |x| == |y|
    ensures IsOuter(r, x, y)
  {
    var n := |x|;
    var r := seq(n * n, k requires 0 <= k < n * n => OuterAt(x, y, k));
    assert forall i: nat, j: nat :: i < n && j < n ==> Cell(r, i, j, n) == x[i] * y[j] by {
      forall i: nat, j: nat | i < n && j < n ensures Cell(r, i, j, n) == x[i] * y[j] {
        IndexInside(i, j, n, n);
        DivModIs(i * n + j, i, j, n);
      }
    }
    r
  }

  function OuterAt(x: seq<int>, y: seq<int>, k: int): int
    requires |x| == |y| && 0 <= k < |x| * |x|
  {
    var n := |x|;
    if 0 <= k / n < n && 0 <= k % n < n then x[k / n] * y[k % n] else 0
  }

  /** Copy `from` to the front of `to`. */
  method Copy(from: array<int>, to: array<int>)
    requires from != to && from.Length <= to.Length
    modifies to
    ensures forall k :: 0 <= k < from.Length ==> to[k] == from[k]
    ensures from.Length == to.Length ==> to[..] == from[..]
  {
    for i := 0 to from.Length
      invariant forall k :: 0 <= k < i ==> to[k] == from[k]
    {
      to[i] := from[i];
    }
  }
}
