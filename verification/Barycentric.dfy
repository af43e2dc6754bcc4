/** Barycentric interpolation of the Zaatar constraint matrices (`compute_set_v`,
    `evaluate_polynomial_at_random_point` in `libv/libv.cpp`). */
module Barycentric {
  import opened Arith

  // ----- products over nodes -----

  /** `(x - nodes[a]) ... (x - nodes[b - 1])`. */
  function Span(x: int, nodes: seq<int>, a: nat, b: nat): int
    requires a <= b <= |nodes|
    decreases b - a
  {
    if a == b then 1 else Span(x, nodes, a, b - 1) * (x - nodes[b - 1])
  }

  /** The product over all nodes but `j`. */
  function Others(x: int, nodes: seq<int>, j: nat): int
    requires j < |nodes|
  {
    Span(x, nodes, 0, j) * Span(x, nodes, j + 1, |nodes|)
  }

  lemma {:induction false} SpanFront(x: int, nodes: seq<int>, a: nat, b: nat)
    requires a < b <= |nodes|
    ensures Span(x, nodes, a, b) == (x - nodes[a]) * Span(x, nodes, a + 1, b)
    decreases b - a
  {
    if a + 1 < b {
      SpanFront(x, nodes, a, b - 1);
      MulAssoc(x - nodes[a], Span(x, nodes, a + 1, b - 1), x - nodes[b - 1]);
    }
  }

  lemma {:induction false} SpanJoin(x: int, nodes: seq<int>, a: nat, m: nat, b: nat)
    requires a <= m <= b <= |nodes|
    ensures Span(x, nodes, a, b) == Span(x, nodes, a, m) * Span(x, nodes, m, b)
    decreases b - m
  {
    if m < b {
      SpanJoin(x, nodes, a, m, b - 1);
      MulAssoc(Span(x, nodes, a, m), Span(x, nodes, m, b - 1), x - nodes[b - 1]);
    }
  }

  /** The full product is the missing factor times the others. */
  lemma SpanOthers(x: int, nodes: seq<int>, j: nat)
    requires j < |nodes|
    ensures Span(x, nodes, 0, |nodes|) == (x - nodes[j]) * Others(x, nodes, j)
  {
    SpanJoin(x, nodes, 0, j, |nodes|);
    SpanFront(x, nodes, j, |nodes|);
    MulSwap(Span(x, nodes, 0, j), x - nodes[j], Span(x, nodes, j + 1, |nodes|));
  }

  /** A product vanishes at each of its nodes. */
  lemma {:induction false} SpanVanishes(i: nat, nodes: seq<int>, a: nat, b: nat)
    requires a <= i < b <= |nodes|
    ensures Span(nodes[i], nodes, a, b) == 0
    decreases b - a
  {
    if i < b - 1 { SpanVanishes(i, nodes, a, b - 1); }
  }

  // ----- nodes, weights, interpolation -----

  ghost predicate Separate(nodes: seq<int>, p: int)
    requires p > 0
  {
    forall i, j :: 0 <= i < |nodes| && 0 <= j < |nodes| && i != j ==> !Cong(nodes[i] - nodes[j], 0, p)
  }

  lemma {:induction false} SpanUnit(x: int, nodes: seq<int>, a: nat, b: nat, p: int)
    requires IsPrime(p) && a <= b <= |nodes| && forall k :: a <= k < b ==> !Cong(x - nodes[k], 0, p)
    ensures !Cong(Span(x, nodes, a, b), 0, p)
    decreases b - a
  {
    if a == b {
      SmallMod(0, p); SmallMod(1, p);
    } else {
      SpanUnit(x, nodes, a, b - 1, p);
      if Cong(Span(x, nodes, a, b), 0, p) { NoZeroDivisors(Span(x, nodes, a, b - 1), x - nodes[b - 1], p); }
    }
  }

  /** `v[j]` is the inverse of the product of the differences to the other nodes. */
  ghost predicate IsWeight(v: int, nodes: seq<int>, j: nat, p: int)
    requires p > 0 && j < |nodes|
  {
    Cong(v * Others(nodes[j], nodes, j), 1, p)
  }

  ghost predicate AreWeights(v: seq<int>, nodes: seq<int>, p: int)
    requires p > 0
  {
    |v| == |nodes| && forall j :: 0 <= j < |v| ==> IsWeight(v[j], nodes, j, p)
  }

  /** The Lagrange interpolant of the values `y`, up to term `n`. */
  function LagrangeTo(y: seq<int>, v: seq<int>, nodes: seq<int>, x: int, n: nat): int
    requires |y| == |v| == |nodes| && n <= |y|
  {
    if n == 0 then 0 else LagrangeTo(y, v, nodes, x, n - 1) + y[n - 1] * (v[n - 1] * Others(x, nodes, n - 1))
  }

  function Lagrange(y: seq<int>, v: seq<int>, nodes: seq<int>, x: int): int
    requires |y| == |v| == |nodes|
  {
    LagrangeTo(y, v, nodes, x, |y|)
  }

  lemma OthersAtNode(nodes: seq<int>, i: nat, j: nat)
    requires i < |nodes| && j < |nodes| && i != j
    ensures Others(nodes[i], nodes, j) == 0
  {
    if i < j { SpanVanishes(i, nodes, 0, j); } else { SpanVanishes(i, nodes, j + 1, |nodes|); }
  }

  /** The interpolant takes the given values at the nodes. */
  lemma {:induction false} LagrangeAtNode(y: seq<int>, v: seq<int>, nodes: seq<int>, i: nat, n: nat, p: int)
    requires p > 0 && |y| == |v| == |nodes| && i < |y| && n <= |y| && IsWeight(v[i], nodes, i, p)
    ensures Cong(LagrangeTo(y, v, nodes, nodes[i], n), if i < n then y[i] else 0, p)
    decreases n
  {
    if n > 0 {
      LagrangeAtNode(y, v, nodes, i, n - 1, p);
      var o := Others(nodes[i], nodes, n - 1);
      if n - 1 == i {
        CongMul(y[i], y[i], v[i] * o, 1, p);
        CongAdd(LagrangeTo(y, v, nodes, nodes[i], n - 1), 0, y[i] * (v[i] * o), y[i], p);
      } else {
        OthersAtNode(nodes, i, n - 1);
        assert y[n - 1] * (v[n - 1] * 0) == 0;
      }
    }
  }

  // ----- compute_set_v for the points 0, 1, ..., size - 1 -----

  function Counting(size: nat): (r: seq<int>)
    ensures |r| == size && forall i :: 0 <= i < size ==> r[i] == i
  {
    seq(size, i => i)
  }

  /** Moving the point by one moves the product by one node. */
  lemma {:induction false} SpanShift(x: int, size: nat, a: nat, b: nat)
    requires a <= b < size
    ensures Span(x - 1, Counting(size), a, b) == Span(x, Counting(size), a + 1, b + 1)
    decreases b - a
  {
    if a < b { SpanShift(x, size, a, b - 1); }
  }

  lemma {:induction false} SpanWiden(x: int, size: nat, wide: nat, a: nat, b: nat)
    requires a <= b <= size <= wide
    ensures Span(x, Counting(size), a, b) == Span(x, Counting(wide), a, b)
    decreases b - a
  {
    if a < b { SpanWiden(x, size, wide, a, b - 1); }
  }

  /** The recurrence behind the loop: neighbouring products differ by the factor `j / (j - size)`. */
  lemma OthersStep(size: nat, j: nat)
    requires 1 <= j < size
    ensures Others(j, Counting(size), j) * (j - size) == j * Others(j - 1, Counting(size), j - 1)
  {
    var wide := size + 1;
    SpanWiden(j, size, wide, 0, j); SpanWiden(j, size, wide, j + 1, size);
    SpanWiden(j - 1, size, wide, 0, j - 1); SpanWiden(j - 1, size, wide, j, size);
    SpanShift(j, wide, 0, j - 1);
    SpanShift(j, wide, j, size);
    SpanFront(j, Counting(wide), 0, j);
    var low, high := Span(j, Counting(wide), 1, j), Span(j, Counting(wide), j + 1, size);
    assert Span(j, Counting(wide), j + 1, size + 1) == high * (j - size);
    assert ((j * low) * high) * (j - size) == j * (low * (high * (j - size))) by {
      MulAssoc(j, low, high); MulAssoc(j, low * high, j - size); MulAssoc(low, high, j - size);
    }
  }

  lemma CountingSeparate(size: nat, p: int)
    requires 0 < size <= p
    ensures Separate(Counting(size), p)
  {
    forall i, j | 0 <= i < size && 0 <= j < size && i != j
      ensures !Cong(Counting(size)[i] - Counting(size)[j], 0, p) {
      if Cong(i - j, 0, p) { CongClose(i - j, 0, p); }
    }
  }

  /** `compute_set_v` for counting points. */
  method ComputeSetV(size: nat, p: int) returns (v: array<int>)
    requires IsPrime(p) && 0 < size <= p
    ensures fresh(v) && AreWeights(v[..], Counting(size), p)
  {
    v := new int[size];
    var start := FirstProduct(size, p);
    CountingSeparate(size, p);
    FirstWeight(start, Counting(size), p);
    v[0] := Inv(start, p);
    for j := 1 to size
      invariant forall k: nat :: k < j ==> IsWeight(v[k], Counting(size), k, p)
    {
      ghost var before := v[j - 1];
      v[j] := v[j - 1];
      v[j] := (v[j] * Inv(j, p)) % p;
      v[j] := (v[j] * (j - size)) % p;
      NextWeight(before, v[j], size, j, p);
    }
  }

  /** The product whose inverse is `v[0]`. */
  method FirstProduct(size: nat, p: int) returns (r: int)
    requires p > 1 && 0 < size
    ensures Cong(r, Others(0, Counting(size), 0), p)
  {
    r := 1;
    for i := 1 to size
      invariant Cong(r, Span(0, Counting(size), 1, i), p)
    {
      CongMul(r, Span(0, Counting(size), 1, i), -i, -i, p);
      CongMod(r * -i, p);
      r := (r * -i) % p;
    }
  }

  lemma FirstWeight(start: int, nodes: seq<int>, p: int)
    requires IsPrime(p) && nodes != [] && Separate(nodes, p) && Cong(start, Others(nodes[0], nodes, 0), p)
    ensures IsWeight(Inv(start, p), nodes, 0, p)
  {
    var o := Others(nodes[0], nodes, 0);
    SpanUnit(nodes[0], nodes, 1, |nodes|, p);
    assert o == 1 * Span(nodes[0], nodes, 1, |nodes|);
    InvCorrect(start, p);
    CongMul(Inv(start, p), Inv(start, p), start, o, p);
    assert Inv(start, p) * start == start * Inv(start, p);
  }

  lemma NextWeight(before: int, after: int, size: nat, j: nat, p: int)
    requires IsPrime(p) && 1 <= j < size <= p && IsWeight(before, Counting(size), j - 1, p)
    requires after == (((before * Inv(j, p)) % p) * (j - size)) % p
    ensures IsWeight(after, Counting(size), j, p)
  {
    var o, o' := Others(j - 1, Counting(size), j - 1), Others(j, Counting(size), j);
    OthersStep(size, j);
    SmallMod(0, p); SmallMod(j, p);
    InvCorrect(j, p);
    CongMod(before * Inv(j, p), p);
    CongMul((before * Inv(j, p)) % p, before * Inv(j, p), j - size, j - size, p);
    CongMod(((before * Inv(j, p)) % p) * (j - size), p);
    CongMul(after, (before * Inv(j, p)) * (j - size), o', o', p);
    RecurrenceStep(before, Inv(j, p), j - size, o', j, o, p);
  }

  lemma RecurrenceStep(b: int, i: int, s: int, o': int, j: int, o: int, p: int)
    requires p > 0 && o' * s == j * o && Cong(j * i, 1, p) && Cong(b * o, 1, p)
    ensures Cong(((b * i) * s) * o', 1, p)
  {
    assert ((b * i) * s) * o' == (j * i) * (b * o) by {
      MulAssoc(b * i, s, o'); assert s * o' == o' * s;
      MulAssoc(b, i, j * o); MulSwap(i, j, o); MulAssoc(j, i, o); MulSwap(b, j * i, o);
    }
    CongMul(j * i, 1, b * o, 1, p);
  }
}
