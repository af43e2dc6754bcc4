/** Interpolation nodes that are the powers of a root of unity (`generate_root_of_unity` and the first
    `compute_set_v` in `libv/libv.cpp`). */
module RootsOfUnity {
  import opened Arith
  import opened Barycentric

  /** The powers of `w` are pairwise different and return to 1 after `n` steps. */
  ghost predicate HasOrder(w: int, n: nat, p: int)
    requires p > 0
  {
    n > 0 && Cong(Pow(w, n), 1, p) && forall i: nat :: 0 < i < n ==> !Cong(Pow(w, i), 1, p)
  }

  lemma PowOfOne(w: int, e: nat, t: nat, p: int)
    requires p > 0 && Cong(Pow(w, e), 1, p)
    ensures 0 <= e * t && Cong(Pow(w, e * t), 1, p)
  {
    PowMul(w, e, t);
    CongPow(Pow(w, e), 1, t, p);
    OnePow(t);
  }

  /** If a positive exponent below `2^k` gives 1, so does `2^(k - 1)`. */
  lemma {:induction false} OrderDivides(w: int, i: nat, n: nat, k: nat, p: int)
    requires p > 0 && n == Pow(2, k) && 0 < i < n && Cong(Pow(w, i), 1, p) && Cong(Pow(w, n), 1, p)
    ensures k >= 1 && Cong(Pow(w, Pow(2, k - 1)), 1, p)
    decreases k
  {
    var half := Pow(2, k - 1);
    if i % 2 == 1 {
      OddCase(w, i, half, p);
    } else {
      // i = 2 j: the square of w has the same property one level down
      var j := i / 2;
      PowMul(w, 2, j); PowMul(w, 2, half);
      OrderDivides(Pow(w, 2), j, half, k - 1, p);
      PowMul(w, 2, Pow(2, k - 2));
    }
  }

  lemma OddCase(w: int, i: nat, half: nat, p: int)
    requires p > 0 && i % 2 == 1 && Cong(Pow(w, i), 1, p) && Cong(Pow(w, 2 * half), 1, p)
    ensures Cong(Pow(w, half), 1, p)
  {
    var t := i / 2;
    PowOfOne(w, i, half, p);
    PowOfOne(w, 2 * half, t, p);
    assert i * half == (2 * half) * t + half by { MulDist(half, 2 * t, 1); MulAssoc(2, t, half); MulAssoc(2, half, t); assert t * half == half * t; }
    PowAdd(w, (2 * half) * t, half);
    CongMul(Pow(w, (2 * half) * t), 1, Pow(w, half), Pow(w, half), p);
  }

  /** The element the generator derives from a non-residue `x`, for a power of two `n` dividing `p - 1`,
      has order exactly `n` once the generator's own check passes. */
  lemma GeneratedOrder(x: int, w: int, n: nat, k: nat, p: int)
    requires p > 1 && n == Pow(2, k) && (p - 1) % n == 0 && Cong(w, Pow(x, Quotient(p, n)), p)
    requires !Cong(Pow(x, Quotient(p, 2)), 1, p) && Cong(Pow(w, n), 1, p)
    ensures HasOrder(w, n, p)
  {
    forall i: nat | 0 < i < n ensures !Cong(Pow(w, i), 1, p) {
      if Cong(Pow(w, i), 1, p) {
        OrderDivides(w, i, n, k, p);
        var half, e := Pow(2, k - 1), Quotient(p, n);
        CongPow(w, Pow(x, e), half, p);
        PowMul(x, e, half);
        HalfExponent(p, n, half, e);
      }
    }
  }

  lemma HalfExponent(p: int, n: nat, half: nat, e: nat)
    requires p > 1 && n == 2 * half && n > 0 && (p - 1) % n == 0 && e == Quotient(p, n)
    ensures e * half == Quotient(p, 2)
  {
    var q := (p - 1) / n;
    assert p - 1 == n * q;
    if q < 0 { MulMono(n, n, 1, -q); }
    assert p - 1 == n * e;
    assert n * e == 2 * (half * e) by { MulAssoc(2, half, e); }
    assert e * half == half * e;
  }

  /** `(p - 1) / n`. */
  function Quotient(p: int, n: nat): nat
    requires n > 0
  {
    if (p - 1) / n >= 0 then (p - 1) / n else 0
  }

  /** `generate_root_of_unity` from the point where a non-residue `x` has been found; not `ok` is its failure
      exit. */
  method GenerateRoot(x: int, n: nat, p: int) returns (ok: bool, omega: int, powers: array<int>)
    requires p > 1 && n > 0
    ensures fresh(powers) && powers.Length == n && forall i :: 0 <= i < n ==> powers[i] == Node(omega, i, p)
    ensures ok <==> Cong(Pow(omega, n), 1, p)
    ensures Cong(omega, Pow(x, Quotient(p, n)), p)
  {
    var e := Quotient(p, n);
    CongMod(Pow(x, e), p);
    omega := Pow(x, e) % p;
    SmallMod(1, p);
    ok := Pow(omega, n) % p == 1;
    powers := new int[n];
    powers[0] := 1;
    for i := 1 to n
      invariant forall j :: 0 <= j < i ==> powers[j] == Node(omega, j, p)
    {
      NodeStep(omega, i - 1, p);
      powers[i] := powers[i - 1] * omega;
      powers[i] := powers[i] % p;
    }
  }

  /** `powers_of_omega[i]`. */
  function Node(w: int, i: nat, p: int): int
    requires p > 0
  {
    Pow(w, i) % p
  }

  lemma NodeStep(w: int, i: nat, p: int)
    requires p > 0
    ensures Node(w, i + 1, p) == (Node(w, i, p) * w) % p
  {
    CongMod(Pow(w, i), p);
    CongMul(Node(w, i, p), Pow(w, i), w, w, p);
    assert Pow(w, i + 1) == w * Pow(w, i) == Pow(w, i) * w;
  }

  function Nodes(w: int, n: nat, p: int): (r: seq<int>)
    requires p > 0
    ensures |r| == n && forall i :: 0 <= i < n ==> r[i] == Node(w, i, p)
  {
    seq(n, i requires 0 <= i < n => Node(w, i, p))
  }

  // ----- weights -----

  lemma NodeDifference(w: int, j: nat, k: nat, p: int)
    requires p > 0
    ensures Cong(Node(w, j + 1, p) - Node(w, k + 1, p), w * (Node(w, j, p) - Node(w, k, p)), p)
  {
    NodeStep(w, j, p); NodeStep(w, k, p);
    var a, b := Node(w, j, p), Node(w, k, p);
    CongMod(a * w, p); CongMod(b * w, p);
    CongAdd(Node(w, j + 1, p), a * w, Node(w, k + 1, p), b * w, p);
    MulDist(w, a, b);
    assert w * (a - b) == (a - b) * w;
  }

  /** Moving to the next node multiplies the product by a power of `w`. */
  lemma {:induction false} SpanTurn(w: int, n: nat, p: int, j: nat, a: nat, b: nat)
    requires p > 0 && j + 1 < n && a <= b && b + 1 <= n
    ensures Cong(Span(Node(w, j + 1, p), Nodes(w, n, p), a + 1, b + 1), Pow(w, b - a) * Span(Node(w, j, p), Nodes(w, n, p), a, b), p)
    decreases b - a
  {
    if a < b {
      SpanTurn(w, n, p, j, a, b - 1);
      NodeDifference(w, j, b - 1, p);
      var s, t := Span(Node(w, j + 1, p), Nodes(w, n, p), a + 1, b), Span(Node(w, j, p), Nodes(w, n, p), a, b - 1);
      var d, e := Node(w, j + 1, p) - Node(w, b, p), Node(w, j, p) - Node(w, b - 1, p);
      CongMul(s, Pow(w, b - 1 - a) * t, d, w * e, p);
      TurnStep(Pow(w, b - 1 - a), t, w, e);
      assert Pow(w, b - a) == w * Pow(w, b - 1 - a);
    }
  }

  lemma TurnStep(q: int, t: int, w: int, e: int)
    ensures (q * t) * (w * e) == (w * q) * (t * e)
  {
    MulAssoc(q, t, w * e); MulSwap(t, w, e); MulAssoc(q, w, t * e); assert q * w == w * q;
  }

  /** The node after the last is the first. */
  lemma WrapAround(w: int, n: nat, p: int, j: nat)
    requires p > 0 && n >= 1 && Cong(Pow(w, n), 1, p)
    ensures Cong(Node(w, j + 1, p) - Node(w, 0, p), w * (Node(w, j, p) - Node(w, n - 1, p)), p)
  {
    NodeDifference(w, j, n - 1, p);
    CongMod(Pow(w, n), p); CongMod(Pow(w, 0), p);
    CongAdd(Node(w, j + 1, p), Node(w, j + 1, p), Node(w, n, p), Node(w, 0, p), p);
  }

  /** The products around the circle: each is `w^(n-1)` times the one before. */
  lemma OthersTurn(w: int, n: nat, p: int, j: nat)
    requires p > 0 && j + 1 < n && Cong(Pow(w, n), 1, p)
    ensures Cong(Others(Node(w, j + 1, p), Nodes(w, n, p), j + 1), Pow(w, n - 1) * Others(Node(w, j, p), Nodes(w, n, p), j), p)
  {
    var ns, x, y := Nodes(w, n, p), Node(w, j, p), Node(w, j + 1, p);
    var low, high := Span(x, ns, 0, j), Span(x, ns, j + 1, n - 1);
    SpanFront(y, ns, 0, j + 1);
    SpanTurn(w, n, p, j, 0, j);
    SpanTurn(w, n, p, j, j + 1, n - 1);
    WrapAround(w, n, p, j);
    PowAdd(w, j, n - 2 - j);
    CircleStep(y - ns[0], w, x - ns[n - 1], Span(y, ns, 1, j + 1), Pow(w, j), low, Span(y, ns, j + 2, n), Pow(w, n - 2 - j), high, p);
    assert Span(x, ns, j + 1, n) == high * (x - ns[n - 1]);
    assert Pow(w, n - 1) == w * Pow(w, n - 2);
    assert n - 2 == j + (n - 2 - j);
  }

  lemma CircleStep(f: int, w: int, e: int, s: int, a: int, low: int, t: int, b: int, high: int, p: int)
    requires p > 0 && Cong(f, w * e, p) && Cong(s, a * low, p) && Cong(t, b * high, p)
    ensures Cong((f * s) * t, (w * (a * b)) * (low * (high * e)), p)
  {
    CongMul(f, w * e, s, a * low, p);
    CongMul(f * s, (w * e) * (a * low), t, b * high, p);
    assert ((w * e) * (a * low)) * (b * high) == (w * (a * b)) * (low * (high * e)) by {
      TurnStep(w, e, a, low);
      assert (a * w) * (e * low) == (w * a) * (low * e);
      TurnStep(w * a, low * e, b, high);
      assert b * (w * a) == w * (a * b) by { MulSwap(b, w, a); assert b * a == a * b; }
      assert (low * e) * high == low * (high * e) by { MulAssoc(low, e, high); assert e * high == high * e; }
    }
  }

  lemma CircleSeparate(w: int, n: nat, p: int)
    requires IsPrime(p) && HasOrder(w, n, p)
    ensures Separate(Nodes(w, n, p), p)
  {
    forall i, j | 0 <= i < n && 0 <= j < n && i != j ensures !Cong(Nodes(w, n, p)[i] - Nodes(w, n, p)[j], 0, p) {
      if i < j { PairSeparate(w, n, i, j, p); } else { PairSeparate(w, n, j, i, p); }
    }
  }

  lemma PairSeparate(w: int, n: nat, i: nat, j: nat, p: int)
    requires IsPrime(p) && HasOrder(w, n, p) && i < j < n
    ensures !Cong(Node(w, i, p) - Node(w, j, p), 0, p) && !Cong(Node(w, j, p) - Node(w, i, p), 0, p)
  {
    var a, b := Node(w, i, p), Node(w, j, p);
    if Cong(a - b, 0, p) { CongAdd(a - b, 0, b, b, p); } else if Cong(b - a, 0, p) { CongAdd(b - a, 0, a, a, p); }
    if Cong(a, b, p) {
      CongMod(Pow(w, i), p); CongMod(Pow(w, j), p);
      PowAdd(w, i, j - i);
      UnitPower(w, n, i, p);
      CancelFactor(Pow(w, i), 1, Pow(w, j - i), p);
    }
  }

  /** Powers of a root of unity are invertible. */
  lemma UnitPower(w: int, n: nat, i: nat, p: int)
    requires IsPrime(p) && HasOrder(w, n, p) && i < n
    ensures !Cong(Pow(w, i), 0, p)
  {
    if Cong(Pow(w, i), 0, p) {
      PowAdd(w, i, n - i);
      CongMul(Pow(w, i), 0, Pow(w, n - i), Pow(w, n - i), p);
      SmallMod(0, p); SmallMod(1, p);
    }
  }

  /** `compute_set_v` for the powers of `omega`. */
  method ComputeSetVOmega(powers: array<int>, p: int, ghost w: int) returns (v: array<int>)
    requires IsPrime(p) && HasOrder(w, powers.Length, p) && powers[..] == Nodes(w, powers.Length, p)
    ensures fresh(v) && AreWeights(v[..], powers[..], p)
  {
    var n := powers.Length;
    ghost var nodes := Nodes(w, n, p);
    v := new int[n];
    var start := FirstDifferences(powers[..], p);
    CircleSeparate(w, n, p);
    FirstWeight(start, nodes, p);
    v[0] := Inv(start, p);
    var inv := Inv(powers[n - 1], p);
    for j := 0 to n - 1
      invariant forall k: nat :: k <= j ==> IsWeight(v[k], nodes, k, p)
    {
      v[j + 1] := (v[j] * inv) % p;
      TurnWeight(v[j], v[j + 1], w, n, j, p);
    }
  }

  /** The product whose inverse is `v[0]`. */
  method FirstDifferences(nodes: seq<int>, p: int) returns (start: int)
    requires p > 0 && nodes != []
    ensures Cong(start, Others(nodes[0], nodes, 0), p)
  {
    start := 1;
    for i := 1 to |nodes|
      invariant Cong(start, Span(nodes[0], nodes, 1, i), p)
    {
      CongMul(start, Span(nodes[0], nodes, 1, i), nodes[0] - nodes[i], nodes[0] - nodes[i], p);
      CongMod(start * (nodes[0] - nodes[i]), p);
      start := (start * (nodes[0] - nodes[i])) % p;
    }
  }

  lemma TurnWeight(before: int, after: int, w: int, n: nat, j: nat, p: int)
    requires IsPrime(p) && HasOrder(w, n, p) && j + 1 < n && IsWeight(before, Nodes(w, n, p), j, p)
    requires after == (before * Inv(Node(w, n - 1, p), p)) % p
    ensures IsWeight(after, Nodes(w, n, p), j + 1, p)
  {
    var q, ns := Node(w, n - 1, p), Nodes(w, n, p);
    CongMod(Pow(w, n - 1), p);
    UnitPower(w, n, n - 1, p);
    InvCorrect(q, p);
    OthersTurn(w, n, p, j);
    var o, o' := Others(ns[j], ns, j), Others(ns[j + 1], ns, j + 1);
    CongMod(before * Inv(q, p), p);
    CongMul(after, before * Inv(q, p), o', Pow(w, n - 1) * o, p);
    CongMul(q, Pow(w, n - 1), o, o, p);
    CongMul(before * Inv(q, p), before * Inv(q, p), q * o, Pow(w, n - 1) * o, p);
    TurnStep(before, Inv(q, p), q, o);
    assert (q * before) * (Inv(q, p) * o) == (q * Inv(q, p)) * (before * o) by { TurnStep(q, before, Inv(q, p), o); assert Inv(q, p) * q == q * Inv(q, p); }
    CongMul(q * Inv(q, p), 1, before * o, 1, p);
  }
}
