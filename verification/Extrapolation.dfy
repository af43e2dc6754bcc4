/** Extrapolation of round polynomials from their values at `0, 1, ..., n - 1` (`extrap`, `extrap3`,
    `bary_precompute_weights`, `bary_precompute_weights3` and `bary_extrap` in `cmtgkr/cmtgkr_env.cpp`): each
    returns the value at `r` of the polynomial through those points. */
module Extrapolation {
  import opened Arith
  import opened Vectors
  import opened Barycentric
  import opened Interpolation

  /** `m` is the value at `r` of the Lagrange basis polynomial of node `i`. */
  ghost predicate IsBasis(m: int, n: nat, i: nat, r: int, p: int)
    requires p > 0 && i < n
  {
    Cong(m * Others(i, Counting(n), i), Others(r, Counting(n), i), p)
  }

  ghost predicate AreBasis(w: seq<int>, r: int, p: int)
    requires p > 0
  {
    forall i :: 0 <= i < |w| ==> IsBasis(w[i], |w|, i, r, p)
  }

  /** Every polynomial with at most `|y|` coefficients that takes the values `y` at `0, 1, ...` has the value `out`
      at `r`. */
  ghost predicate Extrapolates(out: int, y: seq<int>, r: int, p: int)
    requires p > 0
  {
    forall c: seq<int> :: |c| <= |y| && Takes(c, y, p) ==> Cong(out, Eval(c, r), p)
  }

  ghost predicate Takes(c: seq<int>, y: seq<int>, p: int)
    requires p > 0
  {
    forall j :: 0 <= j < |y| ==> Cong(Eval(c, j), y[j], p)
  }

  // ----- combining the values with basis values -----

  lemma UnitOthers(n: nat, i: nat, p: int)
    requires IsPrime(p) && i < n <= p
    ensures !Cong(Others(i, Counting(n), i), 0, p)
  {
    var nodes := Counting(n);
    CountingSeparate(n, p);
    assert forall k :: 0 <= k < n && k != i ==> !Cong(nodes[i] - nodes[k], 0, p);
    SpanUnit(i, nodes, 0, i, p);
    SpanUnit(i, nodes, i + 1, n, p);
    if Cong(Others(i, nodes, i), 0, p) { NoZeroDivisors(Span(i, nodes, 0, i), Span(i, nodes, i + 1, n), p); }
  }

  lemma TrueWeights(n: nat, p: int) returns (v: seq<int>)
    requires IsPrime(p) && n <= p
    ensures AreWeights(v, Counting(n), p)
  {
    v := seq(n, i requires 0 <= i < n => Inv(Others(i, Counting(n), i), p));
    forall i | 0 <= i < n ensures IsWeight(v[i], Counting(n), i, p) {
      UnitOthers(n, i, p);
      var o := Others(i, Counting(n), i);
      InvCorrect(o, p);
      assert v[i] * o == o * v[i];
    }
  }

  /** A basis value is the weight times the product over the other nodes. */
  lemma BasisIsWeighted(m: int, v: int, o: int, q: int, p: int)
    requires p > 0 && Cong(m * o, q, p) && Cong(v * o, 1, p)
    ensures Cong(m, v * q, p)
  {
    CongMul(v, v, m * o, q, p);
    MulSwap(v, m, o);
    CongMul(m, m, v * o, 1, p);
  }

  lemma {:induction false} CombinedTo(w: seq<int>, y: seq<int>, v: seq<int>, r: int, k: nat, p: int)
    requires p > 0 && |w| == |y| && k <= |w| && AreBasis(w, r, p) && AreWeights(v, Counting(|w|), p)
    ensures Cong(DotTo(w, y, k), LagrangeTo(y, v, Counting(|w|), r, k), p)
    decreases k
  {
    if k > 0 {
      var i, nodes := k - 1, Counting(|w|);
      CombinedTo(w, y, v, r, i, p);
      var o, q := Others(i, nodes, i), Others(r, nodes, i);
      assert IsBasis(w[i], |w|, i, r, p) && IsWeight(v[i], nodes, i, p);
      BasisIsWeighted(w[i], v[i], o, q, p);
      CongMul(y[i], y[i], w[i], v[i] * q, p);
      assert w[i] * y[i] == y[i] * w[i];
      CongAdd(DotTo(w, y, i), LagrangeTo(y, v, nodes, r, i), w[i] * y[i], y[i] * (v[i] * q), p);
    }
  }

  /** Values combined with basis values extrapolate. */
  lemma CombinationExtrapolates(w: seq<int>, y: seq<int>, r: int, p: int, out: int)
    requires IsPrime(p) && |w| == |y| <= p && AreBasis(w, r, p) && Cong(out, Dot(w, y), p)
    ensures Extrapolates(out, y, r, p)
  {
    var n := |w|;
    var nodes := Counting(n);
    var v := TrueWeights(n, p);
    CombinedTo(w, y, v, r, n, p);
    if n > 0 { CountingSeparate(n, p); }
    forall c: seq<int> | |c| <= |y| && Takes(c, y, p) ensures Cong(out, Eval(c, r), p) {
      forall j | 0 <= j < n ensures Cong(Eval(c, nodes[j]), y[j], p) { assert nodes[j] == j; }
      InterpolantUnique(c, y, v, nodes, r, p);
    }
  }

  // ----- products with one factor left out, as the loops take them -----

  /** The factors below `k`, without factor `i`. */
  function OthersTo(x: int, i: nat, k: nat): int {
    if k == 0 then 1 else OthersTo(x, i, k - 1) * (if k - 1 == i then 1 else x - (k - 1))
  }

  lemma {:induction false} OthersToSpan(x: int, n: nat, i: nat, k: nat)
    requires k <= n && i < n
    ensures OthersTo(x, i, k)
         == if k <= i then Span(x, Counting(n), 0, k) else Span(x, Counting(n), 0, i) * Span(x, Counting(n), i + 1, k)
    decreases k
  {
    if k > 0 {
      OthersToSpan(x, n, i, k - 1);
      if k > i + 1 { MulAssoc(Span(x, Counting(n), 0, i), Span(x, Counting(n), i + 1, k - 1), x - (k - 1)); }
    }
  }

  lemma OthersToAll(x: int, n: nat, i: nat)
    requires i < n
    ensures OthersTo(x, i, n) == Others(x, Counting(n), i)
  {
    OthersToSpan(x, n, i, n);
  }

  // ----- extrap -----

  lemma FactorStep(mult: int, a: int, b: int, d: int, e: int, p: int)
    requires IsPrime(p) && Cong(mult * a, b, p) && !Cong(d, 0, p)
    ensures Cong((((mult * Inv(d, p)) * e) % p) * (a * d), b * e, p)
  {
    var inv := Inv(d, p);
    InvCorrect(d, p);
    CongMod((mult * inv) * e, p);
    CongMul(((mult * inv) * e) % p, (mult * inv) * e, a * d, a * d, p);
    assert ((mult * inv) * e) * (a * d) == ((mult * a) * e) * (d * inv) by {
      MulAssoc(mult, inv, e); MulSwap(mult * (inv * e), a, d);
      MulAssoc(mult, a, e); MulAssoc(mult, inv * e, a * d); MulSwap(inv * e, a, d);
      assert (inv * e) * d == e * (d * inv) by { assert inv * e == e * inv; MulAssoc(e, inv, d); assert inv * d == d * inv; }
      MulAssoc(mult * a, e, d * inv); MulAssoc(mult, a, e * (d * inv));
    }
    CongMul(mult * a, b, e, e, p);
    CongMul((mult * a) * e, b * e, d * inv, 1, p);
  }

  /** The inner loop of `extrap`: one basis value. */
  method BasisValue(n: nat, i: nat, r: int, p: int) returns (mult: int)
    requires IsPrime(p) && i < n <= p
    ensures IsBasis(mult, n, i, r, p)
  {
    mult := 1;
    for j := 0 to n
      invariant Cong(mult * OthersTo(i, i, j), OthersTo(r, i, j), p)
    {
      if i != j {
        if Cong(i - j, 0, p) { CongClose(i - j, 0, p); }
        FactorStep(mult, OthersTo(i, i, j), OthersTo(r, i, j), i - j, r - j, p);
        mult := mult * Inv(i - j, p);
        mult := (mult * (r - j)) % p;
      }
    }
    OthersToAll(i, n, i);
    OthersToAll(r, n, i);
  }

  /** `extrap`, at every point, nodes included. */
  method Extrap(vec: seq<int>, r: int, p: int) returns (out: int)
    requires IsPrime(p) && |vec| <= p
    ensures Extrapolates(out, vec, r, p) && 0 <= out < p
  {
    var n := |vec|;
    out := 0;
    ghost var w: seq<int> := [];
    for i := 0 to n
      invariant |w| == i && forall k :: 0 <= k < i ==> IsBasis(w[k], n, k, r, p)
      invariant 0 <= out < p && Cong(out, DotTo(w, vec[..i], i), p)
    {
      var mult := BasisValue(n, i, r, p);
      DotSnoc(w, vec[..i], mult, vec[i]);
      assert vec[..i] + [vec[i]] == vec[..i + 1];
      CongAdd(out, DotTo(w, vec[..i], i), mult * vec[i], mult * vec[i], p);
      CongMod(out + mult * vec[i], p);
      w := w + [mult];
      out := (out + mult * vec[i]) % p;
    }
    assert vec[..n] == vec;
    CombinationExtrapolates(w, vec, r, p, out);
  }

  lemma {:induction false} DotPrefixSame(w: seq<int>, y: seq<int>, a: int, b: int, k: nat)
    requires |w| == |y| && k <= |w|
    ensures DotTo(w + [a], y + [b], k) == DotTo(w, y, k)
    decreases k
  {
    if k > 0 { DotPrefixSame(w, y, a, b, k - 1); }
  }

  lemma DotSnoc(w: seq<int>, y: seq<int>, a: int, b: int)
    requires |w| == |y|
    ensures DotTo(w + [a], y + [b], |w| + 1) == DotTo(w, y, |w|) + a * b
  {
    DotPrefixSame(w, y, a, b, |w|);
  }

  // ----- bary_precompute_weights and bary_extrap -----

  /** `r` is one of the nodes, in the field. */
  ghost predicate AtNode(r: int, n: nat, p: int)
    requires p > 0
  {
    exists j :: 0 <= j < n && Cong(r - Counting(n)[j], 0, p)
  }

  /** The product of the differences to the other nodes, as the first inner loop takes it. */
  method Differences(n: nat, i: nat) returns (w: int)
    requires i < n
    ensures w == Others(i, Counting(n), i)
  {
    w := 1;
    for j := 0 to n
      invariant w == OthersTo(i, i, j)
    {
      if i != j { w := w * (i - j); }
    }
    OthersToAll(i, n, i);
  }

  /** `bary_precompute_weights`. At a node the last pass multiplies every weight by 0. */
  method BaryWeights(n: nat, r: int, p: int) returns (weights: array<int>)
    requires IsPrime(p) && n <= p
    ensures fresh(weights) && weights.Length == n
    ensures !AtNode(r, n, p) ==> AreBasis(weights[..], r, p)
    ensures AtNode(r, n, p) ==> forall i :: 0 <= i < n ==> weights[i] == 0
  {
    weights := new int[n];
    var nodes := Counting(n);
    var lx := 1;
    for i := 0 to n
      invariant Cong(lx, Span(r, nodes, 0, i), p)
      invariant forall k :: 0 <= k < i ==> weights[k] == Inv(Others(k, nodes, k) * (r - k), p)
    {
      var w := Differences(n, i);
      weights[i] := Inv(w * (r - i), p);
      CongMul(lx, Span(r, nodes, 0, i), r - i, r - i, p);
      CongMod(lx * (r - i), p);
      lx := (lx * (r - i)) % p;
    }
    LastFactor(r, n, lx, p);
    for i := 0 to n
      invariant forall k :: i <= k < n ==> weights[k] == Inv(Others(k, nodes, k) * (r - k), p)
      invariant forall k :: 0 <= k < i ==> if AtNode(r, n, p) then weights[k] == 0 else IsBasis(weights[k], n, k, r, p)
    {
      if !AtNode(r, n, p) { WeightIsBasis(n, i, r, lx, p); }
      ScaledZero(weights[i], lx, p);
      weights[i] := (weights[i] * lx) % p;
    }
  }

  lemma ScaledZero(w: int, lx: int, p: int)
    requires p > 0
    ensures Cong(lx, 0, p) ==> (w * lx) % p == 0
  {
    if Cong(lx, 0, p) {
      CongMul(w, w, lx, 0, p);
      SmallMod(0, p);
    }
  }

  /** The full product vanishes exactly at the nodes. */
  lemma LastFactor(r: int, n: nat, lx: int, p: int)
    requires IsPrime(p) && Cong(lx, Span(r, Counting(n), 0, n), p)
    ensures Cong(lx, 0, p) <==> AtNode(r, n, p)
  {
    var nodes := Counting(n);
    if AtNode(r, n, p) {
      var j :| 0 <= j < n && Cong(r - nodes[j], 0, p);
      SpanOthers(r, nodes, j);
      CongMul(r - j, 0, Others(r, nodes, j), Others(r, nodes, j), p);
    } else {
      SpanUnit(r, nodes, 0, n, p);
    }
  }

  lemma WeightIsBasis(n: nat, i: nat, r: int, lx: int, p: int)
    requires IsPrime(p) && i < n <= p && Cong(lx, Span(r, Counting(n), 0, n), p) && !AtNode(r, n, p)
    ensures IsBasis((Inv(Others(i, Counting(n), i) * (r - i), p) * lx) % p, n, i, r, p)
  {
    var nodes := Counting(n);
    var o, d, q := Others(i, nodes, i), r - i, Others(r, nodes, i);
    var inv := Inv(o * d, p);
    UnitOthers(n, i, p);
    assert !Cong(r - nodes[i], 0, p);
    if Cong(o * d, 0, p) { NoZeroDivisors(o, d, p); }
    InvCorrect(o * d, p);
    SpanOthers(r, nodes, i);
    BasisNumbers(inv, o, d, q, lx, p);
  }

  lemma BasisNumbers(inv: int, o: int, d: int, q: int, lx: int, p: int)
    requires p > 0 && Cong((o * d) * inv, 1, p) && Cong(lx, d * q, p)
    ensures Cong(((inv * lx) % p) * o, q, p)
  {
    CongMod(inv * lx, p);
    CongMul(inv, inv, lx, d * q, p);
    CongMul((inv * lx) % p, inv * (d * q), o, o, p);
    assert (inv * (d * q)) * o == ((o * d) * inv) * q by {
      MulAssoc(inv, d, q); MulAssoc(inv * d, q, o); assert q * o == o * q; MulAssoc(inv * d, o, q);
      assert (inv * d) * o == o * (inv * d); assert inv * d == d * inv; MulAssoc(o, d, inv);
    }
    CongMul((o * d) * inv, 1, q, q, p);
  }

  /** `bary_extrap` on one group of values. */
  method BaryExtrapOne(y: seq<int>, weights: seq<int>, p: int) returns (out: int)
    requires p > 0 && |y| == |weights|
    ensures Cong(out, Dot(weights, y), p) && 0 <= out < p
  {
    out := 0;
    for i := 0 to |weights|
      invariant out == DotTo(weights, y, i)
    {
      out := out + weights[i] * y[i];
    }
    CongMod(out, p);
    out := out % p;
  }

  /** Group `b` of `n` entries. */
  function Group(vec: seq<int>, n: nat, b: nat): seq<int> {
    if 0 <= b * n <= (b + 1) * n <= |vec| then vec[b * n..(b + 1) * n] else []
  }

  ghost predicate IsGroupValue(x: int, vec: seq<int>, weights: seq<int>, b: nat, p: int)
    requires p > 0
  {
    |Group(vec, |weights|, b)| == |weights| && Cong(x, Dot(weights, Group(vec, |weights|, b)), p)
  }

  /** `bary_extrap`: one value for each group of `|weights|` entries. */
  method BaryExtrap(count: nat, vec: seq<int>, weights: seq<int>, p: int) returns (rop: array<int>)
    requires p > 0 && |vec| == count * |weights|
    ensures fresh(rop) && rop.Length == count
    ensures forall b: nat :: b < count ==> IsGroupValue(rop[b], vec, weights, b, p)
  {
    rop := new int[count];
    for b := 0 to count
      invariant forall k: nat :: k < b ==> IsGroupValue(rop[k], vec, weights, k, p)
    {
      GroupFits(b, count, |weights|);
      rop[b] := BaryExtrapOne(Group(vec, |weights|, b), weights, p);
    }
  }

  lemma GroupFits(b: nat, count: nat, n: nat)
    requires b < count
    ensures 0 <= b * n && (b + 1) * n == b * n + n && (b + 1) * n <= count * n
  {
    MulMono(0, b, 0, n);
    MulMono(b + 1, count, n, n);
  }

  /** Weights and combination together, exactly: right for all values if and only if `r` is not a node; at a
      node the result is 0. */
  lemma BaryExact(weights: seq<int>, r: int, p: int)
    requires IsPrime(p) && 1 <= |weights| <= p
    requires !AtNode(r, |weights|, p) ==> AreBasis(weights, r, p)
    requires AtNode(r, |weights|, p) ==> forall i :: 0 <= i < |weights| ==> weights[i] == 0
    ensures (forall y: seq<int> :: |y| == |weights| ==> Extrapolates(Dot(weights, y), y, r, p))
            <==> !AtNode(r, |weights|, p)
  {
    var n := |weights|;
    if AtNode(r, n, p) {
      BaryFails(weights, seq(n, _ => 1), r, p);
    } else {
      forall y: seq<int> | |y| == n ensures Extrapolates(Dot(weights, y), y, r, p) {
        CombinationExtrapolates(weights, y, r, p, Dot(weights, y));
      }
    }
  }

  /** The constant 1, extrapolated to a node, comes out as 0. */
  lemma BaryFails(weights: seq<int>, y: seq<int>, r: int, p: int)
    requires IsPrime(p) && 1 <= |weights| == |y| && forall i :: 0 <= i < |y| ==> weights[i] == 0 && y[i] == 1
    ensures Dot(weights, y) == 0 && !Extrapolates(Dot(weights, y), y, r, p)
  {
    ZeroWeights(weights, y, |y|);
    var c := [1];
    assert c[1..] == [];
    assert forall x :: Eval(c, x) == 1 + x * Eval([], x);
    assert Takes(c, y, p);
    SmallMod(0, p); SmallMod(1, p);
  }

  lemma {:induction false} ZeroWeights(w: seq<int>, y: seq<int>, k: nat)
    requires |w| == |y| && k <= |w| && forall i :: 0 <= i < |w| ==> w[i] == 0
    ensures DotTo(w, y, k) == 0
    decreases k
  {
    if k > 0 { ZeroWeights(w, y, k - 1); }
  }

  // ----- three points -----

  /** `(prime + 1) / 2` is the inverse of 2. */
  lemma HalfInverse(p: int)
    requires IsPrime(p) && 2 < p
    ensures Cong(2 * ((p + 1) / 2), 1, p)
  {
    assert p % 2 == 1;
    assert 2 * ((p + 1) / 2) == p + 1;
    CongShift(1, 1, p);
  }

  lemma ThreeOthers(x: int)
    ensures Others(x, Counting(3), 0) == (x - 1) * (x - 2)
    ensures Others(x, Counting(3), 1) == x * (x - 2)
    ensures Others(x, Counting(3), 2) == x * (x - 1)
  {
    OthersToAll(x, 3, 0);
    OthersToAll(x, 3, 1);
    OthersToAll(x, 3, 2);
    assert OthersTo(x, 0, 3) == OthersTo(x, 0, 2) * (x - 2) && OthersTo(x, 0, 2) == OthersTo(x, 0, 1) * (x - 1);
    assert OthersTo(x, 1, 3) == OthersTo(x, 1, 2) * (x - 2) && OthersTo(x, 1, 2) == OthersTo(x, 1, 1) * 1;
    assert OthersTo(x, 2, 3) == OthersTo(x, 2, 2) * 1 && OthersTo(x, 2, 2) == OthersTo(x, 2, 1) * (x - 1);
  }

  /** `bary_precompute_weights3`, at every point, nodes included. */
  method BaryWeights3(r: int, p: int) returns (w: seq<int>)
    requires IsPrime(p) && 2 < p
    ensures |w| == 3 && AreBasis(w, r, p)
  {
    var t0, t1, t2 := r, r - 1, r - 2;
    var w0, w1, w2 := t1 * t2, t2 * t0, t0 * t1;
    var half := (p + 1) / 2;
    HalfInverse(p);
    w := [(w0 * half) % p, (w1 * -1) % p, (w2 * half) % p];
    ThreeBasis(w, r, w0, w1, w2, half, p);
  }

  lemma ThreeBasis(w: seq<int>, r: int, a: int, b: int, c: int, half: int, p: int)
    requires p > 0 && Cong(2 * half, 1, p) && a == (r - 1) * (r - 2) && b == (r - 2) * r && c == r * (r - 1)
    requires w == [(a * half) % p, (b * -1) % p, (c * half) % p]
    ensures AreBasis(w, r, p)
  {
    ThreeOthers(r); ThreeOthers(0); ThreeOthers(1); ThreeOthers(2);
    HalfBasis(a, half, p);
    HalfBasis(c, half, p);
    assert b == r * (r - 2);
    CongMod(b * -1, p);
    CongMul((b * -1) % p, b * -1, -1, -1, p);
    assert IsBasis(w[0], 3, 0, r, p) && IsBasis(w[1], 3, 1, r, p) && IsBasis(w[2], 3, 2, r, p);
  }

  lemma HalfBasis(q: int, half: int, p: int)
    requires p > 0 && Cong(2 * half, 1, p)
    ensures Cong(((q * half) % p) * 2, q, p)
  {
    CongMod(q * half, p);
    CongMul((q * half) % p, q * half, 2, 2, p);
    assert (q * half) * 2 == q * (2 * half);
    CongMul(q, q, 2 * half, 1, p);
  }

  /** `extrap3`. */
  method Extrap3(vec: seq<int>, r: int, p: int) returns (rop: int)
    requires IsPrime(p) && 2 < p && |vec| == 3
    ensures Extrapolates(rop, vec, r, p) && 0 <= rop < p
  {
    var t1, t2 := r - 1, r - 2;
    rop := t1 * t2;
    rop := rop * vec[0];
    t2 := t2 * 2;
    t2 := t2 * vec[1];
    t1 := t1 * vec[2];
    t1 := t1 - t2;
    t1 := t1 * r;
    rop := rop + t1;
    var half := (p + 1) / 2;
    ghost var w := BasisThree(r, half, p);
    HalfInverse(p);
    ThreeTerms(vec[0], vec[1], vec[2], r);
    HalvedSum(vec[0], vec[1], vec[2], (r - 1) * (r - 2), r * (r - 2), r * (r - 1), half, p);
    CongMod(rop * half, p);
    rop := (rop * half) % p;
    DotThree(w, vec);
    CombinationExtrapolates(w, vec, r, p, rop);
  }

  lemma DotThree(w: seq<int>, y: seq<int>)
    requires |w| == |y| == 3
    ensures Dot(w, y) == (w[0] * y[0] + w[1] * y[1]) + w[2] * y[2]
  {
    assert DotTo(w, y, 2) == DotTo(w, y, 1) + w[1] * y[1] && DotTo(w, y, 1) == DotTo(w, y, 0) + w[0] * y[0];
  }

  lemma ThreeTerms(u: int, v: int, w: int, r: int)
    ensures ((r - 1) * (r - 2)) * u + ((r - 1) * w - ((r - 2) * 2) * v) * r
         == ((r - 1) * (r - 2)) * u + ((r * (r - 1)) * w - 2 * ((r * (r - 2)) * v))
  {
    MulDist(r, (r - 1) * w, ((r - 2) * 2) * v);
    assert ((r - 1) * w) * r == (r * (r - 1)) * w by { MulAssoc(r, r - 1, w); }
    assert (((r - 2) * 2) * v) * r == 2 * ((r * (r - 2)) * v) by {
      MulAssoc(r - 2, 2, v); MulSwap(r - 2, 2, v); MulAssoc(2, (r - 2) * v, r); MulAssoc(r, r - 2, v);
    }
  }

  /** The unreduced basis values. */
  lemma BasisThree(r: int, half: int, p: int) returns (w: seq<int>)
    requires IsPrime(p) && 2 < p && half == (p + 1) / 2
    ensures w == [((r - 1) * (r - 2)) * half, -(r * (r - 2)), (r * (r - 1)) * half] && AreBasis(w, r, p)
  {
    var a, b, c := (r - 1) * (r - 2), r * (r - 2), r * (r - 1);
    w := [a * half, -b, c * half];
    HalfInverse(p);
    ThreeOthers(r); ThreeOthers(0); ThreeOthers(1); ThreeOthers(2);
    CongMul(a, a, 2 * half, 1, p);
    assert a * (2 * half) == (a * half) * 2;
    CongMul(c, c, 2 * half, 1, p);
    assert c * (2 * half) == (c * half) * 2;
    assert IsBasis(w[0], 3, 0, r, p) && IsBasis(w[1], 3, 1, r, p) && IsBasis(w[2], 3, 2, r, p);
  }

  lemma HalvedSum(u: int, v: int, w: int, a: int, b: int, c: int, half: int, p: int)
    requires p > 0 && Cong(2 * half, 1, p)
    ensures Cong((a * u + (c * w - 2 * (b * v))) * half, ((a * half) * u + -b * v) + (c * half) * w, p)
  {
    MulDist(half, a * u, c * w - 2 * (b * v));
    MulDist(half, c * w, 2 * (b * v));
    assert (a * u) * half == (a * half) * u by { MulAssoc(a, u, half); assert u * half == half * u; MulAssoc(a, half, u); }
    assert (c * w) * half == (c * half) * w by { MulAssoc(c, w, half); assert w * half == half * w; MulAssoc(c, half, w); }
    assert (2 * (b * v)) * half == (2 * half) * (b * v) by { MulAssoc(2, b * v, half); assert (b * v) * half == half * (b * v); }
    CongMul(2 * half, 1, b * v, b * v, p);
    var rest := (a * half) * u + (c * half) * w;
    CongAdd(rest, rest, (2 * half) * (b * v), b * v, p);
    assert -b * v == -(b * v);
  }
}
