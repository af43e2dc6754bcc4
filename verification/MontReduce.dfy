/** The fast Montgomery multiplication of `lib_gpu/mp_modexp_cpu.cpp`: interleaved reduction by
    multiples of the modulus, then at most one final subtraction. */
module MontReduce {
  import opened Arith
  import opened Limbs
  import opened MontMul

  /** Sums and carries in the reduction loop, where `c[k]` weighs `B^(k+1)`. */
  ghost function Held(t: seq<int>, c: seq<int>, B: nat): int {
    Val(t, B) + B * Val(c, B)
  }

  lemma HeldTotal(t: seq<int>, c: seq<int>, B: nat)
    ensures Held(t, c, B) == Total(t, [0] + c, B)
  {
    assert ([0] + c)[1..] == c;
  }

  /** Adding the two halves of a word product adds the product. */
  lemma HeldPartial(t: seq<int>, c: seq<int>, k: nat, x: int, y: int, ov1: int, ov2: int, B: nat)
    requires k + 2 <= |t| && k + 2 <= |c| && 0 <= x < B && 0 <= y < B
    ensures var t1 := t[k + 1 := t[k + 1] + (x * y) / B - B * ov1];
            var c1 := c[k + 1 := c[k + 1] + ov1];
            Held(t1[k := t1[k] + (x * y) % B - B * ov2], c1[k := c1[k] + ov2], B)
            == Held(t, c, B) + x * y * Pow(B, k)
  {
    PartialStep(t, [0] + c, k, x, y, ov1, ov2, B);
    var c1 := c[k + 1 := c[k + 1] + ov1];
    assert ([0] + c)[k + 2 := ([0] + c)[k + 2] + ov1] == [0] + c1;
    var c2 := c1[k := c1[k] + ov2];
    assert ([0] + c1)[k + 1 := ([0] + c1)[k + 1] + ov2] == [0] + c2;
    var t1 := t[k + 1 := t[k + 1] + (x * y) / B - B * ov1];
    HeldTotal(t, c, B);
    HeldTotal(t1[k := t1[k] + (x * y) % B - B * ov2], c2, B);
  }

  lemma HeldClear(t: seq<int>, c: seq<int>, j: nat, ov: int, B: nat)
    requires 1 <= j < |t| && j < |c|
    ensures Held(t[j := t[j] + c[j - 1] - B * ov], c[j - 1 := 0][j := c[j] + ov], B) == Held(t, c, B)
  {
    ClearStep(t, [0] + c, j, ov, B);
    var c2 := c[j - 1 := 0][j := c[j] + ov];
    assert ([0] + c)[j := 0][j + 1 := ([0] + c)[j + 1] + ov] == [0] + c2;
    HeldTotal(t, c, B);
    HeldTotal(t[j := t[j] + c[j - 1] - B * ov], c2, B);
  }

  /** The reduction's inner loop body. */
  method AddReducer(t: array<int>, c: array<int>, x: int, y: int, k: nat, B: nat)
    requires t != c && k + 2 <= t.Length && k + 2 <= c.Length
    requires 0 <= x < B && 0 <= y < B && 0 <= t[k] < B && 0 <= t[k + 1] < B
    requires 0 <= c[k] < B - 1 && 0 <= c[k + 1] < B - 1
    modifies t, c
    ensures Held(t[..], c[..], B) == old(Held(t[..], c[..], B)) + x * y * Pow(B, k)
    ensures 0 <= t[k] < B && 0 <= t[k + 1] < B
    ensures forall i :: 0 <= i < t.Length && i != k && i != k + 1 ==> t[i] == old(t[i])
    ensures forall i :: 0 <= i < c.Length && i != k && i != k + 1 ==> c[i] == old(c[i])
    ensures old(c[k]) <= c[k] <= old(c[k]) + 1
    ensures old(c[k + 1]) <= c[k + 1] <= old(c[k + 1]) + 1
  {
    ProductHiLo(x, y, B);
    var hi, lo := (x * y) / B, (x * y) % B;
    ghost var t0, c0 := t[..], c[..];
    ghost var ov1 := AddCarry(c, k + 1, t, k + 1, hi, B);
    if ov1 == 1 { SmallMod(c0[k + 1] + 1, B); }
    ghost var c1 := c[..];
    assert c1 == c0[k + 1 := c0[k + 1] + ov1];
    ghost var ov2 := AddCarry(c, k, t, k, lo, B);
    if ov2 == 1 { SmallMod(c1[k] + 1, B); }
    assert c[..] == c1[k := c1[k] + ov2];
    HeldPartial(t0, c0, k, x, y, ov1, ov2, B);
  }

  /** The reduction's inner loop: add `n * m * B^j`. */
  method ReduceRow(t: array<int>, c: array<int>, n: seq<int>, m: int, j: nat, B: nat)
    requires t != c && 1 <= |n| && t.Length == c.Length == 2 * |n| && j < |n| && 4 < B
    requires Words(n, B) && 0 <= m < B && Words(t[..], B)
    requires forall k :: 0 <= k < 2 * |n| ==> 0 <= c[k] <= 1
    requires forall k :: 0 <= k < 2 * |n| - 1 ==> c[k] == 0
    modifies t, c
    ensures Held(t[..], c[..], B) == old(Held(t[..], c[..], B)) + Val(n, B) * m * Pow(B, j)
    ensures Words(t[..], B)
    ensures forall k :: 0 <= k < 2 * |n| ==> 0 <= c[k] <= 2
  {
    var S := |n|;
    for i := 0 to S
      invariant Held(t[..], c[..], B) == old(Held(t[..], c[..], B)) + Val(n[..i], B) * m * Pow(B, j)
      invariant forall k :: 0 <= k < t.Length ==> 0 <= t[k] < B
      invariant forall k :: 0 <= k < 2 * S ==> 0 <= c[k] <= 2
      invariant i + j < 2 * S - 1 ==> c[i + j] <= 1
      invariant forall k :: i + j + 1 <= k < 2 * S - 1 ==> c[k] == 0
      invariant i + j < 2 * S - 1 ==> c[2 * S - 1] <= 1
    {
      RowStep(n, i, m, j, B);
      AddReducer(t, c, n[i], m, i + j, B);
    }
    assert n[..S] == n;
  }

  /** While less than `2 B^n` is held, the carry leaving the top limb is at most 1. */
  lemma TopCarry(t: seq<int>, c: seq<int>, B: nat)
    requires 1 <= |t| == |c| && 0 < B
    requires forall k :: 0 <= k < |t| ==> 0 <= t[k] && 0 <= c[k]
    requires Held(t, c, B) < 2 * Pow(B, |t|)
    ensures c[|c| - 1] <= 1
  {
    var n := |c|;
    var x, q := c[n - 1], Pow(B, n - 1);
    ValNonneg(t, B);
    ValAtLeast(c, n - 1, B);
    MulMono(0, x, 0, q);
    MulMono(B, B, x * q, Val(c, B));
    MulSwap(B, x, q);
    if x >= 2 {
      MulMono(2, x, B * q, B * q);
    }
  }

  /** One pass of the reduction's ripple loop. */
  method ReduceSweep(t: array<int>, c: array<int>, ghost low: nat, B: nat)
    requires t != c && t.Length == c.Length && low < t.Length - 1 && 4 < B
    requires Words(t[..], B)
    requires forall k :: 0 <= k < c.Length ==> 0 <= c[k] <= 2
    requires c[c.Length - 1] <= 1
    requires forall k :: 0 <= k < low ==> c[k] == 0
    requires Held(t[..], c[..], B) < 2 * Pow(B, t.Length)
    modifies t, c
    ensures Held(t[..], c[..], B) == old(Held(t[..], c[..], B))
    ensures Words(t[..], B)
    ensures forall k :: 0 <= k < c.Length ==> 0 <= c[k] <= 1
    ensures forall k :: 0 <= k <= low ==> c[k] == 0
  {
    var n := t.Length;
    var j := n - 1;
    while j >= 1
      invariant 0 <= j <= n - 1
      invariant Held(t[..], c[..], B) == old(Held(t[..], c[..], B))
      invariant forall k :: 0 <= k < t.Length ==> 0 <= t[k] < B
      invariant forall k :: 0 <= k < j ==> 0 <= c[k] <= 2
      invariant forall k :: j <= k < n ==> 0 <= c[k] <= 1
      invariant j < n - 1 ==> c[j] == 0
      invariant forall k :: 0 <= k < low ==> c[k] == 0
      invariant j <= low ==> c[low] == 0
    {
      ghost var ov := MoveCarry(t, c, j, B);
      TopCarry(t[..], c[..], B);
      j := j - 1;
    }
  }

  /** One step of the pass: the carry pending at limb `j` moves into it. */
  method MoveCarry(t: array<int>, c: array<int>, j: nat, B: nat) returns (ghost ov: int)
    requires t != c && t.Length == c.Length && 1 <= j < t.Length && 4 < B && 0 <= c[j - 1] <= 2 && 0 <= c[j] <= 1
    requires forall k :: 0 <= k < t.Length ==> 0 <= t[k] < B
    modifies t, c
    ensures forall k :: 0 <= k < t.Length ==> 0 <= t[k] < B
    ensures 0 <= ov <= 1 && c[j - 1] == 0 && c[j] == old(c[j]) + ov && (ov == 1 ==> old(c[j - 1]) > 0)
    ensures forall k :: 0 <= k < c.Length && k != j && k != j - 1 ==> c[k] == old(c[k])
    ensures Held(t[..], c[..], B) == old(Held(t[..], c[..], B))
  {
    ghost var t0, c0 := t[..], c[..];
    ov := AddCarryClear(c, j, t, j, j - 1, B);
    if ov == 1 { SmallMod(c0[j] + 1, B); }
    assert c[..] == c0[j - 1 := 0][j := c0[j] + ov];
    HeldClear(t0, c0, j, ov, B);
  }

  /** The reduction's `while (1)` loop: afterwards only the carry out of the top limb is left. */
  method RippleReduce(t: array<int>, c: array<int>, B: nat)
    requires t != c && 2 <= t.Length == c.Length && 4 < B
    requires Words(t[..], B)
    requires forall k :: 0 <= k < c.Length ==> 0 <= c[k] <= 2
    requires Held(t[..], c[..], B) < 2 * Pow(B, t.Length)
    modifies t, c
    ensures Words(t[..], B)
    ensures forall k :: 0 <= k < c.Length - 1 ==> c[k] == 0
    ensures 0 <= c[c.Length - 1] <= 1
    ensures Held(t[..], c[..], B) == old(Held(t[..], c[..], B))
  {
    var n := t.Length;
    ghost var low := 0;
    TopCarry(t[..], c[..], B);
    while true
      invariant 0 <= low <= n - 1
      invariant forall k :: 0 <= k < t.Length ==> 0 <= t[k] < B
      invariant forall k :: 0 <= k < n ==> 0 <= c[k] <= 2
      invariant c[n - 1] <= 1
      invariant forall k :: 0 <= k < low ==> c[k] == 0
      invariant Held(t[..], c[..], B) == old(Held(t[..], c[..], B))
      decreases n - low
    {
      var allZero := AllZero(c, n - 1);
      if allZero { break; }
      ReduceSweep(t, c, low, B);
      low := low + 1;
    }
  }

  // ----- one reduction step makes one more low limb zero -----

  ghost predicate OnlyTopCarry(c: seq<int>) {
    1 <= |c| && 0 <= c[|c| - 1] <= 1 && forall k :: 0 <= k < |c| - 1 ==> c[k] == 0
  }

  lemma TopCarryValue(c: seq<int>, B: nat)
    requires OnlyTopCarry(c)
    ensures B * Val(c, B) == c[|c| - 1] * Pow(B, |c|)
  {
    var n := |c|;
    ValSnoc(c, n - 1, B);
    assert c[..n] == c;
    ValZeros(c[..n - 1], B);
    MulSwap(B, c[n - 1], Pow(B, n - 1));
  }

  /** The held value as a multiple of `B^j`, its lowest live limb in view. */
  lemma HeldShifted(t: seq<int>, c: seq<int>, j: nat, B: nat) returns (w: int)
    requires j < |t| == |c| && OnlyTopCarry(c)
    requires forall k :: 0 <= k < j ==> t[k] == 0
    ensures Held(t, c, B) == (t[j] + B * w) * Pow(B, j)
  {
    var n, q := |t|, Pow(B, j);
    var x, r := c[n - 1], Pow(B, n - j - 1);
    ValSplit(t, j, B);
    ValZeros(t[..j], B);
    assert t[j..][1..] == t[j + 1..];
    var h := Val(t[j + 1..], B);
    TopCarryValue(c, B);
    PowAdd(B, n - j - 1, j + 1);
    w := h + x * r;
    calc {
      Held(t, c, B);
      (t[j] + B * h) * q + x * (r * (B * q));
      { MulSwap(r, B, q); MulAssoc(B, r, q); MulSwap(x, B, r); MulAssoc(x, B * r, q); }
      (t[j] + B * h) * q + (B * (x * r)) * q;
      { MulDist(q, t[j] + B * h, B * (x * r)); MulDist(B, h, x * r); }
      (t[j] + B * w) * q;
    }
  }

  /** The multiplier `m = t[j] * np` cancels limb `j`. */
  lemma LimbCancels(x: int, np: int, N: int, m: int, B: nat) returns (k: int)
    requires 0 < B && Cong(N * np, -1, B) && m == (x * np) % B
    ensures x + N * m == k * B
  {
    CongMod(x * np, B);
    CongMul(N, N, m, x * np, B);
    CongMul(x, x, N * np, -1, B);
    assert N * (x * np) == x * (N * np) by { MulSwap(N, x, np); }
    CongAdd(x, x, N * m, x * -1, B);
    k := CongWitness(x + N * m, 0, B);
  }

  /** Adding `m n B^j` makes the held value a multiple of `B^(j+1)`. */
  lemma StepDivides(t: seq<int>, c: seq<int>, j: nat, np: int, N: int, m: int, B: nat) returns (q: int)
    requires j < |t| == |c| && OnlyTopCarry(c) && 0 < B
    requires forall k :: 0 <= k < j ==> t[k] == 0
    requires Cong(N * np, -1, B) && m == (t[j] * np) % B
    ensures Held(t, c, B) + N * m * Pow(B, j) == q * Pow(B, j + 1)
  {
    var w := HeldShifted(t, c, j, B);
    var k := LimbCancels(t[j], np, N, m, B);
    q := k + w;
    var p := Pow(B, j);
    calc {
      (t[j] + B * w) * p + N * m * p;
      { MulDist(p, t[j] + B * w, N * m); }
      (k * B + B * w) * p;
      { MulDist(B, k, w); }
      (q * B) * p;
      { MulAssoc(q, B, p); }
      q * (B * p);
    }
  }

  /** Once rippled, a held multiple of `B^k` shows as `k` zero limbs. */
  lemma RippledLowZero(t: seq<int>, c: seq<int>, k: nat, q: int, B: nat)
    requires k <= |t| == |c| && OnlyTopCarry(c) && 0 < B && Words(t, B)
    requires Held(t, c, B) == q * Pow(B, k)
    ensures forall i :: 0 <= i < k ==> t[i] == 0
  {
    var n := |t|;
    var x, r, p := c[n - 1], Pow(B, n - k), Pow(B, k);
    TopCarryValue(c, B);
    PowAdd(B, n - k, k);
    MulAssoc(x, r, p);
    MulDist(p, q, x * r);
    LowLimbsZero(t, k, q - x * r, B);
  }

  /** The accumulated multiplier stays below `B^j`, so less than `2 n B^S` is ever held. */
  lemma MultiplierStep(M: int, m: int, N: int, j: nat, B: nat)
    requires 0 <= M < Pow(B, j) && 0 <= m < B
    ensures 0 <= M + m * Pow(B, j) < Pow(B, j + 1)
    ensures M * N + N * m * Pow(B, j) == (M + m * Pow(B, j)) * N
  {
    var p := Pow(B, j);
    MulMono(0, m, 0, p);
    MulMono(m, B - 1, p, p);
    MulDist(p, B, 1);
    MulDist(N, M, m * p);
    MulAssoc(m, p, N); MulAssoc(N, m, p);
    assert N * (m * p) == (m * p) * N;
  }

  lemma HeldBound(ab: int, M: int, N: int, R: int)
    requires 0 <= M < R && 0 < N < R && 0 <= ab < N * R
    ensures 0 <= ab + M * N < 2 * (N * R)
    ensures 2 * (N * R) <= 2 * (R * R)
  {
    MulMono(0, M, 0, N);
    MulMono(M, R, N, N);
    MulMono(N, R, R, R);
  }

  /** The reduction loop: adds a multiple `M n` of the modulus that clears the low half. */
  method Reduce(t: array<int>, c: array<int>, n: array<int>, np: array<int>, ghost ab: int, B: nat)
      returns (ghost M: int)
    requires t != c && t != n && c != n && t != np && c != np
    requires 1 <= n.Length == np.Length && t.Length == c.Length == 2 * n.Length && 4 < B
    requires Words(n[..], B) && Words(t[..], B) && 0 < Val(n[..], B)
    requires Val(t[..], B) == ab && 0 <= ab < Val(n[..], B) * Pow(B, n.Length)
    requires Cong(Val(n[..], B) * np[0], -1, B)
    requires forall k :: 0 <= k < c.Length ==> c[k] == 0
    modifies t, c
    ensures Words(t[..], B) && OnlyTopCarry(c[..])
    ensures forall k :: 0 <= k < n.Length ==> t[k] == 0
    ensures 0 <= M < Pow(B, n.Length)
    ensures Held(t[..], c[..], B) == ab + M * Val(n[..], B)
  {
    var S := n.Length;
    ghost var ns, np0 := n[..], np[0];
    ghost var N, R := Val(ns, B), Pow(B, S);
    M := 0;
    ValZeros(c[..], B);
    ValBound(ns, B);
    PowAdd(B, S, S);
    for j := 0 to S
      invariant n[..] == ns && np[0] == np0
      invariant Words(t[..], B) && OnlyTopCarry(c[..])
      invariant forall k :: 0 <= k < j ==> t[k] == 0
      invariant 0 <= M < Pow(B, j)
      invariant Held(t[..], c[..], B) == ab + M * N
    {
      var m := (t[j] * np[0]) % B;
      ghost var q := StepDivides(t[..], c[..], j, np0, N, m, B);
      MultiplierStep(M, m, N, j, B);
      ReduceRow(t, c, n[..], m, j, B);
      M := M + m * Pow(B, j);
      PowMonotone(B, j + 1, S);
      HeldBound(ab, M, N, R);
      RippleReduce(t, c, B);
      RippledLowZero(t[..], c[..], j + 1, q, B);
    }
  }

  /** The high half and the carry left by the reduction, as a number. */
  lemma HighHalf(t: seq<int>, c: seq<int>, S: nat, B: nat)
    requires 1 <= S && |t| == |c| == 2 * S && OnlyTopCarry(c)
    requires forall k :: 0 <= k < S ==> t[k] == 0
    ensures Held(t, c, B) == (Val(t[S..], B) + c[2 * S - 1] * Pow(B, S)) * Pow(B, S)
  {
    var R, x := Pow(B, S), c[2 * S - 1];
    ValSplit(t, S, B);
    ValZeros(t[..S], B);
    TopCarryValue(c, B);
    PowAdd(B, S, S);
    MulAssoc(x, R, R);
    MulDist(R, Val(t[S..], B), x * R);
  }

  /** The comparison loop: is `u` at least `n`, top limb first? */
  method AtLeast(u: array<int>, n: array<int>, B: nat) returns (r: bool)
    requires u.Length == n.Length && Words(u[..], B) && Words(n[..], B)
    ensures r <==> Val(u[..], B) >= Val(n[..], B)
  {
    var i := u.Length - 1;
    while i >= 0
      invariant -1 <= i < u.Length
      invariant forall k :: i < k < u.Length ==> u[k] == n[k]
    {
      if u[i] > n[i] {
        TopLimbDecides(n[..], u[..], i, B);
        return true;
      }
      if u[i] < n[i] {
        TopLimbDecides(u[..], n[..], i, B);
        return false;
      }
      i := i - 1;
    }
    assert u[..] == n[..];
    return true;
  }

  /** A value below `2 n`, less `n` when it reaches `n`, is the residue. */
  lemma FinalSubtract(u: int, carry: int, v: int, borrow: int, N: int, R: int)
    requires 0 <= u < R && 0 <= carry <= 1 && 0 <= borrow <= 1 && 0 < N < R
    requires 0 <= u + carry * R - N < N && 0 <= v < R
    requires v - borrow * R == u - N
    ensures v == u + carry * R - N
  {
    MulDist(R, borrow, carry);
    SmallMultiple(borrow - carry, R);
  }

  lemma QuotientBound(w: int, N: int, R: int)
    requires 0 < R && 0 < N && w * R < 2 * (N * R)
    ensures w < 2 * N
  {
    MulAssoc(2, N, R);
    if w >= 2 * N {
      MulMono(2 * N, w, R, R);
    }
  }

  /** `mp_montmul_cpu` (fast form): `a b B^(-S) mod n`. `ret` may be `a` or `b`. */
  method MontgomeryMul(ret: array<int>, a: array<int>, b: array<int>, n: array<int>, np: array<int>, B: nat)
    requires 1 <= ret.Length == a.Length == b.Length == n.Length == np.Length && 2 * n.Length + 1 < B && 4 < B
    requires ret != n
    requires Words(a[..], B) && Words(b[..], B) && Words(n[..], B)
    requires Val(a[..], B) * Val(b[..], B) < Val(n[..], B) * Pow(B, n.Length)
    requires Cong(Val(n[..], B) * np[0], -1, B)
    modifies ret
    ensures Words(ret[..], B)
    ensures 0 <= Val(ret[..], B) < Val(n[..], B)
    ensures Cong(Val(ret[..], B) * Pow(B, n.Length), old(Val(a[..], B)) * old(Val(b[..], B)), Val(n[..], B))
  {
    var S := n.Length;
    ghost var N, R := Val(n[..], B), Pow(B, S);
    ghost var ab := Val(a[..], B) * Val(b[..], B);
    var t := new int[2 * S];
    var c := new int[2 * S](_ => 0);
    ValBound(a[..], B); ValBound(b[..], B); ValBound(n[..], B);
    PositiveModulus(Val(a[..], B), Val(b[..], B), N, R);
    Mul(t, a, b, B);
    ghost var M := Reduce(t, c, n, np, ab, B);
    HighHalf(t[..], c[..], S, B);
    HeldBound(ab, M, N, R);
    var u := new int[S](i requires 0 <= i < S reads t => t[i + S]);
    assert u[..] == t[..][S..];
    var carry := c[2 * S - 1];
    ghost var w := Val(u[..], B) + carry * R;
    QuotientBound(w, N, R);
    ValBound(u[..], B);
    var bigger := true;
    if carry == 0 {
      bigger := AtLeast(u, n, B);
    }
    Finish(ret, u, n, bigger, carry, B);
    ResidueCong(Val(ret[..], B), w, bigger, ab, M, N, R);
  }

  lemma PositiveModulus(a: int, b: int, N: int, R: int)
    requires 0 <= a && 0 <= b && 0 <= N < R && a * b < N * R
    ensures 0 < N && 0 <= a * b
  {
    MulMono(0, a, 0, b);
  }

  /** The last step: `ret` is the high half, less the modulus when the half reaches it. */
  method Finish(ret: array<int>, u: array<int>, n: array<int>, bigger: bool, carry: int, B: nat)
    requires ret != n && ret != u && 1 <= ret.Length == u.Length == n.Length && 2 < B
    requires Words(u[..], B) && Words(n[..], B) && 0 <= carry <= 1 && 0 < Val(n[..], B)
    requires Val(u[..], B) + carry * Pow(B, n.Length) < 2 * Val(n[..], B)
    requires bigger <==> carry == 1 || Val(u[..], B) >= Val(n[..], B)
    modifies ret
    ensures Words(ret[..], B)
    ensures Val(ret[..], B) == Val(u[..], B) + carry * Pow(B, n.Length) - (if bigger then Val(n[..], B) else 0)
    ensures 0 <= Val(ret[..], B) < Val(n[..], B)
  {
    ghost var us, ns := u[..], n[..];
    ValBound(us, B); ValBound(ns, B);
    if bigger {
      var borrow := Sub(ret, u, n, B);
      ValBound(ret[..], B);
      FinalSubtract(Val(us, B), carry, Val(ret[..], B), borrow, Val(ns, B), Pow(B, n.Length));
    } else {
      for i := 0 to ret.Length
        invariant u[..] == us && n[..] == ns
        invariant forall k :: 0 <= k < i ==> ret[k] == u[k]
      {
        ret[i] := u[i];
      }
      assert ret[..] == us;
    }
  }

  lemma ResidueCong(v: int, w: int, bigger: bool, ab: int, M: int, N: int, R: int)
    requires 0 < N && v == w - (if bigger then N else 0) && w * R == ab + M * N
    ensures Cong(v * R, ab, N)
  {
    var k := if bigger then R else 0;
    assert v * R == ab + (M - k) * N by {
      MulDist(R, w, if bigger then N else 0);
      MulDist(N, M, k);
      assert N * R == R * N;
    }
    CongFrom(v * R, ab, M - k, N);
  }
}
