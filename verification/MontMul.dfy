/** Multi-word multiplication, subtraction and Montgomery multiplication with deferred carries
    (`lib_gpu/mp_modexp_cpu.cpp`), over limb arrays updated in place. */
module MontMul {
  import opened Arith
  import opened Limbs

  /** ADD_CARRY: `t[i] += y` with wrap-around, counting the overflow in `c[k]`. */
  method AddCarry(c: array<int>, k: nat, t: array<int>, i: nat, y: int, B: nat) returns (ghost ov: int)
    requires c != t && k < c.Length && i < t.Length
    requires 0 <= t[i] < B && 0 <= y < B
    modifies c, t
    ensures 0 <= ov <= 1
    ensures ov == 1 <==> old(t[i]) + y >= B
    ensures t[..] == old(t[..])[i := old(t[i]) + y - B * ov]
    ensures 0 <= t[i] < B
    ensures c[..] == if ov == 0 then old(c[..]) else old(c[..])[k := (old(c[k]) + 1) % B]
  {
    var w := (t[i] + y) % B;
    ov := if t[i] + y >= B then 1 else 0;
    assert w == t[i] + y - B * ov by {
      CongFrom(t[i] + y, t[i] + y - B * ov, ov, B);
      SmallMod(t[i] + y - B * ov, B);
    }
    if w < t[i] {
      c[k] := (c[k] + 1) % B;
    }
    t[i] := w;
  }

  /** ADD_CARRY_CLEAR: the same, with the addend taken from `c[j]`, which is cleared. */
  method AddCarryClear(c: array<int>, k: nat, t: array<int>, i: nat, j: nat, B: nat) returns (ghost ov: int)
    requires c != t && k < c.Length && i < t.Length && j < c.Length && j != k
    requires 0 <= t[i] < B && 0 <= c[j] < B
    modifies c, t
    ensures 0 <= ov <= 1
    ensures ov == 1 <==> old(t[i]) + old(c[j]) >= B
    ensures t[..] == old(t[..])[i := old(t[i]) + old(c[j]) - B * ov]
    ensures 0 <= t[i] < B
    ensures c[..] == if ov == 0 then old(c[..])[j := 0] else old(c[..])[j := 0][k := (old(c[k]) + 1) % B]
  {
    var y := c[j];
    c[j] := 0;
    ov := AddCarry(c, k, t, i, y, B);
  }

  /** The double-word product of two words, split as `umulhi`/`umullo` return it. */
  lemma ProductHiLo(x: int, y: int, B: nat)
    requires 0 <= x < B && 0 <= y < B
    ensures 0 <= (x * y) / B < B && 0 <= (x * y) % B < B
    ensures x * y == ((x * y) / B) * B + (x * y) % B
  {
    MulMono(0, x, 0, y);
    MulMono(x, B - 1, y, B - 1);
    var q := (x * y) / B;
    assert (B - 1) * (B - 1) == B * B - B - (B - 1);
    if q >= B {
      MulMono(B, q, B, B);
    }
  }

  /** How one overflow-counting addition moves the value held by sums `t` and carries `c`, when
      carry `c[k]` weighs `B^k`. */
  lemma CarryStep(t: seq<int>, c: seq<int>, i: nat, y: int, ov: int, B: nat)
    requires i < |t| && i + 1 < |c|
    ensures Val(t[i := t[i] + y - B * ov], B) + Val(c[i + 1 := c[i + 1] + ov], B)
         == Val(t, B) + Val(c, B) + y * Pow(B, i)
  {
    ValUpdate(t, i, t[i] + y - B * ov, B);
    ValUpdate(c, i + 1, c[i + 1] + ov, B);
    var q := Pow(B, i);
    assert Pow(B, i + 1) == B * q;
    MulDist(q, y, B * ov);
    MulAssoc(ov, B, q);
    assert B * ov == ov * B;
  }

  /** What sums and deferred carries hold together. */
  ghost function Total(t: seq<int>, c: seq<int>, B: nat): int {
    Val(t, B) + Val(c, B)
  }

  /** Adding the two halves of a word product, one overflow each, adds the product. */
  lemma PartialStep(t: seq<int>, c: seq<int>, k: nat, x: int, y: int, ov1: int, ov2: int, B: nat)
    requires k + 2 <= |t| && k + 2 < |c| && 0 <= x < B && 0 <= y < B
    ensures var t1 := t[k + 1 := t[k + 1] + (x * y) / B - B * ov1];
            var c1 := c[k + 2 := c[k + 2] + ov1];
            Total(t1[k := t1[k] + (x * y) % B - B * ov2], c1[k + 1 := c1[k + 1] + ov2], B)
            == Total(t, c, B) + x * y * Pow(B, k)
  {
    ProductHiLo(x, y, B);
    var hi, lo := (x * y) / B, (x * y) % B;
    var t1, c1 := t[k + 1 := t[k + 1] + hi - B * ov1], c[k + 2 := c[k + 2] + ov1];
    CarryStep(t, c, k + 1, hi, ov1, B);
    CarryStep(t1, c1, k, lo, ov2, B);
    var q := Pow(B, k);
    MulAssoc(hi, B, q);
    MulDist(q, hi * B, lo);
  }

  /** One partial product added in: `mp_mul_cpu`'s inner loop body. */
  method AddPartial(t: array<int>, c: array<int>, x: int, y: int, k: nat, B: nat)
    requires t != c && k + 2 <= t.Length && k + 2 < c.Length
    requires 0 <= x < B && 0 <= y < B && 0 <= t[k] < B && 0 <= t[k + 1] < B
    requires 0 <= c[k + 1] < B - 1
    requires t[k + 1] == 0 || 0 <= c[k + 2] < B - 1
    modifies t, c
    ensures Total(t[..], c[..], B) == old(Total(t[..], c[..], B)) + x * y * Pow(B, k)
    ensures 0 <= t[k] < B && 0 <= t[k + 1] < B
    ensures forall i :: 0 <= i < t.Length && i != k && i != k + 1 ==> t[i] == old(t[i])
    ensures forall i :: 0 <= i < c.Length && i != k + 1 && i != k + 2 ==> c[i] == old(c[i])
    ensures old(c[k + 1]) <= c[k + 1] <= old(c[k + 1]) + 1
    ensures old(c[k + 2]) <= c[k + 2] <= old(c[k + 2]) + 1
    ensures old(t[k + 1]) == 0 ==> c[k + 2] == old(c[k + 2])
  {
    ProductHiLo(x, y, B);
    var hi, lo := (x * y) / B, (x * y) % B;
    ghost var t0, c0 := t[..], c[..];
    ghost var ov1 := AddCarry(c, k + 2, t, k + 1, hi, B);
    if ov1 == 1 { SmallMod(c0[k + 2] + 1, B); }
    ghost var c1 := c[..];
    assert c1 == c0[k + 2 := c0[k + 2] + ov1];
    ghost var ov2 := AddCarry(c, k + 1, t, k, lo, B);
    if ov2 == 1 { SmallMod(c1[k + 1] + 1, B); }
    assert c[..] == c1[k + 1 := c1[k + 1] + ov2];
    PartialStep(t0, c0, k, x, y, ov1, ov2, B);
  }

  /** Extending a multiplicand by one limb extends its shifted multiple by one partial product. */
  lemma RowStep(a: seq<int>, i: nat, y: int, j: nat, B: nat)
    requires i < |a|
    ensures Val(a[..i + 1], B) * y * Pow(B, j) == Val(a[..i], B) * y * Pow(B, j) + a[i] * y * Pow(B, i + j)
  {
    var v, x, p, q := Val(a[..i], B), a[i], Pow(B, i), Pow(B, j);
    ValSnoc(a, i, B);
    PowAdd(B, i, j);
    calc {
      (v + x * p) * y * q;
      { MulDist(y, v, x * p); MulDist(q, v * y, x * p * y); }
      v * y * q + x * p * y * q;
      { MulAssoc(x, p, y); MulAssoc(x, y, p); MulAssoc(x * y, p, q); }
      v * y * q + x * y * (p * q);
    }
  }

  /** `mp_mul_cpu`'s inner loop: add `a * y * B^j`, no carry leaving row `j`'s top limb. */
  method MulRow(t: array<int>, c: array<int>, a: seq<int>, y: int, j: nat, B: nat)
    requires t != c && Words(a, B) && 0 <= y < B && j < |a| && 2 * |a| < B
    requires t.Length == c.Length == 2 * |a| + 1
    requires forall k :: 0 <= k < 2 * |a| ==> 0 <= t[k] < B
    requires forall k :: |a| + j <= k < 2 * |a| ==> t[k] == 0
    requires forall k :: 0 <= k < 2 * |a| ==> 0 <= c[k] <= 2 * j
    modifies t, c
    ensures Total(t[..], c[..], B) == old(Total(t[..], c[..], B)) + Val(a, B) * y * Pow(B, j)
    ensures forall k :: 0 <= k < 2 * |a| ==> 0 <= t[k] < B
    ensures forall k :: |a| + j + 1 <= k < 2 * |a| ==> t[k] == 0
    ensures forall k :: 0 <= k < 2 * |a| ==> 0 <= c[k] <= 2 * (j + 1)
    ensures c[0] == old(c[0]) && t[2 * |a|] == old(t[2 * |a|]) && c[2 * |a|] == old(c[2 * |a|])
  {
    var S := |a|;
    for i := 0 to S
      invariant Total(t[..], c[..], B) == old(Total(t[..], c[..], B)) + Val(a[..i], B) * y * Pow(B, j)
      invariant forall k :: 0 <= k < 2 * S ==> 0 <= t[k] < B
      invariant forall k :: S + j + 1 <= k < 2 * S ==> t[k] == 0
      invariant i < S ==> t[S + j] == 0
      invariant forall k :: 0 <= k < 2 * S ==> 0 <= c[k] <= 2 * j + 2
      invariant i + j + 1 < 2 * S ==> c[i + j + 1] <= 2 * j + 1
      invariant forall k :: i + j + 2 <= k < 2 * S ==> c[k] <= 2 * j
      invariant c[0] == old(c[0]) && t[2 * S] == old(t[2 * S]) && c[2 * S] == old(c[2 * S])
    {
      RowStep(a, i, y, j, B);
      AddPartial(t, c, a[i], y, i + j, B);
    }
    assert a[..S] == a;
  }

  /** Moving a deferred carry into its limb preserves the value. */
  lemma ClearStep(t: seq<int>, c: seq<int>, j: nat, ov: int, B: nat)
    requires j < |t| && j + 1 < |c|
    ensures Total(t[j := t[j] + c[j] - B * ov], c[j := 0][j + 1 := c[j + 1] + ov], B) == Total(t, c, B)
  {
    CarryStep(t, c[j := 0], j, c[j], ov, B);
    ValUpdate(c, j, 0, B);
    assert (0 - c[j]) * Pow(B, j) == -(c[j] * Pow(B, j));
  }

  /** Splitting off the unused top slot of both arrays. */
  lemma TotalPrefix(t: seq<int>, c: seq<int>, n: nat, B: nat)
    requires |t| == |c| == n + 1
    ensures Total(t, c, B) == Total(t[..n], c[..n], B) + (t[n] + c[n]) * Pow(B, n)
  {
    ValSnoc(t, n, B);
    ValSnoc(c, n, B);
    assert t[..n + 1] == t && c[..n + 1] == c;
    MulDist(Pow(B, n), t[n], c[n]);
  }

  /** A value below `B^n` leaves no carry out of limb `n - 1`. */
  lemma NoTopOverflow(t: seq<int>, c: seq<int>, n: nat, B: nat)
    requires 1 <= n == |t| == |c|
    requires forall k :: 0 <= k < n ==> 0 <= t[k] && 0 <= c[k]
    requires Total(t, c, B) < Pow(B, n)
    ensures t[n - 1] + c[n - 1] < B
  {
    var q := Pow(B, n - 1);
    ValAtLeast(t, n - 1, B);
    ValAtLeast(c, n - 1, B);
    MulDist(q, t[n - 1], c[n - 1]);
    if t[n - 1] + c[n - 1] >= B {
      MulMono(B, t[n - 1] + c[n - 1], q, q);
    }
  }

  /** One pass of `mp_mul_cpu`'s ripple loop: every pending carry moves one limb up. */
  method MulSweep(t: array<int>, c: array<int>, n: nat, ghost low: nat, B: nat)
    requires t != c && t.Length == c.Length == n + 1 && 1 <= low < n
    requires forall k :: 0 <= k < n ==> 0 <= t[k] < B
    requires forall k :: 0 <= k < n ==> 0 <= c[k] < B - 1
    requires forall k :: 0 <= k < low ==> c[k] == 0
    requires Total(t[..n], c[..n], B) < Pow(B, n)
    modifies t, c
    ensures Total(t[..], c[..], B) == old(Total(t[..], c[..], B))
    ensures forall k :: 0 <= k < n ==> 0 <= t[k] < B
    ensures forall k :: 0 <= k < n ==> 0 <= c[k] <= 1
    ensures forall k :: 0 <= k <= low ==> c[k] == 0
    ensures t[n] == old(t[n]) && c[n] == old(c[n])
  {
    var j := n - 1;
    NoTopOverflow(t[..n], c[..n], n, B);
    while j >= 1
      invariant 0 <= j <= n - 1
      invariant j == n - 1 ==> t[j] + c[j] < B
      invariant Total(t[..], c[..], B) == old(Total(t[..], c[..], B))
      invariant forall k :: 0 <= k < n ==> 0 <= t[k] < B
      invariant forall k :: 0 <= k <= j ==> 0 <= c[k] < B - 1
      invariant forall k :: j < k < n ==> 0 <= c[k] <= 1
      invariant j < n - 1 ==> c[j + 1] == 0
      invariant forall k :: 0 <= k < low ==> c[k] == 0
      invariant j < low ==> c[low] == 0
      invariant t[n] == old(t[n]) && c[n] == old(c[n])
    {
      ghost var t0, c0 := t[..], c[..];
      ghost var ov := AddCarryClear(c, j + 1, t, j, j, B);
      if ov == 1 { SmallMod(c0[j + 1] + 1, B); }
      assert c[..] == c0[j := 0][j + 1 := c0[j + 1] + ov];
      ClearStep(t0, c0, j, ov, B);
      j := j - 1;
    }
  }

  lemma AccumulateRow(v: int, b: seq<int>, j: nat, B: nat)
    requires j < |b|
    ensures v * Val(b[..j + 1], B) == v * Val(b[..j], B) + v * b[j] * Pow(B, j)
  {
    ValSnoc(b, j, B);
    MulDist(v, Val(b[..j], B), b[j] * Pow(B, j));
    MulAssoc(v, b[j], Pow(B, j));
  }

  lemma ProductBound(v: int, w: int, q: int)
    requires 0 <= v < q && 0 <= w < q
    ensures 0 <= v * w < q * q
  {
    MulMono(0, v, 0, w);
    MulMono(v, q - 1, w, q);
    MulDist(q, q, 1);
  }

  /** Prefix totals move with full totals while the top slots stand still. */
  lemma PrefixFollows(t: seq<int>, c: seq<int>, t': seq<int>, c': seq<int>, n: nat, d: int, B: nat)
    requires |t| == |c| == |t'| == |c'| == n + 1 && t[n] == t'[n] && c[n] == c'[n]
    requires Total(t', c', B) == Total(t, c, B) + d
    ensures Total(t'[..n], c'[..n], B) == Total(t[..n], c[..n], B) + d
  {
    TotalPrefix(t, c, n, B);
    TotalPrefix(t', c', n, B);
  }

  /** The double loop of `mp_mul_cpu`: all partial products, carries only counted. */
  method MulRows(t: array<int>, c: array<int>, a: seq<int>, b: seq<int>, B: nat)
    requires t != c && 1 <= |a| == |b| && t.Length == c.Length == 2 * |a| + 1 && 2 * |a| < B
    requires Words(a, B) && Words(b, B)
    requires forall k :: 0 <= k < 2 * |a| ==> t[k] == 0 && c[k] == 0
    modifies t, c
    ensures Total(t[..], c[..], B) == old(Total(t[..], c[..], B)) + Val(a, B) * Val(b, B)
    ensures forall k :: 0 <= k < 2 * |a| ==> 0 <= t[k] < B
    ensures forall k :: 0 <= k < 2 * |a| ==> 0 <= c[k] <= 2 * |a|
    ensures c[0] == 0 && t[2 * |a|] == old(t[2 * |a|]) && c[2 * |a|] == old(c[2 * |a|])
  {
    var S := |a|;
    for j := 0 to S
      invariant Total(t[..], c[..], B) == old(Total(t[..], c[..], B)) + Val(a, B) * Val(b[..j], B)
      invariant forall k :: 0 <= k < 2 * S ==> 0 <= t[k] < B
      invariant forall k :: S + j <= k < 2 * S ==> t[k] == 0
      invariant forall k :: 0 <= k < 2 * S ==> 0 <= c[k] <= 2 * j
      invariant c[0] == 0 && t[2 * S] == old(t[2 * S]) && c[2 * S] == old(c[2 * S])
    {
      AccumulateRow(Val(a, B), b, j, B);
      MulRow(t, c, a, b[j], j, B);
    }
    assert b[..S] == b;
  }

  /** `mp_mul_cpu`: schoolbook product with carries counted apart, then rippled until none is left.
      The top carry slot is never initialised and never touched. */
  method Mul(ret: array<int>, a: array<int>, b: array<int>, B: nat)
    requires 1 <= a.Length == b.Length && ret.Length == 2 * a.Length && 2 * a.Length + 1 < B
    requires Words(a[..], B) && Words(b[..], B)
    modifies ret
    ensures Words(ret[..], B)
    ensures Val(ret[..], B) == old(Val(a[..], B)) * old(Val(b[..], B))
  {
    var S := a.Length;
    var n := 2 * S;
    var t := new int[n + 1];
    var c := new int[n + 1];
    for i := 0 to S
      invariant forall k :: 0 <= k < i || S <= k < S + i ==> t[k] == 0 && c[k] == 0
    {
      c[i], c[i + S] := 0, 0;
      t[i], t[i + S] := 0, 0;
    }
    ghost var v := Val(a[..], B) * Val(b[..], B);
    ghost var t0, c0 := t[..], c[..];
    MulRows(t, c, a[..], b[..], B);
    assert Total(t[..n], c[..n], B) == v by {
      ValZeros(t0[..n], B); ValZeros(c0[..n], B);
      PrefixFollows(t0, c0, t[..], c[..], n, v, B);
      assert t[..][..n] == t[..n] && c[..][..n] == c[..n];
    }
    assert v < Pow(B, n) by {
      ValBound(a[..], B); ValBound(b[..], B);
      ProductBound(Val(a[..], B), Val(b[..], B), Pow(B, S));
      PowAdd(B, S, S);
    }
    RippleMul(t, c, n, v, B);
    CopyHalves(ret, t, S);
  }

  /** The last loop of `mp_mul_cpu`. */
  method CopyHalves(ret: array<int>, t: array<int>, S: nat)
    requires ret != t && ret.Length == 2 * S && 2 * S <= t.Length
    modifies ret
    ensures ret[..] == t[..2 * S]
  {
    for i := 0 to S
      invariant forall k :: 0 <= k < i || S <= k < S + i ==> ret[k] == t[k]
    {
      ret[i] := t[i];
      ret[i + S] := t[i + S];
    }
  }

  /** The `while (1)` loop of `mp_mul_cpu`. The lowest pending carry strictly rises, so it ends. */
  method RippleMul(t: array<int>, c: array<int>, n: nat, ghost v: int, B: nat)
    requires t != c && t.Length == c.Length == n + 1 && 1 <= n
    requires forall k :: 0 <= k < n ==> 0 <= t[k] < B
    requires forall k :: 0 <= k < n ==> 0 <= c[k] < B - 1
    requires c[0] == 0 && 2 < B
    requires Total(t[..n], c[..n], B) == v < Pow(B, n)
    modifies t, c
    ensures Words(t[..n], B) && Val(t[..n], B) == v
    ensures c[n] == old(c[n])
  {
    ghost var low := 1;
    while true
      invariant 1 <= low <= n
      invariant forall k :: 0 <= k < n ==> 0 <= t[k] < B
      invariant forall k :: 0 <= k < n ==> 0 <= c[k] < B - 1
      invariant forall k :: 0 <= k < low ==> c[k] == 0
      invariant Total(t[..n], c[..n], B) == v
      invariant c[n] == old(c[n])
      decreases n - low
    {
      var allZero := AllZero(c, n);
      if allZero { break; }
      ghost var t0, c0 := t[..], c[..];
      assert t0[..n] == t[..n] && c0[..n] == c[..n];
      MulSweep(t, c, n, low, B);
      PrefixFollows(t0, c0, t[..], c[..], n, 0, B);
      assert t[..][..n] == t[..n] && c[..][..n] == c[..n];
      low := low + 1;
    }
    ValZeros(c[..n], B);
  }

  method AllZero(c: array<int>, n: nat) returns (r: bool)
    requires n <= c.Length
    ensures r <==> forall k :: 0 <= k < n ==> c[k] == 0
  {
    r := true;
    for j := 0 to n
      invariant r <==> forall k :: 0 <= k < j ==> c[k] == 0
    {
      if c[j] != 0 { r := false; }
    }
  }

  // ----- subtraction -----

  /** What differences and deferred borrows hold together; `b[i]` weighs `B^(i+1)`. */
  ghost function Net(d: seq<int>, b: seq<int>, B: nat): int {
    Val(d, B) - B * Val(b, B)
  }

  /** SUB_BORROW on one limb: `x - y` with wrap-around, and whether it borrowed. */
  method SubBorrow(x: int, y: int, B: nat) returns (w: int, borrow: int)
    requires 0 <= x < B && 0 <= y < B
    ensures 0 <= w < B && 0 <= borrow <= 1
    ensures w == x - y + B * borrow
  {
    w := (x - y) % B;
    ghost var k := if x < y then 1 else 0;
    CongFrom(x - y + B * k, x - y, k, B);
    SmallMod(x - y + B * k, B);
    borrow := if w > x then 1 else 0;
  }

  /** Taking a pending borrow out of the next limb preserves the net value. */
  lemma BorrowStep(d: seq<int>, b: seq<int>, j: nat, ov: int, B: nat)
    requires j + 1 < |d| == |b|
    ensures Net(d[j + 1 := d[j + 1] - b[j] + B * ov], b[j := 0][j + 1 := b[j + 1] + ov], B) == Net(d, b, B)
  {
    var q := Pow(B, j);
    ValUpdate(d, j + 1, d[j + 1] - b[j] + B * ov, B);
    ValUpdate(b, j, 0, B);
    ValUpdate(b[j := 0], j + 1, b[j + 1] + ov, B);
    BorrowWeights(Val(b, B), b[j], ov, q, B);
  }

  lemma BorrowWeights(v: int, y: int, ov: int, q: int, B: int)
    ensures B * (v + (0 - y) * q + ov * (B * q)) == B * v + (B * ov - y) * (B * q)
  {
    MulDist(B, v + (0 - y) * q, ov * (B * q));
    MulDist(B, v, (0 - y) * q);
    MulSwap(B, 0 - y, q);
    MulDist(B * q, B * ov, y);
    MulAssoc(B, ov, B * q);
    assert (0 - y) * (B * q) == -(y * (B * q));
  }

  /** With the net value above `-B^S`, the top borrow is at most 1. */
  lemma TopBorrow(d: seq<int>, b: seq<int>, B: nat)
    requires 1 <= |d| == |b| && Words(d, B) && 0 < B
    requires forall k :: 0 <= k < |b| ==> 0 <= b[k]
    requires -Pow(B, |d|) < Net(d, b, B)
    ensures b[|b| - 1] <= 1
  {
    var S := |b|;
    var x, q := b[S - 1], Pow(B, S - 1);
    ValBound(d, B);
    ValAtLeast(b, S - 1, B);
    MulMono(0, x, 0, q);
    MulMono(B, B, x * q, Val(b, B));
    MulSwap(B, x, q);
    if x >= 2 {
      MulMono(2, x, B * q, B * q);
    }
  }

  /** One pass of `mp_sub_cpu`'s ripple loop. */
  method SubSweep(ret: array<int>, b: array<int>, ghost low: nat, B: nat)
    requires ret != b && ret.Length == b.Length && low < b.Length - 1 && 2 < B
    requires Words(ret[..], B)
    requires forall k :: 0 <= k < b.Length ==> 0 <= b[k] <= 1
    requires forall k :: 0 <= k < low ==> b[k] == 0
    requires -Pow(B, ret.Length) < Net(ret[..], b[..], B)
    modifies ret, b
    ensures Net(ret[..], b[..], B) == old(Net(ret[..], b[..], B))
    ensures Words(ret[..], B)
    ensures forall k :: 0 <= k < b.Length ==> 0 <= b[k] <= 1
    ensures forall k :: 0 <= k <= low ==> b[k] == 0
  {
    var S := ret.Length;
    var j := S - 2;
    while j >= 0
      invariant -1 <= j <= S - 2
      invariant Net(ret[..], b[..], B) == old(Net(ret[..], b[..], B))
      invariant Words(ret[..], B)
      invariant forall k :: 0 <= k < S ==> 0 <= b[k] <= 1
      invariant j < S - 2 ==> b[j + 1] == 0
      invariant forall k :: 0 <= k < low ==> b[k] == 0
      invariant j < low ==> b[low] == 0
    {
      ghost var d0, b0 := ret[..], b[..];
      var y := b[j];
      b[j] := 0;
      var w, borrow := SubBorrow(ret[j + 1], y, B);
      b[j + 1] := (b[j + 1] + borrow) % B;
      SmallMod(b0[j + 1] + borrow, B);
      ret[j + 1] := w;
      assert b[..] == b0[j := 0][j + 1 := b0[j + 1] + borrow];
      assert ret[..] == d0[j + 1 := d0[j + 1] - y + B * borrow];
      BorrowStep(d0, b0, j, borrow, B);
      TopBorrow(ret[..], b[..], B);
      j := j - 1;
    }
  }

  /** The first loop of `mp_sub_cpu`: limbwise differences, borrows only recorded. */
  method SubLimbs(ret: array<int>, b: array<int>, x: array<int>, y: array<int>, B: nat)
    requires b != ret && b != x && b != y
    requires ret.Length == x.Length == y.Length == b.Length
    requires Words(x[..], B) && Words(y[..], B)
    modifies ret, b
    ensures Words(ret[..], B)
    ensures forall k :: 0 <= k < b.Length ==> 0 <= b[k] <= 1
    ensures Net(ret[..], b[..], B) == old(Val(x[..], B)) - old(Val(y[..], B))
  {
    ghost var xs, ys := x[..], y[..];
    for i := 0 to ret.Length
      invariant forall k :: i <= k < x.Length ==> x[k] == xs[k] && y[k] == ys[k]
      invariant Words(ret[..i], B)
      invariant forall k :: 0 <= k < i ==> 0 <= b[k] <= 1
      invariant Net(ret[..i], b[..i], B) == Val(xs[..i], B) - Val(ys[..i], B)
    {
      ghost var d0, b0 := ret[..i], b[..i];
      b[i] := 0;
      var w, borrow := SubBorrow(x[i], y[i], B);
      b[i] := borrow;
      ret[i] := w;
      assert ret[..i + 1][..i] == d0 && b[..i + 1][..i] == b0;
      NetSnoc(ret[..i + 1], b[..i + 1], xs, ys, i, B);
    }
    assert ret[..] == ret[..ret.Length] && b[..] == b[..ret.Length];
    assert xs[..ret.Length] == xs && ys[..ret.Length] == ys;
  }

  lemma NetSnoc(d: seq<int>, b: seq<int>, xs: seq<int>, ys: seq<int>, i: nat, B: nat)
    requires |d| == |b| == i + 1 && i < |xs| == |ys|
    requires d[i] == xs[i] - ys[i] + B * b[i]
    requires Net(d[..i], b[..i], B) == Val(xs[..i], B) - Val(ys[..i], B)
    ensures Net(d, b, B) == Val(xs[..i + 1], B) - Val(ys[..i + 1], B)
  {
    ValSnoc(d, i, B); ValSnoc(b, i, B); ValSnoc(xs, i, B); ValSnoc(ys, i, B);
    assert d[..i + 1] == d && b[..i + 1] == b;
    var q := Pow(B, i);
    MulDist(B, Val(b[..i], B), b[i] * q);
    MulDist(q, xs[i] - ys[i], B * b[i]);
    MulDist(q, xs[i], ys[i]);
    MulAssoc(B, b[i], q);
  }

  /** `mp_sub_cpu`: `x - y` modulo `B^S`, with the borrow returned. `ret` may be `x` or `y`. */
  method Sub(ret: array<int>, x: array<int>, y: array<int>, B: nat) returns (borrow: int)
    requires 1 <= ret.Length == x.Length == y.Length && 2 < B
    requires Words(x[..], B) && Words(y[..], B)
    modifies ret
    ensures Words(ret[..], B) && 0 <= borrow <= 1
    ensures Val(ret[..], B) - borrow * Pow(B, ret.Length) == old(Val(x[..], B)) - old(Val(y[..], B))
  {
    var S := ret.Length;
    var b := new int[S];
    ghost var v := Val(x[..], B) - Val(y[..], B);
    ValBound(x[..], B); ValBound(y[..], B);
    SubLimbs(ret, b, x, y, B);
    ghost var low := 0;
    while true
      invariant 0 <= low <= S - 1
      invariant Words(ret[..], B)
      invariant forall k :: 0 <= k < S ==> 0 <= b[k] <= 1
      invariant forall k :: 0 <= k < low ==> b[k] == 0
      invariant Net(ret[..], b[..], B) == v
      decreases S - low
    {
      var allZero := AllZero(b, S - 1);
      if allZero { break; }
      SubSweep(ret, b, low, B);
      low := low + 1;
    }
    borrow := b[S - 1];
    ValSnoc(b[..], S - 1, B);
    assert b[..][..S] == b[..];
    ValZeros(b[..][..S - 1], B);
    MulSwap(B, borrow, Pow(B, S - 1));
  }
}
