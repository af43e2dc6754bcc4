/** Hand-written wiring polynomials of GKR circuits (`F2_mult_d`, `reduce`, `mat_mult_63_p3d`, `check_equal` in
    `cmtgkr/cmtgkr_env.cpp`) are the multilinear extensions of the gates they stand for: at every point they
    equal the sum of `check_wiring` over those gates. */
module Wiring {
  import opened Arith
  import opened Vectors
  import opened Mle

  // ----- equality of several bit vectors -----

  /** The product of `chi_g` over several points. */
  function ChiProd(g: nat, rs: seq<seq<int>>): int {
    if rs == [] then 1 else Chi(g, rs[0]) * ChiProd(g, rs[1..])
  }

  /** All points agree on the label `g`, summed over `g < n`. */
  function Diagonal(rs: seq<seq<int>>, n: nat): int {
    if n == 0 then 0 else Diagonal(rs, n - 1) + ChiProd(n - 1, rs)
  }

  /** Every point has at least `n` coordinates. */
  predicate Long(rs: seq<seq<int>>, n: nat) {
    forall k :: 0 <= k < |rs| ==> n <= |rs[k]|
  }

  function Tails(rs: seq<seq<int>>): (t: seq<seq<int>>)
    requires Long(rs, 1)
    ensures |t| == |rs| && forall k :: 0 <= k < |rs| ==> t[k] == rs[k][1..]
  {
    if rs == [] then [] else [rs[0][1..]] + Tails(rs[1..])
  }

  /** The product of the coordinates `i`, and of their complements. */
  function Ones(rs: seq<seq<int>>, i: nat): int
    requires Long(rs, i + 1)
  {
    if rs == [] then 1 else rs[0][i] * Ones(rs[1..], i)
  }

  function Zeros(rs: seq<seq<int>>, i: nat): int
    requires Long(rs, i + 1)
  {
    if rs == [] then 1 else (1 - rs[0][i]) * Zeros(rs[1..], i)
  }

  /** What `check_equal` multiplies up over coordinates `i .. n`. */
  function Equal(rs: seq<seq<int>>, i: nat, n: nat): int
    requires i <= n && Long(rs, n)
    decreases n - i
  {
    if i == n then 1 else (Ones(rs, i) + Zeros(rs, i)) * Equal(rs, i + 1, n)
  }

  lemma {:induction false} ChiProdPeel(h: nat, b: nat, rs: seq<seq<int>>)
    requires b <= 1 && Long(rs, 1)
    ensures ChiProd(2 * h + b, rs) == (if b == 1 then Ones(rs, 0) else Zeros(rs, 0)) * ChiProd(h, Tails(rs))
    decreases |rs|
  {
    if rs != [] {
      ChiProdPeel(h, b, rs[1..]);
      var x, c := Lit(b, rs[0][0]), Chi(h, rs[0][1..]);
      assert (2 * h + b) % 2 == b && (2 * h + b) / 2 == h;
      var o, d := (if b == 1 then Ones(rs[1..], 0) else Zeros(rs[1..], 0)), ChiProd(h, Tails(rs[1..]));
      assert Tails(rs)[1..] == Tails(rs[1..]);
      SwapMiddle(x, c, o, d);
    }
  }

  lemma SwapMiddle(a: int, b: int, c: int, d: int)
    ensures (a * b) * (c * d) == (a * c) * (b * d)
  {
    MulAssoc(a, b, c * d); MulSwap(b, c, d); MulAssoc(a, c, b * d);
  }

  lemma {:induction false} DiagonalPeel(rs: seq<seq<int>>, n: nat)
    requires Long(rs, 1)
    ensures Diagonal(rs, 2 * n) == (Ones(rs, 0) + Zeros(rs, 0)) * Diagonal(Tails(rs), n)
    decreases n
  {
    if n > 0 {
      DiagonalPeel(rs, n - 1);
      ChiProdPeel(n - 1, 0, rs);
      ChiProdPeel(n - 1, 1, rs);
      assert Diagonal(rs, 2 * n) == Diagonal(rs, 2 * (n - 1)) + ChiProd(2 * (n - 1), rs) + ChiProd(2 * (n - 1) + 1, rs);
      PeelStep(Ones(rs, 0), Zeros(rs, 0), Diagonal(Tails(rs), n - 1), ChiProd(n - 1, Tails(rs)));
    }
  }

  lemma PeelStep(o: int, z: int, d: int, c: int)
    ensures (o + z) * d + z * c + o * c == (o + z) * (d + c)
  {
    MulDist(o + z, d, c);
    MulDist(c, o, z);
  }

  lemma {:induction false} TailsShift(rs: seq<seq<int>>, i: nat)
    requires Long(rs, i + 2)
    ensures Long(Tails(rs), i + 1)
    ensures Ones(Tails(rs), i) == Ones(rs, i + 1) && Zeros(Tails(rs), i) == Zeros(rs, i + 1)
    decreases |rs|
  {
    if rs != [] {
      TailsShift(rs[1..], i);
      assert Tails(rs)[1..] == Tails(rs[1..]);
    }
  }

  lemma {:induction false} EqualShift(rs: seq<seq<int>>, i: nat, n: nat)
    requires i <= n && Long(rs, n + 1)
    ensures Long(Tails(rs), n)
    ensures Equal(Tails(rs), i, n) == Equal(rs, i + 1, n + 1)
    decreases n - i
  {
    if i < n {
      TailsShift(rs, i);
      EqualShift(rs, i + 1, n);
    }
  }

  /** Summing over all labels is multiplying coordinate by coordinate. */
  lemma {:induction false} DiagonalEqual(rs: seq<seq<int>>, n: nat)
    requires forall k :: 0 <= k < |rs| ==> |rs[k]| == n
    ensures Diagonal(rs, Pow(2, n)) == Equal(rs, 0, n)
    decreases n
  {
    if n == 0 {
      AllEmpty(rs);
      assert Diagonal(rs, 1) == Diagonal(rs, 0) + ChiProd(0, rs);
    } else {
      DiagonalPeel(rs, Pow(2, n - 1));
      DiagonalEqual(Tails(rs), n - 1);
      EqualShift(rs, 0, n - 1);
    }
  }

  lemma {:induction false} AllEmpty(rs: seq<seq<int>>)
    requires forall k :: 0 <= k < |rs| ==> |rs[k]| == 0
    ensures ChiProd(0, rs) == 1
    decreases |rs|
  {
    if rs != [] { AllEmpty(rs[1..]); }
  }

  /** `check_equal` for any number of vectors: `rop` times the equality polynomial. */
  method CheckEqual(rop: int, rs: seq<seq<int>>, start: nat, end: nat, p: int) returns (r: int)
    requires p > 0 && start <= end && Long(rs, end)
    ensures Cong(r, rop * Equal(rs, start, end), p) && 0 <= r < p
  {
    var ans := 1;
    for i := start to end
      invariant Cong(ans * Equal(rs, i, end), Equal(rs, start, end), p)
    {
      var part := EqualAt(rs, i);
      ProductStep(ans, part, Equal(rs, i + 1, end), p);
      ans := (ans * part) % p;
    }
    CongMul(rop, rop, ans, Equal(rs, start, end), p);
    CongMod(rop * ans, p);
    r := (rop * ans) % p;
  }

  method EqualAt(rs: seq<seq<int>>, i: nat) returns (part: int)
    requires Long(rs, i + 1)
    ensures part == Ones(rs, i) + Zeros(rs, i)
  {
    var part1, part2 := 1, 1;
    assert rs[0..] == rs;
    for k := 0 to |rs|
      invariant part1 * Ones(rs[k..], i) == Ones(rs, i) && part2 * Zeros(rs[k..], i) == Zeros(rs, i)
    {
      assert rs[k..][1..] == rs[k + 1..];
      MulAssoc(part1, rs[k][i], Ones(rs[k + 1..], i));
      MulAssoc(part2, 1 - rs[k][i], Zeros(rs[k + 1..], i));
      part1, part2 := part1 * rs[k][i], part2 * (1 - rs[k][i]);
    }
    assert rs[|rs|..] == [];
    part := part1 + part2;
  }

  /** One factor of the running product. */
  lemma ProductStep(ans: int, part: int, rest: int, p: int)
    requires p > 0
    ensures Cong(((ans * part) % p) * rest, ans * (part * rest), p)
  {
    MulAssoc(ans, part, rest);
    CongMod(ans * part, p);
    CongMul((ans * part) % p, ans * part, rest, rest, p);
  }

  // ----- beta -----

  /** `evaluate_beta`: the multilinear extension of equality of two labels. */
  method EvaluateBeta(z: seq<int>, r: seq<int>, p: int) returns (rop: int)
    requires p > 0 && |z| == |r|
    ensures Cong(rop, Diagonal([z, r], Pow(2, |r|)), p)
  {
    ghost var rs := [z, r];
    var n := |r|;
    var prod := 1;
    for i := 0 to n
      invariant Cong(prod * Equal(rs, i, n), Equal(rs, 0, n), p)
    {
      TwoAt(z, r, i);
      var tmp := (1 - z[i]) * (1 - r[i]) + z[i] * r[i];
      ProductStep(prod, tmp, Equal(rs, i + 1, n), p);
      prod := (prod * tmp) % p;
    }
    DiagonalEqual(rs, n);
    rop := prod;
  }

  lemma TwoAt(x: seq<int>, y: seq<int>, i: nat)
    requires i < |x| && i < |y|
    ensures Ones([x, y], i) + Zeros([x, y], i) == (1 - x[i]) * (1 - y[i]) + x[i] * y[i]
  {
    assert [x, y][1..] == [y] && [y][1..] == [];
    assert Ones([y], i) == y[i] * Ones([], i) && Zeros([y], i) == (1 - y[i]) * Zeros([], i);
    assert Ones([x, y], i) == x[i] * Ones([y], i) && Zeros([x, y], i) == (1 - x[i]) * Zeros([y], i);
  }

  lemma ThreeAt(x: seq<int>, y: seq<int>, w: seq<int>, i: nat)
    requires i < |x| && i < |y| && i < |w|
    ensures Ones([x, y, w], i) == x[i] * (y[i] * w[i]) && Zeros([x, y, w], i) == (1 - x[i]) * ((1 - y[i]) * (1 - w[i]))
  {
    var rs := [x, y, w];
    assert rs[1..] == [y, w] && [y, w][1..] == [w] && [w][1..] == [];
    assert Ones([w], i) == w[i] * Ones([], i) && Zeros([w], i) == (1 - w[i]) * Zeros([], i);
    assert Ones([y, w], i) == y[i] * Ones([w], i) && Zeros([y, w], i) == (1 - y[i]) * Zeros([w], i);
    assert Ones(rs, i) == x[i] * Ones([y, w], i) && Zeros(rs, i) == (1 - x[i]) * Zeros([y, w], i);
  }

  lemma ThreeFactor(x: int, y: int, w: int)
    ensures y * w * x + (1 - y) * (1 - w) * (1 - x) == x * (y * w) + (1 - x) * ((1 - y) * (1 - w))
  {
  }

  // ----- one gate -----

  /** A point of the wiring polynomial: label bits of the gate, then of its two inputs. */
  function Wire(z: seq<int>, a: seq<int>, b: seq<int>, out: nat, in1: nat, in2: nat): int {
    Chi(out, z) * (Chi(in1, a) * Chi(in2, b))
  }

  /** `check_wiring`: add one gate's contribution. */
  method CheckWiring(rop: int, r: seq<int>, out: nat, in1: nat, in2: nat, mi: nat, mip1: nat, p: int) returns (s: int)
    requires p > 0 && |r| == mi + 2 * mip1
    ensures Cong(s, rop + Wire(r[..mi], r[mi..mi + mip1], r[mi + mip1..], out, in1, in2), p)
  {
    ghost var x, y, w := Chi(out, r[..mi]), Chi(in1, r[mi..mi + mip1]), Chi(in2, r[mi + mip1..]);
    var ans := MulChi(1, out, r[..mi], p);
    var ans2 := MulChi(ans, in1, r[mi..mi + mip1], p);
    CongMul(ans, 1 * x, y, y, p);
    var ans3 := MulChi(ans2, in2, r[mi + mip1..], p);
    CongMul(ans2, x * y, w, w, p);
    MulAssoc(x, y, w);
    CongAdd(rop, rop, ans3, x * (y * w), p);
    CongMod(rop + ans3, p);
    s := (rop + ans3) % p;
  }

  lemma ThreeChi(g: nat, x: seq<int>, y: seq<int>, w: seq<int>)
    ensures ChiProd(g, [x, y, w]) == Wire(x, y, w, g, g, g)
  {
    var rs := [x, y, w];
    assert rs[1..] == [y, w] && [y, w][1..] == [w] && [w][1..] == [];
    assert ChiProd(g, [w]) == Chi(g, w) * ChiProd(g, []);
    assert ChiProd(g, [y, w]) == Chi(g, y) * ChiProd(g, [w]);
    assert ChiProd(g, rs) == Chi(g, x) * ChiProd(g, [y, w]);
  }

  // ----- F2_mult_d: gate g multiplies input g by itself -----

  function SquareGates(z: seq<int>, a: seq<int>, b: seq<int>, n: nat): int {
    if n == 0 then 0 else SquareGates(z, a, b, n - 1) + Wire(z, a, b, n - 1, n - 1, n - 1)
  }

  lemma {:induction false} SquareDiagonal(z: seq<int>, a: seq<int>, b: seq<int>, n: nat)
    ensures SquareGates(z, a, b, n) == Diagonal([z, a, b], n)
    decreases n
  {
    if n > 0 {
      SquareDiagonal(z, a, b, n - 1);
      ThreeChi(n - 1, z, a, b);
    }
  }

  /** `F2_mult_d`: the label bits of gate and inputs agree; on layers of equal size, the extension of the
      squaring gates. */
  method F2MultD(r: seq<int>, mi: nat, mip1: nat, p: int) returns (rop: int)
    requires p > 0 && mi <= mip1 && |r| == mi + 2 * mip1
    ensures Cong(rop, Equal([r[..mi], r[mi..mi + mip1], r[mi + mip1..]], 0, mi), p)
    ensures mi == mip1 ==> Cong(rop, SquareGates(r[..mi], r[mi..mi + mip1], r[mi + mip1..], Pow(2, mi)), p)
  {
    ghost var z, a, b := r[..mi], r[mi..mi + mip1], r[mi + mip1..];
    ghost var rs := [z, a, b];
    var ans := 1;
    for i := 0 to mi
      invariant Cong(ans * Equal(rs, i, mi), Equal(rs, 0, mi), p)
    {
      ThreeAt(z, a, b, i);
      var temp := r[mi + i] * r[mi + mip1 + i] * r[i];
      var tmp := (1 - r[mi + i]) * (1 - r[mi + mip1 + i]);
      temp := temp + tmp * (1 - r[i]);
      ThreeFactor(r[i], r[mi + i], r[mi + mip1 + i]);
      ProductStep(ans, temp, Equal(rs, i + 1, mi), p);
      ans := (ans * temp) % p;
    }
    if mi == mip1 {
      DiagonalEqual(rs, mi);
      SquareDiagonal(z, a, b, Pow(2, mi));
    }
    rop := ans;
  }

  lemma {:induction false} AgreeAtZero(rs: seq<seq<int>>, i: nat, n: nat)
    requires i <= n && Long(rs, n) && forall k, t :: 0 <= k < |rs| && 0 <= t < n ==> rs[k][t] == 0
    ensures |rs| == 3 ==> Equal(rs, i, n) == 1
    decreases n - i
  {
    if i < n && |rs| == 3 {
      AgreeAtZero(rs, i + 1, n);
      ThreeAt(rs[0], rs[1], rs[2], i);
      assert rs == [rs[0], rs[1], rs[2]];
    }
  }

  /** No gate takes inputs from beyond the labels of its own layer. */
  lemma {:induction false} NoGateBeyond(z: seq<int>, b: seq<int>, w: nat, bits: nat, n: nat)
    requires n <= w < Pow(2, bits)
    ensures SquareGates(z, Bits(w, bits), b, n) == 0
    decreases n
  {
    if n > 0 {
      NoGateBeyond(z, b, w, bits, n - 1);
      ChiBoolean(n - 1, w, bits);
    }
  }

  lemma {:induction false} LowBitsClear(k: nat, n: nat)
    requires k < n
    ensures forall t :: 0 <= t < k ==> Bits(Pow(2, k), n)[t] == 0
    decreases n
  {
    if k > 0 {
      LowBitsClear(k - 1, n - 1);
      var w := Pow(2, k);
      assert w == 2 * Pow(2, k - 1) && w % 2 == 0 && w / 2 == Pow(2, k - 1);
      forall t | 0 <= t < k ensures Bits(w, n)[t] == 0 {
        if t > 0 { assert Bits(w, n)[t] == Bits(w / 2, n - 1)[t - 1]; }
      }
    }
  }

  /** The formula does not look at bit `mi` of an input's label. */
  lemma F2UnequalSizes(mi: nat, mip1: nat) returns (z: seq<int>, a: seq<int>)
    requires mi < mip1
    ensures |z| == mi && |a| == mip1
    ensures Equal([z, a, a], 0, mi) == 1 && SquareGates(z, a, a, Pow(2, mi)) == 0
  {
    z, a := seq(mi, _ => 0), Bits(Pow(2, mi), mip1);
    LowBitsClear(mi, mip1);
    AgreeAtZero([z, a, a], 0, mi);
    PowMonotone(2, mi + 1, mip1);
    NoGateBeyond(z, a, Pow(2, mi), mip1, Pow(2, mi));
  }

  ghost predicate ExtendsSquares(z: seq<int>, a: seq<int>, b: seq<int>, mi: nat, p: int)
    requires p > 0 && Long([z, a, b], mi)
  {
    Cong(Equal([z, a, b], 0, mi), SquareGates(z, a, b, Pow(2, mi)), p)
  }

  lemma F2EqualSizes(z: seq<int>, a: seq<int>, b: seq<int>, n: nat, p: int)
    requires p > 0 && |z| == |a| == |b| == n
    ensures ExtendsSquares(z, a, b, n, p)
  {
    DiagonalEqual([z, a, b], n);
    SquareDiagonal(z, a, b, Pow(2, n));
  }

  /** The formula is the extension of the squaring gates, at all points, exactly on layers of equal size. */
  lemma F2Exact(mi: nat, mip1: nat, p: int)
    requires p > 1 && mi <= mip1
    ensures mi == mip1 <==>
            forall z: seq<int>, a: seq<int>, b: seq<int> :: |z| == mi && |a| == |b| == mip1 ==> ExtendsSquares(z, a, b, mi, p)
  {
    if mi < mip1 {
      var z, a := F2UnequalSizes(mi, mip1);
      SmallMod(1, p);
      assert !ExtendsSquares(z, a, a, mi, p);
    } else {
      forall z: seq<int>, a: seq<int>, b: seq<int> | |z| == mi && |a| == |b| == mip1 ensures ExtendsSquares(z, a, b, mi, p) {
        F2EqualSizes(z, a, b, mi, p);
      }
    }
  }

  // ----- reduce: gate g adds inputs 2g and 2g+1 -----

  function AddGates(z: seq<int>, a: seq<int>, b: seq<int>, n: nat): int {
    if n == 0 then 0 else AddGates(z, a, b, n - 1) + Wire(z, a, b, n - 1, 2 * (n - 1), 2 * (n - 1) + 1)
  }

  lemma {:induction false} AddDiagonal(z: seq<int>, a: seq<int>, b: seq<int>, n: nat)
    requires a != [] && b != []
    ensures AddGates(z, a, b, n) == ((1 - a[0]) * b[0]) * Diagonal([z, a[1..], b[1..]], n)
    decreases n
  {
    if n > 0 {
      var g := n - 1;
      AddDiagonal(z, a, b, g);
      ThreeChi(g, z, a[1..], b[1..]);
      assert (2 * g) % 2 == 0 && (2 * g) / 2 == g && (2 * g + 1) % 2 == 1 && (2 * g + 1) / 2 == g;
      AddTerm(Chi(g, z), 1 - a[0], Chi(g, a[1..]), b[0], Chi(g, b[1..]));
      MulDist((1 - a[0]) * b[0], Diagonal([z, a[1..], b[1..]], g), Wire(z, a[1..], b[1..], g, g, g));
    }
  }

  lemma AddTerm(x: int, u: int, c: int, v: int, d: int)
    ensures x * ((u * c) * (v * d)) == (u * v) * (x * (c * d))
  {
    SwapMiddle(u, c, v, d);
    MulSwap(x, u * v, c * d);
  }

  lemma HalvedGates(z: seq<int>, a: seq<int>, b: seq<int>, n: nat)
    requires |z| == n && |a| == |b| == n + 1
    ensures AddGates(z, a, b, Pow(2, n)) == Equal([z, a[1..], b[1..]], 0, n) * ((1 - a[0]) * b[0])
  {
    DiagonalEqual([z, a[1..], b[1..]], n);
    AddDiagonal(z, a, b, Pow(2, n));
  }

  /** `reduce`: halving a layer of more than one gate, or combining the last two. */
  method Reduce(r: seq<int>, mi: nat, mip1: nat, ni: nat, p: int) returns (rop: int)
    requires p > 0 && |r| == mi + 2 * mip1
    requires if ni == 1 then mi == mip1 == 1 else mi + 1 == mip1
    ensures Cong(rop, AddGates(r[..mi], r[mi..mi + mip1], r[mi + mip1..], if ni == 1 then 1 else Pow(2, mi)), p)
  {
    ghost var z, a, b := r[..mi], r[mi..mi + mip1], r[mi + mip1..];
    var ans;
    ghost var d;
    if ni == 1 {
      ans := 1 - r[0];
      d := 1 - r[0];
      OneGate(z, a, b);
    } else {
      d := Equal([z, a[1..], b[1..]], 0, mi);
      ans := CheckEqual(1, [r[..mi], r[mi..mi + mip1][1..], r[mi + mip1..][1..]], 0, mip1 - 1, p);
      HalvedGates(z, a, b, mi);
    }
    LastBits(ans, d, 1 - r[mi], r[mi + mip1], AddGates(z, a, b, if ni == 1 then 1 else Pow(2, mi)), p);
    rop := ((ans * (1 - r[mi])) * r[mi + mip1]) % p;
  }

  lemma LastBits(ans: int, d: int, u: int, v: int, total: int, p: int)
    requires p > 0 && Cong(ans, d, p) && total == d * (u * v)
    ensures Cong(((ans * u) * v) % p, total, p)
  {
    CongMul(ans, d, u * v, u * v, p);
    MulAssoc(ans, u, v);
    CongMod((ans * u) * v, p);
  }

  lemma OneGate(z: seq<int>, a: seq<int>, b: seq<int>)
    requires |z| == |a| == |b| == 1
    ensures AddGates(z, a, b, 1) == (1 - z[0]) * ((1 - a[0]) * b[0])
  {
    assert AddGates(z, a, b, 1) == AddGates(z, a, b, 0) + Wire(z, a, b, 0, 0, 1);
    OneBit(0, z); OneBit(0, a); OneBit(1, b);
  }

  lemma OneBit(b: nat, x: seq<int>)
    requires |x| == 1 && b <= 1
    ensures Chi(b, x) == Lit(b, x[0])
  {
    assert Chi(b, x) == Lit(b % 2, x[0]) * Chi(b / 2, x[1..]);
  }
}
