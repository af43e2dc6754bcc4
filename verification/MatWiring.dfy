/** The multiplication gates of the GKR matrix-product circuit (`mat_mult_63_p3d` in `cmtgkr/cmtgkr_env.cpp`):
    gate `(k, j, i)` multiplies entry `(k, i)` of the first matrix by entry `(j, k)` of the second. */
module MatWiring {
  import opened Arith
  import opened Vectors
  import opened Mle
  import opened Wiring

  /** Labels, least significant block first; `q = 2^d`. */
  function Out(i: nat, j: nat, k: nat, q: nat): nat {
    MulMono(0, i, 0, q); MulMono(0, j + i * q, 0, q);
    k + (j + i * q) * q
  }

  function In1(i: nat, k: nat, q: nat): nat {
    MulMono(0, i, 0, q);
    k + i * q
  }

  function In2(j: nat, k: nat, q: nat): nat {
    MulMono(0, k + 1 * q, 0, q);
    j + (k + 1 * q) * q
  }

  /** All gates: `i`, `j`, `k` range over `0 .. q`. */
  function GatesK(z: seq<int>, a: seq<int>, b: seq<int>, i: nat, j: nat, q: nat, n: nat): int {
    if n == 0 then 0
    else GatesK(z, a, b, i, j, q, n - 1) + Wire(z, a, b, Out(i, j, n - 1, q), In1(i, n - 1, q), In2(j, n - 1, q))
  }

  function GatesJ(z: seq<int>, a: seq<int>, b: seq<int>, i: nat, q: nat, n: nat): int {
    if n == 0 then 0 else GatesJ(z, a, b, i, q, n - 1) + GatesK(z, a, b, i, n - 1, q, q)
  }

  function GatesI(z: seq<int>, a: seq<int>, b: seq<int>, q: nat, n: nat): int {
    if n == 0 then 0 else GatesI(z, a, b, q, n - 1) + GatesJ(z, a, b, n - 1, q, q)
  }

  /** A point cut into its blocks. */
  datatype Blocks = Blocks(z1: seq<int>, z2: seq<int>, z3: seq<int>, z4: int, a1: seq<int>, a2: seq<int>, a3: int, a4: int,
                           b1: seq<int>, b2: seq<int>, b3: int, b4: int)

  ghost predicate Cut(p: Blocks, d: nat) {
    |p.z1| == |p.z2| == |p.z3| == |p.a1| == |p.a2| == |p.b1| == |p.b2| == d
  }

  function Z(p: Blocks): seq<int> { p.z1 + (p.z2 + (p.z3 + [p.z4])) }
  function A(p: Blocks): seq<int> { p.a1 + (p.a2 + [p.a3, p.a4]) }
  function B(p: Blocks): seq<int> { p.b1 + (p.b2 + [p.b3, p.b4]) }

  /** The bits that are the same for every gate. */
  function Fixed(p: Blocks): int {
    ((1 - p.z4) * ((1 - p.a3) * (1 - p.a4))) * (p.b3 * (1 - p.b4))
  }

  lemma TwoBits(w: nat, x: int, y: int)
    requires w <= 1
    ensures Chi(w, [x, y]) == Lit(w, x) * (1 - y)
  {
    assert [x, y][1..] == [y] && [y][1..] == [];
    assert Chi(0, [y]) == Lit(0, y) * Chi(0, []);
    assert Chi(w, [x, y]) == Lit(w % 2, x) * Chi(w / 2, [y]);
  }

  /** Three blocks of a label. */
  lemma ChiThree(u: nat, v: nat, w: nat, x: seq<int>, y: seq<int>, s: seq<int>, q: nat)
    requires |x| == |y| && q == Pow(2, |x|) && u < q && v < q
    ensures 0 <= w * q && 0 <= (v + w * q) * q
    ensures Chi(u + (v + w * q) * q, x + (y + s)) == Chi(u, x) * (Chi(v, y) * Chi(w, s))
  {
    ChiSplit(v, w, y, s);
    ChiSplit(u, v + w * q, x, y + s);
  }

  lemma ChiZ(p: Blocks, d: nat, i: nat, j: nat, k: nat, q: nat)
    requires Cut(p, d) && q == Pow(2, d) && i < q && j < q && k < q
    ensures Chi(Out(i, j, k, q), Z(p)) == Chi(k, p.z1) * (Chi(j, p.z2) * (Chi(i, p.z3) * (1 - p.z4)))
  {
    ChiThree(k, j, i, p.z1, p.z2, p.z3 + [p.z4], q);
    ChiLast(i, p.z3, p.z4);
  }

  lemma ChiLast(i: nat, x: seq<int>, y: int)
    requires i < Pow(2, |x|)
    ensures Chi(i, x + [y]) == Chi(i, x) * (1 - y)
  {
    ChiSnoc(i, 0, x, y);
  }

  lemma ChiA(p: Blocks, d: nat, i: nat, k: nat, q: nat)
    requires Cut(p, d) && q == Pow(2, d) && i < q && k < q
    ensures Chi(In1(i, k, q), A(p)) == Chi(k, p.a1) * (Chi(i, p.a2) * ((1 - p.a3) * (1 - p.a4)))
  {
    ChiThree(k, i, 0, p.a1, p.a2, [p.a3, p.a4], q);
    TwoBits(0, p.a3, p.a4);
  }

  lemma ChiB(p: Blocks, d: nat, j: nat, k: nat, q: nat)
    requires Cut(p, d) && q == Pow(2, d) && j < q && k < q
    ensures Chi(In2(j, k, q), B(p)) == Chi(j, p.b1) * (Chi(k, p.b2) * (p.b3 * (1 - p.b4)))
  {
    ChiThree(j, k, 1, p.b1, p.b2, [p.b3, p.b4], q);
    TwoBits(1, p.b3, p.b4);
  }

  /** One gate, its factors sorted by index. */
  lemma GateFactors(p: Blocks, d: nat, i: nat, j: nat, k: nat, q: nat)
    requires Cut(p, d) && q == Pow(2, d) && i < q && j < q && k < q
    ensures Wire(Z(p), A(p), B(p), Out(i, j, k, q), In1(i, k, q), In2(j, k, q))
         == (Fixed(p) * ((Chi(i, p.z3) * Chi(i, p.a2)) * (Chi(j, p.z2) * Chi(j, p.b1))))
            * (Chi(k, p.z1) * (Chi(k, p.a1) * Chi(k, p.b2)))
  {
    ChiZ(p, d, i, j, k, q);
    ChiA(p, d, i, k, q);
    ChiB(p, d, j, k, q);
    Regroup(Chi(k, p.z1), Chi(j, p.z2), Chi(i, p.z3), 1 - p.z4, Chi(k, p.a1), Chi(i, p.a2), (1 - p.a3) * (1 - p.a4),
            Chi(j, p.b1), Chi(k, p.b2), p.b3 * (1 - p.b4));
  }

  lemma Regroup(k1: int, j1: int, i1: int, u: int, k2: int, i2: int, v: int, j2: int, k3: int, w: int)
    ensures (k1 * (j1 * (i1 * u))) * ((k2 * (i2 * v)) * (j2 * (k3 * w)))
         == (((u * v) * w) * ((i1 * i2) * (j1 * j2))) * (k1 * (k2 * k3))
  {
    var s, t := i2 * v, k3 * w;
    SwapMiddle(k2, s, j2, t);
    assert s * t == (i2 * k3) * (v * w) by { SwapMiddle(i2, v, k3, w); }
    // everything multiplied out in one order
    calc {
      (k1 * (j1 * (i1 * u))) * ((k2 * s) * (j2 * t));
      == { SwapMiddle(k2, s, j2, t); }
      (k1 * (j1 * (i1 * u))) * ((k2 * j2) * ((i2 * k3) * (v * w)));
      == { MulSwap(j1, i1, u); MulAssoc(i1, j1, u); }
      (k1 * ((i1 * j1) * u)) * ((k2 * j2) * ((i2 * k3) * (v * w)));
      == { Collect(k1, i1, j1, u, k2, j2, i2, k3, v, w); }
      (((u * v) * w) * ((i1 * i2) * (j1 * j2))) * (k1 * (k2 * k3));
    }
  }

  lemma Collect(k1: int, i1: int, j1: int, u: int, k2: int, j2: int, i2: int, k3: int, v: int, w: int)
    ensures (k1 * ((i1 * j1) * u)) * ((k2 * j2) * ((i2 * k3) * (v * w)))
         == (((u * v) * w) * ((i1 * i2) * (j1 * j2))) * (k1 * (k2 * k3))
  {
    var x, y, z := i1 * j1, v * w, i2 * k3;
    // left: k1 (x u) ((k2 j2) (z y))
    assert (k2 * j2) * (z * y) == ((k2 * j2) * z) * y by { MulAssoc(k2 * j2, z, y); }
    assert (k2 * j2) * z == (k2 * k3) * (j2 * i2) by { assert z == k3 * i2; SwapMiddle(k2, j2, k3, i2); }
    assert (k1 * (x * u)) == (k1 * x) * u by { MulAssoc(k1, x, u); }
    SwapMiddle(k1 * x, u, (k2 * k3) * (j2 * i2), y);
    SwapMiddle(k1, x, k2 * k3, j2 * i2);
    assert x * (j2 * i2) == (i1 * i2) * (j1 * j2) by { assert j2 * i2 == i2 * j2; SwapMiddle(i1, j1, i2, j2); }
    MulAssoc(u, v, w);
    var m, n, f := k1 * (k2 * k3), (i1 * i2) * (j1 * j2), u * y;
    assert (m * n) * f == (f * n) * m by { assert m * n == n * m; MulAssoc(n, m, f); MulSwap(n, m, f); assert m * (n * f) == (n * f) * m; assert n * f == f * n; }
    MulAssoc(k1, k2, k3);
    assert (k1 * (k2 * k3)) == (k1 * k2) * k3;
  }

  lemma TwoChi(g: nat, x: seq<int>, y: seq<int>)
    ensures ChiProd(g, [x, y]) == Chi(g, x) * Chi(g, y)
  {
    assert [x, y][1..] == [y] && [y][1..] == [];
    assert ChiProd(g, [y]) == Chi(g, y) * ChiProd(g, []);
    assert ChiProd(g, [x, y]) == Chi(g, x) * ChiProd(g, [y]);
  }

  lemma {:induction false} SumK(p: Blocks, d: nat, i: nat, j: nat, q: nat, n: nat)
    requires Cut(p, d) && q == Pow(2, d) && i < q && j < q && n <= q
    ensures GatesK(Z(p), A(p), B(p), i, j, q, n)
         == (Fixed(p) * ((Chi(i, p.z3) * Chi(i, p.a2)) * (Chi(j, p.z2) * Chi(j, p.b1)))) * Diagonal([p.z1, p.a1, p.b2], n)
    decreases n
  {
    if n > 0 {
      SumK(p, d, i, j, q, n - 1);
      GateFactors(p, d, i, j, n - 1, q);
      ThreeChi(n - 1, p.z1, p.a1, p.b2);
      MulDist(Fixed(p) * ((Chi(i, p.z3) * Chi(i, p.a2)) * (Chi(j, p.z2) * Chi(j, p.b1))),
              Diagonal([p.z1, p.a1, p.b2], n - 1), ChiProd(n - 1, [p.z1, p.a1, p.b2]));
    }
  }

  lemma {:induction false} SumJ(p: Blocks, d: nat, i: nat, q: nat, n: nat, dk: int)
    requires Cut(p, d) && q == Pow(2, d) && i < q && n <= q && dk == Diagonal([p.z1, p.a1, p.b2], q)
    ensures GatesJ(Z(p), A(p), B(p), i, q, n) == ((Fixed(p) * dk) * (Chi(i, p.z3) * Chi(i, p.a2))) * Diagonal([p.z2, p.b1], n)
    decreases n
  {
    if n > 0 {
      SumJ(p, d, i, q, n - 1, dk);
      SumK(p, d, i, n - 1, q, q);
      TwoChi(n - 1, p.z2, p.b1);
      var f, x, y := Fixed(p), Chi(i, p.z3) * Chi(i, p.a2), Chi(n - 1, p.z2) * Chi(n - 1, p.b1);
      PullOut(f, x, y, dk);
      MulDist((f * dk) * x, Diagonal([p.z2, p.b1], n - 1), y);
    }
  }

  lemma PullOut(f: int, x: int, y: int, d: int)
    ensures (f * (x * y)) * d == ((f * d) * x) * y
  {
    MulAssoc(f, x * y, d);
    assert (x * y) * d == d * (x * y);
    MulAssoc(f, d, x * y);
    MulAssoc(f * d, x, y);
  }

  lemma {:induction false} SumI(p: Blocks, d: nat, q: nat, n: nat, dk: int, dj: int)
    requires Cut(p, d) && q == Pow(2, d) && n <= q
    requires dk == Diagonal([p.z1, p.a1, p.b2], q) && dj == Diagonal([p.z2, p.b1], q)
    ensures GatesI(Z(p), A(p), B(p), q, n) == ((Fixed(p) * dk) * dj) * Diagonal([p.z3, p.a2], n)
    decreases n
  {
    if n > 0 {
      SumI(p, d, q, n - 1, dk, dj);
      SumJ(p, d, n - 1, q, q, dk);
      TwoChi(n - 1, p.z3, p.a2);
      var f, x := Fixed(p) * dk, Chi(n - 1, p.z3) * Chi(n - 1, p.a2);
      assert (f * x) * dj == (f * dj) * x by { MulAssoc(f, x, dj); assert x * dj == dj * x; MulAssoc(f, dj, x); }
      MulDist(f * dj, Diagonal([p.z3, p.a2], n - 1), x);
    }
  }

  /** The sum over all gates is a product of equality polynomials. */
  lemma AllGates(p: Blocks, d: nat, q: nat)
    requires Cut(p, d) && q == Pow(2, d)
    ensures GatesI(Z(p), A(p), B(p), q, q)
         == ((Fixed(p) * Equal([p.z1, p.a1, p.b2], 0, d)) * Equal([p.z2, p.b1], 0, d)) * Equal([p.z3, p.a2], 0, d)
  {
    DiagonalEqual([p.z1, p.a1, p.b2], d);
    DiagonalEqual([p.z2, p.b1], d);
    DiagonalEqual([p.z3, p.a2], d);
    SumI(p, d, q, q, Diagonal([p.z1, p.a1, p.b2], q), Diagonal([p.z2, p.b1], q));
  }

  // ----- the evaluation loop -----

  /** One of the loops that test two blocks for equality. */
  method PairLoop(start: int, r: seq<int>, at: nat, at': nat, d: nat, p: int, ghost x: seq<int>, ghost y: seq<int>)
    returns (rop: int)
    requires p > 0 && at + d <= |r| && at' + d <= |r| && x == r[at..at + d] && y == r[at'..at' + d]
    ensures Cong(rop, start * Equal([x, y], 0, d), p)
  {
    rop := start;
    for j := 0 to d
      invariant Cong(rop * Equal([x, y], j, d), start * Equal([x, y], 0, d), p)
    {
      TwoAt(x, y, j);
      var tmp := (1 - r[at + j]) * (1 - r[at' + j]) + r[at + j] * r[at' + j];
      ProductStep(rop, tmp, Equal([x, y], j + 1, d), p);
      rop := (rop * tmp) % p;
    }
  }

  /** The loop that tests three blocks for equality. */
  method TripleLoop(start: int, r: seq<int>, at: nat, at': nat, at'': nat, d: nat, p: int,
                    ghost x: seq<int>, ghost y: seq<int>, ghost w: seq<int>)
    returns (rop: int)
    requires p > 0 && at + d <= |r| && at' + d <= |r| && at'' + d <= |r|
    requires x == r[at..at + d] && y == r[at'..at' + d] && w == r[at''..at'' + d]
    ensures Cong(rop, start * Equal([x, y, w], 0, d), p)
  {
    rop := start;
    for j := 0 to d
      invariant Cong(rop * Equal([x, y, w], j, d), start * Equal([x, y, w], 0, d), p)
    {
      ThreeAt(x, y, w, j);
      var tmp := (1 - r[at' + j]) * (1 - r[at'' + j]);
      tmp := tmp * (1 - r[at + j]) + (r[at' + j] * r[at'' + j]) * r[at + j];
      ThreeFactor(r[at + j], r[at' + j], r[at'' + j]);
      ProductStep(rop, tmp, Equal([x, y, w], j + 1, d), p);
      rop := (rop * tmp) % p;
    }
  }

  function CutAt(r: seq<int>, d: nat, mi: nat, mip1: nat): (p: Blocks)
    requires mi == 3 * d + 1 && mip1 == 2 * d + 2 && |r| == mi + 2 * mip1
    ensures Cut(p, d)
  {
    Blocks(r[0..0 + d], r[d..d + d], r[2 * d..2 * d + d], r[mi - 1],
           r[mi..mi + d], r[mi + d..mi + d + d], r[mi + mip1 - 2], r[mi + mip1 - 1],
           r[mi + mip1..mi + mip1 + d], r[mi + mip1 + d..mi + mip1 + d + d], r[mi + 2 * mip1 - 2], r[mi + 2 * mip1 - 1])
  }

  lemma ZJoins(r: seq<int>, d: nat, mi: nat, mip1: nat)
    requires mi == 3 * d + 1 && mip1 == 2 * d + 2 && |r| == mi + 2 * mip1
    ensures Z(CutAt(r, d, mi, mip1)) == r[..mi]
  {
    var k, l := 2 * d, 3 * d;
    assert CutAt(r, d, mi, mip1).z3 == r[k..l] && CutAt(r, d, mi, mip1).z2 == r[d..k];
    JoinOne(r, 0, d, k, l);
  }

  lemma AJoins(r: seq<int>, d: nat, mi: nat, mip1: nat)
    requires mi == 3 * d + 1 && mip1 == 2 * d + 2 && |r| == mi + 2 * mip1
    ensures A(CutAt(r, d, mi, mip1)) == r[mi..mi + mip1]
  {
    JoinTwo(r, mi, mi + d, mi + d + d);
  }

  lemma BJoins(r: seq<int>, d: nat, mi: nat, mip1: nat)
    requires mi == 3 * d + 1 && mip1 == 2 * d + 2 && |r| == mi + 2 * mip1
    ensures B(CutAt(r, d, mi, mip1)) == r[mi + mip1..]
  {
    JoinTwo(r, mi + mip1, mi + mip1 + d, mi + mip1 + d + d);
    assert r[mi + mip1..] == r[mi + mip1..|r|];
  }

  lemma JoinOne(r: seq<int>, i: nat, j: nat, k: nat, l: nat)
    requires i <= j <= k <= l < |r|
    ensures r[i..j] + (r[j..k] + (r[k..l] + [r[l]])) == r[i..l + 1]
  {
  }

  lemma JoinTwo(r: seq<int>, i: nat, j: nat, k: nat)
    requires i <= j <= k && k + 2 <= |r|
    ensures r[i..j] + (r[j..k] + [r[k], r[k + 1]]) == r[i..k + 2]
  {
  }

  /** The single-bit tests, reduced along the way. */
  method FixedBits(r: seq<int>, mi: nat, mip1: nat, p: int, ghost b: Blocks) returns (rop: int)
    requires p > 0 && mi >= 1 && mip1 >= 2 && |r| == mi + 2 * mip1
    requires b.z4 == r[mi - 1] && b.a3 == r[mi + mip1 - 2] && b.a4 == r[mi + mip1 - 1]
    requires b.b3 == r[mi + 2 * mip1 - 2] && b.b4 == r[mi + 2 * mip1 - 1]
    ensures Cong(rop, Fixed(b), p)
  {
    var u, v, w, x, y := 1 - r[mi - 1], 1 - r[mi + mip1 - 1], 1 - r[mi + mip1 - 2], 1 - r[mi + 2 * mip1 - 1], r[mi + 2 * mip1 - 2];
    CongMod(u, p);
    rop := u % p;
    CongMul(rop, u, v, v, p);
    rop := rop * v;
    CongMul(rop, u * v, w, w, p);
    CongMod(rop * w, p);
    rop := (rop * w) % p;
    CongMul(rop, (u * v) * w, x, x, p);
    rop := rop * x;
    CongMul(rop, ((u * v) * w) * x, y, y, p);
    CongMod(rop * y, p);
    rop := (rop * y) % p;
    assert (((u * v) * w) * x) * y == (u * (w * v)) * (y * x) by {
      MulAssoc(u, v, w); assert v * w == w * v; MulAssoc(u * (w * v), x, y); assert x * y == y * x;
    }
  }

  /** `mat_mult_63_p3d`, with `mi = 3 d + 1` label bits for a gate and `mip1 = 2 d + 2` for an input. */
  method MatMult63P3d(r: seq<int>, mi: nat, mip1: nat, p: int) returns (rop: int)
    requires p > 0 && mi % 3 == 1 && mip1 == 2 * (mi / 3) + 2 && |r| == mi + 2 * mip1
    ensures Cong(rop, GatesI(r[..mi], r[mi..mi + mip1], r[mi + mip1..], Pow(2, mi / 3), Pow(2, mi / 3)), p)
  {
    var d := (mi - 1) / 3;
    ghost var b := CutAt(r, d, mi, mip1);
    var f := FixedBits(r, mi, mip1, p, b);
    var i := PairLoop(f, r, 2 * d, mi + d, d, p, b.z3, b.a2);
    var k := TripleLoop(i, r, 0, mi, mi + mip1 + d, d, p, b.z1, b.a1, b.b2);
    rop := PairLoop(k, r, d, mi + mip1, d, p, b.z2, b.b1);
    LoopsTotal(r, d, mi, mip1, b, f, i, k, rop, p);
  }

  lemma LoopsTotal(r: seq<int>, d: nat, mi: nat, mip1: nat, b: Blocks, f: int, i: int, k: int, rop: int, p: int)
    requires p > 0 && mi == 3 * d + 1 && mip1 == 2 * d + 2 && |r| == mi + 2 * mip1 && b == CutAt(r, d, mi, mip1)
    requires Cong(f, Fixed(b), p) && Cong(i, f * Equal([b.z3, b.a2], 0, d), p)
    requires Cong(k, i * Equal([b.z1, b.a1, b.b2], 0, d), p) && Cong(rop, k * Equal([b.z2, b.b1], 0, d), p)
    ensures Cong(rop, GatesI(r[..mi], r[mi..mi + mip1], r[mi + mip1..], Pow(2, d), Pow(2, d)), p)
  {
    ZJoins(r, d, mi, mip1);
    AJoins(r, d, mi, mip1);
    BJoins(r, d, mi, mip1);
    AllGates(b, d, Pow(2, d));
    ChainThree(f, Fixed(b), i, Equal([b.z3, b.a2], 0, d), k, Equal([b.z1, b.a1, b.b2], 0, d), rop,
               Equal([b.z2, b.b1], 0, d), p);
  }

  lemma ChainThree(f: int, f': int, i: int, x: int, k: int, y: int, r: int, z: int, p: int)
    requires p > 0 && Cong(f, f', p) && Cong(i, f * x, p) && Cong(k, i * y, p) && Cong(r, k * z, p)
    ensures Cong(r, ((f' * y) * z) * x, p)
  {
    CongMul(f, f', x, x, p);
    CongMul(i, f' * x, y, y, p);
    CongMul(k, (f' * x) * y, z, z, p);
    assert ((f' * x) * y) * z == ((f' * y) * z) * x by {
      MulAssoc(f', x, y); assert x * y == y * x; MulAssoc(f', y, x);
      MulAssoc(f' * y, x, z); assert x * z == z * x; MulAssoc(f' * y, z, x);
    }
  }
}
