/** Multilinear extensions in the GKR protocol: the Lagrange basis `chi`, its fast tabulation, and the
    extension `V` of a layer's gate values (`cmtgkr/cmtgkr_env.cpp`). Values are integers read modulo the
    field's prime. */
module Mle {
  import opened Arith
  import opened Vectors

  // ----- chi -----

  /** The factor one bit contributes. */
  function Lit(bit: nat, x: int): int {
    if bit == 1 then x else 1 - x
  }

  /** `chi_v(r)`: bit `i` of `v` goes with `r[i]`. */
  function Chi(v: nat, r: seq<int>): int
    decreases |r|
  {
    if r == [] then 1 else Lit(v % 2, r[0]) * Chi(v / 2, r[1..])
  }

  /** `chi_v` is 1 at the boolean point `v` and 0 at every other. */
  lemma {:induction false} ChiBoolean(v: nat, w: nat, n: nat)
    requires v < Pow(2, n) && w < Pow(2, n)
    ensures Chi(v, Bits(w, n)) == if v == w then 1 else 0
    decreases n
  {
    if n > 0 {
      var r := Bits(w, n);
      assert r[1..] == Bits(w / 2, n - 1);
      ChiBoolean(v / 2, w / 2, n - 1);
    }
  }

  /** The low `n` bits of `w`, lowest first. */
  function Bits(w: nat, n: nat): (r: seq<int>)
    ensures |r| == n
  {
    if n == 0 then [] else [w % 2] + Bits(w / 2, n - 1)
  }

  /** `chi` is affine in every coordinate. */
  lemma {:induction false} ChiAffine(v: nat, r: seq<int>, i: nat, x: int)
    requires i < |r|
    ensures Chi(v, r[i := x]) == (1 - x) * Chi(v, r[i := 0]) + x * Chi(v, r[i := 1])
    decreases |r|
  {
    var s := r[1..];
    if i == 0 {
      assert r[0 := x][1..] == s && r[0 := 0][1..] == s && r[0 := 1][1..] == s;
      var c := Chi(v / 2, s);
      if v % 2 == 1 {
        assert Lit(1, 0) * c == 0 && Lit(1, 1) * c == c;
      } else {
        assert Lit(v % 2, 0) * c == c && Lit(v % 2, 1) * c == 0;
      }
    } else {
      assert r[i := x][1..] == s[i - 1 := x] && r[i := 0][1..] == s[i - 1 := 0] && r[i := 1][1..] == s[i - 1 := 1];
      ChiAffine(v / 2, s, i - 1, x);
      var l, a, b := Lit(v % 2, r[0]), Chi(v / 2, s[i - 1 := 0]), Chi(v / 2, s[i - 1 := 1]);
      MulDist(l, (1 - x) * a, x * b);
      MulSwap(l, 1 - x, a);
      MulSwap(l, x, b);
    }
  }

  /** High and low bits split the product. */
  lemma {:induction false} ChiSplit(v: nat, w: nat, r: seq<int>, s: seq<int>)
    requires v < Pow(2, |r|)
    ensures 0 <= w * Pow(2, |r|) && Chi(v + w * Pow(2, |r|), r + s) == Chi(v, r) * Chi(w, s)
    decreases |r|
  {
    var m := Pow(2, |r|);
    MulMono(0, w, 0, m);
    if r == [] {
      assert r + s == s;
    } else {
      var half := Pow(2, |r| - 1);
      assert w * m == 2 * (w * half);
      var x := v + w * m;
      assert x % 2 == v % 2 && x / 2 == v / 2 + w * half;
      assert (r + s)[1..] == r[1..] + s;
      ChiSplit(v / 2, w, r[1..], s);
      MulAssoc(Lit(v % 2, r[0]), Chi(v / 2, r[1..]), Chi(w, s));
    }
  }

  /** `chi` with one more variable. */
  lemma ChiSnoc(v: nat, b: nat, r: seq<int>, x: int)
    requires v < Pow(2, |r|) && b <= 1
    ensures 0 <= b * Pow(2, |r|) && Chi(v + b * Pow(2, |r|), r + [x]) == Chi(v, r) * Lit(b, x)
  {
    ChiSplit(v, b, r, [x]);
    assert Chi(b, [x]) == Lit(b % 2, [x][0]) * Chi(b / 2, [x][1..]);
  }

  /** Bit `i` of `v`. */
  function BitAt(v: nat, i: nat): nat {
    if i == 0 then v % 2 else BitAt(v / 2, i - 1)
  }

  lemma {:induction false} ChiPrefix(v: nat, r: seq<int>, i: nat)
    requires i < |r|
    ensures Chi(v, r[..i + 1]) == Chi(v, r[..i]) * Lit(BitAt(v, i), r[i])
    decreases i
  {
    if i == 0 {
      assert r[..1][1..] == [] && r[..0] == [];
    } else {
      ChiPrefix(v / 2, r[1..], i - 1);
      assert r[..i + 1][1..] == r[1..][..i] && r[..i][1..] == r[1..][..i - 1];
      MulAssoc(Lit(v % 2, r[0]), Chi(v / 2, r[1..][..i - 1]), Lit(BitAt(v / 2, i - 1), r[1..][i - 1]));
    }
  }

  /** `mul_chi`: multiply `start` by `chi_v(r)`, reducing after every factor. */
  method MulChi(start: int, v: nat, r: seq<int>, p: int) returns (rop: int)
    requires p > 0
    ensures Cong(rop, start * Chi(v, r), p) && (r != [] ==> 0 <= rop < p)
  {
    rop := start;
    var w := v;
    assert r[..0] == [];
    for i := 0 to |r|
      invariant Cong(rop, start * Chi(v, r[..i]), p) && (i > 0 ==> 0 <= rop < p)
      invariant forall k: nat :: BitAt(w, k) == BitAt(v, i + k)
    {
      var f := if w % 2 == 1 then r[i] else 1 - r[i];
      assert BitAt(w, 0) == BitAt(v, i + 0);
      ChiPrefix(v, r, i);
      MulAssoc(start, Chi(v, r[..i]), f);
      CongMul(rop, start * Chi(v, r[..i]), f, f, p);
      CongMod(rop * f, p);
      rop := (rop * f) % p;
      forall k: nat ensures BitAt(w / 2, k) == BitAt(v, i + 1 + k) { assert BitAt(w, k + 1) == BitAt(v, i + (k + 1)); }
      w := w / 2;
    }
    assert r[..|r|] == r;
  }

  // ----- computeChiAll -----

  /** `computeChiAll`: the table for `r[..m]` is extended in place by one variable at a time. */
  method ComputeChiAll(rop: array<int>, r: seq<int>, p: int)
    requires p > 1 && rop.Length <= Pow(2, |r|)
    modifies rop
    ensures forall i :: 0 <= i < rop.Length ==> Cong(rop[i], Chi(i, r), p)
  {
    if rop.Length == 0 { return; }
    rop[0] := 1;
    var base := 1;
    assert r[..0] == [];
    for logi := 0 to |r|
      invariant base == Pow(2, logi)
      invariant Table(rop[..], 0, base, r[..logi], p)
    {
      ExtendTable(rop, base, r[..logi], r[logi], p);
      assert r[..logi] + [r[logi]] == r[..logi + 1];
      base := 2 * base;
    }
    assert r[..|r|] == r;
  }

  /** The table holds `chi` of `r` below `m`. */
  ghost predicate Table(t: seq<int>, from: nat, m: nat, r: seq<int>, p: int)
    requires p > 0
  {
    forall i: nat :: from <= i < m && i < |t| ==> Cong(t[i], Chi(i, r), p)
  }

  method ExtendTable(rop: array<int>, base: nat, ghost r: seq<int>, x: int, p: int)
    requires p > 1 && base == Pow(2, |r|) && Table(rop[..], 0, base, r, p)
    modifies rop
    ensures Table(rop[..], 0, 2 * base, r + [x], p)
  {
    HighHalf(rop, base, r, x, p);
    LowHalf(rop, base, r, x, p);
  }

  /** The new entries, each from the old entry `base` below it. */
  method HighHalf(rop: array<int>, base: nat, ghost r: seq<int>, x: int, p: int)
    requires p > 1 && base == Pow(2, |r|) && Table(rop[..], 0, base, r, p)
    modifies rop
    ensures Table(rop[..], 0, base, r, p) && Table(rop[..], base, 2 * base, r + [x], p)
  {
    var high := if 2 * base < rop.Length then 2 * base else rop.Length;
    var i := base;
    while i < high
      invariant base <= i && (i <= high || i == base)
      invariant Table(rop[..], 0, base, r, p) && Table(rop[..], base, i, r + [x], p)
    {
      ghost var before := rop[..];
      ScaledEntry(rop[i - base], i - base, 1, r, x, p);
      rop[i] := (rop[i - base] * x) % p;
      assert rop[..] == before[i := rop[i]];
      i := i + 1;
    }
  }

  /** The old entries, scaled in place. */
  method LowHalf(rop: array<int>, base: nat, ghost r: seq<int>, x: int, p: int)
    requires p > 1 && base == Pow(2, |r|)
    requires Table(rop[..], 0, base, r, p) && Table(rop[..], base, 2 * base, r + [x], p)
    modifies rop
    ensures Table(rop[..], 0, 2 * base, r + [x], p)
  {
    var low := if base < rop.Length then base else rop.Length;
    for j := 0 to low
      invariant Table(rop[..], j, base, r, p) && Table(rop[..], 0, j, r + [x], p)
      invariant Table(rop[..], base, 2 * base, r + [x], p)
    {
      ghost var before := rop[..];
      ScaledEntry(rop[j], j, 0, r, x, p);
      rop[j] := (rop[j] * (1 - x)) % p;
      assert rop[..] == before[j := rop[j]];
    }
  }

  lemma ScaledEntry(t: int, i: nat, b: nat, r: seq<int>, x: int, p: int)
    requires p > 0 && i < Pow(2, |r|) && b <= 1 && Cong(t, Chi(i, r), p)
    ensures 0 <= b * Pow(2, |r|) && Cong((t * Lit(b, x)) % p, Chi(i + b * Pow(2, |r|), r + [x]), p)
  {
    ChiSnoc(i, b, r, x);
    CongMul(t, Chi(i, r), Lit(b, x), Lit(b, x), p);
    CongMod(t * Lit(b, x), p);
  }

  // ----- V -----

  /** The multilinear extension of `vals`: the sum of `vals[k] * chi_k(r)` for `k < n`. */
  function SumChi(vals: seq<int>, r: seq<int>, n: nat): int
    requires n <= |vals|
  {
    if n == 0 then 0 else SumChi(vals, r, n - 1) + vals[n - 1] * Chi(n - 1, r)
  }

  function V(vals: seq<int>, r: seq<int>): int {
    SumChi(vals, r, |vals|)
  }

  lemma {:induction false} SumChiAffine(vals: seq<int>, r: seq<int>, i: nat, x: int, n: nat)
    requires i < |r| && n <= |vals|
    ensures SumChi(vals, r[i := x], n) == (1 - x) * SumChi(vals, r[i := 0], n) + x * SumChi(vals, r[i := 1], n)
    decreases n
  {
    if n > 0 {
      SumChiAffine(vals, r, i, x, n - 1);
      ChiAffine(n - 1, r, i, x);
      var v, a, b := vals[n - 1], Chi(n - 1, r[i := 0]), Chi(n - 1, r[i := 1]);
      AffineStep(v, a, b, SumChi(vals, r[i := 0], n - 1), SumChi(vals, r[i := 1], n - 1), x);
    }
  }

  lemma AffineStep(v: int, a: int, b: int, s: int, t: int, x: int)
    ensures ((1 - x) * s + x * t) + v * ((1 - x) * a + x * b) == (1 - x) * (s + v * a) + x * (t + v * b)
  {
    MulDist(v, (1 - x) * a, x * b);
    MulSwap(v, 1 - x, a); MulSwap(v, x, b);
    MulDist(1 - x, s, v * a); MulDist(x, t, v * b);
  }

  lemma {:induction false} SumChiBoolean(vals: seq<int>, w: nat, bits: nat, n: nat)
    requires n <= |vals| && |vals| <= Pow(2, bits) && w < Pow(2, bits)
    ensures SumChi(vals, Bits(w, bits), n) == if w < n then vals[w] else 0
    decreases n
  {
    if n > 0 {
      SumChiBoolean(vals, w, bits, n - 1);
      ChiBoolean(n - 1, w, bits);
    }
  }

  /** `V` is the multilinear extension of the gate values: it is affine in every variable and takes the value of
      gate `w` at the boolean point `w`, 0 beyond the last gate. */
  lemma VExtends(level: seq<int>, r: seq<int>, i: nat, x: int, w: nat)
    requires |level| <= Pow(2, |r|) && i < |r| && w < Pow(2, |r|)
    ensures V(level, r[i := x]) == (1 - x) * V(level, r[i := 0]) + x * V(level, r[i := 1])
    ensures V(level, Bits(w, |r|)) == if w < |level| then level[w] else 0
  {
    SumChiAffine(level, r, i, x, |level|);
    SumChiBoolean(level, w, |r|, |level|);
  }

  /** `evaluate_V_i`: one `chi` per gate. */
  method EvaluateVi(level: seq<int>, r: seq<int>, p: int) returns (rop: int)
    requires p > 0
    ensures Cong(rop, V(level, r), p) && 0 <= rop < p
  {
    rop := 0;
    for k := 0 to |level|
      invariant Cong(rop, SumChi(level, r, k), p) && 0 <= rop < p
    {
      var c := MulChi(1, k, r, p);
      CongMul(level[k], level[k], c, 1 * Chi(k, r), p);
      CongAdd(rop, SumChi(level, r, k), level[k] * c, level[k] * Chi(k, r), p);
      CongMod(rop + level[k] * c, p);
      rop := (rop + level[k] * c) % p;
    }
  }

  /** `evaluate_V_chis`: from the table, skipping gates that are 0, reducing once. */
  method EvaluateVChis(level: seq<int>, chis: seq<int>, p: int, ghost r: seq<int>) returns (rop: int)
    requires p > 0 && |level| <= |chis| && forall k :: 0 <= k < |level| ==> Cong(chis[k], Chi(k, r), p)
    ensures Cong(rop, V(level, r), p) && 0 <= rop < p
  {
    var ans := 0;
    for i := 0 to |level|
      invariant Cong(ans, SumChi(level, r, i), p)
    {
      CongMul(level[i], level[i], chis[i], Chi(i, r), p);
      CongAdd(ans, SumChi(level, r, i), level[i] * chis[i], level[i] * Chi(i, r), p);
      if level[i] != 0 {
        ans := ans + level[i] * chis[i];
      }
    }
    CongMod(ans, p);
    rop := ans % p;
  }

  // ----- folding -----

  /** Fixing the lowest variable to `x` halves the table. */
  function Fold(a: seq<int>, x: int): (r: seq<int>)
    ensures |r| == |a| / 2
  {
    seq(|a| / 2, k requires 0 <= k < |a| / 2 => (1 - x) * a[2 * k] + x * a[2 * k + 1])
  }

  lemma {:induction false} FoldSum(a: seq<int>, r: seq<int>, n: nat)
    requires r != [] && n <= |a| / 2
    ensures SumChi(a, r, 2 * n) == SumChi(Fold(a, r[0]), r[1..], n)
    decreases n
  {
    if n > 0 {
      FoldSum(a, r, n - 1);
      var k := n - 1;
      assert (2 * k) % 2 == 0 && (2 * k) / 2 == k && (2 * k + 1) % 2 == 1 && (2 * k + 1) / 2 == k;
      FoldTerm(a[2 * k], a[2 * k + 1], r[0], Chi(k, r[1..]));
      assert SumChi(a, r, 2 * n) == SumChi(a, r, 2 * k) + a[2 * k] * Chi(2 * k, r) + a[2 * k + 1] * Chi(2 * k + 1, r);
    }
  }

  lemma FoldTerm(u: int, v: int, x: int, c: int)
    ensures u * ((1 - x) * c) + v * (x * c) == ((1 - x) * u + x * v) * c
  {
    MulAssoc(u, 1 - x, c); MulAssoc(v, x, c);
    MulDist(c, (1 - x) * u, x * v);
  }

  /** Folding keeps the extension's value, so folding all variables leaves `V(r)`. */
  lemma FoldKeepsV(a: seq<int>, r: seq<int>)
    requires r != [] && |a| == Pow(2, |r|)
    ensures V(a, r) == V(Fold(a, r[0]), r[1..]) && |Fold(a, r[0])| == Pow(2, |r| - 1)
  {
    var half := Pow(2, |r| - 1);
    assert |a| == 2 * half && |a| / 2 == half;
    FoldSum(a, r, half);
  }

  lemma VOfOne(a: seq<int>)
    requires |a| == 1
    ensures V(a, []) == a[0]
  {
    assert SumChi(a, [], 1) == SumChi(a, [], 0) + a[0] * Chi(0, []);
  }

  lemma EvenStep(v: int, x: int, p: int)
    requires p > 0
    ensures Cong((v + v * (-x)) % p, (1 - x) * v, p)
  {
    CongMod(v + v * (-x), p);
    assert v + v * (-x) == (1 - x) * v;
  }

  lemma OddStep(w: int, u: int, v: int, x: int, z: int, p: int)
    requires p > 0 && Cong(w, (1 - x) * u, p) && z == (1 - x) * u + x * v
    ensures Cong((w + v * x) % p, z, p)
  {
    CongAdd(w, (1 - x) * u, v * x, v * x, p);
    CongMod(w + v * x, p);
    assert v * x == x * v;
  }

  /** Entry `k / 2` after `k` steps of the update: final below it, half done at an odd step. */
  ghost predicate Folding(vals: seq<int>, a: seq<int>, x: int, k: nat, p: int)
    requires p > 0
  {
    && k <= |a| <= |vals| && (forall i :: k <= i < |a| ==> vals[i] == a[i])
    && (forall i :: 0 <= i < k / 2 ==> Cong(vals[i], Fold(a, x)[i], p))
    && (k % 2 == 1 ==> Cong(vals[k / 2], (1 - x) * a[k - 1], p))
  }

  lemma FoldingStep(vals: seq<int>, a: seq<int>, x: int, k: nat, t: int, p: int)
    requires p > 0 && Folding(vals, a, x, k, p) && k < |a|
    requires t == if k % 2 == 1 then (vals[k / 2] + vals[k] * x) % p else (vals[k] + vals[k] * (-x)) % p
    ensures Folding(vals[k / 2 := t], a, x, k + 1, p)
  {
    if k % 2 == 1 {
      OddStep(vals[k / 2], a[k - 1], a[k], x, Fold(a, x)[k / 2], p);
    } else {
      EvenStep(a[k], x, p);
    }
  }

  /** `update_a_fast`: entry `k / 2` is overwritten while entries from `k` on are still to be read. */
  method UpdateAFast(vals: array<int>, n: nat, x: int, p: int)
    requires p > 0 && n <= vals.Length
    modifies vals
    ensures SameMod(vals[..n / 2], Fold(old(vals[..n]), x), p)
    ensures n % 2 == 1 ==> Cong(vals[n / 2], (1 - x) * old(vals[n - 1]), p)
    ensures forall k :: n <= k < vals.Length ==> vals[k] == old(vals[k])
  {
    ghost var a := vals[..n];
    for k := 0 to n
      invariant Folding(vals[..], a, x, k, p)
      invariant forall i :: n <= i < vals.Length ==> vals[i] == old(vals[i])
    {
      var index := k / 2;
      ghost var before := vals[..];
      if k % 2 == 1 {
        vals[index] := (vals[index] + vals[k] * x) % p;
      } else {
        var v := vals[k];
        vals[index] := v;
        vals[index] := (vals[index] + v * (-x)) % p;
      }
      FoldingStep(before, a, x, k, vals[index], p);
      assert vals[..] == before[index := vals[index]];
    }
  }

  // ----- addmodmult_si -----

  /** `addmodmult_si`: the sign of a negative `op2` is applied to the whole sum. */
  function AddModMultSi(rop: int, op1: int, op2: int, p: int): int
    requires p > 0
  {
    var sum := rop + op1 * (if op2 < 0 then -op2 else op2);
    (if op2 < 0 then -sum else sum) % p
  }

  /** It adds `op1 * op2` exactly when `op2` is not negative or twice the accumulator is 0 in the field. */
  lemma AddModMultSiExact(rop: int, op1: int, op2: int, p: int)
    requires p > 0
    ensures Cong(AddModMultSi(rop, op1, op2, p), rop + op1 * op2, p) <==> (op2 >= 0 || Cong(2 * rop, 0, p))
  {
    var t := op1 * op2;
    if op2 >= 0 {
      CongMod(rop + t, p);
    } else {
      assert op1 * -op2 == -t;
      CongMod(-(rop - t), p);
      assert -(rop - t) == t - rop;
      if Cong(2 * rop, 0, p) { CongAdd(rop + t, rop + t, 2 * rop, 0, p); }
      if Cong(t - rop, rop + t, p) { CongAdd(rop + t, t - rop, t - rop, t - rop, p); }
    }
  }

  /** Adding `1 * -1` to 1 gives 3, not 0, in the field of five elements. */
  lemma AddModMultSiFails()
    ensures AddModMultSi(1, 1, -1, 5) == 3 && !Cong(AddModMultSi(1, 1, -1, 5), 1 + 1 * -1, 5)
  {
    AddModMultSiExact(1, 1, -1, 5);
    assert !Cong(2 * 1, 0, 5);
  }
}
