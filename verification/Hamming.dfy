/** Hamming distances of one string to `m` others (`apps_tailored/hdist_v.cpp`, `apps_tailored/hdist_p.cpp`):
    `2 m^2 + 2 m` constraints, the coefficient vectors that combine them, and the honest assignment. */
module Hamming {
  import opened Arith
  import opened Vectors

  function At(s: seq<int>, i: int): int {
    if 0 <= i < |s| then s[i] else 0
  }

  /** The variables: `A_j`, `M_ij` and `S_ij` row by row, the outputs and the inputs. */
  datatype Values = Values(m: nat, a: seq<int>, mm: seq<int>, s: seq<int>, y: seq<int>, input: seq<int>)

  ghost predicate Shaped(v: Values, b: seq<int>) {
    |v.a| == |v.y| == |v.input| == v.m && |v.mm| == |v.s| == |b| == v.m * v.m
  }

  // ----- the constraints -----

  /** `A_j M_ij - b_ij M_ij - S_ij` at `k = i m + j`. */
  function C1(v: Values, b: seq<int>, k: nat): int
    requires v.m > 0
  {
    At(v.a, k % v.m) * At(v.mm, k) - At(b, k) * At(v.mm, k) - At(v.s, k)
  }

  /** `A_j - A_j S_ij + b_ij S_ij - b_ij`. */
  function C2(v: Values, b: seq<int>, k: nat): int
    requires v.m > 0
  {
    At(v.a, k % v.m) - At(v.a, k % v.m) * At(v.s, k) + At(b, k) * At(v.s, k) - At(b, k)
  }

  /** `y_i - sum_j S_ij`. */
  function C3(v: Values, i: nat): int {
    At(v.y, i) - RowSum(v.s, i * v.m, v.m)
  }

  /** `input_i - A_i`. */
  function C4(v: Values, i: nat): int {
    At(v.input, i) - At(v.a, i)
  }

  function RowSum(s: seq<int>, at: int, n: nat): int {
    if n == 0 then 0 else RowSum(s, at, n - 1) + At(s, at + n - 1)
  }

  ghost predicate Meets(v: Values, b: seq<int>, p: int)
    requires p > 0 && v.m > 0
  {
    && (forall k: nat :: k < v.m * v.m ==> Cong(C1(v, b, k), 0, p) && Cong(C2(v, b, k), 0, p))
    && forall i: nat :: i < v.m ==> Cong(C3(v, i), 0, p) && Cong(C4(v, i), 0, p)
  }

  // ----- soundness -----

  /** Positions in which the input differs, in the field, from row `at`. */
  ghost function Differences(input: seq<int>, b: seq<int>, at: int, n: nat, p: int): nat
    requires p > 0
  {
    if n == 0 then 0
    else Differences(input, b, at, n - 1, p) + if Cong(At(input, n - 1), At(b, at + n - 1), p) then 0 else 1
  }

  lemma BitSound(a: int, m: int, s: int, b: int, c1: int, c2: int, p: int)
    requires IsPrime(p) && Cong(c1, 0, p) && Cong(c2, 0, p)
    requires c1 == a * m - b * m - s && c2 == a - a * s + b * s - b
    ensures Cong(s, if Cong(a, b, p) then 0 else 1, p)
  {
    var d := a - b;
    assert c1 == d * m - s by { MulDist(m, a, b); }
    assert c2 == d * (1 - s) by { MulDist(s, a, b); MulDist(d, 1, -s); }
    BitFromDifference(d, m, s, c1, c2, p);
    if Cong(a, b, p) { CongAdd(a, b, b, b, p); }
    if Cong(d, 0, p) { CongAdd(d, 0, b, b, p); }
  }

  lemma BitFromDifference(d: int, m: int, s: int, c1: int, c2: int, p: int)
    requires IsPrime(p) && Cong(c1, 0, p) && Cong(c2, 0, p) && c1 == d * m - s && c2 == d * (1 - s)
    ensures Cong(s, if Cong(d, 0, p) then 0 else 1, p)
  {
    if Cong(d, 0, p) {
      CongMul(d, 0, m, m, p);
      CongAdd(d * m, 0, c1, 0, p);
    } else {
      NoZeroDivisors(d, 1 - s, p);
      CongAdd(1, 1, 1 - s, 0, p);
    }
  }

  lemma InputSame(v: Values, b: seq<int>, j: nat, p: int)
    requires p > 0 && v.m > 0 && Shaped(v, b) && Meets(v, b, p) && j < v.m
    ensures Cong(v.input[j], v.a[j], p)
  {
    assert Cong(C4(v, j), 0, p);
    CongAdd(C4(v, j), 0, v.a[j], v.a[j], p);
  }

  lemma AddBit(x: int, y: int, s: int, t: int, p: int)
    requires p > 0 && Cong(x, y, p) && Cong(s, t, p)
    ensures Cong(x + s, y + t, p)
  {
    CongAdd(x, y, s, t, p);
  }

  lemma {:induction false} RowSound(v: Values, b: seq<int>, i: nat, n: nat, p: int)
    requires IsPrime(p) && v.m > 0 && Shaped(v, b) && Meets(v, b, p) && i < v.m && n <= v.m
    ensures Cong(RowSum(v.s, i * v.m, n), Differences(v.input, b, i * v.m, n, p), p)
    decreases n
  {
    if n > 0 {
      RowSound(v, b, i, n - 1, p);
      var m, j := v.m, n - 1;
      var k := i * m + j;
      IndexInside(i, j, m, m);
      DivModIs(k, i, j, m);
      BitSound(v.a[j], v.mm[k], v.s[k], b[k], C1(v, b, k), C2(v, b, k), p);
      InputSame(v, b, j, p);
      var one := if Cong(v.input[j], b[k], p) then 0 else 1;
      AddBit(RowSum(v.s, i * m, j), Differences(v.input, b, i * m, j, p), v.s[k], one, p);
    }
  }

  /** Any assignment that meets the constraints has the Hamming distances as outputs. */
  lemma HammingSound(v: Values, b: seq<int>, i: nat, p: int)
    requires IsPrime(p) && v.m > 0 && Shaped(v, b) && Meets(v, b, p) && i < v.m
    ensures Cong(v.y[i], Differences(v.input, b, i * v.m, v.m, p), p)
  {
    RowSound(v, b, i, v.m, p);
    assert Cong(C3(v, i), 0, p);
    CongAdd(C3(v, i), 0, RowSum(v.s, i * v.m, v.m), Differences(v.input, b, i * v.m, v.m, p), p);
  }

  // ----- the honest assignment -----

  ghost predicate FieldRange(x: seq<int>, p: int) {
    forall i :: 0 <= i < |x| ==> 0 <= x[i] < p
  }

  /** What the loop stores at position `k`. */
  ghost predicate HonestAt(f1: seq<int>, b: seq<int>, m: nat, x: int, s: int, k: nat, p: int)
    requires p > 0 && m > 0
  {
    var d := At(f1, k % m) - At(b, k);
    && 0 <= x < p && (if d == 0 then s == 0 && x == 0 else s == 1 && Cong(d * x, 1, p))
  }

  ghost predicate HonestTo(f1: seq<int>, b: seq<int>, m: nat, f2: seq<int>, f3: seq<int>, n: int, p: int)
    requires p > 0 && m > 0
  {
    |f2| == |f3| && forall k: nat :: k < n && k < |f2| ==> HonestAt(f1, b, m, f2[k], f3[k], k, p)
  }

  /** Counters below row `i` are final, the others still 0. */
  ghost predicate Counted(y: seq<int>, f3: seq<int>, m: nat, i: int) {
    forall r: nat :: r < |y| ==> y[r] == if r < i then RowSum(f3, r * m, m) else 0
  }

  /** The prover's loops over `F2`, `F3` and `Y`. */
  method Assign(m: nat, f1: seq<int>, b: seq<int>, p: int) returns (f2: array<int>, f3: array<int>, y: array<int>)
    requires IsPrime(p) && m > 0 && |f1| == m && |b| == m * m && FieldRange(f1, p) && FieldRange(b, p)
    ensures f2.Length == f3.Length == m * m && y.Length == m
    ensures Meets(Values(m, f1, f2[..], f3[..], y[..], f1), b, p)
    ensures FieldRange(f2[..], p) && FieldRange(f3[..], p)
  {
    f2, f3, y := new int[m * m], new int[m * m], new int[m](_ => 0);
    var at := 0;
    for i := 0 to m
      invariant at == i * m
      invariant HonestTo(f1, b, m, f2[..], f3[..], at, p) && Counted(y[..], f3[..], m, i)
    {
      RowBelow(i, m, m);
      AssignRow(m, f1, b, p, f2, f3, y, i, at);
      MulDist(m, i, 1);
      at := at + m;
    }
    HonestMeets(m, f1, b, f2[..], f3[..], y[..], p);
  }

  method AssignRow(m: nat, f1: seq<int>, b: seq<int>, p: int, f2: array<int>, f3: array<int>, y: array<int>, i: nat, at: nat)
    requires IsPrime(p) && |f1| == m && |b| == m * m && FieldRange(f1, p) && FieldRange(b, p) && i < m
    requires f2.Length == f3.Length == m * m && y.Length == m && f2 != f3 && f2 != y && f3 != y
    requires at == i * m && at + m <= m * m
    requires HonestTo(f1, b, m, f2[..], f3[..], at, p) && Counted(y[..], f3[..], m, i)
    modifies f2, f3, y
    ensures HonestTo(f1, b, m, f2[..], f3[..], at + m, p) && Counted(y[..], f3[..], m, i + 1)
  {
    ghost var before, y0 := f3[..], y[..];
    for j := 0 to m
      invariant HonestTo(f1, b, m, f2[..], f3[..], at + j, p)
      invariant forall k: nat :: k < at ==> f3[k] == before[k]
      invariant forall r: nat :: r < m && r != i ==> y[r] == y0[r]
      invariant y[i] == RowSum(f3[..], at, j)
    {
      var k := at + j;
      DivModIs(k, i, j, m);
      ghost var old3 := f3[..];
      if f1[j] == b[k] {
        f3[k], f2[k] := 0, 0;
      } else {
        HonestInverse(f1[j], b[k], p);
        y[i] := y[i] + 1;
        f3[k] := 1;
        f2[k] := Inv((f1[j] - b[k]) % p, p);
      }
      RowLocal(old3, f3[..], at, j);
    }
    forall r: nat | r < m ensures y[r] == if r < i + 1 then RowSum(f3[..], r * m, m) else 0 {
      if r < i {
        RowBelow(r, i, m);
        RowLocal(before, f3[..], r * m, m);
      }
    }
  }

  lemma RowBelow(r: nat, i: nat, m: nat)
    requires r < i
    ensures 0 <= r * m && r * m + m <= i * m
  {
    MulMono(r + 1, i, m, m);
    MulDist(m, r, 1);
  }

  lemma {:induction false} RowLocal(s: seq<int>, t: seq<int>, at: nat, n: nat)
    requires |s| == |t| && forall k :: at <= k < at + n && k < |s| ==> s[k] == t[k]
    ensures RowSum(s, at, n) == RowSum(t, at, n)
    decreases n
  {
    if n > 0 { RowLocal(s, t, at, n - 1); }
  }

  lemma HonestInverse(a: int, b: int, p: int)
    requires IsPrime(p) && 0 <= a < p && 0 <= b < p && a != b
    ensures 0 <= Inv((a - b) % p, p) < p && Cong((a - b) * Inv((a - b) % p, p), 1, p)
  {
    if Cong(a - b, 0, p) { CongClose(a - b, 0, p); }
    CongMod(a - b, p);
    InvCorrect((a - b) % p, p);
    CongMul(a - b, (a - b) % p, Inv((a - b) % p, p), Inv((a - b) % p, p), p);
  }

  lemma HonestBit(a: int, b: int, x: int, s: int, c1: int, c2: int, p: int)
    requires p > 0 && (if a - b == 0 then s == 0 && x == 0 else s == 1 && Cong((a - b) * x, 1, p))
    requires c1 == a * x - b * x - s && c2 == a - a * s + b * s - b
    ensures Cong(c1, 0, p) && Cong(c2, 0, p)
  {
    MulDist(x, a, b);
    if a - b != 0 { CongAdd((a - b) * x, 1, 1, 1, p); }
  }

  lemma HonestMeets(m: nat, f1: seq<int>, b: seq<int>, f2: seq<int>, f3: seq<int>, y: seq<int>, p: int)
    requires p > 1 && m > 0 && |f1| == |y| == m && |b| == |f2| == |f3| == m * m
    requires HonestTo(f1, b, m, f2, f3, m * m, p) && Counted(y, f3, m, m)
    ensures Meets(Values(m, f1, f2, f3, y, f1), b, p)
    ensures FieldRange(f2, p) && FieldRange(f3, p)
  {
    var v := Values(m, f1, f2, f3, y, f1);
    forall k: nat | k < m * m ensures Cong(C1(v, b, k), 0, p) && Cong(C2(v, b, k), 0, p) {
      assert HonestAt(f1, b, m, f2[k], f3[k], k, p);
      HonestBit(At(f1, k % m), b[k], f2[k], f3[k], C1(v, b, k), C2(v, b, k), p);
    }
    forall k | 0 <= k < m * m ensures 0 <= f2[k] < p && 0 <= f3[k] < p {
      assert HonestAt(f1, b, m, f2[k], f3[k], k, p);
    }
    forall i: nat | i < m ensures Cong(C3(v, i), 0, p) && Cong(C4(v, i), 0, p) {
      assert y[i] == RowSum(f3, i * m, m);
    }
  }
}
