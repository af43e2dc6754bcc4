/** Windowed modular exponentiation over Montgomery multiplication
    (`mp_modexp_cpu`, `mp_modexp_mont_cpu` in `lib_gpu/mp_modexp_cpu.cpp`). */
module ModExp {
  import opened Arith
  import opened Limbs
  import opened MontReduce
  import opened Clnw
  import Vectors

  /** Modulus and `np` as `cpu_crypto.cpp` prepares them: `n * np[0] == -1 (mod B)`. */
  ghost predicate Modulus(n: array<int>, np: array<int>, B: nat)
    reads n, np
  {
    && 1 <= n.Length == np.Length && 2 * n.Length + 1 < B && 4 < B
    && Words(n[..], B) && 1 < Val(n[..], B)
    && Cong(Val(n[..], B) * np[0], -1, B)
  }

  /** The limbs of `s` hold `x` in Montgomery form, reduced. */
  ghost predicate Holds(s: seq<int>, x: int, N: int, R: int, B: nat)
    requires 0 < N
  {
    Words(s, B) && 0 <= Val(s, B) < N && Cong(Val(s, B), x * R, N)
  }

  /** The constants of `cpu_crypto.cpp`: with `pp = (R R^{-1} - 1) / p`, the low limb of `pp` serves. */
  lemma SetupConstants(p: int, rinv: int, pp: int, pp0: int, h: int, S: nat, B: nat)
    requires 1 <= S && 0 < B
    requires Pow(B, S) * rinv == 1 + p * pp
    requires pp == pp0 + B * h
    ensures Cong(p * pp0, -1, B)
  {
    var k := Pow(B, S - 1) * rinv - p * h;
    assert p * pp0 == -1 + k * B by {
      MulDist(p, pp0, B * h);
      MulSwap(p, B, h);
      MulAssoc(B, Pow(B, S - 1), rinv);
      MulDist(B, Pow(B, S - 1) * rinv, p * h);
    }
    CongFrom(p * pp0, -1, k, B);
  }

  /** The radix is invertible modulo `N`: its inverse is a power of `(N np + 1) / B`. */
  lemma RadixInverse(N: int, np: int, S: nat, B: nat) returns (ri: int)
    requires 0 < B && 0 < N && Cong(N * np, -1, B)
    ensures Cong(Pow(B, S) * ri, 1, N)
  {
    var k := CongWitness(N * np, -1, B);
    assert B * k == 1 + np * N;
    CongFrom(B * k, 1, np, N);
    ri := Pow(k, S);
    PowProduct(B, k, S);
    CongPow(B * k, 1, S, N);
    OnePow(S);
  }

  /** Factors of the radix cancel modulo `N`. */
  lemma CancelRadix(x: int, y: int, N: int, np: int, S: nat, B: nat)
    requires 0 < B && 0 < N && Cong(N * np, -1, B)
    requires Cong(x * Pow(B, S), y * Pow(B, S), N)
    ensures Cong(x, y, N)
  {
    var R := Pow(B, S);
    var ri := RadixInverse(N, np, S, B);
    CongMul(x * R, y * R, ri, ri, N);
    MulAssoc(x, R, ri); MulAssoc(y, R, ri);
    CongMul(x, x, R * ri, 1, N);
    CongMul(y, y, R * ri, 1, N);
  }

  lemma MontProduct(z: int, u: int, v: int, x: int, y: int, N: int, np: int, S: nat, B: nat)
    requires 0 < B && 0 < N && Cong(N * np, -1, B)
    requires Cong(z * Pow(B, S), u * v, N)
    requires Cong(u, x * Pow(B, S), N) && Cong(v, y * Pow(B, S), N)
    ensures Cong(z, (x * y) * Pow(B, S), N)
  {
    var R := Pow(B, S);
    CongMul(u, x * R, v, y * R, N);
    assert (x * R) * (y * R) == ((x * y) * R) * R by {
      MulAssoc(x, R, y * R); MulSwap(R, y, R); MulAssoc(x, y, R * R); MulAssoc(x * y, R, R);
    }
    CancelRadix(z, (x * y) * R, N, np, S, B);
  }

  lemma ReducedProduct(u: int, v: int, N: int, R: int)
    requires 0 <= u < N && 0 <= v < N < R
    ensures u * v < N * R
  {
    MulMono(u, N, v, N);
    MulMono(N, N, N, R - 1);
    MulDist(N, R, 1);
    assert N * (R - 1) == N * R - N;
  }

  /** Multiply two numbers held in Montgomery form. `ret` may be either operand. */
  method MontStep(ret: array<int>, a: array<int>, b: array<int>, n: array<int>, np: array<int>, B: nat,
                  ghost x: int, ghost y: int)
    requires Modulus(n, np, B) && ret != n && ret != np
    requires ret.Length == a.Length == b.Length == n.Length
    requires Holds(a[..], x, Val(n[..], B), Pow(B, n.Length), B)
    requires Holds(b[..], y, Val(n[..], B), Pow(B, n.Length), B)
    modifies ret
    ensures Modulus(n, np, B)
    ensures Holds(ret[..], x * y, Val(n[..], B), Pow(B, n.Length), B)
  {
    ghost var N, R := Val(n[..], B), Pow(B, n.Length);
    ghost var u, v := Val(a[..], B), Val(b[..], B);
    ValBound(n[..], B);
    ReducedProduct(u, v, N, R);
    MontgomeryMul(ret, a, b, n, np, B);
    MontProduct(Val(ret[..], B), u, v, x, y, N, np[0], n.Length, B);
  }

  /** `ar_pow`: rows holding the odd powers `a, a^3, a^5, ...` up to `a^max`. */
  method OddPowers(ar: array<int>, max: int, n: array<int>, np: array<int>, B: nat, ghost a: int)
      returns (rows: seq<array<int>>)
    requires Modulus(n, np, B) && ar.Length == n.Length
    requires Holds(ar[..], a, Val(n[..], B), Pow(B, n.Length), B)
    requires 1 <= max < MAX_FRAGMENT
    ensures |rows| == MAX_FRAGMENT / 2 && forall i :: 0 <= i < |rows| ==> fresh(rows[i])
    ensures RowsHold(rows, max, n, B, a)
  {
    var S := n.Length;
    ghost var N, R := Val(n[..], B), Pow(B, S);
    var first := new int[S](i requires 0 <= i < S reads ar => ar[i]);
    assert first[..] == ar[..];
    rows := [first];
    while |rows| < MAX_FRAGMENT / 2
      invariant 1 <= |rows| <= MAX_FRAGMENT / 2 && rows[0] == first && first[..] == ar[..]
      invariant forall i :: 0 <= i < |rows| ==> fresh(rows[i]) && rows[i].Length == S
      invariant forall i, j :: 0 <= i < j < |rows| ==> rows[i] != rows[j]
      decreases MAX_FRAGMENT / 2 - |rows|
    {
      var row := new int[S];
      rows := rows + [row];
    }
    var sqr := new int[S];
    MontStep(sqr, rows[0], rows[0], n, np, B, a, a);
    FillRows(rows, sqr, max, n, np, B, a);
  }

  /** The loop `ar_pow[i >> 1] = ar_pow[(i >> 1) - 1] * ar_sqr`. */
  method FillRows(rows: seq<array<int>>, sqr: array<int>, max: int, n: array<int>, np: array<int>, B: nat,
                  ghost a: int)
    requires Modulus(n, np, B) && 1 <= max < MAX_FRAGMENT && |rows| == MAX_FRAGMENT / 2
    requires sqr.Length == n.Length && sqr !in rows && n !in rows && np !in rows
    requires forall i :: 0 <= i < |rows| ==> rows[i].Length == n.Length
    requires forall i, j :: 0 <= i < j < |rows| ==> rows[i] != rows[j]
    requires Holds(rows[0][..], a, Val(n[..], B), Pow(B, n.Length), B)
    requires Holds(sqr[..], a * a, Val(n[..], B), Pow(B, n.Length), B)
    modifies rows
    ensures Modulus(n, np, B)
    ensures forall i :: 0 <= i <= (max - 1) / 2 ==>
              Holds(rows[i][..], Pow(a, 2 * i + 1), Val(n[..], B), Pow(B, n.Length), B)
  {
    PowOne(a);
    var k := 1;
    while 2 * k + 1 <= max
      invariant 1 <= k && 2 * k - 1 <= max
      invariant Modulus(n, np, B)
      invariant Holds(sqr[..], a * a, Val(n[..], B), Pow(B, n.Length), B)
      invariant forall i :: 0 <= i < k ==>
                  Holds(rows[i][..], Pow(a, 2 * i + 1), Val(n[..], B), Pow(B, n.Length), B)
      decreases max - 2 * k
    {
      var target := rows[k];
      assert target != sqr && target != n && target != np;
      MontStep(target, rows[k - 1], sqr, n, np, B, Pow(a, 2 * k - 1), a * a);
      OddPowerStep(a, k);
      k := k + 1;
    }
  }

  lemma OddPowerStep(a: int, k: nat)
    requires 1 <= k
    ensures Pow(a, 2 * k - 1) * (a * a) == Pow(a, 2 * k + 1)
  {
    PowAdd(a, 2 * k - 1, 2);
    PowOne(a);
    assert Pow(a, 2) == a * Pow(a, 1);
  }

  /** Square `count` times. */
  method SquareTimes(ret: array<int>, count: nat, n: array<int>, np: array<int>, B: nat, ghost x: int)
    requires Modulus(n, np, B) && ret != n && ret != np && ret.Length == n.Length
    requires Holds(ret[..], x, Val(n[..], B), Pow(B, n.Length), B)
    modifies ret
    ensures Modulus(n, np, B)
    ensures Holds(ret[..], Pow(x, Pow(2, count)), Val(n[..], B), Pow(B, n.Length), B)
  {
    PowOne(x);
    for i := 0 to count
      invariant Modulus(n, np, B)
      invariant Holds(ret[..], Pow(x, Pow(2, i)), Val(n[..], B), Pow(B, n.Length), B)
    {
      ghost var y := Pow(x, Pow(2, i));
      MontStep(ret, ret, ret, n, np, B, y, y);
      PowAdd(x, Pow(2, i), Pow(2, i));
    }
  }

  /** Horner's rule in the exponent. */
  lemma ExponentStep(a: int, e: nat, len: nat, frag: nat)
    ensures 0 <= frag + Pow(2, len) * e
    ensures Pow(Pow(a, e), Pow(2, len)) * Pow(a, frag) == Pow(a, frag + Pow(2, len) * e)
  {
    PowMul(a, e, Pow(2, len));
    PowAdd(a, e * Pow(2, len), frag);
    assert e * Pow(2, len) == Pow(2, len) * e;
  }

  /** Row `i` holds `a^(2i+1)`, for every odd power up to `a^max`. */
  ghost predicate RowsHold(rows: seq<array<int>>, max: int, n: array<int>, B: nat, a: int)
    reads n, rows
  {
    && 0 < Val(n[..], B) && max < MAX_FRAGMENT && |rows| == MAX_FRAGMENT / 2
    && (forall i :: 0 <= i < |rows| ==> rows[i].Length == n.Length)
    && forall i :: 0 <= i <= (max - 1) / 2 ==>
         Holds(rows[i][..], Pow(a, 2 * i + 1), Val(n[..], B), Pow(B, n.Length), B)
  }

  /** Fold one fragment into the running power. */
  method FoldFragment(ret: array<int>, rows: seq<array<int>>, frag: nat, len: nat, max: int, n: array<int>,
                      np: array<int>, B: nat, ghost a: int, ghost e: nat)
    requires Modulus(n, np, B) && ret != n && ret != np && ret !in rows && ret.Length == n.Length
    requires RowsHold(rows, max, n, B, a)
    requires frag == 0 || (frag <= max && frag % 2 == 1)
    requires Holds(ret[..], Pow(a, e), Val(n[..], B), Pow(B, n.Length), B)
    modifies ret
    ensures Modulus(n, np, B) && RowsHold(rows, max, n, B, a)
    ensures 0 <= frag + Pow(2, len) * e
    ensures Holds(ret[..], Pow(a, frag + Pow(2, len) * e), Val(n[..], B), Pow(B, n.Length), B)
  {
    SquareTimes(ret, len, n, np, B, Pow(a, e));
    ExponentStep(a, e, len, frag);
    if frag != 0 {
      assert 2 * (frag / 2) + 1 == frag;
      MontStep(ret, ret, rows[frag / 2], n, np, B, Pow(Pow(a, e), Pow(2, len)), Pow(a, frag));
    } else {
      PowOne(a);
    }
  }

  /** The windowed loop of `mp_modexp_cpu`, from the top fragment down. */
  method WindowLoop(ret: array<int>, rows: seq<array<int>>, f: seq<int>, len: seq<nat>, max: int, n: array<int>,
                    np: array<int>, B: nat, ghost a: int)
    requires Modulus(n, np, B) && ret != n && ret != np && ret !in rows && ret.Length == n.Length
    requires RowsHold(rows, max, n, B, a)
    requires 1 <= |f| == |len| && OddOrZero(f, max) && f[|f| - 1] != 0
    modifies ret
    ensures 0 <= FragValue(f, len)
    ensures Holds(ret[..], Pow(a, FragValue(f, len)), Val(n[..], B), Pow(B, n.Length), B)
  {
    var num := |f|;
    var top := f[num - 1];
    assert 2 * (top / 2) + 1 == top;
    Vectors.Copy(rows[top / 2], ret);
    var k := num - 1;
    assert f[k..][1..] == [] && len[k..][1..] == [];
    assert FragValue(f[k..], len[k..]) == top;
    while k > 0
      invariant 0 <= k < num
      invariant Modulus(n, np, B) && RowsHold(rows, max, n, B, a)
      invariant 0 <= FragValue(f[k..], len[k..])
      invariant Holds(ret[..], Pow(a, FragValue(f[k..], len[k..])), Val(n[..], B), Pow(B, n.Length), B)
    {
      ghost var e := FragValue(f[k..], len[k..]);
      k := k - 1;
      assert f[k..][1..] == f[k + 1..] && len[k..][1..] == len[k + 1..];
      FoldFragment(ret, rows, f[k], len[k], max, n, np, B, a, e);
    }
    assert f[0..] == f && len[0..] == len;
  }

  /** `mp_modexp_cpu`: raise `a` to the exponent the fragments stand for, in Montgomery form. */
  method ModExpWindows(ret: array<int>, ar: array<int>, fragment: array<int>, length: array<nat>, num: nat,
                       max: int, n: array<int>, np: array<int>, B: nat, ghost a: int)
    requires Modulus(n, np, B) && ret != n && ret != np && ret.Length == ar.Length == n.Length
    requires Holds(ar[..], a, Val(n[..], B), Pow(B, n.Length), B)
    requires 1 <= num <= fragment.Length == length.Length
    requires OddOrZero(fragment[..num], max) && fragment[num - 1] != 0 && max < MAX_FRAGMENT
    modifies ret
    ensures Modulus(n, np, B)
    ensures 0 <= old(FragValue(fragment[..num], length[..num]))
    ensures Holds(ret[..], Pow(a, old(FragValue(fragment[..num], length[..num]))), Val(n[..], B), Pow(B, n.Length), B)
  {
    var f, len := fragment[..num], length[..num];
    assert f[num - 1] != 0 && max >= 1;
    var rows := OddPowers(ar, max, n, np, B, a);
    WindowLoop(ret, rows, f, len, max, n, np, B, a);
  }

  // ----- into and out of Montgomery form -----

  /** `make_one`. */
  method MakeOne(w: array<int>, B: nat)
    requires 1 <= w.Length && 1 < B
    modifies w
    ensures Words(w[..], B) && Val(w[..], B) == 1
  {
    for i := 0 to w.Length
      invariant forall k :: 0 <= k < i ==> w[k] == 0
    {
      w[i] := 0;
    }
    w[0] := 1;
    ValZeros(w[..][1..], B);
  }

  /** `mp_montgomerize_cpu`: multiply by `R^2 mod n`. */
  method Montgomerize(ret: array<int>, a: array<int>, rsq: array<int>, n: array<int>, np: array<int>, B: nat)
    requires Modulus(n, np, B) && ret != n && ret != np
    requires ret.Length == a.Length == rsq.Length == n.Length
    requires Words(a[..], B) && Words(rsq[..], B)
    requires Val(rsq[..], B) == (Pow(B, n.Length) * Pow(B, n.Length)) % Val(n[..], B)
    modifies ret
    ensures Modulus(n, np, B)
    ensures Holds(ret[..], old(Val(a[..], B)), Val(n[..], B), Pow(B, n.Length), B)
  {
    ghost var N, R, x := Val(n[..], B), Pow(B, n.Length), Val(a[..], B);
    ghost var r2 := Val(rsq[..], B);
    ValBound(a[..], B);
    CongMod(R * R, N);
    MulMono(x, R - 1, r2, N);
    MulDist(N, R, 1);
    MontgomeryMul(ret, a, rsq, n, np, B);
    CongMul(x, x, r2, R * R, N);
    MulAssoc(x, R, R);
    CancelRadix(Val(ret[..], B), x * R, N, np[0], n.Length, B);
  }

  /** Multiplying by 1 leaves Montgomery form. */
  method Demontgomerize(ret: array<int>, n: array<int>, np: array<int>, B: nat, ghost x: int)
    requires Modulus(n, np, B) && ret != n && ret != np && ret.Length == n.Length
    requires Holds(ret[..], x, Val(n[..], B), Pow(B, n.Length), B)
    modifies ret
    ensures Words(ret[..], B) && Val(ret[..], B) == x % Val(n[..], B)
  {
    ghost var N, R, v := Val(n[..], B), Pow(B, n.Length), Val(ret[..], B);
    var one := new int[n.Length];
    MakeOne(one, B);
    ValBound(n[..], B);
    MulMono(N, N, 1, R);
    MontgomeryMul(ret, ret, one, n, np, B);
    CancelRadix(Val(ret[..], B), x, N, np[0], n.Length, B);
    SmallMod(Val(ret[..], B), N);
  }

  /** `mp_modexp_mont_cpu`: `a^e mod n` for the exponent `e` a window decomposition stands for;
      no fragments stand for exponent 0. */
  method ModExpMont(ret: array<int>, a: array<int>, fragment: array<int>, length: array<nat>, num: nat, max: int,
                    rsq: array<int>, n: array<int>, np: array<int>, B: nat)
    requires Modulus(n, np, B) && ret != n && ret != np && ret != fragment
    requires ret.Length == a.Length == rsq.Length == n.Length
    requires Words(a[..], B) && Words(rsq[..], B)
    requires Val(rsq[..], B) == (Pow(B, n.Length) * Pow(B, n.Length)) % Val(n[..], B)
    requires num <= fragment.Length == length.Length && max < MAX_FRAGMENT
    requires OddOrZero(fragment[..num], max) && (0 < num ==> fragment[num - 1] != 0)
    modifies ret
    ensures Words(ret[..], B) && 0 <= FragValue(fragment[..num], length[..num])
    ensures Val(ret[..], B)
         == Pow(old(Val(a[..], B)), FragValue(fragment[..num], length[..num])) % Val(n[..], B)
  {
    ghost var x := Val(a[..], B);
    if num == 0 {
      MakeOne(ret, B);
      PowOne(x);
      SmallMod(1, Val(n[..], B));
    } else {
      var sa := new int[n.Length];
      Montgomerize(sa, a, rsq, n, np, B);
      ModExpWindows(ret, sa, fragment, length, num, max, n, np, B, x);
      Demontgomerize(ret, n, np, B, Pow(x, FragValue(fragment[..num], length[..num])));
    }
  }

  /** The whole path: decompose the exponent, raise to it. */
  method ModExpEndToEnd(ret: array<int>, a: array<int>, e: array<int>, w: nat, rsq: array<int>, n: array<int>,
                        np: array<int>)
    requires Modulus(n, np, Pow(2, w)) && ret != n && ret != np && 0 < w
    requires ret.Length == a.Length == rsq.Length == n.Length
    requires Words(a[..], Pow(2, w)) && Words(rsq[..], Pow(2, w)) && Words(e[..], Pow(2, w))
    requires Val(rsq[..], Pow(2, w)) == (Pow(Pow(2, w), n.Length) * Pow(Pow(2, w), n.Length)) % Val(n[..], Pow(2, w))
    requires e.Length * w < 768 && 0 < Val(e[..], Pow(2, w))
    modifies ret
    ensures Words(ret[..], Pow(2, w))
    ensures Val(ret[..], Pow(2, w)) == Pow(old(Val(a[..], Pow(2, w))), old(Val(e[..], Pow(2, w)))) % Val(n[..], Pow(2, w))
    ensures var r := Pow(old(Val(a[..], Pow(2, w))), old(Val(e[..], Pow(2, w)))) % Val(n[..], Pow(2, w));
            0 <= r && ret[..] == ToLimbs(r, n.Length, Pow(2, w))
  {
    var fragment := new int[MAX_NUM_FRAGS];
    var length := new nat[MAX_NUM_FRAGS];
    var num, max := GetClnw(e[..], w, fragment, length);
    ModExpMont(ret, a, fragment, length, num, max, rsq, n, np, Pow(2, w));
    TheLimbs(ret[..], Pow(2, w));
  }
}
