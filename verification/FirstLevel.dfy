/** The sum-check over the first level of a GKR circuit (`check_first_level` in `cmtgkr/cmtgkr_env.cpp`): the
    prover's messages are consistent round by round, and the value left at the end is `V(r)`. */
module FirstLevel {
  import opened Arith
  import opened Vectors
  import opened Mle

  function EvenSum(a: seq<int>, n: nat): int
    requires 2 * n <= |a|
  {
    if n == 0 then 0 else EvenSum(a, n - 1) + a[2 * (n - 1)]
  }

  function OddSum(a: seq<int>, n: nat): int
    requires 2 * n <= |a|
  {
    if n == 0 then 0 else OddSum(a, n - 1) + a[2 * (n - 1) + 1]
  }

  lemma {:induction false} FoldHalves(a: seq<int>, x: int, n: nat)
    requires 2 * n <= |a| / 2
    ensures EvenSum(Fold(a, x), n) + OddSum(Fold(a, x), n) == (1 - x) * EvenSum(a, 2 * n) + x * OddSum(a, 2 * n)
    decreases n
  {
    if n > 0 {
      FoldHalves(a, x, n - 1);
      var k := 2 * (n - 1);
      assert EvenSum(a, 2 * n) == EvenSum(a, k) + a[2 * k] + a[2 * (k + 1)];
      assert OddSum(a, 2 * n) == OddSum(a, k) + a[2 * k + 1] + a[2 * (k + 1) + 1];
      HalvesStep(x, EvenSum(a, k), OddSum(a, k), a[2 * k], a[2 * k + 1], a[2 * (k + 1)], a[2 * (k + 1) + 1]);
    }
  }

  lemma HalvesStep(x: int, e: int, o: int, u: int, v: int, w: int, z: int)
    ensures ((1 - x) * e + x * o) + ((1 - x) * u + x * v) + ((1 - x) * w + x * z) == (1 - x) * (e + u + w) + x * (o + v + z)
  {
    MulDist(1 - x, e + u, w); MulDist(1 - x, e, u);
    MulDist(x, o + v, z); MulDist(x, o, v);
  }

  /** The table after fixing the first `j` variables. */
  function Folded(a: seq<int>, r: seq<int>, j: nat): seq<int>
    requires j <= |r|
  {
    if j == 0 then a else Fold(Folded(a, r, j - 1), r[j - 1])
  }

  lemma {:induction false} FoldedV(a: seq<int>, r: seq<int>, j: nat)
    requires j <= |r| && |a| == Pow(2, |r|)
    ensures |Folded(a, r, j)| == Pow(2, |r| - j) && V(Folded(a, r, j), r[j..]) == V(a, r)
    decreases j
  {
    if j == 0 {
      assert r[0..] == r;
    } else {
      FoldedV(a, r, j - 1);
      FoldKeepsV(Folded(a, r, j - 1), r[j - 1..]);
      assert r[j - 1..][1..] == r[j..];
    }
  }

  /** `|b| / 2` pairs, and the sums over them, survive reduction modulo `p`. */
  lemma {:induction false} HalvesMod(a: seq<int>, b: seq<int>, n: nat, p: int)
    requires p > 0 && SameMod(a, b, p) && 2 * n <= |a|
    ensures Cong(EvenSum(a, n), EvenSum(b, n), p) && Cong(OddSum(a, n), OddSum(b, n), p)
    decreases n
  {
    if n > 0 {
      HalvesMod(a, b, n - 1, p);
      CongAdd(EvenSum(a, n - 1), EvenSum(b, n - 1), a[2 * (n - 1)], b[2 * (n - 1)], p);
      CongAdd(OddSum(a, n - 1), OddSum(b, n - 1), a[2 * (n - 1) + 1], b[2 * (n - 1) + 1], p);
    }
  }

  lemma FoldMod(a: seq<int>, b: seq<int>, x: int, p: int)
    requires p > 0 && SameMod(a, b, p)
    ensures SameMod(Fold(a, x), Fold(b, x), p)
  {
    forall k | 0 <= k < |a| / 2 ensures Cong(Fold(a, x)[k], Fold(b, x)[k], p) {
      CongMul(1 - x, 1 - x, a[2 * k], b[2 * k], p);
      CongMul(x, x, a[2 * k + 1], b[2 * k + 1], p);
      CongAdd((1 - x) * a[2 * k], (1 - x) * b[2 * k], x * a[2 * k + 1], x * b[2 * k + 1], p);
    }
  }

  /** The message of a round: the table's even and odd entries, added up. */
  method Message(a: array<int>, n: nat, p: int) returns (y0: int, y1: int)
    requires p > 0 && 2 * n <= a.Length
    ensures Cong(y0, EvenSum(a[..], n), p) && Cong(y1, OddSum(a[..], n), p)
  {
    y0, y1 := 0, 0;
    for k := 0 to n
      invariant y0 == EvenSum(a[..], k) && y1 == OddSum(a[..], k)
    {
      y1 := y1 + a[2 * k + 1];
      y0 := y0 + a[2 * k];
    }
    CongMod(y0, p); CongMod(y1, p);
    y0, y1 := y0 % p, y1 % p;
  }

  lemma {:induction false} PrefixSums(a: seq<int>, m: nat, n: nat)
    requires 2 * n <= m <= |a|
    ensures EvenSum(a[..m], n) == EvenSum(a, n) && OddSum(a[..m], n) == OddSum(a, n)
    decreases n
  {
    if n > 0 { PrefixSums(a, m, n - 1); }
  }

  /** A message `(y(0), y(1))`, extended linearly to the coin `x`. */
  function AtCoin(y: (int, int), x: int): int {
    (1 - x) * y.0 + x * y.1
  }

  /** What round `j` sends, modulo `p`. */
  ghost predicate Sent(y: (int, int), a: seq<int>, r: seq<int>, j: nat, p: int)
    requires p > 0 && j < |r|
  {
    var t := Folded(a, r, j);
    IsMessage(y, t, |t| / 2, p)
  }

  ghost predicate IsMessage(y: (int, int), t: seq<int>, n: nat, p: int)
    requires p > 0 && 2 * n <= |t|
  {
    Cong(y.0, EvenSum(t, n), p) && Cong(y.1, OddSum(t, n), p)
  }

  /** Message `z` adds up to message `y` at the coin. */
  ghost predicate Chained(y: (int, int), z: (int, int), x: int, p: int)
    requires p > 0
  {
    Cong(z.0 + z.1, AtCoin(y, x), p)
  }

  /** Round consistency: each message adds up to the one before it at the coin. */
  lemma RoundConsistent(y: (int, int), z: (int, int), a: seq<int>, r: seq<int>, j: nat, p: int)
    requires p > 0 && j + 1 < |r| && |a| == Pow(2, |r|) && Sent(y, a, r, j, p) && Sent(z, a, r, j + 1, p)
    ensures Chained(y, z, r[j], p)
  {
    var n := FourDivides(a, r, j);
    SentOver(y, a, r, j, Folded(a, r, j), 2 * n, p);
    SentOver(z, a, r, j + 1, Fold(Folded(a, r, j), r[j]), n, p);
    NextSum(y, z, Folded(a, r, j), r[j], n, p);
  }

  lemma SentOver(y: (int, int), a: seq<int>, r: seq<int>, j: nat, t: seq<int>, n: nat, p: int)
    requires p > 0 && j < |r| && Sent(y, a, r, j, p) && t == Folded(a, r, j) && |t| == 2 * n
    ensures IsMessage(y, t, n, p)
  {
    assert |t| / 2 == n;
  }

  lemma FourDivides(a: seq<int>, r: seq<int>, j: nat) returns (n: nat)
    requires j + 1 < |r| && |a| == Pow(2, |r|)
    ensures |Folded(a, r, j)| == 4 * n && |Folded(a, r, j + 1)| == 2 * n
  {
    FoldedV(a, r, j);
    HalfPower(|r| - j);
    HalfPower(|r| - j - 1);
    n := Pow(2, |r| - j - 2);
  }

  lemma NextSum(y: (int, int), z: (int, int), t: seq<int>, x: int, n: nat, p: int)
    requires p > 0 && |t| == 4 * n && IsMessage(y, t, 2 * n, p) && IsMessage(z, Fold(t, x), n, p)
    ensures Chained(y, z, x, p)
  {
    FoldHalves(t, x, n);
    CongAdd(z.0, EvenSum(Fold(t, x), n), z.1, OddSum(Fold(t, x), n), p);
    Blend(y, EvenSum(t, 2 * n), OddSum(t, 2 * n), x, EvenSum(Fold(t, x), n) + OddSum(Fold(t, x), n), p);
  }

  lemma Blend(y: (int, int), e: int, o: int, x: int, z: int, p: int)
    requires p > 0 && Cong(y.0, e, p) && Cong(y.1, o, p) && z == (1 - x) * e + x * o
    ensures Cong(AtCoin(y, x), z, p)
  {
    CongMul(1 - x, 1 - x, y.0, e, p);
    CongMul(x, x, y.1, o, p);
    CongAdd((1 - x) * y.0, (1 - x) * e, x * y.1, x * o, p);
  }

  /** The last message at the last coin is `V(r)`. */
  lemma LastMessage(y: (int, int), a: seq<int>, r: seq<int>, p: int)
    requires p > 0 && r != [] && |a| == Pow(2, |r|) && Sent(y, a, r, |r| - 1, p)
    ensures Cong(AtCoin(y, r[|r| - 1]), V(a, r), p)
  {
    var j := |r| - 1;
    FoldedV(a, r, j);
    FoldedV(a, r, |r|);
    var t := Folded(a, r, j);
    PowOne(2);
    assert EvenSum(t, 1) == EvenSum(t, 0) + t[0] && OddSum(t, 1) == OddSum(t, 0) + t[1];
    assert r[|r|..] == [];
    VOfOne(Folded(a, r, |r|));
    Blend(y, t[0], t[1], r[j], V(a, r), p);
  }

  function Total(a: seq<int>, n: nat): int
    requires n <= |a|
  {
    if n == 0 then 0 else Total(a, n - 1) + a[n - 1]
  }

  function Sum(a: seq<int>): int { Total(a, |a|) }

  lemma {:induction false} HalvesTotal(a: seq<int>, n: nat)
    requires 2 * n <= |a|
    ensures EvenSum(a, n) + OddSum(a, n) == Total(a, 2 * n)
    decreases n
  {
    if n > 0 { HalvesTotal(a, n - 1); }
  }

  /** Every message adds up to the sum of the table it is taken from; the first one, to the sum of all gates. */
  lemma MessageTotal(y: (int, int), a: seq<int>, r: seq<int>, j: nat, p: int)
    requires p > 0 && j < |r| && |a| == Pow(2, |r|) && Sent(y, a, r, j, p)
    ensures Cong(y.0 + y.1, Sum(Folded(a, r, j)), p)
  {
    var t := Folded(a, r, j);
    FoldedV(a, r, j);
    HalfPower(|r| - j);
    var n := Pow(2, |r| - j - 1);
    SentOver(y, a, r, j, t, n, p);
    TableTotal(y, t, n, p);
  }

  lemma TableTotal(y: (int, int), t: seq<int>, n: nat, p: int)
    requires p > 0 && |t| == 2 * n && IsMessage(y, t, n, p)
    ensures Cong(y.0 + y.1, Sum(t), p)
  {
    HalvesTotal(t, n);
    CongAdd(y.0, EvenSum(t, n), y.1, OddSum(t, n), p);
  }

  /** Gate values, zeros up to a power of two. */
  function Padded(gates: seq<int>, size: nat): (r: seq<int>)
    requires |gates| <= size
    ensures |r| == size
  {
    gates + seq(size - |gates|, _ => 0)
  }

  lemma {:induction false} PaddedV(gates: seq<int>, r: seq<int>, size: nat, n: nat)
    requires |gates| <= size && n <= size
    ensures SumChi(Padded(gates, size), r, n) == SumChi(gates, r, if n < |gates| then n else |gates|)
    decreases n
  {
    if n > 0 { PaddedV(gates, r, size, n - 1); }
  }

  lemma {:induction false} PaddedTotal(gates: seq<int>, size: nat, n: nat)
    requires |gates| <= size && n <= size
    ensures Total(Padded(gates, size), n) == Total(gates, if n < |gates| then n else |gates|)
    decreases n
  {
    if n > 0 { PaddedTotal(gates, size, n - 1); }
  }

  /** `check_first_level`: messages `y` for every round, the value the verifier goes on with, and the rounds
      for which it prints "Check failed": not the inconsistent ones (there are none), but those in which the
      folded table no longer has the sum of the gates. */
  method CheckFirstLevel(gates: seq<int>, r: seq<int>, p: int)
    returns (y: seq<(int, int)>, check: int, reported: set<nat>)
    requires p > 0 && r != [] && |gates| <= Pow(2, |r|)
    ensures |y| == |r| && AllSent(y, Padded(gates, Pow(2, |r|)), r, |r|, p)
    ensures Cong(y[0].0 + y[0].1, Sum(gates), p)
    ensures forall j :: 0 <= j < |r| - 1 ==> Chained(y[j], y[j + 1], r[j], p)
    ensures Cong(check, V(gates, r), p) && 0 <= check < p
    ensures forall j: nat :: j in reported <==>
              1 <= j < |r| && !Cong(Sum(Folded(Padded(gates, Pow(2, |r|)), r, j)), Sum(gates), p)
  {
    y := Messages(gates, r, p);
    ghost var all := Padded(gates, Pow(2, |r|));
    check, reported := CheckMessages(y, r, p);
    MessagesMean(y, gates, all, r, p);
    SentAt(y, all, r, |r|, 0, p);
    MessageTotal(y[0], all, r, 0, p);
    PaddedTotal(gates, |all|, |all|);
    forall j: nat | 1 <= j < |r|
      ensures j in reported <==> !Cong(Sum(Folded(all, r, j)), Sum(gates), p)
    {
      PrintedCheck(y, all, r, j, p);
    }
  }

  lemma MessagesMean(y: seq<(int, int)>, gates: seq<int>, all: seq<int>, r: seq<int>, p: int)
    requires p > 0 && r != [] && |gates| <= Pow(2, |r|) && all == Padded(gates, Pow(2, |r|)) && AllSent(y, all, r, |r|, p)
    ensures forall j :: 0 <= j < |r| - 1 ==> Chained(y[j], y[j + 1], r[j], p)
    ensures Cong(AtCoin(y[|r| - 1], r[|r| - 1]), V(gates, r), p)
  {
    forall j | 0 <= j < |r| - 1 ensures Chained(y[j], y[j + 1], r[j], p) {
      SentAt(y, all, r, |r|, j, p);
      SentAt(y, all, r, |r|, j + 1, p);
      RoundConsistent(y[j], y[j + 1], all, r, j, p);
    }
    LastMessage(y[|r| - 1], all, r, p);
    PaddedV(gates, r, Pow(2, |r|), Pow(2, |r|));
  }

  /** The verifier's loop, which ends with the last message at the last coin. The value it compares with is
      computed once. */
  method CheckMessages(y: seq<(int, int)>, r: seq<int>, p: int) returns (check: int, reported: set<nat>)
    requires p > 0 && r != [] && |y| == |r|
    ensures Cong(check, AtCoin(y[|r| - 1], r[|r| - 1]), p) && 0 <= check < p
    ensures forall j: nat :: j in reported <==>
              1 <= j < |r| && !Cong(AtCoin(y[j - 1], r[j - 1]), y[0].0 + y[0].1, p)
  {
    var cValue := (y[0].0 + y[0].1) % p;
    check, reported := 0, {};
    for j := 0 to |r|
      invariant 0 <= check < p
      invariant j > 0 ==> Cong(check, AtCoin(y[j - 1], r[j - 1]), p)
      invariant forall i: nat :: i in reported <==> 1 <= i < j && !Cong(AtCoin(y[i - 1], r[i - 1]), y[0].0 + y[0].1, p)
    {
      if j > 0 {
        SmallMod(check, p);
        if check != cValue { reported := reported + {j}; }
      }
      CongMod(AtCoin(y[j], r[j]), p);
      assert y[j].1 * r[j] + y[j].0 * (1 - r[j]) == AtCoin(y[j], r[j]);
      check := (y[j].1 * r[j] + y[j].0 * (1 - r[j])) % p;
    }
  }

  /** The array starts with the table `t`, modulo `p`. */
  ghost predicate Stores(a: array<int>, t: seq<int>, p: int)
    requires p > 0
    reads a
  {
    |t| <= a.Length && forall i :: 0 <= i < |t| ==> Cong(a[i], t[i], p)
  }

  /** One round: send a message, fold in place. */
  method Round(a: array<int>, half: nat, x: int, p: int, ghost t: seq<int>) returns (y: (int, int))
    requires p > 0 && 2 * half == |t| && Stores(a, t, p)
    modifies a
    ensures IsMessage(y, t, half, p) && Stores(a, Fold(t, x), p)
  {
    ghost var before := a[..2 * half];
    assert SameMod(before, t, p);
    var y0, y1 := Message(a, half, p);
    PrefixSums(a[..], 2 * half, half);
    HalvesMod(before, t, half, p);
    y := (y0, y1);
    FoldInPlace(a, half, x, p, t);
  }

  method FoldInPlace(a: array<int>, half: nat, x: int, p: int, ghost t: seq<int>)
    requires p > 0 && 2 * half == |t| && Stores(a, t, p)
    modifies a
    ensures Stores(a, Fold(t, x), p)
  {
    ghost var before := a[..2 * half];
    UpdateAFast(a, 2 * half, x, p);
    FoldMod(before, t, x, p);
    ghost var after := a[..half];
    forall i | 0 <= i < half ensures Cong(a[i], Fold(t, x)[i], p) {
      assert Cong(after[i], Fold(before, x)[i], p);
    }
  }

  ghost predicate AllSent(y: seq<(int, int)>, a: seq<int>, r: seq<int>, j: nat, p: int)
    requires p > 0 && j <= |r|
    decreases j
  {
    |y| == j && (j == 0 || (AllSent(y[..j - 1], a, r, j - 1, p) && Sent(y[j - 1], a, r, j - 1, p)))
  }

  lemma {:induction false} SentAt(y: seq<(int, int)>, a: seq<int>, r: seq<int>, j: nat, k: nat, p: int)
    requires p > 0 && k < j <= |r| && AllSent(y, a, r, j, p)
    ensures Sent(y[k], a, r, k, p)
    decreases j
  {
    if k < j - 1 { SentAt(y[..j - 1], a, r, j - 1, k, p); }
  }

  lemma HalfPower(e: nat)
    requires e > 0
    ensures Pow(2, e) == 2 * Pow(2, e - 1) && Pow(2, e) / 2 == Pow(2, e - 1)
  {
  }

  lemma SentSnoc(y: seq<(int, int)>, m: (int, int), a: seq<int>, r: seq<int>, j: nat, t: seq<int>, n: nat, p: int)
    requires p > 0 && j < |r| && AllSent(y, a, r, j, p)
    requires t == Folded(a, r, j) && |t| == 2 * n && IsMessage(m, t, n, p)
    ensures AllSent(y + [m], a, r, j + 1, p)
  {
    assert |t| / 2 == n && Sent(m, a, r, j, p);
    assert (y + [m])[..j] == y;
  }

  /** The prover's loop. */
  method Messages(gates: seq<int>, r: seq<int>, p: int) returns (y: seq<(int, int)>)
    requires p > 0 && |gates| <= Pow(2, |r|)
    ensures |y| == |r| && AllSent(y, Padded(gates, Pow(2, |r|)), r, |r|, p)
  {
    var size := Pow(2, |r|);
    ghost var all := Padded(gates, size);
    var a := new int[size](i requires 0 <= i < size => if i < |gates| then gates[i] else 0);
    y := [];
    var n := size;
    ghost var t := all;
    for j := 0 to |r|
      invariant |t| == n == Pow(2, |r| - j) && t == Folded(all, r, j)
      invariant Stores(a, t, p)
      invariant AllSent(y, all, r, j, p)
    {
      HalfPower(|r| - j);
      n := n / 2;
      var m := Round(a, n, r[j], p, t);
      SentSnoc(y, m, all, r, j, t, n, p);
      y := y + [m];
      t := Fold(t, r[j]);
    }
  }

  /** The comparison the source prints in round `j` is with the first round's sum. For honest messages it
      agrees exactly when fixing the first `j` variables kept the sum of the table. */
  lemma PrintedCheck(y: seq<(int, int)>, a: seq<int>, r: seq<int>, j: nat, p: int)
    requires p > 0 && |a| == Pow(2, |r|) && AllSent(y, a, r, |r|, p) && 1 <= j < |r|
    ensures Cong(AtCoin(y[j - 1], r[j - 1]), y[0].0 + y[0].1, p) <==> Cong(Sum(Folded(a, r, j)), Sum(a), p)
  {
    ThreeSent(y, a, r, j, p);
    ComparedTotals(y[0], y[j - 1], y[j], a, r, j - 1, j, p);
  }

  lemma ThreeSent(y: seq<(int, int)>, a: seq<int>, r: seq<int>, j: nat, p: int)
    requires p > 0 && AllSent(y, a, r, |r|, p) && 1 <= j < |r|
    ensures |y| == |r| && Sent(y[0], a, r, 0, p) && Sent(y[j - 1], a, r, j - 1, p) && Sent(y[j], a, r, j, p)
  {
    SentAt(y, a, r, |r|, 0, p);
    SentAt(y, a, r, |r|, j - 1, p);
    SentAt(y, a, r, |r|, j, p);
  }

  lemma ComparedTotals(x: (int, int), y: (int, int), z: (int, int), a: seq<int>, r: seq<int>, i: nat, j: nat, p: int)
    requires p > 0 && |a| == Pow(2, |r|) && j == i + 1 < |r|
    requires Sent(x, a, r, 0, p) && Sent(y, a, r, i, p) && Sent(z, a, r, j, p)
    ensures Cong(AtCoin(y, r[i]), x.0 + x.1, p) <==> Cong(Sum(Folded(a, r, j)), Sum(a), p)
  {
    MessageTotal(x, a, r, 0, p);
    CoinTotal(y, z, a, r, i, j, p);
  }

  /** A message at its coin is the sum of the next table. */
  lemma CoinTotal(y: (int, int), z: (int, int), a: seq<int>, r: seq<int>, i: nat, j: nat, p: int)
    requires p > 0 && |a| == Pow(2, |r|) && j == i + 1 < |r| && Sent(y, a, r, i, p) && Sent(z, a, r, j, p)
    ensures Cong(AtCoin(y, r[i]), Sum(Folded(a, r, j)), p)
  {
    RoundConsistent(y, z, a, r, i, p);
    MessageTotal(z, a, r, j, p);
  }

  /** Gates 1, 0, 0, 0 and a first coin 1: every round is consistent, yet the printed check fails in round 1. */
  lemma PrintedCheckFails(y: seq<(int, int)>, x: int, p: int)
    requires p > 1 && AllSent(y, [1, 0, 0, 0], [1, x], 2, p)
    ensures Chained(y[0], y[1], 1, p) && !Cong(AtCoin(y[0], 1), y[0].0 + y[0].1, p)
  {
    var a, r := [1, 0, 0, 0], [1, x];
    assert |a| == Pow(2, 2);
    SentAt(y, a, r, 2, 0, p);
    SentAt(y, a, r, 2, 1, p);
    RoundConsistent(y[0], y[1], a, r, 0, p);
    var t := Folded(a, r, 1);
    assert t == Fold(a, 1);
    assert t[0] == (1 - 1) * a[0] + 1 * a[1] && t[1] == (1 - 1) * a[2] + 1 * a[3];
    assert Sum(t) == Total(t, 1) + t[1] && Total(t, 1) == Total(t, 0) + t[0];
    assert Sum(a) == Total(a, 3) + a[3] && Total(a, 3) == Total(a, 2) + a[2];
    assert Total(a, 2) == Total(a, 1) + a[1] && Total(a, 1) == Total(a, 0) + a[0];
    SmallMod(1, p);
    PrintedCheck(y, a, r, 1, p);
  }
}
