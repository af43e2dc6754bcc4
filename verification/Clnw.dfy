/** Sliding-window decomposition of an exponent into zero runs and odd windows
    (`mp_get_clnw` in `lib_gpu/mp_modexp.cpp`). */
module Clnw {
  import opened Arith
  import opened Limbs
  import opened Bits

  const MAX_NUM_FRAGS := 512
  const MAX_FRAGMENT := 32

  // ----- bits of a multi-word number -----

  /** `get_bit`: bit `i` of a multi-word number is a bit of one of its words. */
  function GetBit(a: seq<int>, i: nat, w: nat): int
    requires 0 < w && i / w < |a| && Words(a, Pow(2, w))
  {
    Shift(a[i / w], i % w) % 2
  }

  /** `WINDOW(exp[i], j)`: window `j` of word `i` is the window of the whole exponent at that bit. */
  lemma WindowOfValue(a: seq<int>, i: nat, s: nat, ws: nat, w: nat)
    requires i < |a| && Words(a, Pow(2, w)) && s + ws <= w
    ensures 0 <= w * i && 0 <= Val(a, Pow(2, w))
    ensures Shift(a[i], s) % Pow(2, ws) == Shift(Val(a, Pow(2, w)), w * i + s) % Pow(2, ws)
  {
    var v, top := Val(a, Pow(2, w)), a[i..];
    ShiftWords(a, i, w);
    assert Shift(v, w * i + s) == Shift(Val(top, Pow(2, w)), s) by { ShiftShift(v, w * i, s); }
    assert Words(top, Pow(2, w)) && top[0] == a[i];
    TopWindow(top, s, ws, w);
  }

  lemma TopWindow(top: seq<int>, s: nat, ws: nat, w: nat)
    requires top != [] && Words(top, Pow(2, w)) && s + ws <= w
    ensures 0 <= Val(top, Pow(2, w)) && Shift(top[0], s) % Pow(2, ws) == Shift(Val(top, Pow(2, w)), s) % Pow(2, ws)
  {
    ValNonneg(top, Pow(2, w));
    ValNonneg(top[1..], Pow(2, w));
    WindowInWord(top[0], Val(top[1..], Pow(2, w)), s, ws, w);
  }

  lemma {:induction false} ShiftWords(a: seq<int>, i: nat, w: nat)
    requires i <= |a| && Words(a, Pow(2, w))
    ensures 0 <= w * i && 0 <= Val(a, Pow(2, w))
    ensures Shift(Val(a, Pow(2, w)), w * i) == Val(a[i..], Pow(2, w))
    decreases i
  {
    var B := Pow(2, w);
    MulMono(0, w, 0, i);
    ValNonneg(a, B);
    if i == 0 {
      assert w * i == 0 && a[0..] == a;
    } else {
      ValNonneg(a[1..], B);
      DropWord(a[0], Val(a[1..], B), w);
      ShiftWords(a[1..], i - 1, w);
      assert a[1..][i - 1..] == a[i..];
      MulDist(w, i - 1, 1);
      ShiftShift(Val(a, B), w, w * (i - 1));
    }
  }

  lemma GetBitOfValue(a: seq<int>, i: nat, w: nat)
    requires 0 < w && i / w < |a| && Words(a, Pow(2, w))
    ensures 0 <= Val(a, Pow(2, w))
    ensures GetBit(a, i, w) == Shift(Val(a, Pow(2, w)), i) % 2
  {
    var q, r := i / w, i % w;
    assert i == w * q + r;
    PowOne(2);
    WindowOfValue(a, q, r, 1, w);
  }

  // ----- the exponent a decomposition stands for -----

  /** Horner value: fragment 0 plus the rest shifted by fragment 0's length. */
  function FragValue(f: seq<int>, len: seq<nat>): int
    requires |f| == |len|
  {
    if f == [] then 0 else f[0] + Pow(2, len[0]) * FragValue(f[1..], len[1..])
  }

  function Sum(s: seq<nat>): nat {
    if s == [] then 0 else s[0] + Sum(s[1..])
  }

  lemma {:induction false} SumSnoc(s: seq<nat>, x: nat)
    ensures Sum(s + [x]) == Sum(s) + x
    decreases |s|
  {
    if s == [] {
      assert s + [x] == [x];
    } else {
      SumSnoc(s[1..], x);
      assert (s + [x])[1..] == s[1..] + [x];
    }
  }

  lemma {:induction false} FragSnoc(f: seq<int>, len: seq<nat>, x: int, y: nat)
    requires |f| == |len|
    ensures FragValue(f + [x], len + [y]) == FragValue(f, len) + Pow(2, Sum(len)) * x
    decreases |f|
  {
    if f == [] {
      assert f + [x] == [x] && len + [y] == [y];
    } else {
      FragSnoc(f[1..], len[1..], x, y);
      assert (f + [x])[1..] == f[1..] + [x] && (len + [y])[1..] == len[1..] + [y];
      var p, q, v := Pow(2, len[0]), Pow(2, Sum(len[1..])), FragValue(f[1..], len[1..]);
      PowAdd(2, len[0], Sum(len[1..]));
      MulDist(p, v, q * x);
      MulAssoc(p, q, x);
    }
  }

  /** Appending a window of `y` bits consumes those bits of the exponent. */
  lemma ConsumeBits(f: seq<int>, len: seq<nat>, e: nat, i: nat, x: int, y: nat)
    requires |f| == |len| && Sum(len) == i
    requires e == FragValue(f, len) + Pow(2, i) * Shift(e, i)
    requires Shift(e, i) == x + Pow(2, y) * Shift(e, i + y)
    ensures Sum(len + [y]) == i + y
    ensures e == FragValue(f + [x], len + [y]) + Pow(2, i + y) * Shift(e, i + y)
  {
    SumSnoc(len, y);
    FragSnoc(f, len, x, y);
    PowAdd(2, i, y);
    MulDist(Pow(2, i), x, Pow(2, y) * Shift(e, i + y));
    MulAssoc(Pow(2, i), Pow(2, y), Shift(e, i + y));
  }

  /** The last window's recorded length does not matter. */
  lemma LastLengthFree(f: seq<int>, len: seq<nat>, y: nat)
    requires |f| == |len| > 0
    ensures FragValue(f, len[|len| - 1 := y]) == FragValue(f, len)
  {
    var n := |f|;
    FragSnoc(f[..n - 1], len[..n - 1], f[n - 1], len[n - 1]);
    FragSnoc(f[..n - 1], len[..n - 1], f[n - 1], y);
    assert f == f[..n - 1] + [f[n - 1]] && len == len[..n - 1] + [len[n - 1]];
    assert len[n - 1 := y] == len[..n - 1] + [y];
  }

  // ----- the decomposition -----

  /** Skip a run of zero bits starting at bit `i`. */
  method ZeroRun(a: seq<int>, i: nat, w: nat) returns (j: nat)
    requires 0 < w && i <= |a| * w && Words(a, Pow(2, w))
    ensures i <= j <= |a| * w
    ensures 0 <= Val(a, Pow(2, w))
    ensures Shift(Val(a, Pow(2, w)), i) == Pow(2, j - i) * Shift(Val(a, Pow(2, w)), j)
    ensures j < |a| * w ==> Shift(Val(a, Pow(2, w)), j) % 2 == 1
    ensures i < |a| * w && Shift(Val(a, Pow(2, w)), i) % 2 == 0 ==> i < j
  {
    ValNonneg(a, Pow(2, w));
    ghost var e := Val(a, Pow(2, w));
    j := i;
    while j < |a| * w
      invariant i <= j <= |a| * w
      invariant Shift(e, i) == Pow(2, j - i) * Shift(e, j)
      invariant i < |a| * w && j == i ==> Shift(e, j) == Shift(e, i)
    {
      WordOf(j, |a|, w);
      GetBitOfValue(a, j, w);
      if GetBit(a, j, w) != 0 { return; }
      assert Shift(e, j) == 2 * Shift(e, j + 1);
      MulSwap(Pow(2, j - i), 2, Shift(e, j + 1));
      MulAssoc(2, Pow(2, j - i), Shift(e, j + 1));
      assert j + 1 - i == (j - i) + 1;
      j := j + 1;
    }
  }

  lemma WordOf(i: nat, n: nat, w: nat)
    requires 0 < w && i < n * w
    ensures i / w < n
  {
    assert i == (i / w) * w + i % w;
    if i / w >= n { MulMono(n, i / w, w, w); }
  }

  /** Collect a window of at most `d` bits starting at bit `i`; the bits enter disjoint positions,
      so `|=` is addition. */
  method Window(a: seq<int>, i: nat, d: nat, w: nat) returns (frag: nat, j: nat)
    requires 0 < w && i <= |a| * w && Words(a, Pow(2, w))
    ensures i <= j <= |a| * w && j <= i + d
    ensures j < |a| * w ==> j == i + d
    ensures frag < Pow(2, j - i)
    ensures 0 <= Val(a, Pow(2, w))
    ensures Shift(Val(a, Pow(2, w)), i) == frag + Pow(2, j - i) * Shift(Val(a, Pow(2, w)), j)
    ensures i < j && Shift(Val(a, Pow(2, w)), i) % 2 == 1 ==> frag % 2 == 1
  {
    ValNonneg(a, Pow(2, w));
    ghost var e := Val(a, Pow(2, w));
    frag, j := 0, i;
    while j < i + d && j < |a| * w
      invariant i <= j <= |a| * w && j <= i + d
      invariant frag < Pow(2, j - i)
      invariant Shift(e, i) == frag + Pow(2, j - i) * Shift(e, j)
      invariant i < j && Shift(e, i) % 2 == 1 ==> frag % 2 == 1
      invariant i == j ==> frag == 0
    {
      WordOf(j, |a|, w);
      GetBitOfValue(a, j, w);
      WindowBit(frag, GetBit(a, j, w), j - i, Shift(e, j + 1));
      frag := frag + GetBit(a, j, w) * Pow(2, j - i);
      j := j + 1;
    }
  }

  /** One more bit in a window. */
  lemma WindowBit(frag: nat, bit: int, k: nat, h: nat)
    requires 0 <= bit <= 1 && frag < Pow(2, k)
    ensures 0 <= frag + bit * Pow(2, k) < Pow(2, k + 1)
    ensures frag + Pow(2, k) * (bit + 2 * h) == frag + bit * Pow(2, k) + Pow(2, k + 1) * h
    ensures k > 0 ==> (frag + bit * Pow(2, k)) % 2 == frag % 2
    ensures k == 0 ==> frag + bit * Pow(2, k) == bit
  {
    var q := Pow(2, k);
    MulDist(q, bit, 2 * h);
    MulSwap(q, 2, h); MulAssoc(2, q, h);
    if k > 0 {
      MulSwap(bit, 2, Pow(2, k - 1));
    }
  }

  /** What the fragments found so far say about the exponent whose low `i` bits they cover. */
  ghost predicate Covers(f: seq<int>, len: seq<nat>, e: nat, i: nat) {
    && |f| == |len| && Sum(len) == i
    && e == FragValue(f, len) + Pow(2, i) * Shift(e, i)
  }

  /** Zero runs and odd windows, none wider than `d` bits nor above `max`. */
  ghost predicate Fragments(f: seq<int>, len: seq<nat>, d: nat, max: int) {
    && |f| == |len|
    && forall k :: 0 <= k < |f| ==>
         && 0 <= f[k] <= max
         && (f[k] != 0 ==> f[k] % 2 == 1 && f[k] < Pow(2, d) && 1 <= len[k])
  }

  /** Windows take `d` bits each, no two zero runs touch, and `max` is one of the fragments. */
  ghost predicate Shaped(f: seq<int>, len: seq<nat>, d: nat, max: int) {
    && |f| == |len| && (f == [] || f[|f| - 1] != 0) && Attained(f, max)
    && (forall k :: 0 <= k < |f| && f[k] != 0 ==> len[k] == d)
    && forall k :: 0 <= k < |f| - 1 && f[k] == 0 ==> f[k + 1] != 0
  }

  /** The same, except that the last window may be cut short by the end of the exponent. */
  ghost predicate ShapedEnd(f: seq<int>, len: seq<nat>, d: nat, max: int) {
    && |f| == |len| && Attained(f, max)
    && (forall k :: 0 <= k < |f| - 1 && f[k] != 0 ==> len[k] == d)
    && forall k :: 0 <= k < |f| - 2 && f[k] == 0 ==> f[k + 1] != 0
  }

  ghost predicate Attained(f: seq<int>, max: int) {
    max == 0 || max in f
  }

  /** A window, with or without a zero run before it. */
  lemma ShapedMore(f: seq<int>, len: seq<nat>, d: nat, max: int, run: nat, x: int, y: nat)
    requires Shaped(f, len, d, max) && 0 <= x && 0 <= max
    ensures var g, l, m := f + (if run > 0 then [0, x] else [x]), len + (if run > 0 then [run, y] else [y]),
                           if x > max then x else max;
            ShapedEnd(g, l, d, m) && (x != 0 && y == d ==> Shaped(g, l, d, m))
  {
    var g := f + (if run > 0 then [0, x] else [x]);
    assert x in g && forall v :: v in f ==> v in g;
  }

  function WindowBits(numBits: nat): nat {
    if numBits < 256 then 4 else if numBits < 768 then 5 else if numBits < 1792 then 6 else 7
  }

  lemma FragmentsSnoc(f: seq<int>, len: seq<nat>, d: nat, max: int, x: int, y: nat)
    requires Fragments(f, len, d, max) && 0 <= x < Pow(2, d)
    requires x != 0 ==> x % 2 == 1 && 1 <= y
    ensures Fragments(f + [x], len + [y], d, if x > max then x else max)
  {
  }

  /** Store fragment `x` of `y` bits and note the largest fragment. */
  method AddFragment(fragment: array<int>, length: array<nat>, n: nat, max: int, x: int, y: nat,
                     ghost e: nat, ghost i: nat, ghost d: nat)
      returns (max': int)
    requires n < fragment.Length == length.Length
    requires Covers(fragment[..n], length[..n], e, i) && Fragments(fragment[..n], length[..n], d, max)
    requires Shift(e, i) == x + Pow(2, y) * Shift(e, i + y)
    requires 0 <= x < Pow(2, d) && (x != 0 ==> x % 2 == 1 && 1 <= y)
    modifies fragment, length
    ensures max' == if x > max then x else max
    ensures Covers(fragment[..n + 1], length[..n + 1], e, i + y)
    ensures Fragments(fragment[..n + 1], length[..n + 1], d, max')
    ensures length[n] == y && forall k :: 0 <= k < n ==> length[k] == old(length[k])
    ensures fragment[..n + 1] == old(fragment[..n]) + [x] && length[..n + 1] == old(length[..n]) + [y]
  {
    ghost var f, len := fragment[..n], length[..n];
    fragment[n] := x;
    length[n] := y;
    max' := if x > max then x else max;
    assert fragment[..n + 1] == f + [x] && length[..n + 1] == len + [y];
    ConsumeBits(f, len, e, i, x, y);
    FragmentsSnoc(f, len, d, max, x, y);
  }

  /** One turn of the main loop: a zero run if there is one, then a window. */
  method NextWindow(a: seq<int>, w: nat, d: nat, fragment: array<int>, length: array<nat>, n: nat, max: int,
                    i: nat, ghost e: nat)
      returns (n': nat, max': int, j: nat, ghost run: nat, ghost x: int, ghost y: nat)
    requires 0 < w && Words(a, Pow(2, w)) && i < |a| * w && e == Val(a, Pow(2, w)) && 0 < d
    requires n + 2 <= fragment.Length == length.Length
    requires Covers(fragment[..n], length[..n], e, i) && Fragments(fragment[..n], length[..n], d, max)
    requires 0 <= max < Pow(2, d) && (max == 0 || max % 2 == 1)
    requires forall k :: 0 <= k < n ==> 1 <= length[k]
    modifies fragment, length
    ensures i < j <= |a| * w && n < n' <= n + 2
    ensures j < |a| * w ==> j >= i + d && 1 <= length[n' - 1]
    ensures forall k :: 0 <= k < n' - 1 ==> 1 <= length[k]
    ensures Covers(fragment[..n'], length[..n'], e, j) && Fragments(fragment[..n'], length[..n'], d, max')
    ensures 0 <= max' < Pow(2, d) && (max' == 0 || max' % 2 == 1)
    ensures fragment[..n'] == old(fragment[..n]) + (if run > 0 then [0, x] else [x])
    ensures length[..n'] == old(length[..n]) + (if run > 0 then [run, y] else [y])
    ensures 0 <= x && max' == (if x > max then x else max) && (j < |a| * w ==> x != 0 && y == d)
  {
    n', max' := n, max;
    var i0 := ZeroRun(a, i, w);
    if i0 > i {
      max' := AddFragment(fragment, length, n, max, 0, i0 - i, e, i, d);
      n' := n + 1;
    }
    max', j := AddWindow(a, w, d, fragment, length, n', max', i0, e);
    run, x, y := i0 - i, fragment[n'], j - i0;
    n' := n' + 1;
  }

  /** The window at bit `i`, which is empty only at the end of the exponent. */
  method AddWindow(a: seq<int>, w: nat, d: nat, fragment: array<int>, length: array<nat>, n: nat, max: int, i: nat, ghost e: nat)
      returns (max': int, j: nat)
    requires 0 < w && Words(a, Pow(2, w)) && i <= |a| * w && e == Val(a, Pow(2, w)) && 0 < d
    requires i < |a| * w ==> Shift(e, i) % 2 == 1
    requires n < fragment.Length == length.Length
    requires Covers(fragment[..n], length[..n], e, i) && Fragments(fragment[..n], length[..n], d, max)
    requires 0 <= max < Pow(2, d) && (max == 0 || max % 2 == 1)
    modifies fragment, length
    ensures i <= j <= |a| * w && (i < |a| * w ==> i < j) && (j < |a| * w ==> j == i + d)
    ensures Covers(fragment[..n + 1], length[..n + 1], e, j) && Fragments(fragment[..n + 1], length[..n + 1], d, max')
    ensures 0 <= max' < Pow(2, d) && (max' == 0 || max' % 2 == 1)
    ensures length[n] == j - i && forall k :: 0 <= k < n ==> length[k] == old(length[k])
    ensures fragment[..n + 1] == old(fragment[..n]) + [fragment[n]] && length[..n + 1] == old(length[..n]) + [j - i]
    ensures 0 <= fragment[n] && max' == (if fragment[n] > max then fragment[n] else max) && (i < |a| * w ==> fragment[n] != 0)
  {
    var frag;
    frag, j := Window(a, i, d, w);
    PowMonotone(2, j - i, d);
    max' := AddFragment(fragment, length, n, max, frag, j - i, e, i, d);
  }

  /** What the main loop keeps; `done` when the exponent is used up. */
  ghost predicate Progress(f: seq<int>, len: seq<nat>, e: nat, i: nat, d: nat, max: int, done: bool) {
    && Covers(f, len, e, i) && Fragments(f, len, d, max) && 0 <= max < Pow(2, d) && (max == 0 || max % 2 == 1)
    && ShapedEnd(f, len, d, max) && (!done ==> Shaped(f, len, d, max))
    && forall k :: 0 <= k < |len| ==> 1 <= len[k] || (k == |len| - 1 && done)
  }

  /** The same turn, and all it keeps. */
  method NextShaped(a: seq<int>, w: nat, d: nat, fragment: array<int>, length: array<nat>, n: nat, max: int, i: nat,
                    ghost e: nat)
      returns (n': nat, max': int, j: nat)
    requires 0 < w && Words(a, Pow(2, w)) && i < |a| * w && e == Val(a, Pow(2, w)) && 0 < d
    requires n + 2 <= fragment.Length == length.Length && Progress(fragment[..n], length[..n], e, i, d, max, false)
    modifies fragment, length
    ensures i < j <= |a| * w && n < n' <= n + 2 && (j < |a| * w ==> j >= i + d)
    ensures Progress(fragment[..n'], length[..n'], e, j, d, max', j == |a| * w)
  {
    ghost var f, len, run, x, y := fragment[..n], length[..n], 0, 0, 0;
    assert forall k :: 0 <= k < n ==> length[k] == len[k];
    n', max', j, run, x, y := NextWindow(a, w, d, fragment, length, n, max, i, e);
    ShapedMore(f, len, d, max, run, x, y);
    assert forall k :: 0 <= k < n' ==> length[..n'][k] == length[k];
  }

  /** The main loop of `mp_get_clnw`, before trimming. */
  method Decompose(a: seq<int>, w: nat, d: nat, fragment: array<int>, length: array<nat>)
      returns (n: nat, max: int)
    requires 0 < w && Words(a, Pow(2, w)) && 4 <= d
    requires fragment.Length == length.Length == MAX_NUM_FRAGS
    requires 2 * (|a| * w) + 2 * d <= MAX_NUM_FRAGS * d
    modifies fragment, length
    ensures n <= MAX_NUM_FRAGS && 0 <= Val(a, Pow(2, w))
    ensures Progress(fragment[..n], length[..n], Val(a, Pow(2, w)), |a| * w, d, max, true)
  {
    ValNonneg(a, Pow(2, w));
    ghost var e := Val(a, Pow(2, w));
    var numBits := |a| * w;
    var i := 0;
    n, max := 0, 0;
    while i < numBits
      invariant 0 <= i <= numBits
      invariant i < numBits ==> n * d <= 2 * i
      invariant n <= MAX_NUM_FRAGS
      invariant Progress(fragment[..n], length[..n], e, i, d, max, i == numBits)
      decreases numBits - i
    {
      CountFits(n, d, 2 * i);
      ghost var n0 := n;
      n, max, i := NextShaped(a, w, d, fragment, length, n, max, i, e);
      MulMono(n, n0 + 2, d, d);
    }
  }

  lemma CountFits(n: nat, d: nat, bits: nat)
    requires 0 < d && n * d <= bits && bits + 2 * d <= MAX_NUM_FRAGS * d
    ensures n + 2 <= MAX_NUM_FRAGS
    ensures (n + 1) * d == n * d + d && (n + 2) * d == n * d + 2 * d
  {
    MulDist(d, n, 2); MulDist(d, n, 1);
    if n + 2 > MAX_NUM_FRAGS { MulMono(MAX_NUM_FRAGS + 1, n + 2, d, d); }
  }

  /** Dropping a zero fragment from the top leaves the value. */
  lemma TrimTop(f: seq<int>, len: seq<nat>)
    requires |f| == |len| > 0 && f[|f| - 1] == 0
    ensures FragValue(f[..|f| - 1], len[..|f| - 1]) == FragValue(f, len)
  {
    var n := |f|;
    FragSnoc(f[..n - 1], len[..n - 1], 0, len[n - 1]);
    assert f == f[..n - 1] + [0] && len == len[..n - 1] + [len[n - 1]];
  }

  lemma {:induction false} SumPrefix(s: seq<nat>, n: nat)
    requires n < |s|
    ensures Sum(s[..n]) + s[n] <= Sum(s)
    decreases |s|
  {
    if n == 0 {
      assert s[..0] == [];
    } else {
      SumPrefix(s[1..], n - 1);
      assert s[..n][1..] == s[1..][..n - 1];
    }
  }

  /** Drop zero fragments from the top. */
  method Trim(fragment: array<int>, length: array<nat>, m: nat) returns (n: nat)
    requires m <= fragment.Length == length.Length
    requires FragValue(fragment[..m], length[..m]) != 0
    ensures 1 <= n <= m && fragment[n - 1] != 0
    ensures FragValue(fragment[..n], length[..n]) == FragValue(fragment[..m], length[..m])
    ensures forall k :: n <= k < m ==> fragment[k] == 0
  {
    n := m;
    while n > 0 && fragment[n - 1] == 0
      invariant n <= m && forall k :: n <= k < m ==> fragment[k] == 0
      invariant FragValue(fragment[..n], length[..n]) == FragValue(fragment[..m], length[..m])
    {
      TrimTop(fragment[..n], length[..n]);
      assert fragment[..n][..n - 1] == fragment[..n - 1] && length[..n][..n - 1] == length[..n - 1];
      n := n - 1;
    }
  }

  /** Let the top window take up all bits the others leave. */
  method StretchTop(length: array<nat>, n: nat, numBits: nat, ghost len: seq<nat>)
    requires 1 <= n <= |len| <= length.Length && length[..|len|] == len
    requires Sum(len) == numBits && 1 <= len[n - 1]
    modifies length
    ensures length[..n] == len[..n][n - 1 := length[n - 1]]
    ensures Sum(length[..n]) == numBits && 1 <= length[n - 1]
  {
    var rest := numBits;
    SumPrefix(len, n - 1);
    for i := 0 to n - 1
      invariant length[..|len|] == len
      invariant 0 <= rest == numBits - Sum(len[..i])
    {
      SumPrefix(len, i);
      SumSnoc(len[..i], len[i]);
      assert len[..i + 1] == len[..i] + [len[i]];
      assert length[i] == len[i];
      rest := rest - length[i];
    }
    length[n - 1] := rest;
    SumSnoc(len[..n - 1], rest);
    assert length[..n] == len[..n - 1] + [rest];
  }

  /** `mp_get_clnw`: fragments whose shifted sum is the exponent. An exponent of 0 would make the
      code write `length[-1]`, and one of 768 bits or more can exceed `MAX_FRAGMENT`. */
  method GetClnw(a: seq<int>, w: nat, fragment: array<int>, length: array<nat>) returns (n: nat, max: int)
    requires 0 < w && |a| * w < 768 && Words(a, Pow(2, w)) && 0 < Val(a, Pow(2, w))
    requires fragment.Length == length.Length == MAX_NUM_FRAGS
    modifies fragment, length
    ensures 1 <= n <= MAX_NUM_FRAGS
    ensures FragValue(fragment[..n], length[..n]) == Val(a, Pow(2, w))
    ensures OddOrZero(fragment[..n], max) && fragment[n - 1] != 0
    ensures max % 2 == 1 && max < MAX_FRAGMENT
    ensures Sum(length[..n]) == |a| * w && forall k :: 0 <= k < n ==> 1 <= length[k]
    ensures FixedWindows(fragment[..n], length[..n], if |a| * w < 256 then 4 else 5, max)
  {
    var numBits := |a| * w;
    var d := WindowBits(numBits);
    var m;
    m, max := Decompose(a, w, d, fragment, length);
    ExhaustedBits(a, w);
    n := TrimAndStretch(fragment, length, m, numBits, d, max);
    assert Pow(2, 5) == 32;
    PowMonotone(2, d, 5);
  }

  /** What follows the main loop. */
  method TrimAndStretch(fragment: array<int>, length: array<nat>, m: nat, numBits: nat, ghost d: nat, ghost max: int)
      returns (n: nat)
    requires m <= fragment.Length == length.Length && FragValue(fragment[..m], length[..m]) != 0
    requires exists e: nat :: Progress(fragment[..m], length[..m], e, numBits, d, max, true)
    modifies length
    ensures 1 <= n <= m && fragment[n - 1] != 0 && max != 0
    ensures FragValue(fragment[..n], length[..n]) == old(FragValue(fragment[..m], length[..m]))
    ensures OddOrZero(fragment[..n], max) && FixedWindows(fragment[..n], length[..n], d, max)
    ensures Sum(length[..n]) == numBits && forall k :: 0 <= k < n ==> 1 <= length[k]
  {
    ghost var e: nat :| Progress(fragment[..m], length[..m], e, numBits, d, max, true);
    n := Trim(fragment, length, m);
    ghost var len, f := length[..m], fragment[..m];
    assert f[n - 1] == fragment[n - 1] && len[n - 1] >= 1;
    assert fragment[..n] == f[..n] && length[..n] == len[..n];
    StretchTop(length, n, numBits, len);
    TrimmedShape(f, len, length[..n], n, d, max);
    TrimmedOdd(f, len, n, d, max);
    forall k | 0 <= k < n ensures 1 <= length[k] {
      assert length[..n][k] == if k == n - 1 then length[n - 1] else len[k];
    }
    LastLengthFree(f[..n], len[..n], length[n - 1]);
  }

  lemma TrimmedOdd(f: seq<int>, len: seq<nat>, n: nat, d: nat, max: int)
    requires Fragments(f, len, d, max) && n <= |f|
    ensures OddOrZero(f[..n], max)
  {
  }

  /** Below the top fragment windows take `d` bits and no two zero runs touch; `max` is one of the fragments. */
  ghost predicate FixedWindows(f: seq<int>, len: seq<nat>, d: nat, max: int) {
    && |f| == |len| && max in f
    && (forall k :: 0 <= k < |f| - 1 && f[k] != 0 ==> len[k] == d)
    && forall k :: 0 <= k < |f| - 1 && f[k] == 0 ==> f[k + 1] != 0
  }

  lemma TrimmedShape(f: seq<int>, len: seq<nat>, top: seq<nat>, n: nat, d: nat, max: int)
    requires ShapedEnd(f, len, d, max) && 1 <= n <= |f| && f[n - 1] != 0 && max != 0
    requires (forall k :: n <= k < |f| ==> f[k] == 0) && |top| == n && forall k :: 0 <= k < n - 1 ==> top[k] == len[k]
    ensures FixedWindows(f[..n], top, d, max)
  {
    var i :| 0 <= i < |f| && f[i] == max;
    assert f[..n][i] == max;
  }

  /** Every fragment is 0 or an odd number up to `max`. */
  ghost predicate OddOrZero(f: seq<int>, max: int) {
    forall k :: 0 <= k < |f| ==> f[k] == 0 || (1 <= f[k] <= max && f[k] % 2 == 1)
  }

  lemma ExhaustedBits(a: seq<int>, w: nat)
    requires 0 < w && Words(a, Pow(2, w))
    ensures 0 <= Val(a, Pow(2, w)) && Shift(Val(a, Pow(2, w)), |a| * w) == 0
  {
    ValBound(a, Pow(2, w));
    PowMul(2, w, |a|);
    assert w * |a| == |a| * w;
    ShiftOut(Val(a, Pow(2, w)), |a| * w);
  }
}
