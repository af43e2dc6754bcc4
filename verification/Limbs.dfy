/** Little-endian multi-word numbers: the `WORD` arrays of `lib_gpu/mp_modexp*`.
    `B` is the word base (2^32 or 2^64 in the library); every result holds for any base. */
module Limbs {
  import opened Arith

  /** Every element is a word, that is, lies in `[0, B)`. */
  ghost predicate Words(s: seq<int>, B: nat) {
    forall i :: 0 <= i < |s| ==> 0 <= s[i] < B
  }

  /** The number a sequence of limbs stands for. Limbs may exceed `B`: deferred carries do. */
  function Val(s: seq<int>, B: nat): int {
    if s == [] then 0 else s[0] + B * Val(s[1..], B)
  }

  lemma {:induction false} ValUpdate(s: seq<int>, k: nat, v: int, B: nat)
    requires k < |s|
    ensures Val(s[k := v], B) == Val(s, B) + (v - s[k]) * Pow(B, k)
    decreases k
  {
    if k == 0 {
      assert s[k := v][1..] == s[1..];
    } else {
      ValUpdate(s[1..], k - 1, v, B);
      assert s[k := v][1..] == s[1..][k - 1 := v];
      MulDist(B, Val(s[1..], B), (v - s[k]) * Pow(B, k - 1));
      MulSwap(B, v - s[k], Pow(B, k - 1));
    }
  }

  lemma {:induction false} ValSplit(s: seq<int>, k: nat, B: nat)
    requires k <= |s|
    ensures Val(s, B) == Val(s[..k], B) + Val(s[k..], B) * Pow(B, k)
    decreases k
  {
    if k == 0 {
      assert s[..k] == [] && s[k..] == s;
    } else {
      var low, high, q := Val(s[..k][1..], B), Val(s[k..], B), Pow(B, k - 1);
      calc {
        Val(s, B);
        s[0] + B * Val(s[1..], B);
        { ValSplit(s[1..], k - 1, B);
          assert s[1..][..k - 1] == s[..k][1..] && s[1..][k - 1..] == s[k..]; }
        s[0] + B * (low + high * q);
        { MulDist(B, low, high * q); MulSwap(B, high, q); }
        s[0] + B * low + high * (B * q);
      }
    }
  }

  lemma ValSnoc(s: seq<int>, k: nat, B: nat)
    requires k < |s|
    ensures Val(s[..k + 1], B) == Val(s[..k], B) + s[k] * Pow(B, k)
  {
    ValSplit(s[..k + 1], k, B);
    assert s[..k + 1][..k] == s[..k];
    assert s[..k + 1][k..] == [s[k]];
    assert Val([s[k]], B) == s[k];
  }

  lemma {:induction false} ValNonneg(s: seq<int>, B: nat)
    requires forall i :: 0 <= i < |s| ==> 0 <= s[i]
    ensures 0 <= Val(s, B)
    decreases |s|
  {
    if s != [] {
      ValNonneg(s[1..], B);
      MulMono(0, B, 0, Val(s[1..], B));
    }
  }

  /** A single limb bounds the number from below. */
  lemma ValAtLeast(s: seq<int>, k: nat, B: nat)
    requires k < |s|
    requires forall i :: 0 <= i < |s| ==> 0 <= s[i]
    ensures s[k] * Pow(B, k) <= Val(s, B)
  {
    ValUpdate(s, k, 0, B);
    ValNonneg(s[k := 0], B);
    assert (0 - s[k]) * Pow(B, k) == -(s[k] * Pow(B, k));
  }

  lemma {:induction false} ValBound(s: seq<int>, B: nat)
    requires Words(s, B)
    ensures 0 <= Val(s, B) < Pow(B, |s|)
    decreases |s|
  {
    if s != [] {
      ValBound(s[1..], B);
      var v, q := Val(s[1..], B), Pow(B, |s| - 1);
      MulMono(0, B, 0, v);
      MulMono(B, B, v, q - 1);
      MulDist(B, q - 1, 1);
    }
  }

  lemma {:induction false} ValZeros(s: seq<int>, B: nat)
    requires forall i :: 0 <= i < |s| ==> s[i] == 0
    ensures Val(s, B) == 0
    decreases |s|
  {
    if s != [] {
      ValZeros(s[1..], B);
    }
  }

  lemma LowestLimb(d: int, v: int, w: int, B: int)
    requires -B < d < B && d + B * v == B * w
    ensures d == 0 && v == w
  {
    MulDist(B, w, v);
    assert (w - v) * B == d;
    SmallMultiple(w - v, B);
  }

  /** A number divisible by `B^k` has `k` zero limbs at the bottom. */
  lemma {:induction false} LowLimbsZero(s: seq<int>, k: nat, q: int, B: nat)
    requires Words(s, B) && k <= |s| && B > 0
    requires Val(s, B) == q * Pow(B, k)
    ensures forall i :: 0 <= i < k ==> s[i] == 0
    decreases k
  {
    if k > 0 {
      var w, v := q * Pow(B, k - 1), Val(s[1..], B);
      MulSwap(q, B, Pow(B, k - 1));
      LowestLimb(s[0], v, w, B);
      LowLimbsZero(s[1..], k - 1, q, B);
      assert forall i :: 1 <= i < k ==> s[i] == s[1..][i - 1];
    }
  }

  /** A number has one representation of each length. */
  lemma {:induction false} ValInjective(s: seq<int>, t: seq<int>, B: nat)
    requires Words(s, B) && Words(t, B) && |s| == |t| && Val(s, B) == Val(t, B)
    ensures s == t
    decreases |s|
  {
    if s != [] {
      var v, w := Val(s[1..], B), Val(t[1..], B);
      LowestLimb(s[0] - t[0], v, w, B);
      ValInjective(s[1..], t[1..], B);
      assert s == [s[0]] + s[1..] && t == [t[0]] + t[1..];
    }
  }

  /** The `S` limbs of a number. */
  function ToLimbs(v: nat, S: nat, B: nat): (s: seq<int>)
    requires 0 < B
    ensures |s| == S && Words(s, B)
    decreases S
  {
    if S == 0 then [] else [v % B] + ToLimbs(v / B, S - 1, B)
  }

  lemma {:induction false} ToLimbsValue(v: nat, S: nat, B: nat)
    requires 0 < B && v < Pow(B, S)
    ensures Val(ToLimbs(v, S, B), B) == v
    decreases S
  {
    if S > 0 {
      QuotientBelow(v, B, Pow(B, S - 1));
      var s, t := ToLimbs(v, S, B), ToLimbs(v / B, S - 1, B);
      ToLimbsValue(v / B, S - 1, B);
      assert s[0] == v % B && s[1..] == t;
    }
  }

  lemma QuotientBelow(v: nat, B: nat, q: nat)
    requires 0 < B && v < B * q
    ensures v / B < q && v % B + B * (v / B) == v
  {
    if v / B >= q { MulMono(B, B, q, v / B); }
  }

  /** Words that represent a number are its limbs. */
  lemma TheLimbs(s: seq<int>, B: nat)
    requires 0 < B && Words(s, B)
    ensures 0 <= Val(s, B) && s == ToLimbs(Val(s, B), |s|, B)
  {
    ValBound(s, B);
    ToLimbsValue(Val(s, B), |s|, B);
    ValInjective(s, ToLimbs(Val(s, B), |s|, B), B);
  }

  /** The number with the top limbs compared first, as the library's comparison loop does. */
  lemma TopLimbDecides(s: seq<int>, t: seq<int>, k: nat, B: nat)
    requires Words(s, B) && Words(t, B) && |s| == |t| && k < |s|
    requires s[k + 1..] == t[k + 1..] && s[k] < t[k]
    ensures Val(s, B) < Val(t, B)
  {
    ValSplit(s, k + 1, B); ValSplit(t, k + 1, B);
    ValSnoc(s, k, B); ValSnoc(t, k, B);
    ValBound(s[..k], B); ValBound(t[..k], B);
    MulMono(1, t[k] - s[k], Pow(B, k), Pow(B, k));
    assert (t[k] - s[k]) * Pow(B, k) == t[k] * Pow(B, k) - s[k] * Pow(B, k);
  }
}
