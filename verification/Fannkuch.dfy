/** The pancake-flipping baseline (`apps_sfdl_hw/fannkuch_p_exo.cpp`): the flip loop ends on every permutation. */
module Fannkuch {
  import opened Arith

  /** A permutation of `1 .. m`. */
  ghost predicate IsPerm(s: seq<int>) {
    && (forall i :: 0 <= i < |s| ==> 1 <= s[i] <= |s|)
    && forall i, j :: 0 <= i < j < |s| ==> s[i] != s[j]
  }

  /** `std::reverse` of the first `v` elements. */
  function Flip(s: seq<int>, v: nat): (r: seq<int>)
    requires v <= |s|
    ensures |r| == |s|
    ensures forall k :: 0 <= k < |s| ==> r[k] == if k < v then s[v - 1 - k] else s[k]
  {
    seq(|s|, k requires 0 <= k < |s| => if k < v then s[v - 1 - k] else s[k])
  }

  lemma FlipPerm(s: seq<int>, v: nat)
    requires IsPerm(s) && v <= |s|
    ensures IsPerm(Flip(s, v))
  {
    var r := Flip(s, v);
    forall i, j | 0 <= i < j < |s| ensures r[i] != r[j] {
      if i < v {
        if j < v { assert s[v - 1 - j] != s[v - 1 - i]; }
      }
    }
  }

  /** Positions (counted from 1) that hold their own number, weighted by powers of two. */
  function Settled(s: seq<int>, n: nat): nat
    requires n <= |s|
  {
    if n == 0 then 0 else Settled(s, n - 1) + if s[n - 1] == n then Pow(2, n) else 0
  }

  lemma {:induction false} SettledBound(s: seq<int>, n: nat)
    requires n <= |s|
    ensures Settled(s, n) < Pow(2, n + 1)
    decreases n
  {
    if n > 0 { SettledBound(s, n - 1); }
  }

  /** Above position `v` nothing changes. */
  lemma {:induction false} SettledAbove(s: seq<int>, t: seq<int>, v: nat, n: nat)
    requires v <= n <= |s| == |t| && forall k :: v <= k < n ==> s[k] == t[k]
    ensures Settled(t, n) - Settled(t, v) == Settled(s, n) - Settled(s, v)
    decreases n
  {
    if v < n { SettledAbove(s, t, v, n - 1); }
  }

  /** Every flip raises the weight: the top card reaches its own place, and whatever it disturbs lies below. */
  lemma FlipSettles(s: seq<int>)
    requires IsPerm(s) && s != [] && s[0] != 1
    ensures IsPerm(Flip(s, s[0])) && Settled(Flip(s, s[0]), |s|) > Settled(s, |s|)
  {
    var v, t := s[0], Flip(s, s[0]);
    FlipPerm(s, v);
    SettledAbove(s, t, v, |s|);
    assert t[v - 1] == s[0] == v;
    assert s[v - 1] != v;
    SettledBound(s, v - 1);
    assert Settled(t, v) == Settled(t, v - 1) + Pow(2, v);
    assert Settled(s, v) == Settled(s, v - 1);
  }

  /** How far the weight can still rise. */
  function Room(s: seq<int>): nat {
    SettledBound(s, |s|);
    Pow(2, |s| + 1) - Settled(s, |s|)
  }

  /** The number of flips until the top card is 1. */
  ghost function Flips(s: seq<int>): nat
    requires IsPerm(s) && s != []
    decreases Room(s)
  {
    if s[0] == 1 then 0 else
      FlipSettles(s);
      1 + Flips(Flip(s, s[0]))
  }

  /** The stack after `k` flips. */
  function Iterate(s: seq<int>, k: nat): seq<int>
    decreases k
  {
    if k == 0 || s == [] || !(0 <= s[0] <= |s|) then s else Iterate(Flip(s, s[0]), k - 1)
  }

  /** `n` is the first number of flips after which the top card is 1. */
  ghost predicate FirstOne(s: seq<int>, n: nat) {
    Iterate(s, n) != [] && Iterate(s, n)[0] == 1 && forall k: nat :: k < n ==> Iterate(s, k) != [] && Iterate(s, k)[0] != 1
  }

  lemma FirstOneStep(s: seq<int>, t: seq<int>, n: nat)
    requires s != [] && 0 <= s[0] <= |s| && s[0] != 1 && t == Flip(s, s[0]) && FirstOne(t, n)
    ensures FirstOne(s, n + 1)
  {
    assert Iterate(s, n + 1) == Iterate(t, n);
    forall k: nat | k < n + 1 ensures Iterate(s, k) != [] && Iterate(s, k)[0] != 1 {
      if k > 0 { assert Iterate(s, k) == Iterate(t, k - 1); }
    }
  }

  /** The count is the first time the top card is 1. */
  lemma {:induction false} FlipsFirst(s: seq<int>)
    requires IsPerm(s) && s != []
    ensures FirstOne(s, Flips(s))
    decreases Room(s)
  {
    if s[0] != 1 {
      FlipSettles(s);
      FlipsFirst(Flip(s, s[0]));
      FirstOneStep(s, Flip(s, s[0]), Flips(Flip(s, s[0])));
    }
  }

  /** Never more than twice as many flips as `2^m`. */
  lemma {:induction false} FlipsBounded(s: seq<int>)
    requires IsPerm(s) && s != []
    ensures Flips(s) <= Room(s)
    decreases Room(s)
  {
    if s[0] != 1 {
      FlipSettles(s);
      FlipsBounded(Flip(s, s[0]));
    }
  }

  method ReversePrefix(a: array<int>, v: nat)
    requires v <= a.Length
    modifies a
    ensures a[..] == Flip(old(a[..]), v)
  {
    var i := 0;
    while i < v / 2
      invariant 0 <= i <= v / 2
      invariant forall k :: 0 <= k < a.Length ==>
                  a[k] == if k < i || v - i <= k < v then old(a[v - 1 - k]) else old(a[k])
    {
      a[i], a[v - 1 - i] := a[v - 1 - i], a[i];
      i := i + 1;
    }
  }

  /** The flip loop for one permutation: the flips until the top card is 1 for the first time. */
  method CountFlips(perm: seq<int>) returns (flips: nat)
    requires IsPerm(perm) && perm != []
    ensures flips == Flips(perm) && FirstOne(perm, flips)
  {
    flips := FlipLoop(perm);
    FlipsFirst(perm);
  }

  method FlipLoop(perm: seq<int>) returns (flips: nat)
    requires IsPerm(perm) && perm != []
    ensures flips == Flips(perm)
  {
    var stack := new int[|perm|](i requires 0 <= i < |perm| => perm[i]);
    assert stack[..] == perm;
    flips := 0;
    while stack[0] != 1
      invariant IsPerm(stack[..]) && flips + Flips(stack[..]) == Flips(perm)
      decreases Room(stack[..])
    {
      FlipSettles(stack[..]);
      ReversePrefix(stack, stack[0]);
      flips := flips + 1;
    }
  }

  /** `baseline`, over the permutations it visits. */
  method MaxFlips(perms: seq<seq<int>>) returns (best: nat)
    requires forall i :: 0 <= i < |perms| ==> IsPerm(perms[i]) && perms[i] != []
    ensures forall i :: 0 <= i < |perms| ==> Flips(perms[i]) <= best
    ensures best == 0 || exists i :: 0 <= i < |perms| && best == Flips(perms[i])
  {
    best := 0;
    for k := 0 to |perms|
      invariant forall i :: 0 <= i < k ==> Flips(perms[i]) <= best
      invariant best == 0 || exists i :: 0 <= i < k && best == Flips(perms[i])
    {
      var flips := CountFlips(perms[k]);
      if flips > best {
        best := flips;
      }
    }
  }
}
