/** Simultaneous exponentiation: merging the windows of many exponents into one schedule
    (`mp_get_multi_sw` in `crypto/gpu_crypto.cpp`). */
module MultiExp {
  import opened Arith
  import opened Limbs
  import opened Clnw

  /** One exponent's windows, as `mp_get_sw` returns them: lowest fragment first. */
  datatype Sw = Sw(fragment: seq<nat>, length: seq<nat>)

  /** `sw_state`: a fragment and the number of squarings, from the top, after which it is due. */
  datatype State = State(base: nat, fragment: nat, loc: nat)

  /** No fragments for exponent 0; otherwise the lengths fill the exponent width. */
  ghost predicate ValidSw(sw: Sw, width: nat) {
    |sw.fragment| == |sw.length| && (sw.fragment == [] || Sum(sw.length) == width)
  }

  ghost predicate Matched(sws: seq<Sw>) {
    forall i :: 0 <= i < |sws| ==> |sws[i].fragment| == |sws[i].length|
  }

  ghost predicate ValidSws(sws: seq<Sw>, width: nat) {
    Matched(sws) && forall i :: 0 <= i < |sws| ==> ValidSw(sws[i], width)
  }

  // ----- meaning of a schedule -----

  /** "Square `length[i]` times, then multiply by `base^fragment`", from the last entry to the first. */
  function RunSchedule(v: seq<int>, base: seq<nat>, frag: seq<nat>, len: seq<nat>): int
    requires |base| == |frag| == |len| && forall i :: 0 <= i < |base| ==> base[i] < |v|
  {
    if base == [] then 1
    else Pow(RunSchedule(v, base[1..], frag[1..], len[1..]), Pow(2, len[0])) * Pow(v[base[0]], frag[0])
  }

  /** `base^(fragment 2^(top - loc))`: what a state contributes when `top` squarings are made in all. */
  function Weight(v: seq<int>, s: State, top: nat): int
    requires s.base < |v| && s.loc <= top
  {
    Pow(v[s.base], s.fragment * Pow(2, top - s.loc))
  }

  ghost predicate InRange(states: seq<State>, bases: nat, top: nat) {
    forall i :: 0 <= i < |states| ==> states[i].base < bases && states[i].loc <= top
  }

  function WeightProduct(v: seq<int>, states: seq<State>, top: nat): int
    requires InRange(states, |v|, top)
  {
    if states == [] then 1 else Weight(v, states[0], top) * WeightProduct(v, states[1..], top)
  }

  /** Squaring everything `x` more times. */
  lemma {:induction false} MoreSquarings(v: seq<int>, states: seq<State>, top: nat, x: nat)
    requires InRange(states, |v|, top)
    ensures InRange(states, |v|, top + x)
    ensures Pow(WeightProduct(v, states, top), Pow(2, x)) == WeightProduct(v, states, top + x)
    decreases |states|
  {
    if states == [] {
      OnePow(Pow(2, x));
    } else {
      var s := states[0];
      MoreSquarings(v, states[1..], top, x);
      PowProduct(Weight(v, s, top), WeightProduct(v, states[1..], top), Pow(2, x));
      var e := s.fragment * Pow(2, top - s.loc);
      PowMul(v[s.base], e, Pow(2, x));
      PowAdd(2, top - s.loc, x);
      MulAssoc(s.fragment, Pow(2, top - s.loc), Pow(2, x));
      assert top - s.loc + x == top + x - s.loc;
    }
  }

  // ----- the product does not depend on the order of the states -----

  lemma {:induction false} WeightRemove(v: seq<int>, states: seq<State>, i: nat, top: nat)
    requires InRange(states, |v|, top) && i < |states|
    ensures InRange(states[..i] + states[i + 1..], |v|, top)
    ensures WeightProduct(v, states, top)
         == Weight(v, states[i], top) * WeightProduct(v, states[..i] + states[i + 1..], top)
    decreases i
  {
    var rest := states[..i] + states[i + 1..];
    if i == 0 {
      assert rest == states[1..];
    } else {
      WeightRemove(v, states[1..], i - 1, top);
      assert states[1..][..i - 1] + states[1..][i..] == rest[1..];
      MulSwap(Weight(v, states[0], top), Weight(v, states[i], top), WeightProduct(v, rest[1..], top));
    }
  }

  lemma RemoveSame(a: seq<State>, b: seq<State>, i: nat)
    requires multiset(a) == multiset(b) && a != [] && i < |b| && b[i] == a[0]
    ensures multiset(a[1..]) == multiset(b[..i] + b[i + 1..])
  {
    assert a == [a[0]] + a[1..] && b == b[..i] + [b[i]] + b[i + 1..];
    assert multiset(a) == multiset{a[0]} + multiset(a[1..]);
    assert multiset(b) == multiset(b[..i]) + multiset{b[i]} + multiset(b[i + 1..]);
    assert multiset(b[..i] + b[i + 1..]) == multiset(b) - multiset{b[i]};
    assert multiset(a[1..]) == multiset(a) - multiset{a[0]};
  }

  lemma {:induction false} WeightPermute(v: seq<int>, a: seq<State>, b: seq<State>, top: nat)
    requires multiset(a) == multiset(b) && InRange(a, |v|, top)
    ensures InRange(b, |v|, top) && WeightProduct(v, a, top) == WeightProduct(v, b, top)
    decreases |a|
  {
    forall i | 0 <= i < |b| ensures b[i].base < |v| && b[i].loc <= top {
      assert b[i] in multiset(a);
    }
    if a == [] {
      assert |b| == |multiset(b)| == 0;
    } else {
      assert a[0] in multiset(b);
      var i :| 0 <= i < |b| && b[i] == a[0];
      var rest := b[..i] + b[i + 1..];
      RemoveSame(a, b, i);
      WeightPermute(v, a[1..], rest, top);
      WeightRemove(v, b, i, top);
    }
  }

  // ----- one exponent's states -----

  /** The states pushed for the fragments from index `j` up, top fragment first. */
  function StatesFrom(k: nat, sw: Sw, j: nat): seq<State>
    requires |sw.fragment| == |sw.length| && j <= |sw.fragment|
    decreases |sw.fragment| - j
  {
    if j == |sw.fragment| then []
    else StatesFrom(k, sw, j + 1) + [State(k, sw.fragment[j], Sum(sw.length[j..]))]
  }

  lemma {:induction false} WeightAppend(v: seq<int>, a: seq<State>, b: seq<State>, top: nat)
    requires InRange(a, |v|, top) && InRange(b, |v|, top)
    ensures WeightProduct(v, a + b, top) == WeightProduct(v, a, top) * WeightProduct(v, b, top)
    decreases |a|
  {
    if a == [] {
      assert a + b == b;
    } else {
      WeightAppend(v, a[1..], b, top);
      assert (a + b)[1..] == a[1..] + b;
      MulAssoc(Weight(v, a[0], top), WeightProduct(v, a[1..], top), WeightProduct(v, b, top));
    }
  }

  /** The states of one exponent multiply up to `base^exponent`. */
  lemma {:induction false} StatesMeaning(v: seq<int>, k: nat, sw: Sw, j: nat, width: nat)
    requires k < |v| && |sw.fragment| == |sw.length| && j <= |sw.fragment| && Sum(sw.length[j..]) <= width
    ensures InRange(StatesFrom(k, sw, j), |v|, width)
    ensures 0 <= FragValue(sw.fragment[j..], sw.length[j..])
    ensures 0 <= Pow(2, width - Sum(sw.length[j..])) * FragValue(sw.fragment[j..], sw.length[j..])
    ensures WeightProduct(v, StatesFrom(k, sw, j), width)
         == Pow(v[k], Pow(2, width - Sum(sw.length[j..])) * FragValue(sw.fragment[j..], sw.length[j..]))
    decreases |sw.fragment| - j
  {
    var f, len := sw.fragment, sw.length;
    if j == |f| {
      assert Pow(2, width - Sum(len[j..])) * FragValue(f[j..], len[j..]) == 0;
    } else {
      assert f[j..][1..] == f[j + 1..] && len[j..][1..] == len[j + 1..];
      StatesMeaning(v, k, sw, j + 1, width);
      var s := State(k, f[j], Sum(len[j..]));
      var o, x, e := width - Sum(len[j..]), len[j], FragValue(f[j + 1..], len[j + 1..]);
      assert WeightProduct(v, [s], width) == Pow(v[k], f[j] * Pow(2, o));
      WeightAppend(v, StatesFrom(k, sw, j + 1), [s], width);
      WindowExponent(v[k], f[j], o, x, e);
    }
  }

  /** One more window below the others. */
  lemma WindowExponent(b: int, f: nat, o: nat, x: nat, e: nat)
    ensures 0 <= Pow(2, o + x) * e && 0 <= f * Pow(2, o) && 0 <= f + Pow(2, x) * e && 0 <= Pow(2, o) * (f + Pow(2, x) * e)
    ensures Pow(b, Pow(2, o + x) * e) * Pow(b, f * Pow(2, o)) == Pow(b, Pow(2, o) * (f + Pow(2, x) * e))
  {
    PowAdd(2, o, x);
    MulMono(0, Pow(2, x), 0, e);
    MulMono(0, Pow(2, o + x), 0, e);
    MulMono(0, f, 0, Pow(2, o));
    MulMono(0, Pow(2, o), 0, f + Pow(2, x) * e);
    MulAssoc(Pow(2, o), Pow(2, x), e);
    MulDist(Pow(2, o), f, Pow(2, x) * e);
    PowAdd(b, Pow(2, o + x) * e, f * Pow(2, o));
  }

  // ----- the merged schedule -----

  ghost predicate Descending(states: seq<State>) {
    forall i, j :: 0 <= i < j < |states| ==> states[i].loc >= states[j].loc
  }

  /** Squarings between consecutive states: each entry's distance from the entry after it. */
  ghost predicate Spaced(states: seq<State>, len: seq<nat>) {
    |len| == |states| && forall i :: 0 <= i < |states| ==> len[i] == Gap(states, i)
  }

  function Gap(states: seq<State>, i: nat): int
    requires i < |states|
  {
    states[i].loc - (if i + 1 < |states| then states[i + 1].loc else 0)
  }

  lemma SpacedTail(states: seq<State>, len: seq<nat>)
    requires Spaced(states, len) && states != []
    ensures Spaced(states[1..], len[1..])
  {
    forall i | 0 <= i < |states[1..]| ensures len[1..][i] == Gap(states[1..], i) {
      assert len[i + 1] == Gap(states, i + 1);
    }
  }

  function Bases(states: seq<State>): (r: seq<nat>)
    ensures |r| == |states| && forall i :: 0 <= i < |states| ==> r[i] == states[i].base
  {
    seq(|states|, i requires 0 <= i < |states| => states[i].base)
  }

  function Frags(states: seq<State>): (r: seq<nat>)
    ensures |r| == |states| && forall i :: 0 <= i < |states| ==> r[i] == states[i].fragment
  {
    seq(|states|, i requires 0 <= i < |states| => states[i].fragment)
  }

  /** Running a sorted, spaced schedule multiplies up every state's weight. */
  lemma {:induction false} ScheduleMeaning(v: seq<int>, states: seq<State>, len: seq<nat>)
    requires Descending(states) && Spaced(states, len) && states != []
    requires forall i :: 0 <= i < |states| ==> states[i].base < |v|
    ensures InRange(states, |v|, states[0].loc)
    ensures RunSchedule(v, Bases(states), Frags(states), len) == WeightProduct(v, states, states[0].loc)
    decreases |states|
  {
    var s, rest := states[0], states[1..];
    assert Bases(states)[1..] == Bases(rest) && Frags(states)[1..] == Frags(rest);
    assert Weight(v, s, s.loc) == Pow(v[s.base], s.fragment) by { PowOne(2); }
    if rest == [] {
      OnePow(Pow(2, len[0]));
    } else {
      SpacedTail(states, len);
      assert len[0] == Gap(states, 0);
      ScheduleMeaning(v, rest, len[1..]);
      MoreSquarings(v, rest, rest[0].loc, len[0]);
    }
  }

  lemma {:induction false} SpacedSum(states: seq<State>, len: seq<nat>)
    requires Spaced(states, len)
    ensures Sum(len) == if states == [] then 0 else states[0].loc
    decreases |states|
  {
    if states != [] {
      SpacedTail(states, len);
      SpacedSum(states[1..], len[1..]);
      assert len[0] == Gap(states, 0);
    }
  }

  // ----- all exponents together -----

  function AllStates(sws: seq<Sw>, k: nat): seq<State>
    requires k <= |sws| && Matched(sws)
  {
    if k == 0 then [] else AllStates(sws, k - 1) + StatesFrom(k - 1, sws[k - 1], 0)
  }

  /** `prod base_k^(e_k)` over the first `k` bases. */
  function PowerProduct(v: seq<int>, sws: seq<Sw>, k: nat): int
    requires k <= |sws| == |v|
    requires Matched(sws)
  {
    if k == 0 then 1
    else
      var e := FragValue(sws[k - 1].fragment, sws[k - 1].length);
      PowerProduct(v, sws, k - 1) * (if 0 <= e then Pow(v[k - 1], e) else 1)
  }

  lemma {:induction false} AllStatesMeaning(v: seq<int>, sws: seq<Sw>, k: nat, width: nat)
    requires k <= |sws| == |v| && ValidSws(sws, width)
    ensures InRange(AllStates(sws, k), |v|, width)
    ensures WeightProduct(v, AllStates(sws, k), width) == PowerProduct(v, sws, k)
    decreases k
  {
    if k > 0 {
      AllStatesMeaning(v, sws, k - 1, width);
      OneBase(v, k - 1, sws[k - 1], width);
      WeightAppend(v, AllStates(sws, k - 1), StatesFrom(k - 1, sws[k - 1], 0), width);
    }
  }

  lemma OneBase(v: seq<int>, k: nat, sw: Sw, width: nat)
    requires k < |v| && ValidSw(sw, width)
    ensures InRange(StatesFrom(k, sw, 0), |v|, width) && 0 <= FragValue(sw.fragment, sw.length)
    ensures WeightProduct(v, StatesFrom(k, sw, 0), width) == Pow(v[k], FragValue(sw.fragment, sw.length))
  {
    assert sw.fragment[0..] == sw.fragment && sw.length[0..] == sw.length;
    if sw.fragment == [] {
      PowOne(v[k]);
    } else {
      StatesMeaning(v, k, sw, 0, width);
      PowOne(2);
    }
  }

  /** The last squaring count is the exponent width. */
  lemma {:induction false} DeepestState(sws: seq<Sw>, k: nat, width: nat)
    requires k <= |sws| && ValidSws(sws, width)
    ensures AllStates(sws, k) != [] ==> exists s :: s in AllStates(sws, k) && s.loc == width
    decreases k
  {
    if k > 0 {
      DeepestState(sws, k - 1, width);
      var sw := sws[k - 1];
      if sw.fragment != [] {
        var s := State(k - 1, sw.fragment[0], Sum(sw.length[0..]));
        assert sw.length[0..] == sw.length;
        assert StatesFrom(k - 1, sw, 0)[|StatesFrom(k - 1, sw, 0)| - 1] == s;
        assert s in AllStates(sws, k);
      }
    }
  }

  /** Any descending arrangement of all states, spaced out, computes `prod base_k^(e_k)`, and its
      squarings number the exponent width. */
  lemma MergedSchedule(v: seq<int>, sws: seq<Sw>, states: seq<State>, len: seq<nat>, width: nat)
    requires |sws| == |v| && ValidSws(sws, width)
    requires multiset(states) == multiset(AllStates(sws, |sws|))
    requires Descending(states) && Spaced(states, len)
    ensures forall i :: 0 <= i < |states| ==> states[i].base < |v|
    ensures RunSchedule(v, Bases(states), Frags(states), len) == PowerProduct(v, sws, |sws|)
    ensures Sum(len) == if states == [] then 0 else width
  {
    var all := AllStates(sws, |sws|);
    AllStatesMeaning(v, sws, |sws|, width);
    WeightPermute(v, all, states, width);
    SpacedSum(states, len);
    if states != [] {
      assert states[0] in multiset(all);
      DeepestState(sws, |sws|, width);
      var s :| s in all && s.loc == width;
      assert s in multiset(states);
      assert states[0].loc == width;
      ScheduleMeaning(v, states, len);
    }
  }

  // ----- building it -----

  method PushStates(k: nat, sw: Sw) returns (states: seq<State>)
    requires |sw.fragment| == |sw.length|
    ensures states == StatesFrom(k, sw, 0)
  {
    states := [];
    var loc, frag := 0, |sw.fragment|;
    while frag > 0
      invariant 0 <= frag <= |sw.fragment|
      invariant loc == Sum(sw.length[frag..])
      invariant states == StatesFrom(k, sw, frag)
    {
      frag := frag - 1;
      assert sw.length[frag..][1..] == sw.length[frag + 1..];
      loc := loc + sw.length[frag];
      states := states + [State(k, sw.fragment[frag], loc)];
    }
  }

  method InsertState(sorted: seq<State>, s: State) returns (r: seq<State>)
    requires Descending(sorted)
    ensures multiset(r) == multiset(sorted) + multiset{s} && Descending(r)
  {
    var j := 0;
    while j < |sorted| && sorted[j].loc >= s.loc
      invariant 0 <= j <= |sorted|
      invariant forall k :: 0 <= k < j ==> sorted[k].loc >= s.loc
    {
      j := j + 1;
    }
    r := sorted[..j] + [s] + sorted[j..];
    InsertKeepsStates(sorted, j, s);
    InsertKeepsOrder(sorted, j, s);
  }

  lemma InsertKeepsStates(sorted: seq<State>, j: nat, s: State)
    requires j <= |sorted|
    ensures multiset(sorted[..j] + [s] + sorted[j..]) == multiset(sorted) + multiset{s}
  {
    assert sorted == sorted[..j] + sorted[j..];
  }

  lemma InsertKeepsOrder(sorted: seq<State>, j: nat, s: State)
    requires Descending(sorted) && j <= |sorted|
    requires forall k :: 0 <= k < j ==> sorted[k].loc >= s.loc
    requires j < |sorted| ==> sorted[j].loc < s.loc
    ensures Descending(sorted[..j] + [s] + sorted[j..])
  {
    var r := sorted[..j] + [s] + sorted[j..];
    forall a, b | 0 <= a < b < |r| ensures r[a].loc >= r[b].loc {
      assert r[a] == if a < j then sorted[a] else if a == j then s else sorted[a - 1];
      assert r[b] == if b < j then sorted[b] else if b == j then s else sorted[b - 1];
    }
  }

  /** Any sort by falling location; `std::sort` promises no more. */
  method SortStates(states: seq<State>) returns (sorted: seq<State>)
    ensures multiset(sorted) == multiset(states) && Descending(sorted)
  {
    sorted := [];
    for i := 0 to |states|
      invariant multiset(sorted) == multiset(states[..i]) && Descending(sorted)
    {
      assert states[..i + 1] == states[..i] + [states[i]];
      sorted := InsertState(sorted, states[i]);
    }
    assert states[..|states|] == states;
  }

  /** The filled arrays, read as a schedule, compute `prod base_k^(e_k)` whatever the bases. */
  ghost predicate Computes(sws: seq<Sw>, base: seq<nat>, fragment: seq<nat>, length: seq<nat>)
    requires Matched(sws)
  {
    && |base| == |fragment| == |length|
    && (forall i :: 0 <= i < |base| ==> base[i] < |sws|)
    && forall v: seq<int> :: |v| == |sws| ==>
         RunSchedule(v, base, fragment, length) == PowerProduct(v, sws, |sws|)
  }

  lemma SortedComputes(sws: seq<Sw>, states: seq<State>, len: seq<nat>, width: nat)
    requires ValidSws(sws, width) && multiset(states) == multiset(AllStates(sws, |sws|))
    requires Descending(states) && Spaced(states, len)
    ensures Computes(sws, Bases(states), Frags(states), len)
    ensures Sum(len) == if states == [] then 0 else width
  {
    MergedSchedule(seq(|sws|, _ => 1), sws, states, len, width);
    forall v: seq<int> | |v| == |sws|
      ensures RunSchedule(v, Bases(states), Frags(states), len) == PowerProduct(v, sws, |sws|)
    {
      MergedSchedule(v, sws, states, len, width);
    }
  }

  /** `mp_get_multi_sw`: push every exponent's states, sort, fill the schedule backwards. */
  method GetMultiSw(sws: seq<Sw>, width: nat, base: array<nat>, fragment: array<nat>, length: array<nat>)
      returns (num: nat, ghost states: seq<State>)
    requires ValidSws(sws, width)
    requires base != fragment && base != length && fragment != length
    requires |AllStates(sws, |sws|)| <= base.Length == fragment.Length == length.Length
    modifies base, fragment, length
    ensures num == |AllStates(sws, |sws|)| && multiset(states) == multiset(AllStates(sws, |sws|)) && Descending(states)
    ensures base[..num] == Bases(states) && fragment[..num] == Frags(states) && Spaced(states, length[..num])
    ensures Computes(sws, base[..num], fragment[..num], length[..num])
    ensures Sum(length[..num]) == if num == 0 then 0 else width
  {
    var pending: seq<State> := [];
    for i := 0 to |sws|
      invariant pending == AllStates(sws, i)
    {
      var pushed := PushStates(i, sws[i]);
      pending := pending + pushed;
    }
    var sorted := SortStates(pending);
    states, num := sorted, |sorted|;
    assert num == |multiset(sorted)| == |multiset(pending)|;
    FillSchedule(sorted, base, fragment, length);
    assert base[..num] == Bases(sorted) && fragment[..num] == Frags(sorted);
    SortedComputes(sws, sorted, length[..num], width);
  }

  method FillSchedule(sorted: seq<State>, base: array<nat>, fragment: array<nat>, length: array<nat>)
    requires Descending(sorted)
    requires base != fragment && base != length && fragment != length
    requires |sorted| <= base.Length == fragment.Length == length.Length
    modifies base, fragment, length
    ensures Spaced(sorted, length[..|sorted|])
    ensures forall i :: 0 <= i < |sorted| ==> base[i] == sorted[i].base && fragment[i] == sorted[i].fragment
  {
    var loc := 0;
    var i := |sorted|;
    while i > 0
      invariant 0 <= i <= |sorted|
      invariant loc == if i < |sorted| then sorted[i].loc else 0
      invariant forall k :: i <= k < |sorted| ==> base[k] == sorted[k].base && fragment[k] == sorted[k].fragment
      invariant forall k :: i <= k < |sorted| ==> length[k] == Gap(sorted, k)
    {
      i := i - 1;
      base[i] := sorted[i].base;
      fragment[i] := sorted[i].fragment;
      length[i] := sorted[i].loc - loc;
      loc := sorted[i].loc;
    }
    assert forall k :: 0 <= k < |sorted| ==> length[..|sorted|][k] == length[k];
  }

  // ----- from exponents to the schedule -----

  const MAX_MULTI_EXP := 32

  /** Exponents of `limbs` words, none of them 0. */
  ghost predicate Exponents(exps: seq<seq<int>>, limbs: nat, w: nat) {
    forall i :: 0 <= i < |exps| ==>
      |exps[i]| == limbs && Words(exps[i], Pow(2, w)) && 0 < Val(exps[i], Pow(2, w))
  }

  /** Each decomposition stands for its exponent. */
  ghost predicate Decomposes(sws: seq<Sw>, exps: seq<seq<int>>, k: nat, w: nat)
    requires k <= |sws| && k <= |exps|
  {
    forall i :: 0 <= i < k ==>
      && |sws[i].fragment| == |sws[i].length| <= MAX_NUM_FRAGS
      && FragValue(sws[i].fragment, sws[i].length) == Val(exps[i], Pow(2, w))
      && (forall t :: 0 <= t < |sws[i].length| ==> sws[i].length[t] >= 1)
  }

  /** `prod base_k^(e_k)` over the first `k` bases, the exponents given by their words. */
  function ExpProduct(v: seq<int>, exps: seq<seq<int>>, k: nat, B: nat): int
    requires k <= |v| == |exps|
  {
    if k == 0 then 1
    else ExpProduct(v, exps, k - 1, B) * (if 0 <= Val(exps[k - 1], B) then Pow(v[k - 1], Val(exps[k - 1], B)) else 1)
  }

  /** `mp_get_sw` on one exponent, its fragments copied out. */
  method GetSw(e: seq<int>, w: nat) returns (sw: Sw)
    requires 0 < w && |e| * w < 768 && Words(e, Pow(2, w)) && 0 < Val(e, Pow(2, w))
    ensures ValidSw(sw, |e| * w) && |sw.fragment| <= MAX_NUM_FRAGS
    ensures FragValue(sw.fragment, sw.length) == Val(e, Pow(2, w))
    ensures forall t :: 0 <= t < |sw.length| ==> sw.length[t] >= 1
  {
    var fragment, length := new int[MAX_NUM_FRAGS], new nat[MAX_NUM_FRAGS];
    var n, max := GetClnw(e, w, fragment, length);
    assert forall i :: 0 <= i < n ==> 0 <= fragment[..n][i];
    sw := Sw(fragment[..n], length[..n]);
  }

  /** The first loop of `mp_get_multi_sw`. */
  method GetSws(exps: seq<seq<int>>, limbs: nat, w: nat) returns (sws: seq<Sw>)
    requires 0 < w && limbs * w < 768 && Exponents(exps, limbs, w)
    ensures |sws| == |exps| && 0 <= limbs * w && ValidSws(sws, limbs * w) && Decomposes(sws, exps, |exps|, w)
  {
    MulMono(0, limbs, 0, w);
    sws := [];
    for i := 0 to |exps|
      invariant |sws| == i && ValidSws(sws, limbs * w) && Decomposes(sws, exps, i, w)
    {
      var sw := GetSw(exps[i], w);
      sws := sws + [sw];
    }
  }

  lemma {:induction false} StatesCount(k: nat, sw: Sw, j: nat)
    requires |sw.fragment| == |sw.length| && j <= |sw.fragment|
    ensures |StatesFrom(k, sw, j)| == |sw.fragment| - j
    decreases |sw.fragment| - j
  {
    if j < |sw.fragment| { StatesCount(k, sw, j + 1); }
  }

  lemma {:induction false} CountStates(sws: seq<Sw>, exps: seq<seq<int>>, k: nat, w: nat)
    requires k <= |sws| == |exps| && Matched(sws) && Decomposes(sws, exps, |exps|, w)
    ensures |AllStates(sws, k)| <= MAX_NUM_FRAGS * k
    decreases k
  {
    if k > 0 {
      CountStates(sws, exps, k - 1, w);
      StatesCount(k - 1, sws[k - 1], 0);
    }
  }

  lemma {:induction false} SameProduct(v: seq<int>, sws: seq<Sw>, exps: seq<seq<int>>, k: nat, w: nat)
    requires k <= |v| == |sws| == |exps| && Matched(sws) && Decomposes(sws, exps, |exps|, w)
    ensures PowerProduct(v, sws, k) == ExpProduct(v, exps, k, Pow(2, w))
    decreases k
  {
    if k > 0 { SameProduct(v, sws, exps, k - 1, w); }
  }

  /** `mp_get_multi_sw` on up to 32 exponents: every one is decomposed, the windows are merged, and the schedule
      computes `prod base_k^(e_k)` for every choice of bases. The states behind the schedule are returned too. */
  method MultiSchedule(exps: seq<seq<int>>, limbs: nat, w: nat, base: array<nat>, fragment: array<nat>, length: array<nat>)
      returns (num: nat, ghost sws: seq<Sw>, ghost states: seq<State>)
    requires 0 < w && limbs * w < 768 && Exponents(exps, limbs, w) && |exps| <= MAX_MULTI_EXP
    requires base != fragment && base != length && fragment != length
    requires base.Length == fragment.Length == length.Length == MAX_NUM_FRAGS * MAX_MULTI_EXP
    modifies base, fragment, length
    ensures num <= base.Length && (forall i :: 0 <= i < num ==> base[i] < |exps|)
    ensures forall v: seq<int> :: |v| == |exps| ==>
              RunSchedule(v, base[..num], fragment[..num], length[..num]) == ExpProduct(v, exps, |exps|, Pow(2, w))
    ensures Sum(length[..num]) == if num == 0 then 0 else limbs * w
    ensures |sws| == |exps| && Decomposes(sws, exps, |exps|, w) && Matched(sws)
    ensures multiset(states) == multiset(AllStates(sws, |sws|)) && Descending(states)
    ensures base[..num] == Bases(states) && fragment[..num] == Frags(states) && Spaced(states, length[..num])
  {
    var all := GetSws(exps, limbs, w);
    CountStates(all, exps, |all|, w);
    num, states := GetMultiSw(all, limbs * w, base, fragment, length);
    sws := all;
    assert forall i :: 0 <= i < num ==> base[..num][i] == base[i];
    forall v: seq<int> | |v| == |exps|
      ensures RunSchedule(v, base[..num], fragment[..num], length[..num]) == ExpProduct(v, exps, |exps|, Pow(2, w))
    {
      SameProduct(v, all, exps, |exps|, w);
    }
  }
}
