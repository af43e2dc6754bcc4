/** The merged schedule replays each base's own windows, in order and with their own spacing: the
    assertions `mp_get_multi_sw` makes about its result (`crypto/gpu_crypto.cpp`). */
module Replay {
  import opened Arith
  import opened Clnw
  import opened MultiExp

  /** The entries that belong to base `k`. */
  function OfBase(states: seq<State>, k: nat): seq<State> {
    if states == [] then [] else (if states[0].base == k then [states[0]] else []) + OfBase(states[1..], k)
  }

  /** Base `k`'s own windows, the one needed last first. */
  function Own(k: nat, sw: Sw): (r: seq<State>)
    requires |sw.fragment| == |sw.length|
    ensures |r| == |sw.fragment|
    ensures forall j :: 0 <= j < |r| ==> r[j] == State(k, sw.fragment[j], Sum(sw.length[j..]))
  {
    seq(|sw.fragment|, j requires 0 <= j < |sw.fragment| => State(k, sw.fragment[j], Sum(sw.length[j..])))
  }

  lemma {:induction false} OfBaseCount(states: seq<State>, k: nat, s: State)
    ensures multiset(OfBase(states, k))[s] == if s.base == k then multiset(states)[s] else 0
    decreases |states|
  {
    if states != [] {
      OfBaseCount(states[1..], k, s);
      assert states == [states[0]] + states[1..];
    }
  }

  lemma SameEntries(a: seq<State>, b: seq<State>, k: nat)
    requires multiset(a) == multiset(b)
    ensures multiset(OfBase(a, k)) == multiset(OfBase(b, k))
  {
    forall s ensures multiset(OfBase(a, k))[s] == multiset(OfBase(b, k))[s] {
      OfBaseCount(a, k, s);
      OfBaseCount(b, k, s);
    }
  }

  lemma {:induction false} OfBaseAppend(a: seq<State>, b: seq<State>, k: nat)
    ensures OfBase(a + b, k) == OfBase(a, k) + OfBase(b, k)
    decreases |a|
  {
    if a == [] {
      assert a + b == b;
    } else {
      assert (a + b)[1..] == a[1..] + b;
      OfBaseAppend(a[1..], b, k);
    }
  }

  lemma {:induction false} OfBaseAll(states: seq<State>, k: nat, b: nat)
    requires forall i :: 0 <= i < |states| ==> states[i].base == b
    ensures OfBase(states, k) == if b == k then states else []
    decreases |states|
  {
    if states != [] { OfBaseAll(states[1..], k, b); }
  }

  lemma {:induction false} StatesBase(k: nat, sw: Sw, j: nat)
    requires |sw.fragment| == |sw.length| && j <= |sw.fragment|
    ensures forall i :: 0 <= i < |StatesFrom(k, sw, j)| ==> StatesFrom(k, sw, j)[i].base == k
    decreases |sw.fragment| - j
  {
    if j < |sw.fragment| { StatesBase(k, sw, j + 1); }
  }

  lemma {:induction false} StatesOwn(k: nat, sw: Sw, j: nat)
    requires |sw.fragment| == |sw.length| && j <= |sw.fragment|
    ensures multiset(StatesFrom(k, sw, j)) == multiset(Own(k, sw)[j..])
    decreases |sw.fragment| - j
  {
    if j < |sw.fragment| {
      StatesOwn(k, sw, j + 1);
      StatesStep(k, sw, j);
      FrontToBack(Own(k, sw), j, StatesFrom(k, sw, j + 1));
    } else {
      assert Own(k, sw)[j..] == [];
    }
  }

  lemma StatesStep(k: nat, sw: Sw, j: nat)
    requires |sw.fragment| == |sw.length| && j < |sw.fragment|
    ensures StatesFrom(k, sw, j) == StatesFrom(k, sw, j + 1) + [Own(k, sw)[j]]
  {
  }

  lemma FrontToBack(own: seq<State>, j: nat, rest: seq<State>)
    requires j < |own| && multiset(rest) == multiset(own[j + 1..])
    ensures multiset(rest + [own[j]]) == multiset(own[j..])
  {
    assert own[j..] == [own[j]] + own[j + 1..];
  }

  lemma {:induction false} OfBaseStates(sws: seq<Sw>, k: nat, n: nat)
    requires Matched(sws) && k < |sws| && n <= |sws|
    ensures OfBase(AllStates(sws, n), k) == if k < n then StatesFrom(k, sws[k], 0) else []
    decreases n
  {
    if n > 0 {
      OfBaseStates(sws, k, n - 1);
      OneMore(AllStates(sws, n - 1), n - 1, sws[n - 1], k);
    }
  }

  lemma OneMore(before: seq<State>, b: nat, sw: Sw, k: nat)
    requires |sw.fragment| == |sw.length|
    ensures b != k ==> OfBase(before + StatesFrom(b, sw, 0), k) == OfBase(before, k)
    ensures b == k && OfBase(before, k) == [] ==> OfBase(before + StatesFrom(b, sw, 0), k) == StatesFrom(b, sw, 0)
  {
    OfBaseAppend(before, StatesFrom(b, sw, 0), k);
    StatesBase(b, sw, 0);
    OfBaseAll(StatesFrom(b, sw, 0), k, b);
  }

  // ----- one order only -----

  ghost predicate Falling(states: seq<State>) {
    forall i, j :: 0 <= i < j < |states| ==> states[i].loc > states[j].loc
  }

  lemma SameHead(a: seq<State>, b: seq<State>)
    requires multiset(a) == multiset(b) && Descending(a) && Falling(b) && a != [] && b != []
    ensures a[0] == b[0]
  {
    assert a[0] in multiset(b) && b[0] in multiset(a);
    var i :| 0 <= i < |b| && b[i] == a[0];
    var j :| 0 <= j < |a| && a[j] == b[0];
  }

  lemma SameTail(a: seq<State>, b: seq<State>)
    requires multiset(a) == multiset(b) && a != [] && b != [] && a[0] == b[0]
    ensures multiset(a[1..]) == multiset(b[1..])
  {
    assert b[..0] + b[0 + 1..] == b[1..];
    RemoveSame(a, b, 0);
  }

  lemma SameLength(a: seq<State>, b: seq<State>)
    requires multiset(a) == multiset(b)
    ensures |a| == |b|
  {
    assert |a| == |multiset(a)| && |b| == |multiset(b)|;
  }

  /** A descending arrangement of states at different places is unique. */
  lemma {:induction false} OneOrder(a: seq<State>, b: seq<State>)
    requires multiset(a) == multiset(b) && Descending(a) && Falling(b)
    ensures a == b
    decreases |a|
  {
    SameLength(a, b);
    if a != [] {
      SameHead(a, b);
      SameTail(a, b);
      OneOrder(a[1..], b[1..]);
    }
  }

  lemma {:induction false} OfBaseIn(states: seq<State>, k: nat, i: nat) returns (j: nat)
    requires i < |OfBase(states, k)|
    ensures j < |states| && OfBase(states, k)[i] == states[j]
    decreases |states|
  {
    var own := states[0].base == k;
    if own && i == 0 {
      j := 0;
    } else {
      var t := OfBaseIn(states[1..], k, if own then i - 1 else i);
      j := t + 1;
    }
  }

  lemma {:induction false} OfBaseDescending(states: seq<State>, k: nat)
    requires Descending(states)
    ensures Descending(OfBase(states, k))
    decreases |states|
  {
    if states != [] {
      OfBaseDescending(states[1..], k);
      if states[0].base == k {
        var rest := OfBase(states[1..], k);
        forall i | 0 <= i < |rest| ensures states[0].loc >= rest[i].loc {
          var j := OfBaseIn(states[1..], k, i);
        }
      }
    }
  }

  lemma {:induction false} TailSum(len: seq<nat>, i: nat, j: nat)
    requires i < j <= |len| && forall t :: 0 <= t < |len| ==> len[t] >= 1
    ensures Sum(len[i..]) > Sum(len[j..])
    decreases j - i
  {
    assert len[i..][1..] == len[i + 1..];
    if i + 1 < j { TailSum(len, i + 1, j); }
  }

  /** Read top down, the merged schedule contains base `k`'s own windows and nothing else of that base. */
  lemma ReplaysBase(sws: seq<Sw>, states: seq<State>, k: nat)
    requires Matched(sws) && k < |sws| && multiset(states) == multiset(AllStates(sws, |sws|)) && Descending(states)
    requires forall t :: 0 <= t < |sws[k].length| ==> sws[k].length[t] >= 1
    ensures OfBase(states, k) == Own(k, sws[k])
  {
    SameEntries(states, AllStates(sws, |sws|), k);
    OfBaseStates(sws, k, |sws|);
    OwnEntries(k, sws[k]);
    OfBaseDescending(states, k);
    OwnFalling(k, sws[k]);
    OneOrder(OfBase(states, k), Own(k, sws[k]));
  }

  lemma OwnEntries(k: nat, sw: Sw)
    requires |sw.fragment| == |sw.length|
    ensures multiset(StatesFrom(k, sw, 0)) == multiset(Own(k, sw))
  {
    StatesOwn(k, sw, 0);
    assert Own(k, sw)[0..] == Own(k, sw);
  }

  lemma OwnFalling(k: nat, sw: Sw)
    requires |sw.fragment| == |sw.length| && forall t :: 0 <= t < |sw.length| ==> sw.length[t] >= 1
    ensures Falling(Own(k, sw))
  {
    forall i, j | 0 <= i < j < |Own(k, sw)| ensures Own(k, sw)[i].loc > Own(k, sw)[j].loc {
      TailSum(sw.length, i, j);
    }
  }

  // ----- spacing -----

  lemma {:induction false} SquaringsBetween(states: seq<State>, len: seq<nat>, i: nat, j: nat)
    requires Spaced(states, len) && i <= j <= |states|
    ensures Sum(len[i..j]) == (if i < |states| then states[i].loc else 0) - (if j < |states| then states[j].loc else 0)
    decreases j - i
  {
    if i < j {
      SquaringsBetween(states, len, i + 1, j);
      assert len[i..j][0] == len[i] && len[i..j][1..] == len[i + 1..j];
      assert len[i] == Gap(states, i);
    }
  }

  /** How many entries of base `k` precede position `i`. */
  function Before(states: seq<State>, k: nat, i: nat): nat
    requires i <= |states|
  {
    |OfBase(states[..i], k)|
  }

  lemma FilterAt(states: seq<State>, k: nat, i: nat)
    requires i < |states| && states[i].base == k
    ensures Before(states, k, i) < |OfBase(states, k)| && OfBase(states, k)[Before(states, k, i)] == states[i]
  {
    assert states == states[..i] + states[i..] && states[i..][1..] == states[i + 1..];
    OfBaseAppend(states[..i], states[i..], k);
  }

  lemma NextOwn(states: seq<State>, k: nat, i: nat, j: nat)
    requires i < j <= |states| && states[i].base == k && forall t :: i < t < j ==> states[t].base != k
    ensures Before(states, k, j) == Before(states, k, i) + 1
  {
    assert states[..j] == states[..i] + ([states[i]] + states[i + 1..j]);
    OfBaseAppend(states[..i], [states[i]] + states[i + 1..j], k);
    OfBaseAppend([states[i]], states[i + 1..j], k);
    NoneOf(states[i + 1..j], k);
    assert [states[i]][1..] == [];
    assert OfBase([states[i]], k) == [states[i]] + OfBase([states[i]][1..], k);
  }

  lemma {:induction false} NoneOf(states: seq<State>, k: nat)
    requires forall i :: 0 <= i < |states| ==> states[i].base != k
    ensures OfBase(states, k) == []
    decreases |states|
  {
    if states != [] { NoneOf(states[1..], k); }
  }

  lemma WindowSum(len: seq<nat>, t: nat)
    requires t < |len|
    ensures Sum(len[t..]) == len[t] + Sum(len[t + 1..])
  {
    assert len[t..][1..] == len[t + 1..];
  }

  /** Between an entry of base `k` and the next entry of that base (or the end), the schedule squares as often
      as the base's own window is long. */
  lemma ReplaysSpacing(sws: seq<Sw>, states: seq<State>, len: seq<nat>, k: nat, i: nat, j: nat)
    requires Matched(sws) && k < |sws| && multiset(states) == multiset(AllStates(sws, |sws|)) && Descending(states)
    requires Spaced(states, len) && forall t :: 0 <= t < |sws[k].length| ==> sws[k].length[t] >= 1
    requires i < j <= |states| && states[i].base == k && (j < |states| ==> states[j].base == k)
    requires forall t :: i < t < j ==> states[t].base != k
    ensures var t := Before(states, k, i);
            && t < |sws[k].length| && states[i].fragment == sws[k].fragment[t] && Sum(len[i..j]) == sws[k].length[t]
  {
    var sw, t := sws[k], Before(states, k, i);
    ReplaysBase(sws, states, k);
    FilterAt(states, k, i);
    NextOwn(states, k, i, j);
    SquaringsBetween(states, len, i, j);
    WindowSum(sw.length, t);
    if j < |states| {
      FilterAt(states, k, j);
    } else {
      assert states[..j] == states;
      assert sw.length[t + 1..] == [];
      assert Sum(sw.length[t + 1..]) == 0;
    }
  }
}
