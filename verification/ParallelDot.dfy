/** The homomorphic dot product as its threads run it (`dot_product_regular_enc` in `crypto/crypto.cpp`): each
    thread multiplies its share into a private cipher text, then merges it into the shared one inside the
    critical section. Whatever the interleaving, the result encrypts the dot product. */
module ParallelDot {
  import opened Arith
  import opened Vectors
  import opened ElGamal

  /** Shared output, private outputs, the indices worked off and the threads that have merged. */
  datatype State = State(output: Cipher, priv: seq<Cipher>, done: set<nat>, merged: set<nat>)

  /** Thread `t` takes index `i`, or enters the critical section, which is the last thing it does. */
  datatype Step = Multiply(t: nat, i: nat) | Merge(t: nat)

  const ONE := Cipher(1, 1)

  function Start(threads: nat): State {
    State(ONE, seq(threads, _ => ONE), {}, {})
  }

  /** The loop hands out each index once. */
  predicate Enabled(step: Step, threads: nat, n: nat, done: set<nat>, merged: set<nat>) {
    match step
    case Multiply(t, i) => t < threads && t !in merged && i < n && i !in done
    case Merge(t) => t < threads && t !in merged
  }

  function Next(k: Key, q: seq<int>, d: seq<nat>, st: State, step: Step): (r: State)
    requires k.p > 0 && |q| == 2 * |d| && Enabled(step, |st.priv|, |d|, st.done, st.merged)
    ensures |r.priv| == |st.priv|
  {
    match step
    case Multiply(t, i) =>
      var term := SMul(k, Cipher(q[i], q[|d| + i]), d[i]);
      st.(priv := st.priv[t := HAdd(k, st.priv[t], term)], done := st.done + {i})
    case Merge(t) =>
      st.(output := HAdd(k, st.output, st.priv[t]), merged := st.merged + {t})
  }

  /** An interleaving that works off every index and merges every thread. */
  predicate Complete(steps: seq<Step>, threads: nat, n: nat, done: set<nat>, merged: set<nat>)
    decreases |steps|
  {
    if steps == [] then (forall i: nat :: i < n ==> i in done) && forall t: nat :: t < threads ==> t in merged
    else
      && Enabled(steps[0], threads, n, done, merged)
      && match steps[0]
         case Multiply(t, i) => Complete(steps[1..], threads, n, done + {i}, merged)
         case Merge(t) => Complete(steps[1..], threads, n, done, merged + {t})
  }

  function Run(k: Key, q: seq<int>, d: seq<nat>, st: State, steps: seq<Step>): State
    requires k.p > 0 && |q| == 2 * |d| && Complete(steps, |st.priv|, |d|, st.done, st.merged)
    decreases |steps|
  {
    if steps == [] then st else Run(k, q, d, Next(k, q, d, st, steps[0]), steps[1..])
  }

  // ----- the exponents behind the cipher texts -----

  /** Plain texts (or randomness) of the shared and the private cipher texts. */
  datatype Exponents = Exponents(shared: nat, priv: seq<nat>)

  function Total(e: seq<nat>): nat {
    if e == [] then 0 else Total(e[..|e| - 1]) + e[|e| - 1]
  }

  lemma {:induction false} TotalUpdate(e: seq<nat>, t: nat, x: nat)
    requires t < |e|
    ensures Total(e[t := x]) + e[t] == Total(e) + x
    decreases |e|
  {
    var k := |e| - 1;
    if t < k {
      TotalUpdate(e[..k], t, x);
      assert e[t := x][..k] == e[..k][t := x];
    } else {
      assert e[t := x][..k] == e[..k];
    }
  }

  lemma {:induction false} TotalZero(e: seq<nat>)
    requires forall t :: 0 <= t < |e| ==> e[t] == 0
    ensures Total(e) == 0
    decreases |e|
  {
    if e != [] { TotalZero(e[..|e| - 1]); }
  }

  /** The part of the dot product that is done. */
  function DoneDot(q: seq<nat>, f: seq<nat>, done: set<nat>, n: nat): nat
    requires n <= |q| && n <= |f|
  {
    if n == 0 then 0
    else DoneDot(q, f, done, n - 1) + if n - 1 in done then Product(q[n - 1], f[n - 1]) else 0
  }

  function Product(x: nat, y: nat): nat {
    MulMono(0, x, 0, y);
    x * y
  }

  lemma {:induction false} DoneAdd(q: seq<nat>, f: seq<nat>, done: set<nat>, i: nat, n: nat)
    requires n <= |q| && n <= |f| && i !in done
    ensures DoneDot(q, f, done + {i}, n) == DoneDot(q, f, done, n) + if i < n then Product(q[i], f[i]) else 0
    decreases n
  {
    if n > 0 { DoneAdd(q, f, done, i, n - 1); }
  }

  lemma {:induction false} DoneAll(q: seq<nat>, f: seq<nat>, done: set<nat>, n: nat)
    requires n <= |q| && n <= |f| && forall i: nat :: i < n ==> i in done
    ensures DoneDot(q, f, done, n) == DotTo(q, f, n)
    decreases n
  {
    if n > 0 { DoneAll(q, f, done, n - 1); }
  }

  lemma {:induction false} DoneNone(q: seq<nat>, f: seq<nat>, n: nat)
    requires n <= |q| && n <= |f|
    ensures DoneDot(q, f, {}, n) == 0
    decreases n
  {
    if n > 0 { DoneNone(q, f, n - 1); }
  }

  /** Conservation: the exponents held by all threads and the output add up to what is done. */
  ghost predicate Balanced(st: State, e: Exponents, q: seq<nat>, d: seq<nat>)
    requires |q| == |d|
  {
    && |e.priv| == |st.priv| && e.shared + Total(e.priv) == DoneDot(q, d, st.done, |d|)
    && forall t :: 0 <= t < |e.priv| && t in st.merged ==> e.priv[t] == 0
  }

  ghost predicate Holds(k: Key, st: State, m: Exponents, r: Exponents)
    requires k.p > 0
  {
    && |m.priv| == |r.priv| == |st.priv| && Encodes(k, st.output, m.shared, r.shared)
    && forall t :: 0 <= t < |st.priv| && t !in st.merged ==> Encodes(k, st.priv[t], m.priv[t], r.priv[t])
  }

  lemma OneEncodes(k: Key)
    requires k.p > 0
    ensures Encodes(k, ONE, 0, 0)
  {
    assert k.secret * 0 == 0;
  }

  function Moved(e: Exponents, step: Step, q: seq<nat>, d: seq<nat>): Exponents
    requires |q| == |d| && (step.Multiply? ==> step.i < |d|) && step.t < |e.priv|
  {
    match step
    case Multiply(t, i) => e.(priv := e.priv[t := e.priv[t] + Product(q[i], d[i])])
    case Merge(t) => Exponents(e.shared + e.priv[t], e.priv[t := 0])
  }

  /** Each step keeps the balance. */
  lemma MovedBalanced(k: Key, c: seq<int>, st: State, step: Step, e: Exponents, q: seq<nat>, d: seq<nat>)
    requires k.p > 0 && |c| == 2 * |d| && |q| == |d| && Enabled(step, |st.priv|, |d|, st.done, st.merged) && Balanced(st, e, q, d)
    ensures Balanced(Next(k, c, d, st, step), Moved(e, step, q, d), q, d)
  {
    match step
    case Multiply(t, i) =>
      TotalUpdate(e.priv, t, e.priv[t] + Product(q[i], d[i]));
      DoneAdd(q, d, st.done, i, |d|);
    case Merge(t) => TotalUpdate(e.priv, t, 0);
  }

  lemma MovedHolds(k: Key, c: seq<int>, st: State, step: Step, m: Exponents, r: Exponents, plain: seq<nat>, rand: seq<nat>,
                   d: seq<nat>)
    requires k.p > 0 && |d| == |plain| && Encrypts(k, c, plain, rand) && Enabled(step, |st.priv|, |d|, st.done, st.merged) && Holds(k, st, m, r)
    ensures Holds(k, Next(k, c, d, st, step), Moved(m, step, plain, d), Moved(r, step, rand, d))
  {
    match step
    case Multiply(t, i) =>
      SMulEncodes(k, Cipher(c[i], c[|d| + i]), plain[i], rand[i], d[i]);
      HAddEncodes(k, st.priv[t], SMul(k, Cipher(c[i], c[|d| + i]), d[i]), m.priv[t], r.priv[t],
                  Product(plain[i], d[i]), Product(rand[i], d[i]));
    case Merge(t) =>
      HAddEncodes(k, st.output, st.priv[t], m.shared, r.shared, m.priv[t], r.priv[t]);
  }

  lemma {:induction false} RunHolds(k: Key, c: seq<int>, st: State, steps: seq<Step>, m: Exponents, r: Exponents, plain: seq<nat>,
                                    rand: seq<nat>, d: seq<nat>)
    returns (m': Exponents, r': Exponents)
    requires k.p > 0 && |d| == |plain| && Encrypts(k, c, plain, rand) && Complete(steps, |st.priv|, |d|, st.done, st.merged)
    requires Holds(k, st, m, r) && Balanced(st, m, plain, d) && Balanced(st, r, rand, d)
    ensures var end := Run(k, c, d, st, steps);
            && Holds(k, end, m', r') && Balanced(end, m', plain, d) && Balanced(end, r', rand, d)
            && (forall i: nat :: i < |d| ==> i in end.done) && forall t: nat :: t < |end.priv| ==> t in end.merged
    decreases |steps|
  {
    if steps == [] {
      m', r' := m, r;
    } else {
      MovedHolds(k, c, st, steps[0], m, r, plain, rand, d);
      MovedBalanced(k, c, st, steps[0], m, plain, d);
      MovedBalanced(k, c, st, steps[0], r, rand, d);
      m', r' := RunHolds(k, c, Next(k, c, d, st, steps[0]), steps[1..], Moved(m, steps[0], plain, d),
                         Moved(r, steps[0], rand, d), plain, rand, d);
    }
  }

  /** For every number of threads and every schedule that finishes, the output encrypts the dot product of
      the committed vector with `d`. */
  lemma ParallelDotProduct(k: Key, c: seq<int>, plain: seq<nat>, rand: seq<nat>, d: seq<nat>, threads: nat, steps: seq<Step>)
    requires k.p > 0 && |d| == |plain| && Encrypts(k, c, plain, rand)
    requires Complete(steps, threads, |d|, {}, {})
    ensures Dot(plain, d) >= 0 && Dot(rand, d) >= 0
    ensures Encodes(k, Run(k, c, d, Start(threads), steps).output, Dot(plain, d), Dot(rand, d))
  {
    DotNat(plain, d, |d|);
    DotNat(rand, d, |d|);
    var st, zero := Start(threads), Exponents(0, seq(threads, _ => 0));
    OneEncodes(k);
    TotalZero(zero.priv);
    DoneNone(plain, d, |d|);
    DoneNone(rand, d, |d|);
    var m, r := RunHolds(k, c, st, steps, zero, zero, plain, rand, d);
    var end := Run(k, c, d, st, steps);
    TotalZero(m.priv);
    TotalZero(r.priv);
    DoneAll(plain, d, end.done, |d|);
    DoneAll(rand, d, end.done, |d|);
  }
}
