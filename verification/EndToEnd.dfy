/** From a source program to an accepted proof: compile the lines, run the worksheet, convert to the field,
    store the variables in shuffled order, prove, verify. */
module EndToEnd {
  import opened Arith
  import opened Poly
  import opened Gates
  import opened Worksheet
  import opened Compile
  import opened CompileProof
  import opened CompileProgram
  import opened Layout
  import opened ProgramRows
  import opened Vectors
  import opened Aggregate
  import opened Gamma
  import opened Pcp
  import opened ElGamal
  import opened Commitment
  import opened Rational
  import Interpreter
  import ParallelDot
  import Protocol

  /** The compiled program's public values and variables are those of the prover's run. */
  ghost predicate Delivered(lines: seq<Line>, s: Store, p: int, io: Dict, vars: Dict, ios: seq<int>, vals: seq<nat>)
    requires p >= 2
  {
    && InRangeRun(lines, s, p) && Stored(FieldEnv(Run(lines, s, p), p), io, vars, ios, vals)
    && forall i :: 0 <= i < |vals| ==> vals[i] < p
  }

  /** What the run delivers satisfies everything the argument needs. */
  lemma RunSatisfies(lines: seq<Line>, s: Store, setup: Setup, f1: seq<nat>, ios: seq<int>, rowss: seq<seq<Row>>, io: Dict,
                     vars: Dict, vals: seq<nat>)
    requires IsPrime(setup.prime) && Units(s, setup.prime) && SingleAssignment(lines) && WellSized(lines)
    requires Delivered(lines, s, setup.prime, io, vars, ios, vals)
    requires ValidSetup(setup) && setup.n == |f1| == |vals| && setup.cons == |Program(lines)|
    requires Parsed(Program(lines), rowss, io, vars) && setup.es == Gamma12File(rowss)
    requires forall x :: 0 <= x < |f1| ==> f1[setup.index[x]] == vals[x]
    ensures Protocol.Satisfied(setup, f1, Gamma0File(rowss), ios, Program(lines), rowss,
                               FieldEnv(Run(lines, s, setup.prime), setup.prime), io, vars, vals)
  {
    ProgramComplete(lines, s, setup.prime);
    ProgramSat(lines, FieldEnv(Run(lines, s, setup.prime), setup.prime), setup.prime);
  }

  /** Every in-range run of a single-assignment program is accepted when the group is large enough, for all
      public and private coins, encryption randomness, shuffles and thread schedules. */
  method VerifyRun(setup: Setup, tape: Tape, priv: Tape, key: Key, order: int, reps: nat, r1: seq<nat>, e1: seq<nat>,
                   r2: seq<nat>, e2: seq<nat>, vals: seq<nat>, ios: seq<int>, gamma0: seq<Entry>, threads: nat,
                   steps1: seq<ParallelDot.Step>, steps2: seq<ParallelDot.Step>, ghost lines: seq<Line>, ghost s: Store,
                   ghost rowss: seq<seq<Row>>, ghost io: Dict, ghost vars: Dict)
    returns (accepted: bool, f1: seq<nat>, f2: seq<nat>)
    requires IsPrime(setup.prime) && Units(s, setup.prime) && SingleAssignment(lines) && WellSized(lines)
    requires Delivered(lines, s, setup.prime, io, vars, ios, vals)
    requires ValidSetup(setup) && setup.n == |vals| && setup.cons == |Program(lines)| && IsShuffle(setup.index, |vals|)
    requires Parsed(Program(lines), rowss, io, vars) && setup.es == Gamma12File(rowss) && gamma0 == Gamma0File(rowss)
    requires ValidKey(key) && order > 0 && |r1| == |e1| == setup.n && |r2| == |e2| == setup.n * setup.n
    requires InField(r1, setup.prime) && InField(r2, setup.prime)
    requires ParallelDot.Complete(steps1, threads, setup.n, {}, {})
    requires ParallelDot.Complete(steps2, threads, setup.n * setup.n, {}, {})
    ensures |f1| == |vals| && forall x :: 0 <= x < |vals| ==> f1[setup.index[x]] == vals[x]
    ensures IsSquare(f2, f1, setup.prime) && |r2| == |f2|
    ensures accepted <==> Dot(r1, f1) + Dot(r2, f2) < order
    ensures (setup.n + setup.n * setup.n) * (setup.prime * setup.prime) <= order ==> accepted
  {
    f1 := Shuffled(vals, setup.index, setup.prime);
    RunSatisfies(lines, s, setup, f1, ios, rowss, io, vars, vals);
    accepted, f2 := Protocol.HonestRun(setup, tape, priv, key, order, reps, r1, e1, r2, e2, f1, gamma0, ios, threads, steps1,
                                       steps2, Program(lines), rowss,
                                       FieldEnv(Run(lines, s, setup.prime), setup.prime), io, vars, vals);
  }

  /** `names` lists the names in `d` by index. */
  ghost predicate Lists(names: seq<Id>, d: Dict) {
    forall v :: v in d ==> d[v] < |names| && names[d[v]] == v
  }

  /** The conversion of a finished run, variable by variable. */
  method Converted(m: Interpreter.Machine, names: seq<Id>) returns (z: seq<nat>)
    requires IsPrime(m.prime) && Units(m.store, m.prime)
    ensures |z| == |names|
    ensures forall i :: 0 <= i < |names| ==> z[i] < m.prime && z[i] == FieldEnv(m.store, m.prime)(names[i])
  {
    var s := m.store;
    var q: seq<Rat> := seq(|names|, i requires 0 <= i < |names| => Get(s, names[i]));
    forall i | 0 <= i < |q| ensures Unit(q[i], m.prime) { GetUnit(m.store, names[i], m.prime); }
    var a := Interpreter.ConvertToZ(q, m.prime);
    z := a[..];
  }

  /** What the compiler hands to both sides. */
  function Compiled(lines: seq<Line>, io: Dict, vars: Dict, n: nat, index: seq<nat>, linReps: nat, prime: int): Setup
    requires WellSized(lines)
  {
    Setup(n, |Program(lines)|, Gamma12File(ProgramRowss(Program(lines), io, vars)), index, linReps, prime)
  }

  lemma CompiledValid(lines: seq<Line>, env: Env, io: Dict, vars: Dict, ios: seq<int>, vals: seq<int>, index: seq<nat>,
                      linReps: nat, prime: int)
    requires WellSized(lines) && prime > 0 && linReps >= 1 && IsShuffle(index, |vals|)
    requires Stored(env, io, vars, ios, vals)
    requires Parsed(Program(lines), ProgramRowss(Program(lines), io, vars), io, vars)
    ensures ValidSetup(Compiled(lines, io, vars, |vals|, index, linReps, prime))
  {
    var cons := Program(lines);
    var rowss, alpha := ProgramRowss(cons, io, vars), seq(|cons|, _ => 0);
    WeightedParsed(cons, rowss, env, io, vars, ios, vals, alpha);
    FilesFit(rowss, alpha, ios, vals);
  }

  /** The whole way, from a source program and its inputs: compile, run the worksheet, convert what it leaves
      behind, commit, answer, verify. */
  method ProveProgram(lines: seq<Line>, inputs: Store, io: Dict, ioNames: seq<Id>, vars: Dict, varNames: seq<Id>,
                      index: seq<nat>, linReps: nat, prime: int, tape: Tape, priv: Tape, key: Key, order: int, reps: nat,
                      r1: seq<nat>, e1: seq<nat>, r2: seq<nat>, e2: seq<nat>, threads: nat,
                      steps1: seq<ParallelDot.Step>, steps2: seq<ParallelDot.Step>)
    returns (accepted: bool, ios: seq<nat>, f1: seq<nat>, f2: seq<nat>)
    requires IsPrime(prime) && Units(inputs, prime) && SingleAssignment(lines) && WellSized(lines)
    requires InRangeRun(lines, inputs, prime)
    requires forall i :: 0 <= i < |lines| ==> Accepted(lines[i], io, vars)
    requires forall i :: 0 <= i < |lines| && lines[i].PolyLine? ==>
               Fits(WorkPoly(lines[i].a, lines[i].b, lines[i].c).terms, MAX_DEPTH)
    requires Lists(ioNames, io) && Lists(varNames, vars)
    requires linReps >= 1 && IsShuffle(index, |varNames|)
    requires ValidKey(key) && order > 0
    requires |r1| == |e1| == |varNames| && |r2| == |e2| == |varNames| * |varNames|
    requires InField(r1, prime) && InField(r2, prime)
    requires ParallelDot.Complete(steps1, threads, |varNames|, {}, {})
    requires ParallelDot.Complete(steps2, threads, |varNames| * |varNames|, {}, {})
    ensures |ios| == |ioNames| && forall i :: 0 <= i < |ios| ==>
              ios[i] == FieldEnv(Run(lines, inputs, prime), prime)(ioNames[i])
    ensures |f1| == |varNames| && forall x :: 0 <= x < |varNames| ==>
              f1[index[x]] == FieldEnv(Run(lines, inputs, prime), prime)(varNames[x])
    ensures IsSquare(f2, f1, prime) && |r2| == |f2|
    ensures accepted <==> Dot(r1, f1) + Dot(r2, f2) < order
    ensures (|varNames| + |varNames| * |varNames|) * (prime * prime) <= order ==> accepted
  {
    var m := new Interpreter.Machine(inputs, prime);
    m.ComputeFromPws(lines);
    ios := Converted(m, ioNames);
    var vals := Converted(m, varNames);
    var rowss := ProgramRowss(Program(lines), io, vars);
    var setup := Compiled(lines, io, vars, |varNames|, index, linReps, prime);
    ProgramParsed(lines, inputs, prime, io, vars);
    CompiledValid(lines, FieldEnv(Run(lines, inputs, prime), prime), io, vars, ios, vals, index, linReps, prime);
    accepted, f1, f2 := VerifyRun(setup, tape, priv, key, order, reps, r1, e1, r2, e2, vals, ios, Gamma0File(rowss), threads,
                                  steps1, steps2, lines, inputs, rowss, io, vars);
  }

  /** The first proof vector. */
  method Shuffled(vals: seq<nat>, index: seq<nat>, p: int) returns (f1: seq<nat>)
    requires IsShuffle(index, |vals|) && forall i :: 0 <= i < |vals| ==> vals[i] < p
    ensures |f1| == |vals| && InField(f1, p) && forall x :: 0 <= x < |vals| ==> f1[index[x]] == vals[x]
  {
    var a := Place(vals, index);
    forall i | 0 <= i < a.Length ensures 0 <= a[i] < p {
      var x := ShuffleHits(index, |vals|, i);
    }
    f1 := a[..];
  }

  /** The numbers below `n`. */
  function Below(n: nat): (r: set<nat>)
    ensures |r| == n && forall k: nat :: k in r <==> k < n
  {
    if n == 0 then {} else Below(n - 1) + {n - 1}
  }

  /** The positions the first `n` variables take. */
  function Taken(index: seq<nat>, n: nat): (r: set<nat>)
    requires n <= |index|
  {
    if n == 0 then {} else Taken(index, n - 1) + {index[n - 1]}
  }

  lemma {:induction false} TakenBy(index: seq<nat>, n: nat, k: nat) returns (x: nat)
    requires n <= |index| && k in Taken(index, n)
    ensures x < n && index[x] == k
    decreases n
  {
    if index[n - 1] == k { x := n - 1; } else { x := TakenBy(index, n - 1, k); }
  }

  lemma {:induction false} TakenSize(index: seq<nat>, n: nat)
    requires n <= |index| && forall i, j :: 0 <= i < j < n ==> index[i] != index[j]
    ensures |Taken(index, n)| == n
    decreases n
  {
    if n > 0 {
      TakenSize(index, n - 1);
      if index[n - 1] in Taken(index, n - 1) {
        var x := TakenBy(index, n - 1, index[n - 1]);
      }
    }
  }

  /** A shuffle reaches every position. */
  lemma ShuffleHits(index: seq<nat>, n: nat, i: nat) returns (x: nat)
    requires IsShuffle(index, n) && i < n
    ensures x < n && index[x] == i
  {
    TakenSize(index, n);
    TakenWithin(index, n, n);
    if i !in Taken(index, n) {
      SubsetSize(Taken(index, n), Below(n) - {i});
    }
    x := TakenBy(index, n, i);
  }

  lemma {:induction false} TakenWithin(index: seq<nat>, n: nat, m: nat)
    requires IsShuffle(index, n) && m <= n
    ensures Taken(index, m) <= Below(n)
    decreases m
  {
    if m > 0 { TakenWithin(index, n, m - 1); }
  }

  lemma {:induction false} SubsetSize(a: set<nat>, b: set<nat>)
    requires a <= b
    ensures |a| <= |b|
    decreases |a|
  {
    if a != {} {
      var x :| x in a;
      SubsetSize(a - {x}, b - {x});
    }
  }
}
