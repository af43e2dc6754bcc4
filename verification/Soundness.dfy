/** What acceptance says about a compiled program: a linear prover whose answers pass the PCP tests whatever is drawn
    has the outputs of the program's own run on the inputs it used. */
module Soundness {
  import opened Arith
  import opened Poly
  import opened Gates
  import opened Worksheet
  import opened Compile
  import opened CompileProof
  import opened CompileProgram
  import opened CompileSound
  import opened Layout
  import opened ProgramRows
  import opened Aggregate
  import opened Gamma
  import opened Pcp
  import opened PcpSound
  import opened EndToEnd

  /** What the two sides agree on before the argument: a program that can be run on the inputs `s`, in a field large
      enough for its gates, compiled over the declared names. */
  ghost predicate Agreed(lines: seq<Line>, s: Store, known: set<Id>, io: Dict, vars: Dict, p: int) {
    && IsPrime(p) && Units(s, p) && WellSized(lines) && InRangeRun(lines, s, p) && DefinedBefore(lines, known)
    && (forall i :: 0 <= i < |lines| ==> FieldFits(lines[i], p))
    && forall i :: 0 <= i < |lines| ==> Accepted(lines[i], io, vars)
  }

  /** A claimed assignment `env`, its inputs those of `s`, stored under any shuffle in a first proof vector. */
  ghost predicate ClaimedFor(env: Env, s: Store, known: set<Id>, io: Dict, vars: Dict, ios: seq<int>, vals: seq<int>,
                             index: seq<nat>, f1: seq<int>, p: int)
    requires p >= 2
  {
    && Stored(env, io, vars, ios, vals) && IsShuffle(index, |vals|) && |f1| == |vals|
    && (forall x :: 0 <= x < |f1| ==> Cong(f1[index[x]], vals[x], p))
    && Match(env, FieldEnv(s, p), known, p)
  }

  lemma ClaimFits(lines: seq<Line>, s: Store, known: set<Id>, env: Env, io: Dict, vars: Dict, ios: seq<int>, vals: seq<int>,
                  index: seq<nat>, linReps: nat, f1: seq<int>, p: int)
    requires Agreed(lines, s, known, io, vars, p) && ClaimedFor(env, s, known, io, vars, ios, vals, index, f1, p)
    requires linReps >= 1
    ensures Claimed(Program(lines), ProgramRowss(Program(lines), io, vars), env, io, vars, ios, vals,
                    Compiled(lines, io, vars, |f1|, index, linReps, p), f1)
  {
    ProgramParsed(lines, s, p, io, vars);
    CompiledValid(lines, env, io, vars, ios, vals, index, linReps, p);
  }

  /** Accepted on every tape, the claimed assignment satisfies every line. */
  lemma AcceptedSatisfies(lines: seq<Line>, s: Store, known: set<Id>, env: Env, io: Dict, vars: Dict, ios: seq<int>,
                          vals: seq<int>, index: seq<nat>, linReps: nat, reps: nat, f1: seq<int>, f2: seq<int>, p: int)
    requires Agreed(lines, s, known, io, vars, p) && ClaimedFor(env, s, known, io, vars, ios, vals, index, f1, p)
    requires linReps >= 1 && reps >= 1 && |f2| == |f1| * |f1|
    ensures var rowss, setup := ProgramRowss(Program(lines), io, vars), Compiled(lines, io, vars, |f1|, index, linReps, p);
            && ValidSetup(setup) && EntriesFit(Gamma0File(rowss), setup.cons, |ios|, 0)
            && (AlwaysAccepted(setup, reps, Gamma0File(rowss), ios, f1, f2)
                <==> RightSecond(f1, f2, p) && forall i :: 0 <= i < |lines| ==> Sat(Constraints(lines[i]), env, p))
  {
    ClaimFits(lines, s, known, env, io, vars, ios, vals, index, linReps, f1, p);
    var setup := Compiled(lines, io, vars, |f1|, index, linReps, p);
    PcpExact(Program(lines), ProgramRowss(Program(lines), io, vars), env, io, vars, ios, vals, setup, reps, f1, f2);
    ProgramSat(lines, env, p);
  }

  lemma {:induction false} KnownKept(lines: seq<Line>, known: set<Id>, v: Id)
    requires v in known
    ensures v in Known(lines, known)
    decreases |lines|
  {
    if lines != [] { KnownKept(lines[1..], known + Results(lines[0]), v); }
  }

  lemma {:induction false} ResultKnown(lines: seq<Line>, known: set<Id>, i: nat, v: Id)
    requires i < |lines| && v in Results(lines[i])
    ensures v in Known(lines, known)
    decreases |lines|
  {
    if i == 0 {
      KnownKept(lines[1..], known + Results(lines[0]), v);
    } else {
      ResultKnown(lines[1..], known + Results(lines[0]), i - 1, v);
    }
  }

  /** `v` is the target of line `i`, or one of its bits. */
  ghost predicate Defines(line: Line, v: Id) {
    if line.SplitLine? then v in line.bits else v == Plain(line.target)
  }

  /** Whatever the prover claims for the result of line `i`, if it is accepted on every tape it is the result of the
      run. */
  lemma AcceptedMeansRun(lines: seq<Line>, s: Store, known: set<Id>, env: Env, io: Dict, vars: Dict, ios: seq<int>,
                         vals: seq<int>, index: seq<nat>, linReps: nat, reps: nat, f1: seq<int>, f2: seq<int>, p: int, i: nat,
                         v: Id)
    requires Agreed(lines, s, known, io, vars, p) && ClaimedFor(env, s, known, io, vars, ios, vals, index, f1, p)
    requires linReps >= 1 && reps >= 1 && |f2| == |f1| * |f1| && i < |lines| && Defines(lines[i], v)
    ensures var rowss, setup := ProgramRowss(Program(lines), io, vars), Compiled(lines, io, vars, |f1|, index, linReps, p);
            && ValidSetup(setup) && EntriesFit(Gamma0File(rowss), setup.cons, |ios|, 0)
            && (AlwaysAccepted(setup, reps, Gamma0File(rowss), ios, f1, f2)
                ==> Cong(env(v), FieldEnv(Run(lines, s, p), p)(v), p))
  {
    AcceptedSatisfies(lines, s, known, env, io, vars, ios, vals, index, linReps, reps, f1, f2, p);
    if forall k :: 0 <= k < |lines| ==> Sat(Constraints(lines[k]), env, p) {
      ProgramSound(lines, s, env, known, p);
      ResultKnown(lines, known, i, v);
    }
  }

  /** The assignment read off a proof vector and the claimed inputs and outputs. */
  function ReadOff(io: Dict, vars: Dict, ios: seq<int>, vals: seq<int>): Env {
    (v: Id) => if v in io && io[v] < |ios| then ios[io[v]] else if v in vars && vars[v] < |vals| then vals[vars[v]] else 0
  }

  /** Any proof vectors at all, and any claimed outputs: if the verifier accepts them on every tape, an output that
      line `i` defines is the one the program computes from the inputs. */
  lemma AcceptedOutput(lines: seq<Line>, s: Store, known: set<Id>, io: Dict, vars: Dict, ios: seq<int>, index: seq<nat>,
                       linReps: nat, reps: nat, f1: seq<int>, f2: seq<int>, p: int, i: nat, out: Id)
    requires Agreed(lines, s, known, io, vars, p) && IsShuffle(index, |f1|) && io.Keys !! vars.Keys && known <= io.Keys
    requires (forall v :: v in io ==> io[v] < |ios|) && (forall v :: v in vars ==> vars[v] < |f1|)
    requires forall v :: v in known ==> Cong(ios[io[v]], FieldEnv(s, p)(v), p)
    requires linReps >= 1 && reps >= 1 && |f2| == |f1| * |f1| && i < |lines| && out in io && Defines(lines[i], out)
    ensures var rowss, setup := ProgramRowss(Program(lines), io, vars), Compiled(lines, io, vars, |f1|, index, linReps, p);
            && ValidSetup(setup) && EntriesFit(Gamma0File(rowss), setup.cons, |ios|, 0)
            && (AlwaysAccepted(setup, reps, Gamma0File(rowss), ios, f1, f2)
                ==> Cong(ios[io[out]], FieldEnv(Run(lines, s, p), p)(out), p))
  {
    var vals := seq(|f1|, x requires 0 <= x < |f1| => f1[index[x]]);
    var env := ReadOff(io, vars, ios, vals);
    assert Match(env, FieldEnv(s, p), known, p);
    AcceptedMeansRun(lines, s, known, env, io, vars, ios, vals, index, linReps, reps, f1, f2, p, i, out);
  }
}
