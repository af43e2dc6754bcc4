/** Two small programs taken all the way through the argument: a copy, and a comparison of an input with 1. The
    assumptions of `EndToEnd.ProveProgram` can be met, the verifier accepts, and in a group that is too small it
    does not. */
module Instance {
  import opened Arith
  import opened Poly
  import opened Rational
  import opened Gates
  import opened Expand
  import opened Worksheet
  import opened Compile
  import opened CompileProof
  import opened CompileProgram
  import opened CompileSound
  import opened Layout
  import opened Vectors
  import opened Aggregate
  import opened Gamma
  import opened Degree
  import opened GateExpansion
  import opened ProgramRows
  import opened Pcp
  import opened ElGamal
  import opened Commitment
  import opened EndToEnd
  import opened PcpSound
  import opened Soundness
  import ParallelDot

  const P := 5

  lemma FivePrime()
    ensures IsPrime(P)
  {
    assert 5 % 2 == 1 && 5 % 3 == 2 && 5 % 4 == 1;
  }

  // ----- one thread that works off all indices -----

  function StepsFrom(i: nat, n: nat): seq<ParallelDot.Step>
    requires i <= n
    decreases n - i
  {
    if i == n then [ParallelDot.Merge(0)] else [ParallelDot.Multiply(0, i)] + StepsFrom(i + 1, n)
  }

  lemma {:induction false} StepsComplete(i: nat, n: nat, done: set<nat>)
    requires i <= n && forall k: nat :: k in done <==> k < i
    ensures ParallelDot.Complete(StepsFrom(i, n), 1, n, done, {})
    decreases n - i
  {
    var steps := StepsFrom(i, n);
    if i == n {
      assert steps[1..] == [];
      assert ParallelDot.Complete([], 1, n, done, {} + {0});
    } else {
      assert steps[1..] == StepsFrom(i + 1, n);
      StepsComplete(i + 1, n, done + {i});
    }
  }

  // ----- copying -----

  /** `x - z`. */
  function CopyLine(x: Id, z: string): Line {
    PolyLine(EMPTY, EMPTY, Poly([PosTerm(Var(x))]), 1, z)
  }

  lemma CopyVars(x: Id, z: string)
    ensures Reads(CopyLine(x, z)) == {x} && Writes(CopyLine(x, z)) == {Plain(z)}
  {
    var ts := [PosTerm(Var(x))];
    assert ts[1..] == [] && ts[0].factors[1..] == [];
    assert FactorsVars([Var(x)]) == FactorVars(Var(x)) + FactorsVars([]);
    assert TermsVars(ts) == FactorsVars([Var(x)]) + TermsVars([]);
    assert TermsVars([]) == {};
  }

  lemma CopyValue(x: Id, s: Store)
    ensures PolyQ(Poly([PosTerm(Var(x))]), s) == Get(s, x)
  {
    var t := PosTerm(Var(x));
    assert [t][1..] == [] && t.factors[1..] == [];
    assert ProductQ(ZERO, false, t.factors, s) == ProductQ(FactorQ(Var(x), s), true, t.factors[1..], s);
    assert SumQ(ZERO, false, [t], s) == SumQ(TermQ(t, s), true, [t][1..], s);
  }

  lemma CopyOk(x: Id, z: string, s: Store)
    requires x != Plain(z)
    ensures LineOk(CopyLine(x, z), s, P) && Runs(CopyLine(x, z), s)
    ensures Exec(CopyLine(x, z), s, P) == s[Plain(z) := Get(s, x)]
  {
    CopyVars(x, z);
    CopyValue(x, s);
    SmallMod(1, P); SmallMod(0, P);
    assert NonemptyTerm(PosTerm(Var(x)));
  }

  lemma CopyParses(x: Id, z: string, io: Dict, vars: Dict)
    requires x in vars.Keys + io.Keys && Plain(z) in vars.Keys + io.Keys
    ensures Accepted(CopyLine(x, z), io, vars)
  {
    var ts := [PosTerm(Var(x)), NegTerm(Var(Plain(z)))];
    var c := Constraint(EMPTY, EMPTY, Poly(ts));
    assert CopyLine(x, z).c.terms + [TargetTerm(1, z)] == ts;
    DifferenceSafe(Var(x), Var(Plain(z)));
    assert ExpandPoly(EMPTY) == [] && SafePoly(EMPTY) && PolyVars(EMPTY) == {};
    PairVars(PosTerm(Var(x)), NegTerm(Var(Plain(z))));
    OneVars(false, 0, Var(x)); OneVars(true, 0, Var(Plain(z)));
    ConstraintParses(c, io, vars);
  }

  lemma CopyFits(x: Id, z: string)
    ensures Fits(WorkPoly(EMPTY, EMPTY, CopyLine(x, z).c).terms, MAX_DEPTH)
  {
    var ts := CopyLine(x, z).c.terms;
    assert ts[1..] == [] && ts[0].factors[1..] == [];
    assert FitsFactor(Var(x), MAX_DEPTH) && FitsFactors([], MAX_DEPTH);
    assert FitsFactors(ts[0].factors, MAX_DEPTH) && Fits([], MAX_DEPTH);
  }

  // ----- numbering -----

  lemma {:induction false} ReadVarsKeys(d: Dict, names: seq<Id>, offset: nat, v: Id)
    requires v in ReadVars(d, names, offset)
    ensures v in d || exists i :: 0 <= i < |names| && names[i] == v
    decreases |names|
  {
    if names != [] {
      ReadVarsKeys(ReadVar(d, names[0], offset), names[1..], offset, v);
      if v !in d && v != names[0] {
        var i :| 0 <= i < |names[1..]| && names[1..][i] == v;
        assert names[i + 1] == v;
      }
    }
  }

  function Numbered(names: seq<Id>): Dict { ReadVars(map[], names, 0) }

  lemma NumberedLists(names: seq<Id>)
    requires forall i, j :: 0 <= i < j < |names| ==> names[i] != names[j]
    ensures Lists(names, Numbered(names)) && forall i :: 0 <= i < |names| ==> names[i] in Numbered(names)
  {
    Consecutive(map[], names, 0);
    forall v | v in Numbered(names) ensures Numbered(names)[v] < |names| && names[Numbered(names)[v]] == v {
      ReadVarsKeys(map[], names, 0, v);
    }
  }

  lemma OneNumbered(x: Id)
    ensures x in Numbered([x]) && Lists([x], Numbered([x]))
  {
    NumberedLists([x]);
    assert [x][0] in Numbered([x]);
  }

  // ----- the copy program -----

  lemma CopyRuns(x: Id, z: string, s: Store)
    requires x != Plain(z)
    ensures SingleAssignment([CopyLine(x, z)]) && InRangeRun([CopyLine(x, z)], s, P) && WellSized([CopyLine(x, z)])
    ensures Run([CopyLine(x, z)], s, P) == s[Plain(z) := Get(s, x)]
  {
    CopyOk(x, z, s);
    assert [CopyLine(x, z)][1..] == [];
    assert InRangeRun([], s[Plain(z) := Get(s, x)], P);
  }

  /** `z = x` proved and verified, for every stored input, every tape and any number of repetitions. With
      commitment coins 3 and 4 and input 1 the committed sum is 7: the honest prover is accepted exactly in groups
      of larger order. */
  method CopyProved(x: Id, z: string, inputs: Store, tape: Tape, priv: Tape, reps: nat, order: int)
    returns (accepted: bool, out: int)
    requires x != Plain(z) && Units(inputs, P) && order > 0
    ensures out == ToField(Get(inputs, x), P)
    ensures order >= 50 ==> accepted
    ensures ToField(Get(inputs, x), P) == 1 ==> (accepted <==> 7 < order)
  {
    var lines, io, vars := CopyArguments(x, z, inputs);
    var steps := OneThread(1);
    var ios, f1, f2;
    var index := [0];
    accepted, ios, f1, f2 := ProveProgram(lines, inputs, io, [x], vars, [Plain(z)], index, 1, P, tape, priv, Key(P, 2, 1), order,
                                          reps, [3], [1], [4], [2], 1, steps, steps);
    out := ios[0];
    assert f1[index[0]] == ToField(Get(inputs, x), P);
    if f1[0] == 1 { CommittedSeven(f1, f2); }
  }

  method CopyArguments(x: Id, z: string, inputs: Store) returns (lines: seq<Line>, io: Dict, vars: Dict)
    requires x != Plain(z) && Units(inputs, P)
    ensures IsPrime(P) && SingleAssignment(lines) && WellSized(lines) && InRangeRun(lines, inputs, P)
    ensures forall i :: 0 <= i < |lines| ==> Accepted(lines[i], io, vars)
    ensures forall i :: 0 <= i < |lines| && lines[i].PolyLine? ==>
              Fits(WorkPoly(lines[i].a, lines[i].b, lines[i].c).terms, MAX_DEPTH)
    ensures Lists([x], io) && Lists([Plain(z)], vars)
    ensures Get(Run(lines, inputs, P), x) == Get(Run(lines, inputs, P), Plain(z)) == Get(inputs, x)
  {
    lines, io, vars := [CopyLine(x, z)], Numbered([x]), Numbered([Plain(z)]);
    FivePrime();
    CopyRuns(x, z, inputs);
    OneNumbered(x);
    OneNumbered(Plain(z));
    CopyParses(x, z, io, vars);
    CopyFits(x, z);
  }

  lemma CommittedSeven(f1: seq<nat>, f2: seq<nat>)
    requires f1 == [1] && |f2| == 1 && IsSquare(f2, f1, P)
    ensures Dot([3], f1) + Dot([4], f2) == 7
  {
    assert Cell(f2, 0, 0, 1) == (f1[0] * f1[0]) % P;
    assert DotTo([3], f1, 1) == DotTo([3], f1, 0) + 3 * f1[0];
    assert DotTo([4], f2, 1) == DotTo([4], f2, 0) + 4 * f2[0];
  }

  // ----- the comparison program -----

  function OneLess(a: string, t: string): Line { LessLine(Var(Plain(a)), Const(1), t, 2) }

  /** `a = x`, `t = a < 1`, `o = t`. */
  function LessLines(x: string, a: string, t: string, o: string): seq<Line> {
    [CopyLine(Plain(x), a), OneLess(a, t), CopyLine(Plain(t), o)]
  }

  function LessVars(a: string, t: string): seq<Id> {
    [Plain(a), Plain(t), Aux(t, Mlt), Aux(t, Meq), Aux(t, Mgt), Aux(t, NBit(0)), Aux(t, NBit(1))]
  }

  function LessIo(x: string, o: string): seq<Id> { [Plain(x), Plain(o)] }

  ghost predicate Different(x: string, a: string, t: string, o: string) {
    x != a && x != t && x != o && a != t && a != o && t != o
  }

  lemma LessOk(a: string, t: string, s: Store, v: int)
    requires a != t && Get(s, Plain(a)) == Q(v, 1) && -1 <= v <= 3
    ensures LineOk(OneLess(a, t), s, P) && Runs(OneLess(a, t), s)
    ensures Get(Exec(OneLess(a, t), s, P), Plain(t)) == Flag(v < 1)
  {
    assert Reads(OneLess(a, t)) == {Plain(a)};
    PowOne(2);
    LessTarget(Var(Plain(a)), Const(1), t, 2, s, v, 1);
  }

  lemma LessDeclared(x: string, a: string, t: string, o: string, io: Dict, vars: Dict)
    requires forall i :: 0 <= i < |LessVars(a, t)| ==> LessVars(a, t)[i] in vars
    ensures Accepted(OneLess(a, t), io, vars)
  {
    var names := LessVars(a, t);
    assert names[0] in vars && names[1] in vars && names[2] in vars && names[3] in vars && names[4] in vars;
    assert names[5] in vars && names[6] in vars;
    var line := OneLess(a, t);
    ConstraintsWithin(line);
    assert Reads(line) + Writes(line) <= vars.Keys;
    forall i | 0 <= i < |Constraints(line)| ensures Declared(Constraints(line)[i], io, vars) {
      assert ConstraintVars(Constraints(line)[i]) <= vars.Keys;
    }
  }

  lemma LessSingle(x: string, a: string, t: string, o: string)
    requires Different(x, a, t, o)
    ensures SingleAssignment(LessLines(x, a, t, o)) && WellSized(LessLines(x, a, t, o))
  {
    CopyVars(Plain(x), a);
    CopyVars(Plain(t), o);
  }

  lemma LessRuns(x: string, a: string, t: string, o: string, s: Store, v: int)
    requires Different(x, a, t, o) && Get(s, Plain(x)) == Q(v, 1) && -1 <= v <= 3
    ensures var lines := LessLines(x, a, t, o);
            InRangeRun(lines, s, P) && Get(Run(lines, s, P), Plain(o)) == Flag(v < 1)
  {
    var lines := LessLines(x, a, t, o);
    assert lines[1..] == [lines[1], lines[2]] && lines[1..][1..] == [lines[2]];
    CopyOk(Plain(x), a, s);
    var s1 := Exec(lines[0], s, P);
    LessOk(a, t, s1, v);
    var s2 := Exec(lines[1], s1, P);
    CopyRuns(Plain(t), o, s2);
    assert InRangeRun(lines[1..], s1, P);
  }

  lemma LessNumbered(x: string, a: string, t: string, o: string)
    requires Different(x, a, t, o)
    ensures Lists(LessIo(x, o), Numbered(LessIo(x, o))) && Lists(LessVars(a, t), Numbered(LessVars(a, t)))
    ensures forall i :: 0 <= i < |LessIo(x, o)| ==> LessIo(x, o)[i] in Numbered(LessIo(x, o))
    ensures forall i :: 0 <= i < |LessVars(a, t)| ==> LessVars(a, t)[i] in Numbered(LessVars(a, t))
  {
    NumberedLists(LessIo(x, o));
    NumberedLists(LessVars(a, t));
  }

  /** Dictionaries of the comparison program, and that the compiler accepts every line over them. */
  lemma LessReady(x: string, a: string, t: string, o: string, io: Dict, vars: Dict)
    requires Different(x, a, t, o) && io == Numbered(LessIo(x, o)) && vars == Numbered(LessVars(a, t))
    ensures Lists(LessIo(x, o), io) && Lists(LessVars(a, t), vars)
    ensures var lines := LessLines(x, a, t, o);
            && (forall i :: 0 <= i < |lines| ==> (lines[i].LessLine? ==> 1 <= lines[i].n) && Accepted(lines[i], io, vars))
            && forall i :: 0 <= i < |lines| && lines[i].PolyLine? ==>
                 Fits(WorkPoly(lines[i].a, lines[i].b, lines[i].c).terms, MAX_DEPTH)
  {
    LessNumbered(x, a, t, o);
    assert LessIo(x, o)[0] in io && LessIo(x, o)[1] in io && LessVars(a, t)[0] in vars && LessVars(a, t)[1] in vars;
    CopyParses(Plain(x), a, io, vars);
    LessDeclared(x, a, t, o, io, vars);
    CopyParses(Plain(t), o, io, vars);
    CopyFits(Plain(x), a);
    CopyFits(Plain(t), o);
  }

  /** Program, dictionaries and inputs. */
  method LessArguments(x: string, a: string, t: string, o: string, v: int)
    returns (lines: seq<Line>, inputs: Store, io: Dict, ioNames: seq<Id>, vars: Dict, varNames: seq<Id>)
    requires Different(x, a, t, o) && -1 <= v <= 3
    ensures IsPrime(P) && Units(inputs, P) && SingleAssignment(lines) && WellSized(lines) && InRangeRun(lines, inputs, P)
    ensures forall i :: 0 <= i < |lines| ==> Accepted(lines[i], io, vars)
    ensures forall i :: 0 <= i < |lines| && lines[i].PolyLine? ==>
              Fits(WorkPoly(lines[i].a, lines[i].b, lines[i].c).terms, MAX_DEPTH)
    ensures Lists(ioNames, io) && Lists(varNames, vars) && |varNames| == 7 && ioNames == [Plain(x), Plain(o)]
    ensures Get(inputs, Plain(x)) == Q(v, 1) && Get(Run(lines, inputs, P), Plain(o)) == Flag(v < 1)
  {
    lines, inputs := LessLines(x, a, t, o), map[Plain(x) := Q(v, 1)];
    ioNames, varNames := LessIo(x, o), LessVars(a, t);
    io, vars := Numbered(ioNames), Numbered(varNames);
    FivePrime();
    IntegerImage(v, P);
    LessSingle(x, a, t, o);
    LessRuns(x, a, t, o, inputs, v);
    LessReady(x, a, t, o, io, vars);
  }

  method OneThread(n: nat) returns (steps: seq<ParallelDot.Step>)
    ensures ParallelDot.Complete(steps, 1, n, {}, {})
  {
    StepsComplete(0, n, {});
    steps := StepsFrom(0, n);
  }

  method InOrder(n: nat) returns (index: seq<nat>)
    ensures IsShuffle(index, n)
  {
    index := seq(n, i => i);
  }

  method Ones(n: nat) returns (r: seq<nat>)
    ensures |r| == n && InField(r, P)
  {
    r := seq(n, _ => 1);
  }

  /** `o = x < 1` proved and verified: for every integer input from -1 to 3, every tape and any number of
      repetitions the verifier accepts, and the output it accepts is the outcome of the comparison. */
  method ComparisonProved(x: string, a: string, t: string, o: string, v: int, tape: Tape, priv: Tape, reps: nat)
    returns (accepted: bool, out: int)
    requires Different(x, a, t, o) && -1 <= v <= 3
    ensures accepted && out == if v < 1 then 1 else 0
  {
    var lines, inputs, io, ioNames, vars, varNames := LessArguments(x, a, t, o, v);
    var ios;
    accepted, ios := ProveSeven(lines, inputs, io, ioNames, vars, varNames, tape, priv, reps);
    out := ios[1];
    FlagField(v < 1);
  }

  /** Any program over seven variables, coins all 1, a group of order 1400. */
  method ProveSeven(lines: seq<Line>, inputs: Store, io: Dict, ioNames: seq<Id>, vars: Dict, varNames: seq<Id>, tape: Tape,
                    priv: Tape, reps: nat)
    returns (accepted: bool, ios: seq<nat>)
    requires IsPrime(P) && Units(inputs, P) && SingleAssignment(lines) && WellSized(lines) && InRangeRun(lines, inputs, P)
    requires forall i :: 0 <= i < |lines| ==> Accepted(lines[i], io, vars)
    requires forall i :: 0 <= i < |lines| && lines[i].PolyLine? ==>
               Fits(WorkPoly(lines[i].a, lines[i].b, lines[i].c).terms, MAX_DEPTH)
    requires Lists(ioNames, io) && Lists(varNames, vars) && |varNames| == 7
    ensures accepted
    ensures |ios| == |ioNames| && forall i :: 0 <= i < |ios| ==> ios[i] == FieldEnv(Run(lines, inputs, P), P)(ioNames[i])
  {
    var steps1 := OneThread(7);
    var steps2 := OneThread(49);
    var index := InOrder(7);
    var r1 := Ones(7);
    var r2 := Ones(49);
    var f1, f2;
    accepted, ios, f1, f2 := ProveProgram(lines, inputs, io, ioNames, vars, varNames, index, 1, P, tape, priv, Key(P, 2, 1),
                                          1400, reps, r1, r1, r2, r2, 1, steps1, steps2);
  }

  lemma FlagField(b: bool)
    ensures ToField(Flag(b), P) == if b then 1 else 0
  {
    FivePrime();
    FlagImage(b, P);
    SmallMod(0, P); SmallMod(1, P);
    SmallMod(ToField(Flag(b), P), P);
  }

  // ----- whatever the prover sends -----

  /** Before the argument starts the program only knows its input. */
  lemma LessDefined(x: string, a: string, t: string, o: string)
    requires Different(x, a, t, o)
    ensures DefinedBefore(LessLines(x, a, t, o), {Plain(x)})
    ensures forall i :: 0 <= i < 3 ==> FieldFits(LessLines(x, a, t, o)[i], P)
  {
    var lines := LessLines(x, a, t, o);
    CopyVars(Plain(x), a);
    CopyVars(Plain(t), o);
    assert Pow(2, 2) == 2 * Pow(2, 1) && Pow(2, 1) == 2 * Pow(2, 0);
    assert lines[1..] == [lines[1], lines[2]] && lines[1..][1..] == [lines[2]] && lines[1..][1..][1..] == [];
    assert DefinedBefore([lines[2]], {Plain(x)} + {Plain(a)} + {Plain(t)});
    assert DefinedBefore(lines[1..], {Plain(x)} + {Plain(a)});
  }

  /** `o = x < 1` in a field of five elements: whatever vectors a linear prover holds and whatever output it claims,
      if it is accepted on every tape the output is the outcome of the comparison. */
  lemma ComparisonSound(x: string, a: string, t: string, o: string, v: int, out: int, index: seq<nat>, reps: nat,
                        f1: seq<int>, f2: seq<int>)
    requires Different(x, a, t, o) && -1 <= v <= 3 && IsShuffle(index, 7) && |f1| == 7 && |f2| == 49 && reps >= 1
    ensures var lines, io, vars := LessLines(x, a, t, o), Numbered(LessIo(x, o)), Numbered(LessVars(a, t));
            && WellSized(lines)
            && var rowss, setup := ProgramRowss(Program(lines), io, vars), Compiled(lines, io, vars, 7, index, 1, P);
            && ValidSetup(setup) && EntriesFit(Gamma0File(rowss), setup.cons, 2, 0)
            && (AlwaysAccepted(setup, reps, Gamma0File(rowss), [v, out], f1, f2) ==> Cong(out, if v < 1 then 1 else 0, P))
  {
    var lines, io, vars := LessLines(x, a, t, o), Numbered(LessIo(x, o)), Numbered(LessVars(a, t));
    var s: Store := map[Plain(x) := Q(v, 1)];
    LessAgreed(x, a, t, o, v, lines, s, io, vars);
    LessIndices(x, a, t, o, io, vars);
    OutputSound(lines, s, v, x, o, out, io, vars, index, reps, f1, f2, v < 1);
  }

  lemma LessAgreed(x: string, a: string, t: string, o: string, v: int, lines: seq<Line>, s: Store, io: Dict, vars: Dict)
    requires Different(x, a, t, o) && -1 <= v <= 3 && lines == LessLines(x, a, t, o) && s == map[Plain(x) := Q(v, 1)]
    requires io == Numbered(LessIo(x, o)) && vars == Numbered(LessVars(a, t))
    ensures Agreed(lines, s, {Plain(x)}, io, vars, P) && Get(Run(lines, s, P), Plain(o)) == Flag(v < 1)
  {
    FivePrime();
    IntegerImage(v, P);
    LessSingle(x, a, t, o);
    LessRuns(x, a, t, o, s, v);
    LessReady(x, a, t, o, io, vars);
    LessDefined(x, a, t, o);
  }

  /** A program with one input, whose last of three lines defines its one output. */
  lemma OutputSound(lines: seq<Line>, s: Store, v: int, x: string, o: string, out: int, io: Dict, vars: Dict,
                    index: seq<nat>, reps: nat, f1: seq<int>, f2: seq<int>, flag: bool)
    requires Agreed(lines, s, {Plain(x)}, io, vars, P) && Get(s, Plain(x)) == Q(v, 1) && |lines| == 3 && Defines(lines[2], Plain(o))
    requires Plain(x) in io && io[Plain(x)] == 0 && Plain(o) in io && io[Plain(o)] == 1 && io.Keys !! vars.Keys
    requires (forall v :: v in io ==> io[v] < 2) && (forall v :: v in vars ==> vars[v] < 7)
    requires IsShuffle(index, 7) && |f1| == 7 && |f2| == 49 && reps >= 1 && Get(Run(lines, s, P), Plain(o)) == Flag(flag)
    ensures var rowss, setup := ProgramRowss(Program(lines), io, vars), Compiled(lines, io, vars, 7, index, 1, P);
            && ValidSetup(setup) && EntriesFit(Gamma0File(rowss), setup.cons, 2, 0)
            && (AlwaysAccepted(setup, reps, Gamma0File(rowss), [v, out], f1, f2) ==> Cong(out, if flag then 1 else 0, P))
  {
    FivePrime();
    IntegerImage(v, P);
    AcceptedOutput(lines, s, {Plain(x)}, io, vars, [v, out], index, 1, reps, f1, f2, P, 2, Plain(o));
    FlagField(flag);
  }

  lemma LessIndices(x: string, a: string, t: string, o: string, io: Dict, vars: Dict)
    requires Different(x, a, t, o) && io == Numbered(LessIo(x, o)) && vars == Numbered(LessVars(a, t))
    ensures Plain(x) in io && io[Plain(x)] == 0 && Plain(o) in io && io[Plain(o)] == 1 && io.Keys !! vars.Keys
    ensures (forall v :: v in io ==> io[v] < 2) && (forall v :: v in vars ==> vars[v] < 7)
  {
    LessNumbered(x, a, t, o);
    var ioNames, varNames := LessIo(x, o), LessVars(a, t);
    assert ioNames[0] in io && ioNames[1] in io;
    assert Plain(x) !in varNames && Plain(o) !in varNames;
    ListsApart(ioNames, io, varNames, vars);
  }

  lemma ListsApart(a: seq<Id>, d: Dict, b: seq<Id>, e: Dict)
    requires Lists(a, d) && Lists(b, e) && forall i :: 0 <= i < |a| ==> a[i] !in b
    ensures d.Keys !! e.Keys
  {
    assert forall v :: v in d ==> a[d[v]] == v;
  }
}
