/** A compiled program as the gamma files see it: all its basic constraints, and the rows they parse into. Gate
    lines over declared names always parse; only polynomial lines can be rejected. */
module ProgramRows {
  import opened Arith
  import opened Poly
  import opened Expand
  import opened Gates
  import opened MoreGates
  import opened FloatGate
  import opened Worksheet
  import opened Compile
  import opened CompileProof
  import opened CompileProgram
  import opened Layout
  import opened Aggregate
  import opened Gamma
  import opened Degree
  import opened GateExpansion

  predicate WellSized(lines: seq<Line>) {
    forall i :: 0 <= i < |lines| ==> lines[i].LessLine? ==> 1 <= lines[i].n
  }

  /** All basic constraints of a program, in order. */
  function Program(lines: seq<Line>): seq<Constraint>
    requires WellSized(lines)
  {
    if lines == [] then [] else Constraints(lines[0]) + Program(lines[1..])
  }

  /** A program is satisfied exactly when all its lines are. */
  lemma {:induction false} ProgramSat(lines: seq<Line>, env: Env, p: int)
    requires p > 0 && WellSized(lines)
    ensures Sat(Program(lines), env, p) <==> forall i :: 0 <= i < |lines| ==> Sat(Constraints(lines[i]), env, p)
    decreases |lines|
  {
    if lines != [] {
      var rest := lines[1..];
      ProgramSat(rest, env, p);
      SatAppend(Constraints(lines[0]), Program(rest), env, p);
      assert forall i :: 1 <= i < |lines| ==> lines[i] == rest[i - 1];
    }
  }

  // ----- rows -----

  /** Products are over variables; inputs and outputs stand alone. */
  ghost predicate Declared(c: Constraint, io: Dict, vars: Dict) {
    PolyVars(c.a) + PolyVars(c.b) <= vars.Keys && PolyVars(c.c) <= vars.Keys + io.Keys
  }

  /** The compiler accepts the constraint, and expansion keeps its meaning. */
  predicate Parses(c: Constraint, io: Dict, vars: Dict) {
    Expandable(c) && ParseRows(Expanded(c), io, vars).Some?
  }

  /** What a line has to meet: a polynomial line must parse, a gate's names must be declared. */
  ghost predicate Accepted(line: Line, io: Dict, vars: Dict)
    requires line.LessLine? ==> 1 <= line.n
  {
    forall i :: 0 <= i < |Constraints(line)| ==>
      if line.PolyLine? then Parses(Constraints(line)[i], io, vars) else Declared(Constraints(line)[i], io, vars)
  }

  /** Every constraint of a gate over declared names parses, and keeps its meaning. */
  lemma GateParses(line: Line, io: Dict, vars: Dict, i: nat)
    requires line.LessLine? ==> 1 <= line.n
    requires !line.PolyLine? && Simple(line.x) && (!line.SplitLine? ==> Simple(line.y))
    requires Accepted(line, io, vars) && i < |Constraints(line)|
    ensures Parses(Constraints(line)[i], io, vars)
  {
    match line {
      case NotEqualLine(x, y, target, viaM2) => NotEqualExpandable(x, y, target, viaM2);
      case LessLine(x, y, target, n) => LessIntExpandable(x, y, target, n);
      case LessFloatLine(x, y, target, na, nb) => LessFloatExpandable(x, y, target, na, nb);
      case SplitLine(x, bits, signed) => SplitExpandable(x, bits, signed);
    }
    assert Ready(Constraints(line)[i]) && Declared(Constraints(line)[i], io, vars);
    ConstraintParses(Constraints(line)[i], io, vars);
  }

  function RowsFor(c: Constraint, io: Dict, vars: Dict): seq<Row> {
    var r := ParseRows(Expanded(c), io, vars);
    if r.Some? then r.value else []
  }

  function ProgramRowss(cons: seq<Constraint>, io: Dict, vars: Dict): (r: seq<seq<Row>>)
    ensures |r| == |cons| && forall i :: 0 <= i < |cons| ==> r[i] == RowsFor(cons[i], io, vars)
  {
    seq(|cons|, i requires 0 <= i < |cons| => RowsFor(cons[i], io, vars))
  }

  ghost predicate AllParse(cons: seq<Constraint>, io: Dict, vars: Dict) {
    forall c :: 0 <= c < |cons| ==> Parses(cons[c], io, vars)
  }

  lemma LineParses(line: Line, s: Store, p: int, io: Dict, vars: Dict)
    requires p >= 2 && (line.LessLine? ==> 1 <= line.n) && LineOk(line, s, p) && Accepted(line, io, vars)
    ensures AllParse(Constraints(line), io, vars)
  {
    forall c | 0 <= c < |Constraints(line)| ensures Parses(Constraints(line)[c], io, vars) {
      if !line.PolyLine? { GateParses(line, io, vars, c); }
    }
  }

  lemma ParseAppend(a: seq<Constraint>, b: seq<Constraint>, io: Dict, vars: Dict)
    requires AllParse(a, io, vars) && AllParse(b, io, vars)
    ensures AllParse(a + b, io, vars)
  {
  }

  lemma {:induction false} ProgramParses(lines: seq<Line>, s: Store, p: int, io: Dict, vars: Dict)
    requires p >= 2 && WellSized(lines) && InRangeRun(lines, s, p)
    requires forall i :: 0 <= i < |lines| ==> Accepted(lines[i], io, vars)
    ensures AllParse(Program(lines), io, vars)
    decreases |lines|
  {
    if lines != [] {
      ProgramParses(lines[1..], Exec(lines[0], s, p), p, io, vars);
      LineParses(lines[0], s, p, io, vars);
      ParseAppend(Constraints(lines[0]), Program(lines[1..]), io, vars);
    }
  }

  /** The gamma files exist, for every in-range program the compiler accepts. */
  lemma ProgramParsed(lines: seq<Line>, s: Store, p: int, io: Dict, vars: Dict)
    requires p >= 2 && WellSized(lines) && InRangeRun(lines, s, p)
    requires forall i :: 0 <= i < |lines| ==> Accepted(lines[i], io, vars)
    ensures Parsed(Program(lines), ProgramRowss(Program(lines), io, vars), io, vars)
  {
    ProgramParses(lines, s, p, io, vars);
  }
}
