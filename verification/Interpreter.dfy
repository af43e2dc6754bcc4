/** The prover's worksheet interpreter as it runs (`voc`, `compute_less_than_int`, `compute_less_than_float`,
    `compute_split_int_le` and `compute_from_pws` in `libv/computation_p.cpp`; `convert_to_z` and
    `verify_conversion_to_z` in `common/utility.cpp`): operands are references, constants live in shared
    temporaries, and variables are overwritten one at a time. */
module Interpreter {
  import opened Arith
  import Bits
  import opened Poly
  import opened Rational
  import opened Gates
  import opened MoreGates
  import opened Expand
  import opened Worksheet
  import opened Compile
  import opened CompileProof
  import opened CompileFloat
  import opened CompileProgram

  /** What `voc` returns: a variable, or the temporary a constant was put into. */
  datatype Ref = Slot(id: Id) | TempQ | TempQ2

  // ----- bits written before or after another variable -----

  lemma {:induction false} NBitsCommute(s: Store, target: string, k: nat, v: nat, id: Id, q: Rat)
    requires forall i: nat :: id != Aux(target, NBit(i))
    ensures WriteNBits(s[id := q], target, k, v) == WriteNBits(s, target, k, v)[id := q]
    decreases k
  {
    if k > 0 { NBitsCommute(s, target, k - 1, v, id, q); }
  }

  lemma {:induction false} DBitsCommute(s: Store, target: string, k: nat, v: nat, id: Id, q: Rat)
    requires forall i: nat :: id != Aux(target, DBit(i))
    ensures WriteDBits(s[id := q], target, k, v) == WriteDBits(s, target, k, v)[id := q]
    decreases k
  {
    if k > 0 { DBitsCommute(s, target, k - 1, v, id, q); }
  }

  /** Denominator and quotient may be completed after the bits are written. */
  lemma FractionLast(s: Store, target: string, na: nat, v: nat, k: nat, den: nat, d: Rat, nd: Rat)
    ensures WriteDBits(WriteNBits(s[Aux(target, Den) := d][Aux(target, NumDen) := nd], target, na, v), target, k, den)
         == WriteDBits(WriteNBits(s, target, na, v), target, k, den)[Aux(target, Den) := d][Aux(target, NumDen) := nd]
  {
    var s1 := s[Aux(target, Den) := d];
    NBitsCommute(s, target, na, v, Aux(target, Den), d);
    NBitsCommute(s1, target, na, v, Aux(target, NumDen), nd);
    var t := WriteNBits(s, target, na, v);
    DBitsCommute(t, target, k, den, Aux(target, Den), d);
    DBitsCommute(t[Aux(target, Den) := d], target, k, den, Aux(target, NumDen), nd);
  }

  /** Later writes to other variables can be moved in front, later writes to the same one replace it. */
  lemma FractionOrder(s: Store, target: string, which: int, num: int, den: nat, d: Rat, nd: Rat)
    requires 0 < den && d == Q(1, den) && nd == Mul(Q(num, 1), d)
    ensures Half(s, target, which, num, den)[Aux(target, Den) := d][Aux(target, NumDen) := nd]
         == WriteFraction(s, target, which, num, den)
  {
    var m := s[Aux(target, Mlt) := Flag(which == -1)][Aux(target, Meq) := Flag(which == 0)]
              [Aux(target, Mgt) := Flag(which == 1)];
    Reorder(m, Plain(target), Flag(which == -1), Aux(target, Num), Q(num, 1), Aux(target, Den), Q(den, 1), d);
  }

  lemma Reorder(m: Store, y: Id, f: Rat, n: Id, num: Rat, e: Id, before: Rat, after: Rat)
    requires y != n && y != e && n != e
    ensures m[n := num][e := before][y := f][e := after] == m[y := f][n := num][e := after]
  {
  }

  /** Selector, numerator, denominator and result, in the order the code writes them. */
  function Half(s: Store, target: string, which: int, num: int, den: nat): Store
    requires 0 < den
  {
    var n: Rat, d: Rat := Q(num, 1), Q(den, 1);
    s[Aux(target, Mlt) := Flag(which == -1)][Aux(target, Meq) := Flag(which == 0)][Aux(target, Mgt) := Flag(which == 1)]
     [Aux(target, Num) := n][Aux(target, Den) := d][Plain(target) := Flag(which == -1)]
  }

  /** The second bit loop of `compute_less_than_float`. */
  method FillDBits(s: Store, target: string, k: nat, v: nat) returns (r: Store)
    ensures r == WriteDBits(s, target, k, v)
  {
    var temp := v;
    r := s;
    for i := 0 to k
      invariant temp == Bits.Shift(v, i) && r == WriteDBits(s, target, i, v)
    {
      r := r[Aux(target, DBit(i)) := Q(temp % 2, 1)];
      temp := temp / 2;
    }
  }

  /** The instructions of a line can be carried out: operands are constants or variables the line does not
      assign, and parentheses nest no deeper than the stack of temporaries. */
  ghost predicate Executable(line: Line, s: Store) {
    && Runs(line, s) && Writes(line) !! Reads(line)
    && match line
       case PolyLine(a, b, c, k, target) =>
         Nonempty(WorkPoly(a, b, c).terms) && Fits(WorkPoly(a, b, c).terms, MAX_DEPTH)
       case SplitLine(x, bits, signed) => Simple(x)
       case _ => Simple(line.x) && Simple(line.y)
  }

  class Machine {
    var store: Store
    var tempQ: Rat
    var tempQ2: Rat
    const prime: int

    constructor (inputs: Store, prime: int)
      ensures store == inputs && this.prime == prime
    {
      store, tempQ, tempQ2, this.prime := inputs, ZERO, ZERO, prime;
    }

    function Read(r: Ref): Rat
      reads this
    {
      match r
      case Slot(v) => Get(store, v)
      case TempQ => tempQ
      case TempQ2 => tempQ2
    }

    /** `voc`: a variable is returned as it is, a constant overwrites the temporary. */
    method Voc(f: Factor, temp: Ref) returns (r: Ref)
      requires Simple(f) && !temp.Slot?
      modifies this`tempQ, this`tempQ2
      ensures r == if f.Var? then Slot(f.v) else temp
      ensures Read(r) == FactorQ(f, store)
      ensures forall t: Ref :: t != r ==> Read(t) == old(Read(t))
    {
      match f
      case Var(v) => r := Slot(v);
      case Const(c) =>
        if temp == TempQ { tempQ := Q(c, 1); } else { tempQ2 := Q(c, 1); }
        r := temp;
    }

    /** The three-way branch of both comparisons. */
    method SetSelector(target: string, compare: int)
      requires -1 <= compare <= 1
      modifies this`store
      ensures store == old(store)[Aux(target, Mlt) := Flag(compare == -1)][Aux(target, Meq) := Flag(compare == 0)]
                                 [Aux(target, Mgt) := Flag(compare == 1)]
    {
      if compare < 0 {
        store := store[Aux(target, Mlt) := Q(1, 1)];
        store := store[Aux(target, Meq) := Q(0, 1)];
        store := store[Aux(target, Mgt) := Q(0, 1)];
      } else if compare == 0 {
        store := store[Aux(target, Mlt) := Q(0, 1)];
        store := store[Aux(target, Meq) := Q(1, 1)];
        store := store[Aux(target, Mgt) := Q(0, 1)];
      } else {
        store := store[Aux(target, Mlt) := Q(0, 1)];
        store := store[Aux(target, Meq) := Q(0, 1)];
        store := store[Aux(target, Mgt) := Q(1, 1)];
      }
    }

    /** `compute_less_than_int`. Both operands go through the same temporary. */
    method LessThanInt(x: Factor, y: Factor, target: string, n: nat)
      requires Executable(LessLine(x, y, target, n), store)
      modifies this
      ensures store == ExecLess(x, y, target, n, old(store))
      ensures !(x.Const? && y.Const?) ==> Ordered(store, target, FactorQ(x, old(store)), FactorQ(y, old(store)))
    {
      if !(x.Const? && y.Const?) { LessOutcome(x, y, target, n, store); }
      StoreInt(x, y, target, n);
    }

    method StoreInt(x: Factor, y: Factor, target: string, n: nat)
      requires Executable(LessLine(x, y, target, n), store)
      modifies this
      ensures store == ExecLess(x, y, target, n, old(store))
    {
      ghost var was := store;
      var x1 := Voc(x, TempQ);
      var x2 := Voc(y, TempQ);
      assert (Read(x1), Read(x2)) == Operands(x, y, was);
      var compare := Compare(Read(x1), Read(x2));
      SetSelector(target, compare);
      assert (Read(x1), Read(x2)) == Operands(x, y, was);
      var d := if compare <= 0 then Sub(Read(x1), Read(x2)) else Sub(Read(x2), Read(x1));
      assert d == LowDifference(x, y, was);
      FinishInt(target, compare, d.num, n, was);
    }

    /** The rest of `compute_less_than_int`: result and bits. */
    method FinishInt(target: string, compare: int, num: int, n: nat, ghost was: Store)
      requires 1 <= n && 0 <= Pow(2, n - 1) + num
      requires store == was[Aux(target, Mlt) := Flag(compare == -1)][Aux(target, Meq) := Flag(compare == 0)]
                           [Aux(target, Mgt) := Flag(compare == 1)]
      modifies this`store
      ensures store == WriteNBits(WriteSelector(was, target, compare), target, n - 1, Pow(2, n - 1) + num)
    {
      store := store[Plain(target) := Get(store, Aux(target, Mlt))];
      assert store == WriteSelector(was, target, compare);
      store := FillNBits(store, target, n - 1, Pow(2, n - 1) + num);
    }

    /** Smaller operand minus larger, or -1 / 1 for equal operands; the difference goes through the temporary
        that may hold an operand. */
    method Difference(x1: Ref, x2: Ref, compare: int) returns (num: int, den: nat)
      modifies this`tempQ
      ensures compare < 0 ==> num == old(Sub(Read(x1), Read(x2))).num && den == old(Sub(Read(x1), Read(x2))).den
      ensures compare == 0 ==> num == -1 && den == 1
      ensures compare > 0 ==> num == old(Sub(Read(x2), Read(x1))).num && den == old(Sub(Read(x2), Read(x1))).den
      ensures 0 < den
    {
      if compare == 0 { return -1, 1; }
      tempQ := if compare < 0 then Sub(Read(x1), Read(x2)) else Sub(Read(x2), Read(x1));
      num, den := tempQ.num, tempQ.den;
    }

    /** The rest of `compute_less_than_float`: numerator, denominator, result, bits; the denominator is inverted
        last. */
    method FillFraction(target: string, num: int, den: nat, na: nat, nb: nat, compare: int, ghost was: Store)
      requires 0 < den && 0 <= Pow(2, na) + num
      requires store == was[Aux(target, Mlt) := Flag(compare == -1)][Aux(target, Meq) := Flag(compare == 0)]
                           [Aux(target, Mgt) := Flag(compare == 1)]
      modifies this`store
      ensures store == WriteDBits(WriteNBits(WriteFraction(was, target, compare, num, den), target, na, Pow(2, na) + num),
                                  target, nb + 1, den)
    {
      store := store[Aux(target, Num) := Q(num, 1)];
      store := store[Aux(target, Den) := Q(den, 1)];
      store := store[Plain(target) := Get(store, Aux(target, Mlt))];
      ghost var half := Half(was, target, compare, num, den);
      store := FillNBits(store, target, na, Pow(2, na) + num);
      store := FillDBits(store, target, nb + 1, den);
      var d: Rat := Q(1, den);
      var nd: Rat := Mul(Q(num, 1), d);
      store := store[Aux(target, Den) := d];
      store := store[Aux(target, NumDen) := nd];
      FractionLast(half, target, na, Pow(2, na) + num, nb + 1, den, d, nd);
      FractionOrder(was, target, compare, num, den, d, nd);
    }

    /** `compute_less_than_float`. */
    method LessThanFloat(x: Factor, y: Factor, target: string, na: nat, nb: nat)
      requires Executable(LessFloatLine(x, y, target, na, nb), store)
      modifies this
      ensures store == ExecLessFloat(x, y, target, na, nb, old(store))
      ensures !(x.Const? && y.Const?) ==> Ordered(store, target, FactorQ(x, old(store)), FactorQ(y, old(store)))
    {
      if !(x.Const? && y.Const?) { FloatTarget(x, y, target, na, nb, store); }
      StoreFloat(x, y, target, na, nb);
    }

    method StoreFloat(x: Factor, y: Factor, target: string, na: nat, nb: nat)
      requires Executable(LessFloatLine(x, y, target, na, nb), store)
      modifies this
      ensures store == ExecLessFloat(x, y, target, na, nb, old(store))
    {
      ghost var was := store;
      var x1 := Voc(x, TempQ);
      var x2 := Voc(y, TempQ);
      assert (Read(x1), Read(x2)) == Operands(x, y, was);
      var compare := Compare(Read(x1), Read(x2));
      SetSelector(target, compare);
      assert (Read(x1), Read(x2)) == Operands(x, y, was);
      var num, den := Difference(x1, x2, compare);
      assert num == FloatNumerator(x, y, was) && den == FloatDenominator(x, y, was);
      FillFraction(target, num, den, na, nb, compare, was);
    }

    /** `!=`, and the copy to an output where the result went to an intermediate. */
    method NotEquals(x: Factor, y: Factor, target: string, viaM2: bool)
      requires Executable(NotEqualLine(x, y, target, viaM2), store) && prime >= 2
      modifies this
      ensures store == ExecNotEqual(x, y, target, viaM2, old(store), prime)
    {
      var result := if viaM2 then Aux(target, M2) else Plain(target);
      var x1 := Voc(x, TempQ);
      var x2 := Voc(y, TempQ2);
      if Read(x1) == Read(x2) {
        store := store[Aux(target, M) := Q(0, 1)];
        store := store[result := Q(0, 1)];
      } else {
        tempQ := Sub(Read(x1), Read(x2));
        store := store[Aux(target, M) := Q(Inv(tempQ.num, prime) * tempQ.den, 1)];
        store := store[result := Q(1, 1)];
      }
      if viaM2 { store := store[Plain(target) := Get(store, Aux(target, M2))]; }
    }

    /** `P`, and `/` when the target has a coefficient. */
    method Polynomial(a: Poly, b: Poly, c: Poly, k: int, target: string)
      requires Executable(PolyLine(a, b, c, k, target), store)
      modifies this
      ensures store == ExecPoly(WorkPoly(a, b, c), k, target, old(store))
    {
      var q := WorkPoly(a, b, c);
      var tokens := PrintTerms(q.terms) + [RParen];
      assert tokens == PrintTerms(q.terms) + [RParen] + [];
      ComputePrinted(q, [], store);
      var r := ComputePoly(tokens, 0, store);
      store := store[Plain(target) := r.value.0];
      if k != 1 {
        var x2 := Voc(Const(k), TempQ2);
        store := store[Plain(target) := Div(Get(store, Plain(target)), Read(x2))];
      }
    }

    /** `compute_split_int_le`. */
    method SplitBits(x: Factor, bits: seq<Id>, signed: bool)
      requires Executable(SplitLine(x, bits, signed), store)
      modifies this
      ensures store == Exec(SplitLine(x, bits, signed), old(store), 2)
    {
      var in_ := Voc(x, TempQ);
      store := FillSplit(store, bits, Read(in_).num, signed);
    }

    /** The instructions of one line. */
    method Execute(line: Line)
      requires Executable(line, store) && prime >= 2
      modifies this
      ensures store == Exec(line, old(store), prime)
    {
      match line
      case PolyLine(a, b, c, k, target) => Polynomial(a, b, c, k, target);
      case NotEqualLine(x, y, target, viaM2) => NotEquals(x, y, target, viaM2);
      case LessLine(x, y, target, n) => LessThanInt(x, y, target, n);
      case LessFloatLine(x, y, target, na, nb) => LessThanFloat(x, y, target, na, nb);
      case SplitLine(x, bits, signed) => SplitBits(x, bits, signed);
    }

    /** `compute_from_pws`, up to the conversion: what the worksheet leaves behind satisfies every constraint
        of every line. */
    method ComputeFromPws(lines: seq<Line>)
      requires IsPrime(prime) && Units(store, prime) && SingleAssignment(lines) && InRangeRun(lines, store, prime)
      requires forall i :: 0 <= i < |lines| && lines[i].PolyLine? ==>
                 Fits(WorkPoly(lines[i].a, lines[i].b, lines[i].c).terms, MAX_DEPTH)
      modifies this
      ensures store == Run(lines, old(store), prime) && Units(store, prime)
      ensures forall i :: 0 <= i < |lines| ==>
                (lines[i].LessLine? ==> 1 <= lines[i].n) && Sat(Constraints(lines[i]), FieldEnv(store, prime), prime)
    {
      ghost var was := store;
      ProgramComplete(lines, store, prime);
      var i := 0;
      while i < |lines|
        invariant 0 <= i <= |lines|
        invariant InRangeRun(lines[i..], store, prime) && Run(lines[i..], store, prime) == Run(lines, was, prime)
      {
        assert lines[i..][0] == lines[i] && lines[i..][1..] == lines[i + 1..];
        OkExecutable(lines[i], store, prime);
        Execute(lines[i]);
        i := i + 1;
      }
    }
  }

  lemma OkExecutable(line: Line, s: Store, p: int)
    requires p >= 2 && LineOk(line, s, p) && Runs(line, s)
    requires line.PolyLine? ==> Fits(WorkPoly(line.a, line.b, line.c).terms, MAX_DEPTH)
    ensures Executable(line, s)
  {
    if line.PolyLine? { WorkPolyNonempty(line.a, line.b, line.c); }
  }

  // ----- conversion to the field -----

  /** `convert_to_z`: the field elements that, times the denominators, are the numerators. */
  method ConvertToZ(q: seq<Rat>, prime: int) returns (z: array<int>)
    requires IsPrime(prime) && forall i :: 0 <= i < |q| ==> Unit(q[i], prime)
    ensures z.Length == |q|
    ensures forall i :: 0 <= i < |q| ==> 0 <= z[i] < prime && Cong(z[i] * q[i].den, q[i].num, prime)
    ensures forall i :: 0 <= i < |q| ==> z[i] == ToField(q[i], prime)
  {
    z := new int[|q|];
    for k := 0 to |q|
      invariant forall i :: 0 <= i < k ==>
        0 <= z[i] < prime && Cong(z[i] * q[i].den, q[i].num, prime) && z[i] == ToField(q[i], prime)
    {
      z[k] := (Inv(q[k].den, prime) * q[k].num) % prime;
      FieldTimesDen(q[k], prime);
    }
  }

  /** `verify_conversion_to_z` accepts the conversion and nothing else in the field. */
  method VerifyConversionToZ(z: seq<int>, q: seq<Rat>, prime: int) returns (ok: bool)
    requires IsPrime(prime) && |z| == |q| && forall i :: 0 <= i < |q| ==> Unit(q[i], prime)
    ensures ok <==> forall i :: 0 <= i < |q| ==> Cong(z[i], ToField(q[i], prime), prime)
  {
    for k := 0 to |q|
      invariant forall i :: 0 <= i < k ==> Cong(z[i], ToField(q[i], prime), prime)
    {
      var temp := z[k] * q[k].den;
      temp := temp - q[k].num;
      temp := temp % prime;
      ConversionTest(z[k], q[k], prime);
      if temp != 0 { return false; }
    }
    return true;
  }

  lemma ConversionTest(z: int, q: Rat, p: int)
    requires IsPrime(p) && Unit(q, p)
    ensures (z * q.den - q.num) % p == 0 <==> Cong(z, ToField(q, p), p)
  {
    FieldTimesDen(q, p);
    if (z * q.den - q.num) % p == 0 {
      CongAdd(z * q.den - q.num, 0, q.num, q.num, p);
      SmallMod(0, p);
      FieldUnique(q, z, p);
    }
    if Cong(z, ToField(q, p), p) {
      CongMul(z, ToField(q, p), q.den, q.den, p);
      CongAdd(z * q.den, q.num, -q.num, -q.num, p);
      SmallMod(0, p);
    }
  }
}
