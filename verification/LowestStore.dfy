/** Every value the worksheet stores is in lowest terms, so the inequality instruction, which compares numerators
    and denominators (`mpq_equal` in `libv/computation_p.cpp`), compares values. */
module LowestStore {
  import opened Arith
  import opened Bits
  import opened Poly
  import opened Rational
  import opened LowestTerms
  import opened MoreGates
  import opened Worksheet
  import opened Compile
  import opened CompileProof
  import opened CompileProgram

  ghost predicate AllLowest(s: Store) {
    forall v :: v in s ==> Lowest(s[v])
  }

  lemma WholeLowest(n: int)
    ensures Lowest(Q(n, 1))
  {
    forall k: nat | 2 <= k ensures 1 % k != 0 { SmallMod(1, k); }
  }

  lemma UnitFractionLowest(d: int)
    requires 0 < d
    ensures Lowest(Q(1, d))
  {
    forall k: nat | 2 <= k ensures 1 % k != 0 { SmallMod(1, k); }
  }

  lemma NegLowest(q: Rat)
    requires Lowest(q)
    ensures Lowest(Neg(q))
  {
    forall k: nat | 2 <= k && (-q.num) % k == 0 ensures q.den % k != 0 {
      AbsDivides(q.num, k);
      AbsDivides(-q.num, k);
    }
  }

  lemma ArithmeticLowest(a: Rat, b: Rat)
    ensures Lowest(Add(a, b)) && Lowest(Sub(a, b)) && Lowest(Mul(a, b)) && (b.num != 0 ==> Lowest(Div(a, b)))
  {
    MulMono(1, a.den, 1, b.den);
    CanonLowest(a.num * b.den + b.num * a.den, a.den * b.den);
    CanonLowest(a.num * b.den - b.num * a.den, a.den * b.den);
    CanonLowest(a.num * b.num, a.den * b.den);
    if 0 < b.num {
      MulMono(1, a.den, 1, b.num);
      CanonLowest(a.num * b.den, a.den * b.num);
    } else if b.num < 0 {
      MulMono(1, a.den, 1, -b.num);
      CanonLowest(-(a.num * b.den), a.den * -b.num);
    }
  }

  // ----- expressions -----

  lemma {:induction false} FactorLowest(f: Factor, s: Store)
    requires AllLowest(s)
    ensures Lowest(FactorQ(f, s))
    decreases f, 2
  {
    match f
    case Const(c) => WholeLowest(c);
    case Var(v) => WholeLowest(0);
    case Paren(p) =>
      WholeLowest(0);
      SumLowest(ZERO, false, p.terms, s);
  }

  lemma {:induction false} ProductLowest(acc: Rat, started: bool, fs: seq<Factor>, s: Store)
    requires AllLowest(s) && Lowest(acc)
    ensures Lowest(ProductQ(acc, started, fs, s))
    decreases fs, 0
  {
    if fs != [] {
      FactorLowest(fs[0], s);
      ArithmeticLowest(acc, FactorQ(fs[0], s));
      ProductLowest(if started then Mul(acc, FactorQ(fs[0], s)) else FactorQ(fs[0], s), true, fs[1..], s);
    }
  }

  lemma {:induction false} SumLowest(acc: Rat, started: bool, ts: seq<Term>, s: Store)
    requires AllLowest(s) && Lowest(acc)
    ensures Lowest(SumQ(acc, started, ts, s))
    decreases ts, 0
  {
    if ts != [] {
      var t := ts[0];
      WholeLowest(0);
      ProductLowest(ZERO, false, t.factors, s);
      NegLowest(ProductQ(ZERO, false, t.factors, s));
      ArithmeticLowest(acc, TermQ(t, s));
      SumLowest(if started then Add(acc, TermQ(t, s)) else TermQ(t, s), true, ts[1..], s);
    }
  }

  // ----- instructions -----

  lemma FlagLowest(b: bool)
    ensures Lowest(Flag(b))
  {
    WholeLowest(0);
    WholeLowest(1);
  }

  lemma SelectorLowest(s: Store, target: string, which: int)
    requires AllLowest(s)
    ensures AllLowest(WriteSelector(s, target, which))
  {
    FlagLowest(true);
    FlagLowest(false);
  }

  lemma {:induction false} NBitsLowest(s: Store, target: string, k: nat, v: nat)
    requires AllLowest(s)
    ensures AllLowest(WriteNBits(s, target, k, v))
    decreases k
  {
    if k > 0 {
      NBitsLowest(s, target, k - 1, v);
      WholeLowest((Shift(v, k - 1) % 2) * Pow(2, k - 1));
    }
  }

  lemma {:induction false} DBitsLowest(s: Store, target: string, k: nat, v: nat)
    requires AllLowest(s)
    ensures AllLowest(WriteDBits(s, target, k, v))
    decreases k
  {
    if k > 0 {
      DBitsLowest(s, target, k - 1, v);
      WholeLowest(Shift(v, k - 1) % 2);
    }
  }

  lemma {:induction false} SplitLowest(s: Store, bits: seq<Id>, k: nat, v: int, signed: bool)
    requires AllLowest(s) && k <= |bits| && (v < 0 ==> 0 <= v + Pow(2, |bits|))
    ensures AllLowest(WriteSplit(s, bits, k, v, signed))
    decreases k
  {
    if k > 0 {
      SplitLowest(s, bits, k - 1, v, signed);
      WholeLowest(SplitBit(v, k - 1, |bits|, signed));
    }
  }

  lemma FractionLowest(s: Store, target: string, which: int, num: int, den: int)
    requires AllLowest(s) && 0 < den
    ensures AllLowest(WriteFraction(s, target, which, num, den))
  {
    SelectorLowest(s, target, which);
    WholeLowest(num);
    UnitFractionLowest(den);
    ArithmeticLowest(Q(num, 1), Q(1, den));
  }

  lemma PolyLowest(q: Poly, k: int, target: string, s: Store)
    requires AllLowest(s) && k != 0
    ensures AllLowest(ExecPoly(q, k, target, s))
  {
    WholeLowest(0);
    SumLowest(ZERO, false, q.terms, s);
    ArithmeticLowest(PolyQ(q, s), Q(k, 1));
  }

  lemma NotEqualLowest(x: Factor, y: Factor, target: string, viaM2: bool, s: Store, p: int)
    requires AllLowest(s) && p >= 2
    ensures AllLowest(ExecNotEqual(x, y, target, viaM2, s, p))
  {
    var d := Sub(FactorQ(x, s), FactorQ(y, s));
    WholeLowest(0);
    WholeLowest(Inv(d.num, p) * d.den);
    FlagLowest(true);
    FlagLowest(false);
  }

  /** Every instruction keeps the store in lowest terms. */
  lemma ExecLowest(line: Line, s: Store, p: int)
    requires AllLowest(s) && p >= 2 && Runs(line, s)
    ensures AllLowest(Exec(line, s, p))
  {
    match line
    case PolyLine(a, b, c, k, target) => PolyLowest(WorkPoly(a, b, c), k, target, s);
    case NotEqualLine(x, y, target, viaM2) => NotEqualLowest(x, y, target, viaM2, s, p);
    case LessLine(x, y, target, n) =>
      var (u, v) := Operands(x, y, s);
      SelectorLowest(s, target, Compare(u, v));
      NBitsLowest(WriteSelector(s, target, Compare(u, v)), target, n - 1, Pow(2, n - 1) + LowDifference(x, y, s).num);
    case LessFloatLine(x, y, target, na, nb) =>
      var (u, v) := Operands(x, y, s);
      var num, den := FloatNumerator(x, y, s), FloatDenominator(x, y, s);
      var s1 := WriteFraction(s, target, Compare(u, v), num, den);
      FractionLowest(s, target, Compare(u, v), num, den);
      NBitsLowest(s1, target, na, Pow(2, na) + num);
      DBitsLowest(WriteNBits(s1, target, na, Pow(2, na) + num), target, nb + 1, den);
    case SplitLine(x, bits, signed) => SplitLowest(s, bits, |bits|, FactorQ(x, s).num, signed);
  }

  /** And so does every run. */
  lemma {:induction false} RunLowest(lines: seq<Line>, s: Store, p: int)
    requires AllLowest(s) && p >= 2 && InRangeRun(lines, s, p)
    ensures AllLowest(Run(lines, s, p))
    decreases |lines|
  {
    if lines != [] {
      ExecLowest(lines[0], s, p);
      RunLowest(lines[1..], Exec(lines[0], s, p), p);
    }
  }

  /** On such a store `!=` reports whether the values of its operands differ. */
  lemma NotEqualOutcome(x: Factor, y: Factor, target: string, viaM2: bool, s: Store, p: int)
    requires AllLowest(s) && p >= 2
    ensures var u, v := FactorQ(x, s), FactorQ(y, s);
            Get(ExecNotEqual(x, y, target, viaM2, s, p), Plain(target)) == Flag(u.num * v.den != v.num * u.den)
  {
    FactorLowest(x, s);
    FactorLowest(y, s);
    LowestUnique(FactorQ(x, s), FactorQ(y, s));
  }
}
