/** Fixed-point comparison lines and bit splits: what their instructions store satisfies their constraints. */
module CompileFloat {
  import opened Arith
  import opened Bits
  import opened Poly
  import opened Rational
  import opened Gates
  import opened MoreGates
  import opened FloatGate
  import opened Worksheet
  import opened Compile
  import opened CompileProof

  lemma {:induction false} PowerBits(j: nat, i: nat)
    ensures Shift(Pow(2, j), i) % 2 == if i == j then 1 else 0
    ensures i <= j ==> Shift(Pow(2, j), i) == Pow(2, j - i)
    ensures i > j ==> Shift(Pow(2, j), i) == 0
    decreases i
  {
    if i > 0 {
      PowerBits(j, i - 1);
      if i - 1 < j { assert Pow(2, j - (i - 1)) == 2 * Pow(2, j - i); }
    }
    if i < j { assert Pow(2, j - i) == 2 * Pow(2, j - i - 1); }
  }

  /** Rationals that compare equal have the same field image. */
  lemma EqualImages(u: Rat, v: Rat, p: int)
    requires IsPrime(p) && Unit(u, p) && Unit(v, p) && Compare(u, v) == 0
    ensures Cong(ToField(u, p), ToField(v, p), p)
  {
    FieldTimesDen(u, p);
    FieldTimesDen(v, p);
    UnitProduct(u.den, v.den, p);
    CrossEqual(ToField(u, p), ToField(v, p), u.num, u.den, v.num, v.den, p);
  }

  lemma CrossEqual(f: int, g: int, m: int, c: int, n: int, d: int, p: int)
    requires IsPrime(p) && Cong(f * c, m, p) && Cong(g * d, n, p) && m * d == n * c && !Cong(c * d, 0, p)
    ensures Cong(f, g, p)
  {
    CrossTerms(f, g, c, d, m, n, p);
    CongAdd(m * d, m * d, n * c, m * d, p);
    assert (c * d) * (f - g) == (f - g) * (c * d);
    NoZeroDivisors(c * d, f - g, p);
    CongAdd(f - g, 0, g, g, p);
  }

  /** The image of the lower difference: up to sign, the difference of the images. */
  lemma LowDifferenceImage(u: Rat, v: Rat, p: int)
    requires IsPrime(p) && Unit(u, p) && Unit(v, p)
    ensures Cong(ToField(u, p) - ToField(v, p), ToField(Sub(u, v), p), p)
    ensures Cong(ToField(v, p) - ToField(u, p), ToField(Sub(v, u), p), p)
    ensures Unit(Sub(u, v), p) && Unit(Sub(v, u), p)
  {
    FieldArithmetic(u, v, p);
    FieldArithmetic(v, u, p);
  }

  /** Numerator, inverted denominator and quotient as stored. */
  lemma FractionImage(num: int, den: int, j: nat, nb: nat, p: int)
    requires IsPrime(p) && den == Pow(2, j) && j <= nb && Pow(2, nb) < p
    ensures Unit(Q(num, 1), p) && Unit(Q(1, den), p) && Unit(Mul(Q(num, 1), Q(1, den)), p)
    ensures Cong(ToField(Q(num, 1), p), num, p) && Cong(ToField(Q(1, den), p) * den, 1, p)
    ensures Cong(ToField(Mul(Q(num, 1), Q(1, den)), p), ToField(Q(num, 1), p) * ToField(Q(1, den), p), p)
    ensures Cong(ToField(Mul(Q(num, 1), Q(1, den)), p) * den, num, p)
  {
    IntegerImage(num, p);
    PowMonotone(2, j, nb);
    SmallMod(0, p); SmallMod(den, p);
    FieldTimesDen(Q(1, den), p);
    FieldArithmetic(Q(num, 1), Q(1, den), p);
    ProductOver(ToField(Mul(Q(num, 1), Q(1, den)), p), ToField(Q(num, 1), p), ToField(Q(1, den), p), num, den, p);
  }

  lemma ProductOver(m: int, n: int, d: int, num: int, den: int, p: int)
    requires p > 0 && Cong(m, n * d, p) && Cong(n, num, p) && Cong(d * den, 1, p)
    ensures Cong(m * den, num, p)
  {
    CongMul(m, n * d, den, den, p);
    MulAssoc(n, d, den);
    CongMul(n, num, d * den, 1, p);
  }

  lemma {:induction false} DBitsUnits(s: Store, target: string, k: nat, v: nat, p: int)
    requires IsPrime(p) && Units(s, p)
    ensures Units(WriteDBits(s, target, k, v), p)
    decreases k
  {
    if k > 0 {
      DBitsUnits(s, target, k - 1, v, p);
      IntegerImage(Shift(v, k - 1) % 2, p);
    }
  }

  /** Everything the fixed-point comparison stores, as found in the final store. */
  ghost predicate FloatStored(s: Store, target: string, which: int, na: nat, num: int, nb: nat, den: int)
    requires 0 < den && 0 <= Pow(2, na) + num
  {
    && Get(s, Aux(target, Mlt)) == Flag(which == -1) && Get(s, Aux(target, Meq)) == Flag(which == 0)
    && Get(s, Aux(target, Mgt)) == Flag(which == 1) && Get(s, Plain(target)) == Flag(which == -1)
    && Get(s, Aux(target, Num)) == Q(num, 1) && Get(s, Aux(target, Den)) == Q(1, den)
    && Get(s, Aux(target, NumDen)) == Mul(Q(num, 1), Q(1, den))
    && (forall i: nat :: i < na ==> Get(s, Aux(target, NBit(i))) == Q((Shift(Pow(2, na) + num, i) % 2) * Pow(2, i), 1))
    && forall i: nat :: i <= nb ==> Get(s, Aux(target, DBit(i))) == Q(Shift(den, i) % 2, 1)
  }

  lemma FloatEffect(s: Store, target: string, which: int, na: nat, num: int, nb: nat, den: int)
    requires 0 < den && 0 <= Pow(2, na) + num
    ensures FloatStored(WriteDBits(WriteNBits(WriteFraction(s, target, which, num, den), target, na, Pow(2, na) + num),
                                   target, nb + 1, den), target, which, na, num, nb, den)
  {
    var s1 := WriteFraction(s, target, which, num, den);
    FractionGet(s, target, which, num, den);
    var v := Pow(2, na) + num;
    BothBits(s1, target, na, v, nb, den, Aux(target, Mlt)); BothBits(s1, target, na, v, nb, den, Aux(target, Meq));
    BothBits(s1, target, na, v, nb, den, Aux(target, Mgt)); BothBits(s1, target, na, v, nb, den, Plain(target));
    BothBits(s1, target, na, v, nb, den, Aux(target, Num)); BothBits(s1, target, na, v, nb, den, Aux(target, Den));
    BothBits(s1, target, na, v, nb, den, Aux(target, NumDen));
    var s3 := WriteDBits(WriteNBits(s1, target, na, v), target, nb + 1, den);
    forall i: nat | i < na ensures Get(s3, Aux(target, NBit(i))) == Q((Shift(v, i) % 2) * Pow(2, i), 1) {
      BothBits(s1, target, na, v, nb, den, Aux(target, NBit(i)));
    }
    forall i: nat | i <= nb ensures Get(s3, Aux(target, DBit(i))) == Q(Shift(den, i) % 2, 1) {
      BothBits(s1, target, na, v, nb, den, Aux(target, DBit(i)));
    }
  }

  lemma FractionGet(s: Store, target: string, which: int, num: int, den: int)
    requires 0 < den
    ensures var s1 := WriteFraction(s, target, which, num, den);
            && Get(s1, Aux(target, Mlt)) == Flag(which == -1) && Get(s1, Aux(target, Meq)) == Flag(which == 0)
            && Get(s1, Aux(target, Mgt)) == Flag(which == 1) && Get(s1, Plain(target)) == Flag(which == -1)
            && Get(s1, Aux(target, Num)) == Q(num, 1) && Get(s1, Aux(target, Den)) == Q(1, den)
            && Get(s1, Aux(target, NumDen)) == Mul(Q(num, 1), Q(1, den))
  {
  }

  lemma BothBits(s: Store, target: string, na: nat, v: nat, nb: nat, den: nat, id: Id)
    ensures Get(WriteDBits(WriteNBits(s, target, na, v), target, nb + 1, den), id)
         == if id.Aux? && id.target == target && id.tag.DBit? && id.tag.i <= nb then Q(Shift(den, id.tag.i) % 2, 1)
            else if id.Aux? && id.target == target && id.tag.NBit? && id.tag.i < na
            then Q((Shift(v, id.tag.i) % 2) * Pow(2, id.tag.i), 1)
            else Get(s, id)
  {
    NBitsFrame(s, target, na, v, id);
    DBitsFrame(WriteNBits(s, target, na, v), target, nb + 1, den, id);
  }

  lemma FloatUnits(s: Store, target: string, which: int, na: nat, num: int, nb: nat, den: int, j: nat, p: int)
    requires IsPrime(p) && Units(s, p) && den == Pow(2, j) && j <= nb && Pow(2, nb) < p && 0 <= Pow(2, na) + num
    ensures Units(WriteDBits(WriteNBits(WriteFraction(s, target, which, num, den), target, na, Pow(2, na) + num),
                             target, nb + 1, den), p)
  {
    var s1 := WriteFraction(s, target, which, num, den);
    SelectorUnits(s, target, which, p);
    FractionImage(num, den, j, nb, p);
    NBitsUnits(s1, target, na, Pow(2, na) + num, p);
    DBitsUnits(WriteNBits(s1, target, na, Pow(2, na) + num), target, nb + 1, den, p);
  }

  /** Stored bits, seen in the field. */
  lemma FloatBits(s: Store, target: string, which: int, na: nat, num: int, nb: nat, den: int, j: nat, p: int)
    requires IsPrime(p) && den == Pow(2, j) && j <= nb && -1 <= which <= 1 && 0 <= Pow(2, na) + num
    requires FloatStored(s, target, which, na, num, nb, den)
    ensures Selects(target, FieldEnv(s, p), p, which)
    ensures NBitsAre(target, na, FieldEnv(s, p), Pow(2, na) + num, p)
    ensures forall i: nat :: i <= nb ==> Cong(FieldEnv(s, p)(Aux(target, DBit(i))), if i == j then 1 else 0, p)
  {
    StoredSelector(s, target, which, p);
    forall i: nat | i < na
      ensures Cong(FieldEnv(s, p)(Aux(target, NBit(i))), (Shift(Pow(2, na) + num, i) % 2) * Pow(2, i), p) {
      IntegerImage((Shift(Pow(2, na) + num, i) % 2) * Pow(2, i), p);
    }
    forall i: nat | i <= nb ensures Cong(FieldEnv(s, p)(Aux(target, DBit(i))), if i == j then 1 else 0, p) {
      PowerBits(j, i);
      IntegerImage(Shift(den, i) % 2, p);
    }
  }

  lemma FloatWitness(x: Factor, y: Factor, target: string, na: nat, nb: nat, s: Store, which: int, num: int, den: int,
                     j: nat, f: int, u: int, v: int, p: int)
    requires IsPrime(p) && den == Pow(2, j) && j <= nb && Pow(2, nb) < p && -1 <= which <= 1 && -Pow(2, na) <= num <= -1
    requires FloatStored(s, target, which, na, num, nb, den)
    requires EvalFactor(x, FieldEnv(s, p)) == u && EvalFactor(y, FieldEnv(s, p)) == v
    requires which != 0 ==> Cong(f * den, num, p)
    requires which == -1 ==> Cong(u - v, f, p)
    requires which == 0 ==> Cong(u, v, p)
    requires which == 1 ==> Cong(v - u, f, p)
    ensures Sat(LessFloat(x, y, target, na, nb), FieldEnv(s, p), p)
  {
    FloatBits(s, target, which, na, num, nb, den, j, p);
    var n, d, nd := FractionStored(s, target, which, na, num, nb, den, j, p);
    if which != 0 { QuotientSame(nd, f, num, den, j, nb, p); }
    assert (which == -1 ==> Cong(u - v, nd, p)) && (which == 1 ==> Cong(v - u, nd, p));
    LessFloatComplete(x, y, target, na, nb, FieldEnv(s, p), p, which, num, j);
  }

  /** Numerator, inverted denominator and quotient, as found in the field assignment. */
  lemma FractionStored(s: Store, target: string, which: int, na: nat, num: int, nb: nat, den: int, j: nat, p: int)
    returns (n: int, d: int, nd: int)
    requires IsPrime(p) && den == Pow(2, j) && j <= nb && Pow(2, nb) < p && 0 <= Pow(2, na) + num
    requires FloatStored(s, target, which, na, num, nb, den)
    ensures n == FieldEnv(s, p)(Aux(target, Num)) && d == FieldEnv(s, p)(Aux(target, Den))
    ensures nd == FieldEnv(s, p)(Aux(target, NumDen))
    ensures Cong(n, num, p) && Cong(d * den, 1, p) && Cong(nd, n * d, p) && Cong(nd * den, num, p)
    ensures FieldEnv(s, p)(Plain(target)) == FieldEnv(s, p)(Aux(target, Mlt))
  {
    FractionImage(num, den, j, nb, p);
    n, d, nd := FieldEnv(s, p)(Aux(target, Num)), FieldEnv(s, p)(Aux(target, Den)), FieldEnv(s, p)(Aux(target, NumDen));
  }

  lemma QuotientSame(q: int, f: int, num: int, den: int, j: nat, nb: nat, p: int)
    requires IsPrime(p) && den == Pow(2, j) && j <= nb && Pow(2, nb) < p && Cong(q * den, num, p) && Cong(f * den, num, p)
    ensures Cong(f, q, p)
  {
    PowMonotone(2, j, nb);
    SmallMod(0, p); SmallMod(den, p);
    SameCross(den, f, q, num, p);
  }

  /** What a fixed-point comparison of two operands computes, and its image in the field. */
  lemma OperandImages(x: Factor, y: Factor, s: Store, a: int, b: int, p: int)
    returns (which: int, num: int, den: int, f: int)
    requires IsPrime(p) && Units(s, p) && Simple(x) && Simple(y) && !(x.Const? && y.Const?)
    requires a == EvalFactor(x, FieldEnv(s, p)) && b == EvalFactor(y, FieldEnv(s, p))
    ensures which == Compare(FactorQ(x, s), FactorQ(y, s)) && -1 <= which <= 1
    ensures num == FloatNumerator(x, y, s) && den == FloatDenominator(x, y, s)
    ensures which != 0 ==> Cong(f * den, num, p)
    ensures which == -1 ==> Cong(a - b, f, p)
    ensures which == 0 ==> Cong(a, b, p)
    ensures which == 1 ==> Cong(b - a, f, p)
  {
    var u, v := FactorQ(x, s), FactorQ(y, s);
    which, num, den := Compare(u, v), FloatNumerator(x, y, s), FloatDenominator(x, y, s);
    SimpleField(x, s, p); SimpleField(y, s, p);
    LowDifferenceImage(u, v, p);
    CongAdd(a, ToField(u, p), b, ToField(v, p), p);
    CongAdd(b, ToField(v, p), a, ToField(u, p), p);
    var d := LowDifference(x, y, s);
    f := ToField(d, p);
    FieldTimesDen(d, p);
    if which == 0 { EqualImages(u, v, p); }
  }

  lemma FloatRun(x: Factor, y: Factor, target: string, na: nat, nb: nat, s: Store, s': Store, which: int, num: int,
                 den: int, j: nat, f: int, u: int, v: int, p: int)
    requires IsPrime(p) && Units(s, p) && Pow(2, nb) < p && -Pow(2, na) <= num <= -1
    requires EvalFactor(x, FieldEnv(s', p)) == u && EvalFactor(y, FieldEnv(s', p)) == v
    requires j <= nb && den == Pow(2, j) && -1 <= which <= 1
    requires s' == WriteDBits(WriteNBits(WriteFraction(s, target, which, num, den), target, na, Pow(2, na) + num),
                              target, nb + 1, den)
    requires which != 0 ==> Cong(f * den, num, p)
    requires which == -1 ==> Cong(u - v, f, p)
    requires which == 0 ==> Cong(u, v, p)
    requires which == 1 ==> Cong(v - u, f, p)
    ensures Units(s', p) && Sat(LessFloat(x, y, target, na, nb), FieldEnv(s', p), p)
  {
    FloatEffect(s, target, which, na, num, nb, den);
    FloatUnits(s, target, which, na, num, nb, den, j, p);
    FloatWitness(x, y, target, na, nb, s', which, num, den, j, f, u, v, p);
  }

  lemma FloatExec(x: Factor, y: Factor, target: string, na: nat, nb: nat, s: Store, which: int, num: int, den: int)
    requires !(x.Const? && y.Const?) && which == Compare(FactorQ(x, s), FactorQ(y, s))
    requires num == FloatNumerator(x, y, s) && den == FloatDenominator(x, y, s) && 0 <= Pow(2, na) + num
    ensures ExecLessFloat(x, y, target, na, nb, s)
         == WriteDBits(WriteNBits(WriteFraction(s, target, which, num, den), target, na, Pow(2, na) + num),
                       target, nb + 1, den)
  {
    assert Operands(x, y, s) == (FactorQ(x, s), FactorQ(y, s));
  }

  /** What `<F` stores about the order of its operands. */
  lemma FloatTarget(x: Factor, y: Factor, target: string, na: nat, nb: nat, s: Store)
    requires !(x.Const? && y.Const?) && 0 <= Pow(2, na) + FloatNumerator(x, y, s)
    ensures Ordered(ExecLessFloat(x, y, target, na, nb, s), target, FactorQ(x, s), FactorQ(y, s))
  {
    var which, num, den := Compare(FactorQ(x, s), FactorQ(y, s)), FloatNumerator(x, y, s), FloatDenominator(x, y, s);
    FloatExec(x, y, target, na, nb, s, which, num, den);
    FloatEffect(s, target, which, na, num, nb, den);
  }

  lemma FloatBody(x: Factor, y: Factor, target: string, na: nat, nb: nat, s: Store, s': Store, j: nat, u: int, v: int, p: int)
    requires IsPrime(p) && Units(s, p) && Simple(x) && Simple(y) && !(x.Const? && y.Const?)
    requires Pow(2, nb) < p && -Pow(2, na) <= FloatNumerator(x, y, s) <= -1
    requires j <= nb && FloatDenominator(x, y, s) == Pow(2, j)
    requires s' == ExecLessFloat(x, y, target, na, nb, s)
    requires u == EvalFactor(x, FieldEnv(s, p)) && v == EvalFactor(y, FieldEnv(s, p))
    requires EvalFactor(x, FieldEnv(s', p)) == u && EvalFactor(y, FieldEnv(s', p)) == v
    ensures Units(s', p) && Sat(LessFloat(x, y, target, na, nb), FieldEnv(s', p), p)
  {
    var which, num, den, f := OperandImages(x, y, s, u, v, p);
    FloatExec(x, y, target, na, nb, s, which, num, den);
    FloatRun(x, y, target, na, nb, s, s', which, num, den, j, f, u, v, p);
  }

  lemma LessFloatLineComplete(line: Line, s: Store, p: int)
    requires IsPrime(p) && Units(s, p) && line.LessFloatLine? && LineOk(line, s, p)
    ensures Runs(line, s)
    ensures Units(Exec(line, s, p), p)
    ensures Sat(Constraints(line), FieldEnv(Exec(line, s, p), p), p)
  {
    OkRuns(line, s, p);
    ReadsKept(line, s, p, line.x);
    ReadsKept(line, s, p, line.y);
    var j := FloatRange(line.x, line.y, s, line.na, line.nb);
    FloatBody(line.x, line.y, line.target, line.na, line.nb, s, Exec(line, s, p), j,
              EvalFactor(line.x, FieldEnv(s, p)), EvalFactor(line.y, FieldEnv(s, p)), p);
  }

  // ----- split lines -----

  lemma {:induction false} SplitUnits(s: Store, bits: seq<Id>, k: nat, v: int, signed: bool, p: int)
    requires IsPrime(p) && Units(s, p) && k <= |bits| && (v < 0 ==> 0 <= v + Pow(2, |bits|))
    ensures Units(WriteSplit(s, bits, k, v, signed), p)
    decreases k
  {
    if k > 0 {
      SplitUnits(s, bits, k - 1, v, signed, p);
      IntegerImage(SplitBit(v, k - 1, |bits|, signed), p);
    }
  }

  lemma SplitLineComplete(line: Line, s: Store, p: int)
    requires IsPrime(p) && Units(s, p) && line.SplitLine? && LineOk(line, s, p)
    ensures Runs(line, s)
    ensures Units(Exec(line, s, p), p)
    ensures Sat(Constraints(line), FieldEnv(Exec(line, s, p), p), p)
  {
    ReadsKept(line, s, p, line.x);
    IntegerOperand(line.x, s, p);
    SplitWitness(line.x, line.bits, line.signed, s, FactorQ(line.x, s).num, p);
  }

  lemma SplitWitness(x: Factor, bits: seq<Id>, signed: bool, s: Store, v: int, p: int)
    requires IsPrime(p) && Units(s, p) && Distinct(bits) && InRange(v, |bits|, signed)
    requires v < 0 ==> 0 <= v + Pow(2, |bits|)
    requires Cong(EvalFactor(x, FieldEnv(WriteSplit(s, bits, |bits|, v, signed), p)), v, p)
    ensures Units(WriteSplit(s, bits, |bits|, v, signed), p)
    ensures Sat(Split(x, bits, signed), FieldEnv(WriteSplit(s, bits, |bits|, v, signed), p), p)
  {
    var s' := WriteSplit(s, bits, |bits|, v, signed);
    var env := FieldEnv(s', p);
    SplitUnits(s, bits, |bits|, v, signed, p);
    SplitFrame(s, bits, |bits|, v, signed);
    var b := seq(|bits|, i requires 0 <= i < |bits| => SplitBit(v, i, |bits|, signed));
    forall i | 0 <= i < |bits| ensures Cong(Values(bits, env)[i], b[i], p) {
      IntegerImage(b[i], p);
    }
    SplitComplete(x, bits, signed, env, p, v, b);
  }
}
