/** Which operands a fixed-point comparison takes: all whose difference, counted in units of `2^-nb`, has at most
    `na` bits. */
module FixedPoints {
  import opened Arith
  import opened Rational
  import opened LowestTerms
  import opened Poly
  import opened Worksheet
  import opened Compile
  import opened CompileProof

  lemma {:induction false} DivisorOfPower(d: nat, n: nat) returns (j: nat)
    requires 0 < d && Pow(2, n) % d == 0
    ensures j <= n && d == Pow(2, j)
    decreases n
  {
    var k := Pow(2, n) / d;
    assert Pow(2, n) == d * k;
    if n == 0 {
      j := 0;
      if d > 1 && k > 0 { MulMono(2, d, 1, k); }
    } else if d % 2 == 0 {
      assert Pow(2, n - 1) == (d / 2) * k by { MulAssoc(2, d / 2, k); }
      DivModIs(Pow(2, n - 1), k, 0, d / 2);
      j := DivisorOfPower(d / 2, n - 1);
      j := j + 1;
    } else {
      OddFactor(d, k, Pow(2, n - 1));
      DivModIs(Pow(2, n - 1), k / 2, 0, d);
      j := DivisorOfPower(d, n - 1);
    }
  }

  lemma OddFactor(d: int, k: int, half: int)
    requires d % 2 == 1 && d * k == 2 * half
    ensures half == d * (k / 2)
  {
    var e := d / 2;
    MulDist(k, 2 * e, 1);
    MulAssoc(2, e, k);
    var h := k / 2;
    HalfEven(k, e * k, half);
    MulSwap(d, 2, h);
  }

  lemma HalfEven(k: int, ek: int, half: int)
    requires 2 * ek + k == 2 * half
    ensures k == 2 * (k / 2)
  {
  }

  /** `q` is `count` units of `1 / unit`. */
  ghost predicate Counts(q: Q, count: int, unit: int) { q.num * unit == count * q.den }

  lemma DifferenceCounts(u: Rat, v: Rat, a: int, b: int, unit: int)
    requires Counts(u, a, unit) && Counts(v, b, unit)
    ensures Counts(Sub(u, v), a - b, unit)
  {
    MulMono(1, u.den, 1, v.den);
    var q, n, d := Sub(u, v), u.num * v.den - v.num * u.den, u.den * v.den;
    var g :| 0 < g && Scaled(q, g, n, d);
    CrossUnits(u.num, u.den, v.num, v.den, a, b, unit);
    MulAssoc(q.num, unit, g); MulSwap(q.num, unit, g);
    MulAssoc(a - b, q.den, g);
    assert (q.num * unit) * g == n * unit;
    Cancel(q.num * unit, (a - b) * q.den, g);
  }

  lemma CrossUnits(un: int, ud: int, vn: int, vd: int, a: int, b: int, unit: int)
    requires un * unit == a * ud && vn * unit == b * vd
    ensures (un * vd - vn * ud) * unit == (a - b) * (ud * vd)
  {
    calc {
      (un * vd - vn * ud) * unit;
      { MulDist(unit, un * vd, vn * ud); }
      (un * vd) * unit - (vn * ud) * unit;
      { MulAssoc(vd, un, unit); MulAssoc(ud, vn, unit); }
      vd * (un * unit) - ud * (vn * unit);
      vd * (a * ud) - ud * (b * vd);
      { MulSwap(vd, a, ud); MulSwap(ud, b, vd); }
      a * (vd * ud) - b * (ud * vd);
      { MulDist(ud * vd, a, b); }
      (a - b) * (ud * vd);
    }
  }

  lemma Cancel(x: int, y: int, g: int)
    requires 0 < g && x * g == y * g
    ensures x == y
  {
    if x < y { MulMono(1, y - x, 1, g); MulDist(g, y, x); }
    if y < x { MulMono(1, x - y, 1, g); MulDist(g, x, y); }
  }

  /** In lowest terms a count of `2^-nb` keeps a denominator up to `2^nb`, and its numerator does not grow. */
  lemma CountFixed(q: Q, count: int, na: nat, nb: nat)
    requires Lowest(q) && Counts(q, count, Pow(2, nb)) && -Pow(2, na) <= count <= Pow(2, na)
    ensures FixedPoint(q, na, nb)
  {
    var unit := Pow(2, nb);
    DenominatorDivides(q, Q(count, unit));
    var k := CoFactor(unit, q.den);
    NumeratorShrinks(q.num, q.den, count, unit, k);
    var j := DivisorOfPower(q.den, nb);
  }

  lemma CoFactor(unit: int, den: int) returns (k: int)
    requires 0 < den && unit % den == 0
    ensures unit == k * den
  {
    k := unit / den;
  }

  lemma NumeratorShrinks(num: int, den: int, count: int, unit: int, k: int)
    requires 0 < den && 0 < unit && unit == k * den && num * unit == count * den
    ensures Abs(num) <= Abs(count)
  {
    MulAssoc(num, k, den);
    Cancel(num * k, count, den);
    if k <= 0 { MulMono(0, -k, 0, den); }
    if num >= 0 { MulMono(num, num, 1, k); } else { MulMono(-num, -num, 1, k); }
  }

  lemma DifferenceFixed(u: Rat, v: Rat, a: int, b: int, na: nat, nb: nat)
    requires Counts(u, a, Pow(2, nb)) && Counts(v, b, Pow(2, nb)) && -Pow(2, na) <= a - b <= Pow(2, na)
    ensures FixedPoint(Sub(u, v), na, nb)
  {
    DifferenceCounts(u, v, a, b, Pow(2, nb));
    SubSign(u, v);
    CountFixed(Sub(u, v), a - b, na, nb);
  }

  /** Two operands with `nb` fractional bits can be compared whenever their difference has at most `na` bits. */
  lemma FloatOperands(x: Factor, y: Factor, target: string, na: nat, nb: nat, s: Store, a: int, b: int, p: int)
    requires Simple(x) && Simple(y) && !(x.Const? && y.Const?) && Pow(2, nb) < p
    requires Writes(LessFloatLine(x, y, target, na, nb)) !! Reads(LessFloatLine(x, y, target, na, nb))
    requires Counts(FactorQ(x, s), a, Pow(2, nb)) && Counts(FactorQ(y, s), b, Pow(2, nb)) && -Pow(2, na) <= a - b <= Pow(2, na)
    ensures LineOk(LessFloatLine(x, y, target, na, nb), s, p)
  {
    DifferenceFixed(FactorQ(x, s), FactorQ(y, s), a, b, na, nb);
  }
}
