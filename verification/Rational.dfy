/** GMP rationals (`mpq_t`) in lowest terms and their images in the prime field
    (`convert_to_z` in `common/utility.cpp`). */
module Rational {
  import opened Arith

  /** A rational in lowest terms, denominator positive. */
  datatype Q = Q(num: int, den: int)

  type Rat = q: Q | 0 < q.den witness Q(0, 1)

  const ZERO: Rat := Q(0, 1)

  function Gcd(a: nat, b: nat): (g: nat)
    requires 0 < a || 0 < b
    ensures 0 < g && a % g == 0 && b % g == 0
    decreases b
  {
    if b == 0 then assert a % a == 0; a
    else
      var g := Gcd(b, a % b);
      DivisorOfSum(a, b, g);
      g
  }

  lemma DivisorOfSum(a: nat, b: nat, g: nat)
    requires 0 < b && 0 < g && b % g == 0 && (a % b) % g == 0
    ensures a % g == 0
  {
    var q := a / b;
    assert a == b * q + a % b;
    SmallMod(0, g);
    CongMul(b, 0, q, q, g);
    CongAdd(b * q, 0, a % b, 0, g);
  }

  function Abs(x: int): nat {
    if x < 0 then -x else x
  }

  /** `mpq_canonicalize`. */
  function Canon(n: int, d: int): (q: Rat)
    requires 0 < d
    ensures exists g :: 0 < g && Scaled(q, g, n, d)
    ensures n % d == 0 ==> q == Q(n / d, 1)
  {
    var g := Gcd(Abs(n), d);
    CanonFacts(n, d, g);
    Q(n / g, d / g)
  }

  ghost predicate Scaled(q: Q, g: int, n: int, d: int) {
    n == q.num * g && d == q.den * g
  }

  lemma CanonFacts(n: int, d: int, g: nat)
    requires 0 < d && 0 < g && g == Gcd(Abs(n), d)
    ensures 0 < d / g && Scaled(Q(n / g, d / g), g, n, d)
    ensures n % d == 0 ==> g == d
  {
    assert d == (d / g) * g + d % g;
    assert n == (n / g) * g + n % g;
    SmallMod(0, g);
    if n < 0 {
      CongMul(Abs(n), 0, -1, -1, g);
    }
    assert n % g == 0;
    if d / g <= 0 { MulMono(0, -(d / g), 0, g); }
    if n % d == 0 {
      SmallMod(0, d);
      if n < 0 {
        CongMul(n, 0, -1, -1, d);
      }
      assert Abs(n) % d == 0;
    }
  }

  function Add(a: Rat, b: Rat): Rat
  {
    MulMono(1, a.den, 1, b.den);
    Canon(a.num * b.den + b.num * a.den, a.den * b.den)
  }

  function Neg(a: Rat): Rat {
    Q(-a.num, a.den)
  }

  function Sub(a: Rat, b: Rat): Rat
  {
    MulMono(1, a.den, 1, b.den);
    Canon(a.num * b.den - b.num * a.den, a.den * b.den)
  }

  function Mul(a: Rat, b: Rat): Rat
  {
    MulMono(1, a.den, 1, b.den);
    Canon(a.num * b.num, a.den * b.den)
  }

  /** `mpq_div`; the divisor must not be 0. */
  function Div(a: Rat, b: Rat): Rat
    requires b.num != 0
  {
    if 0 < b.num then
      MulMono(1, a.den, 1, b.num);
      Canon(a.num * b.den, a.den * b.num)
    else
      MulMono(1, a.den, 1, -b.num);
      Canon(-(a.num * b.den), a.den * -b.num)
  }

  // ----- the field image -----

  /** `convert_to_z`: numerator times the inverse of the denominator. */
  function ToField(q: Q, p: int): int
    requires p >= 2
  {
    (Inv(q.den, p) * q.num) % p
  }

  /** The denominator is invertible in the field. */
  ghost predicate Unit(q: Q, p: int)
    requires p > 0
  {
    0 < q.den && !Cong(q.den, 0, p)
  }

  lemma FieldTimesDen(q: Q, p: int)
    requires IsPrime(p) && Unit(q, p)
    ensures Cong(ToField(q, p) * q.den, q.num, p)
  {
    InvCorrect(q.den, p);
    var i := Inv(q.den, p);
    CongMod(i * q.num, p);
    CongMul(ToField(q, p), i * q.num, q.den, q.den, p);
    CongMul(q.den * i, 1, q.num, q.num, p);
    assert (i * q.num) * q.den == (q.den * i) * q.num by { MulAssoc(i, q.num, q.den); MulSwap(i, q.num, q.den); MulAssoc(q.den, i, q.num); MulSwap(q.den, i, q.num); }
  }

  /** Cross-multiplying with the denominator determines the field image. */
  lemma FieldUnique(q: Q, f: int, p: int)
    requires IsPrime(p) && Unit(q, p) && Cong(f * q.den, q.num, p)
    ensures Cong(ToField(q, p), f, p)
  {
    FieldTimesDen(q, p);
    SameCross(q.den, ToField(q, p), f, q.num, p);
  }

  lemma SameCross(d: int, e: int, f: int, n: int, p: int)
    requires IsPrime(p) && !Cong(d, 0, p) && Cong(e * d, n, p) && Cong(f * d, n, p)
    ensures Cong(e, f, p)
  {
    assert d * f == f * d && d * e == e * d;
    CancelFactor(d, e, f, p);
  }

  /** The image of `n / d`, reduced or not. */
  lemma FieldOfCanon(n: int, d: int, f: int, p: int)
    requires IsPrime(p) && 0 < d && !Cong(d, 0, p) && Cong(f * d, n, p)
    ensures Unit(Canon(n, d), p) && Cong(ToField(Canon(n, d), p), f, p)
  {
    var q := Canon(n, d);
    var g :| 0 < g && Scaled(q, g, n, d);
    if Cong(g, 0, p) { CongMul(q.den, q.den, g, 0, p); }
    if Cong(q.den, 0, p) { CongMul(q.den, 0, g, g, p); }
    assert g * (f * q.den) == f * d by { MulSwap(g, f, q.den); assert g * q.den == q.den * g; }
    CancelFactor(g, f * q.den, q.num, p);
    FieldUnique(q, f, p);
  }

  lemma UnitProduct(c: int, d: int, p: int)
    requires IsPrime(p) && !Cong(c, 0, p) && !Cong(d, 0, p)
    ensures !Cong(c * d, 0, p)
  {
    if Cong(c * d, 0, p) { NoZeroDivisors(c, d, p); }
  }

  lemma CrossTerms(f: int, g: int, c: int, d: int, m: int, n: int, p: int)
    requires p > 0 && Cong(f * c, m, p) && Cong(g * d, n, p)
    ensures Cong((f + g) * (c * d), m * d + n * c, p)
    ensures Cong((f - g) * (c * d), m * d - n * c, p)
    ensures Cong((f * g) * (c * d), m * n, p)
  {
    CongMul(f * c, m, d, d, p);
    CongMul(g * d, n, c, c, p);
    CongAdd(f * c * d, m * d, g * d * c, n * c, p);
    CongMul(f * c, m, g * d, n, p);
    assert (f + g) * (c * d) == f * c * d + g * d * c && (f - g) * (c * d) == f * c * d - g * d * c by {
      MulDist(c * d, f, g); MulAssoc(f, c, d); MulAssoc(g, d, c); assert d * c == c * d;
    }
    assert (f * g) * (c * d) == (f * c) * (g * d) by {
      MulAssoc(f, g, c * d); MulSwap(g, c, d); MulAssoc(f, c, g * d);
    }
  }

  /** Conversion to the field is a ring homomorphism. */
  lemma FieldArithmetic(a: Rat, b: Rat, p: int)
    requires IsPrime(p) && Unit(a, p) && Unit(b, p)
    ensures Unit(Add(a, b), p) && Cong(ToField(Add(a, b), p), ToField(a, p) + ToField(b, p), p)
    ensures Unit(Sub(a, b), p) && Cong(ToField(Sub(a, b), p), ToField(a, p) - ToField(b, p), p)
    ensures Unit(Mul(a, b), p) && Cong(ToField(Mul(a, b), p), ToField(a, p) * ToField(b, p), p)
  {
    var f, g := ToField(a, p), ToField(b, p);
    MulMono(1, a.den, 1, b.den);
    FieldTimesDen(a, p);
    FieldTimesDen(b, p);
    UnitProduct(a.den, b.den, p);
    CrossTerms(f, g, a.den, b.den, a.num, b.num, p);
    FieldOfCanon(a.num * b.den + b.num * a.den, a.den * b.den, f + g, p);
    FieldOfCanon(a.num * b.den - b.num * a.den, a.den * b.den, f - g, p);
    FieldOfCanon(a.num * b.num, a.den * b.den, f * g, p);
  }

  lemma NegCross(d: int, f: int, n: int, p: int)
    requires p > 0 && Cong(f * d, n, p)
    ensures Cong(-f * d, -n, p)
  {
    CongMul(f * d, n, -1, -1, p);
    assert -f * d == (f * d) * -1;
  }

  lemma FieldNeg(a: Rat, p: int)
    requires IsPrime(p) && Unit(a, p)
    ensures Unit(Neg(a), p) && Cong(ToField(Neg(a), p), -ToField(a, p), p)
  {
    FieldTimesDen(a, p);
    NegCross(a.den, ToField(a, p), a.num, p);
    FieldUnique(Neg(a), -ToField(a, p), p);
  }

  lemma FieldInteger(n: int, p: int)
    requires IsPrime(p)
    ensures Unit(Q(n, 1), p) && Cong(ToField(Q(n, 1), p), n, p)
  {
    SmallMod(1, p);
    SmallMod(0, p);
    FieldUnique(Q(n, 1), n, p);
  }

  /** Exact division: the quotient times the divisor gives back the dividend. */
  lemma FieldDiv(a: Rat, b: Rat, p: int)
    requires IsPrime(p) && Unit(a, p) && Unit(b, p) && !Cong(b.num, 0, p)
    ensures b.num != 0
    ensures Unit(Div(a, b), p) && Cong(ToField(Div(a, b), p) * ToField(b, p), ToField(a, p), p)
  {
    SmallMod(0, p);
    FieldTimesDen(a, p);
    FieldTimesDen(b, p);
    var h := DivCross(ToField(a, p), ToField(b, p), a.num, a.den, b.num, b.den, p);
    if 0 < b.num {
      UnitProduct(a.den, b.num, p);
      MulMono(1, a.den, 1, b.num);
      FieldOfCanon(a.num * b.den, a.den * b.num, h, p);
    } else {
      MulMono(1, a.den, 1, -b.num);
      NegUnit(b.num, p);
      UnitProduct(a.den, -b.num, p);
      FieldOfCanon(-(a.num * b.den), a.den * -b.num, h, p);
    }
    CongMul(ToField(Div(a, b), p), h, ToField(b, p), ToField(b, p), p);
  }

  lemma NegUnit(d: int, p: int)
    requires p > 0 && !Cong(d, 0, p)
    ensures !Cong(-d, 0, p)
  {
    if Cong(-d, 0, p) { CongMul(-d, 0, -1, -1, p); }
  }

  /** The field quotient of two fractions, cross-multiplied. */
  lemma DivCross(f: int, g: int, m: int, c: int, n: int, d: int, p: int) returns (h: int)
    requires IsPrime(p) && Cong(f * c, m, p) && Cong(g * d, n, p) && !Cong(n, 0, p)
    ensures Cong(h * g, f, p) && Cong(h * (c * n), m * d, p) && Cong(h * (c * -n), -(m * d), p)
  {
    SmallMod(0, p);
    if Cong(g, 0, p) { CongMul(g, 0, d, d, p); }
    InvCorrect(g, p);
    var i := Inv(g, p);
    h := f * i;
    CongMul(f, f, g * i, 1, p);
    assert h * g == f * (g * i) by { MulAssoc(f, i, g); }
    CongMul(h * g, f, c * d, c * d, p);
    CongMul(f * c, m, d, d, p);
    CongMul(h * c, h * c, n, g * d, p);
    calc {
      h * (c * n);
      { MulAssoc(h, c, n); }
      (h * c) * n;
    }
    calc {
      (h * c) * (g * d);
      { MulAssoc(h, c, g * d); MulSwap(c, g, d); MulAssoc(h, g, c * d); }
      (h * g) * (c * d);
    }
    assert f * (c * d) == (f * c) * d by { MulAssoc(f, c, d); }
    NegCross(c * n, h, m * d, p);
    assert h * (c * -n) == -h * (c * n);
  }
}
