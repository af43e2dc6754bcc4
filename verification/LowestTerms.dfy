/** Rationals are kept in lowest terms (`mpq_canonicalize`), so comparing them as pairs compares their values. */
module LowestTerms {
  import opened Arith
  import opened Rational

  /** No common factor, stated without computing one. */
  ghost predicate Lowest(q: Q) {
    0 < q.den && forall k: nat :: 2 <= k && q.num % k == 0 ==> q.den % k != 0
  }

  // ----- the greatest common divisor -----

  /** The divisor is a combination of the two numbers. */
  lemma {:induction false} Bezout(a: nat, b: nat) returns (x: int, y: int)
    requires 0 < a || 0 < b
    ensures a * x + b * y == Gcd(a, b)
    decreases b
  {
    if b == 0 {
      x, y := 1, 0;
    } else {
      var u, v := Bezout(b, a % b);
      x, y := v, u - (a / b) * v;
      BezoutStep(a, b, a / b, u, v);
    }
  }

  lemma BezoutStep(a: int, b: int, q: int, u: int, v: int)
    ensures b * u + (a - b * q) * v == a * v + b * (u - q * v)
  {
    MulDist(v, a, b * q);
    MulAssoc(b, q, v);
    MulDist(b, u - q * v, q * v);
  }

  lemma DividesCombination(a: int, b: int, x: int, y: int, k: int)
    requires k > 0 && a % k == 0 && b % k == 0
    ensures (a * x + b * y) % k == 0
  {
    SmallMod(0, k);
    CongMul(a, 0, x, x, k);
    CongMul(b, 0, y, y, k);
    CongAdd(a * x, 0, b * y, 0, k);
  }

  /** Every common divisor divides it. */
  lemma GcdGreatest(a: nat, b: nat, k: nat)
    requires (0 < a || 0 < b) && 0 < k && a % k == 0 && b % k == 0
    ensures Gcd(a, b) % k == 0
  {
    var x, y := Bezout(a, b);
    DividesCombination(a, b, x, y, k);
  }

  lemma AbsDivides(n: int, k: int)
    requires k > 0
    ensures n % k == 0 <==> Abs(n) % k == 0
  {
    SmallMod(0, k);
    if n < 0 {
      if n % k == 0 { CongMul(n, 0, -1, -1, k); }
      if Abs(n) % k == 0 { CongMul(Abs(n), 0, -1, -1, k); }
    }
  }

  // ----- canonical fractions -----

  lemma ScaledDivides(q: int, k: int, g: int)
    requires k > 0 && g > 0 && q % k == 0
    ensures 0 < k * g && (q * g) % (k * g) == 0
  {
    MulMono(1, k, 1, g);
    var h := q / k;
    assert q == k * h;
    MulAssoc(k, h, g); MulSwap(k, h, g);
    DivModIs(q * g, h, 0, k * g);
  }

  /** `mpq_canonicalize` leaves no common factor. */
  lemma CanonLowest(n: int, d: int)
    requires 0 < d
    ensures Lowest(Canon(n, d))
  {
    var q, g := Canon(n, d), Gcd(Abs(n), d);
    CanonFacts(n, d, g);
    forall k: nat | 2 <= k && q.num % k == 0 && q.den % k == 0 ensures false {
      ScaledDivides(q.num, k, g);
      ScaledDivides(q.den, k, g);
      AbsDivides(n, k * g);
      GcdGreatest(Abs(n), d, k * g);
      TooLarge(g, k);
    }
  }

  lemma TooLarge(g: nat, k: nat)
    requires 0 < g && 2 <= k
    ensures 0 < k * g && g % (k * g) != 0
  {
    MulMono(2, k, g, g);
    SmallMod(g, k * g);
  }

  lemma LowestCoprime(q: Q)
    requires Lowest(q)
    ensures Gcd(Abs(q.num), q.den) == 1
  {
    var g := Gcd(Abs(q.num), q.den);
    if g >= 2 { AbsDivides(q.num, g); }
  }

  /** A denominator in lowest terms divides every other denominator of the same value. */
  lemma DenominatorDivides(a: Q, b: Q)
    requires Lowest(a) && 0 < b.den && a.num * b.den == b.num * a.den
    ensures b.den % a.den == 0
  {
    LowestCoprime(a);
    var x, y := Bezout(Abs(a.num), a.den);
    AbsTimes(a.num, b.den, b.num, a.den);
    Euclid(Abs(a.num), a.den, b.den, x, y);
  }

  lemma AbsTimes(n: int, e: int, m: int, d: int)
    requires 0 < d && n * e == m * d
    ensures (Abs(n) * e) % d == 0
  {
    SmallMod(0, d);
    DivModIs(m * d, m, 0, d);
    if n < 0 {
      assert Abs(n) * e == (n * e) * -1;
      CongMul(n * e, 0, -1, -1, d);
    }
  }

  /** A divisor of a product that is coprime to one factor divides the other. */
  lemma Euclid(a: int, d: int, e: int, x: int, y: int)
    requires 0 < d && a * x + d * y == 1 && (a * e) % d == 0
    ensures e % d == 0
  {
    DivModIs(d, 1, 0, d);
    DividesCombination(a * e, d, x, e * y, d);
    EuclidSum(a, d, e, x, y);
  }

  lemma EuclidSum(a: int, d: int, e: int, x: int, y: int)
    requires a * x + d * y == 1
    ensures (a * e) * x + d * (e * y) == e
  {
    var u, v := a * x, d * y;
    assert (a * e) * x == e * u by { MulAssoc(a, e, x); MulSwap(a, e, x); }
    assert d * (e * y) == e * v by { MulSwap(d, e, y); }
    MulDist(e, u, v);
  }

  lemma DividesEachOther(a: int, b: int)
    requires 0 < a && 0 < b && a % b == 0 && b % a == 0
    ensures a == b
  {
    if a < b { SmallMod(a, b); } else if b < a { SmallMod(b, a); }
  }

  /** Fractions in lowest terms are equal as pairs exactly when their values are. */
  lemma LowestUnique(a: Q, b: Q)
    requires Lowest(a) && Lowest(b)
    ensures a == b <==> a.num * b.den == b.num * a.den
  {
    if a.num * b.den == b.num * a.den {
      DenominatorDivides(a, b);
      DenominatorDivides(b, a);
      DividesEachOther(a.den, b.den);
      if a.num < b.num { MulMono(1, b.num - a.num, 1, a.den); MulDist(a.den, b.num, a.num); }
      if b.num < a.num { MulMono(1, a.num - b.num, 1, a.den); MulDist(a.den, a.num, b.num); }
    }
  }

  // ----- differences -----

  lemma CanonSign(n: int, d: int)
    requires 0 < d
    ensures (Canon(n, d).num < 0 <==> n < 0) && (Canon(n, d).num == 0 <==> n == 0)
  {
    var q := Canon(n, d);
    var g :| 0 < g && Scaled(q, g, n, d);
    if q.num < 0 { MulMono(1, -q.num, 1, g); }
    if q.num > 0 { MulMono(1, q.num, 1, g); }
  }

  lemma CanonNeg(n: int, d: int)
    requires 0 < d
    ensures Canon(-n, d) == Q(-Canon(n, d).num, Canon(n, d).den)
  {
    var g := Gcd(Abs(n), d);
    assert Abs(-n) == Abs(n);
    CanonFacts(n, d, g);
    CanonFacts(-n, d, g);
    var a, b := n / g, (-n) / g;
    assert n == a * g && -n == b * g;
    MulDist(g, a, -b);
    if a + b > 0 { MulMono(1, a + b, 1, g); }
    if a + b < 0 { MulMono(1, -(a + b), 1, g); }
    MulDist(g, a, b);
  }

  /** The sign of a difference is the order of its terms. */
  lemma SubSign(u: Rat, v: Rat)
    ensures Sub(u, v).num < 0 <==> u.num * v.den < v.num * u.den
    ensures Sub(u, v).num == 0 <==> u.num * v.den == v.num * u.den
    ensures Lowest(Sub(u, v)) && Sub(v, u) == Q(-Sub(u, v).num, Sub(u, v).den)
  {
    MulMono(1, u.den, 1, v.den);
    var n, d := u.num * v.den - v.num * u.den, u.den * v.den;
    CanonSign(n, d);
    CanonLowest(n, d);
    CanonNeg(n, d);
    assert v.den * u.den == d && v.num * u.den - u.num * v.den == -n;
  }
}
