/** Integer powers, congruences modulo a positive integer and inverses modulo a prime:
    the arithmetic that `mpz_t` values obey everywhere else in the project. */
module Arith {

  function Pow(b: int, e: nat): (r: int)
    ensures 0 <= b ==> 0 <= r
    ensures 1 <= b ==> 1 <= r
    decreases e
  {
    if e == 0 then 1 else b * Pow(b, e - 1)
  }

  lemma {:induction false} PowAdd(b: int, e: nat, f: nat)
    ensures Pow(b, e + f) == Pow(b, e) * Pow(b, f)
    decreases e
  {
    if e > 0 {
      PowAdd(b, e - 1, f);
      assert e + f - 1 == (e - 1) + f;
      MulAssoc(b, Pow(b, e - 1), Pow(b, f));
    }
  }

  lemma {:induction false} PowMul(b: int, e: nat, f: nat)
    ensures 0 <= e * f
    ensures Pow(b, e * f) == Pow(Pow(b, e), f)
    decreases f
  {
    if f > 0 {
      PowMul(b, e, f - 1);
      assert e * f == e + e * (f - 1);
      PowAdd(b, e, e * (f - 1));
    } else {
      assert e * f == 0;
    }
  }

  lemma {:induction false} PowProduct(a: int, b: int, e: nat)
    ensures Pow(a * b, e) == Pow(a, e) * Pow(b, e)
    decreases e
  {
    if e > 0 {
      PowProduct(a, b, e - 1);
      var x, y := Pow(a, e - 1), Pow(b, e - 1);
      assert (a * b) * (x * y) == (a * x) * (b * y) by {
        MulAssoc(a, b, x * y); MulAssoc(b, x, y); MulAssoc(x, b, y); MulAssoc(a, x, b * y);
        assert b * x == x * b;
      }
    }
  }

  lemma {:induction false} PowMonotone(b: int, e: nat, f: nat)
    requires 1 <= b && e <= f
    ensures Pow(b, e) <= Pow(b, f)
  {
    PowAdd(b, e, f - e);
    MulMono(Pow(b, e), Pow(b, e), 1, Pow(b, f - e));
  }

  lemma PowOne(b: int)
    ensures Pow(b, 0) == 1 && Pow(b, 1) == b
  {
    assert Pow(b, 1) == b * Pow(b, 0);
  }

  lemma {:induction false} OnePow(e: nat)
    ensures Pow(1, e) == 1
    decreases e
  {
    if e > 0 { OnePow(e - 1); }
  }

  // ----- multiplication facts kept out of the larger proofs -----

  lemma MulAssoc(x: int, y: int, z: int)
    ensures (x * y) * z == x * (y * z)
  {
  }

  lemma MulSwap(x: int, y: int, z: int)
    ensures x * (y * z) == y * (x * z)
  {
  }

  lemma MulDist(x: int, y: int, z: int)
    ensures x * (y + z) == x * y + x * z
    ensures (y + z) * x == y * x + z * x
    ensures (y - z) * x == y * x - z * x
  {
  }

  lemma MulMono(a: int, b: int, c: int, d: int)
    requires 0 <= a <= b && 0 <= c <= d
    ensures 0 <= a * c <= b * d
  {
    assert a * c <= b * c;
    assert b * c <= b * d;
  }

  // ----- congruences -----

  /** `a` and `b` leave the same remainder modulo `n`. */
  ghost predicate Cong(a: int, b: int, n: int)
    requires n > 0
  {
    a % n == b % n
  }

  /** A multiple of the modulus smaller than the modulus is zero. */
  lemma SmallMultiple(k: int, n: int)
    requires n > 0 && -n < k * n < n
    ensures k == 0
  {
    if k >= 1 {
      MulMono(1, k, n, n);
    } else if k <= -1 {
      MulMono(1, -k, n, n);
    }
  }

  /** Adding a multiple of the modulus changes no remainder. */
  lemma CongShift(a: int, k: int, n: int)
    requires n > 0
    ensures (a + k * n) % n == a % n
  {
    var q, r := a / n, a % n;
    var q', r' := (a + k * n) / n, (a + k * n) % n;
    assert a == q * n + r;
    assert a + k * n == q' * n + r';
    assert (q + k - q') * n == r' - r by {
      assert (q + k - q') * n == q * n + k * n - q' * n;
    }
    SmallMultiple(q + k - q', n);
  }

  /** Congruence is having a multiple of the modulus as difference. */
  lemma CongWitness(a: int, b: int, n: int) returns (k: int)
    requires n > 0 && Cong(a, b, n)
    ensures a == b + k * n
  {
    k := a / n - b / n;
    assert a == (a / n) * n + a % n;
    assert b == (b / n) * n + b % n;
    assert k * n == (a / n) * n - (b / n) * n;
  }

  lemma CongFrom(a: int, b: int, k: int, n: int)
    requires n > 0 && a == b + k * n
    ensures Cong(a, b, n)
  {
    CongShift(b, k, n);
  }

  lemma CongMod(a: int, n: int)
    requires n > 0
    ensures 0 <= a % n < n && Cong(a % n, a, n)
  {
    CongFrom(a, a % n, a / n, n);
  }

  lemma CongAdd(a: int, a': int, b: int, b': int, n: int)
    requires n > 0 && Cong(a, a', n) && Cong(b, b', n)
    ensures Cong(a + b, a' + b', n)
    ensures Cong(a - b, a' - b', n)
  {
    var j := CongWitness(a, a', n);
    var k := CongWitness(b, b', n);
    assert (j + k) * n == j * n + k * n;
    CongFrom(a + b, a' + b', j + k, n);
    assert (j - k) * n == j * n - k * n;
    CongFrom(a - b, a' - b', j - k, n);
  }

  lemma CongMul(a: int, a': int, b: int, b': int, n: int)
    requires n > 0 && Cong(a, a', n) && Cong(b, b', n)
    ensures Cong(a * b, a' * b', n)
  {
    var j := CongWitness(a, a', n);
    var k := CongWitness(b, b', n);
    var m := j * b + a' * k;
    calc {
      a * b;
      { MulDist(b, a', j * n); }
      a' * b + (j * n) * b;
      { MulDist(a', b', k * n); }
      a' * b' + a' * (k * n) + (j * n) * b;
      { MulAssoc(a', k, n); MulAssoc(j, n, b); MulAssoc(j, b, n); MulDist(n, j * b, a' * k); }
      a' * b' + m * n;
    }
    CongFrom(a * b, a' * b', m, n);
  }

  lemma {:induction false} CongPow(a: int, b: int, e: nat, n: int)
    requires n > 0 && Cong(a, b, n)
    ensures Cong(Pow(a, e), Pow(b, e), n)
    decreases e
  {
    if e > 0 {
      CongPow(a, b, e - 1, n);
      CongMul(a, b, Pow(a, e - 1), Pow(b, e - 1), n);
    }
  }

  lemma SmallMod(a: int, n: int)
    requires 0 <= a < n
    ensures a % n == a
  {
    CongMod(a, n);
    var k := CongWitness(a % n, a, n);
    SmallMultiple(k, n);
  }

  /** Two congruent numbers less than the modulus apart are equal. */
  lemma CongClose(a: int, b: int, n: int)
    requires n > 0 && Cong(a, b, n) && -n < a - b < n
    ensures a == b
  {
    var k := CongWitness(a, b, n);
    SmallMultiple(k, n);
  }

  lemma DivModIs(k: int, i: int, j: int, m: int)
    requires 0 <= j < m && k == i * m + j
    ensures k / m == i && k % m == j
  {
    CongFrom(k, j, i, m);
    SmallMod(j, m);
    assert k == (k / m) * m + k % m;
    MulDist(m, k / m, i);
    SmallMultiple(k / m - i, m);
  }

  // ----- primes and inverses -----

  ghost predicate IsPrime(p: int) {
    p >= 2 && forall d :: 2 <= d < p ==> p % d != 0
  }

  /** `mpz_invert`: the inverse of `a` modulo the prime `p`, in `[0, p)`; 0 where there is none. */
  function Inv(a: int, p: int): int
    requires p >= 2
  {
    if a % p == 0 then 0 else InvReduced(a % p, p) % p
  }

  /** Inverse of a residue `0 < a < p` by repeated division of the modulus. */
  function InvReduced(a: int, p: int): int
    requires 0 < a < p
    decreases a
  {
    if p % a == 0 then 1 else -(p / a) * InvReduced(p % a, p)
  }

  lemma {:induction false} InvReducedCorrect(a: int, p: int)
    requires IsPrime(p) && 0 < a < p
    ensures Cong(a * InvReduced(a, p), 1, p)
    decreases a
  {
    if a == 1 {
      assert p % 1 == 0;
    } else {
      assert p % a != 0;
      var q, r := p / a, p % a;
      InvReducedCorrect(r, p);
      var y := InvReduced(r, p);
      // p == q * a + r, so a * (-q * y) == r * y - p * y
      assert p == q * a + r;
      assert a * (-q * y) == r * y + (-y) * p by {
        assert (-y) * p == (-y) * (q * a) + (-y) * r;
        assert a * (-q * y) == (-y) * (q * a);
      }
      CongFrom(a * (-q * y), r * y, -y, p);
    }
  }

  /** Every nonzero residue modulo a prime has the inverse `Inv` returns. */
  lemma InvCorrect(a: int, p: int)
    requires IsPrime(p) && !Cong(a, 0, p)
    ensures 0 <= Inv(a, p) < p && Cong(a * Inv(a, p), 1, p)
  {
    SmallMod(0, p);
    var r := a % p;
    InvReducedCorrect(r, p);
    CongMod(a, p);
    CongMod(InvReduced(r, p), p);
    CongMul(a, r, Inv(a, p), InvReduced(r, p), p);
  }

  /** A prime field has no zero divisors. */
  lemma NoZeroDivisors(a: int, b: int, p: int)
    requires IsPrime(p) && Cong(a * b, 0, p)
    ensures Cong(a, 0, p) || Cong(b, 0, p)
  {
    if !Cong(a, 0, p) {
      InvCorrect(a, p);
      var y := Inv(a, p);
      CongMul(a * b, 0, y, y, p);
      CongMul(a * y, 1, b, b, p);
      assert (a * b) * y == (a * y) * b by { MulAssoc(a, b, y); MulAssoc(a, y, b); }
    }
  }

  /** Nonzero factors cancel modulo a prime. */
  lemma CancelFactor(c: int, a: int, b: int, p: int)
    requires IsPrime(p) && !Cong(c, 0, p) && Cong(c * a, c * b, p)
    ensures Cong(a, b, p)
  {
    CongAdd(c * a, c * b, c * b, c * b, p);
    assert c * a - c * b == c * (a - b);
    NoZeroDivisors(c, a - b, p);
    CongAdd(a - b, 0, b, b, p);
  }
}
