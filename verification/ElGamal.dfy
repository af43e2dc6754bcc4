/** ElGamal encryption of small exponents, used as an additively homomorphic commitment
    (`crypto/crypto.cpp`). */
module ElGamal {
  import opened Arith
  import opened Vectors

  /** Modulus, generator and secret exponent; `gr = g^secret`. */
  datatype Key = Key(p: int, g: int, secret: nat)

  datatype Cipher = Cipher(c1: int, c2: int)

  ghost predicate ValidKey(k: Key) {
    IsPrime(k.p) && !Cong(k.g, 0, k.p)
  }

  /** `mpz_powm`. */
  function PowMod(b: int, e: nat, p: int): int
    requires p > 0
  {
    Pow(b, e) % p
  }

  /** `elgamal_enc_with_rand`: the plain text goes into the exponent. */
  function Enc(k: Key, plain: nat, r: nat): Cipher
    requires k.p > 0
  {
    Cipher(PowMod(k.g, r, k.p), (PowMod(PowMod(k.g, k.secret, k.p), r, k.p) * PowMod(k.g, plain, k.p)) % k.p)
  }

  /** `elgamal_hadd`. */
  function HAdd(k: Key, a: Cipher, b: Cipher): Cipher
    requires k.p > 0
  {
    Cipher((a.c1 * b.c1) % k.p, (a.c2 * b.c2) % k.p)
  }

  /** `elgamal_smul`, with its special case for 0. */
  function SMul(k: Key, c: Cipher, d: nat): Cipher
    requires k.p > 0
  {
    if d == 0 then Cipher(1, 1) else Cipher(PowMod(c.c1, d, k.p), PowMod(c.c2, d, k.p))
  }

  /** `elgamal_dec`: returns `g^plain`, not the plain text. */
  function Dec(k: Key, c: Cipher): int
    requires k.p >= 2
  {
    (Inv(PowMod(c.c1, k.secret, k.p), k.p) * c.c2) % k.p
  }

  /** `c` encrypts `m` under randomness `r`. */
  ghost predicate Encodes(k: Key, c: Cipher, m: nat, r: nat)
    requires k.p > 0
  {
    Cong(c.c1, Pow(k.g, r), k.p) && Cong(c.c2, Pow(k.g, k.secret * r + m), k.p)
  }

  lemma PowModCong(b: int, e: nat, p: int)
    requires p > 0
    ensures Cong(PowMod(b, e, p), Pow(b, e), p)
  {
    CongMod(Pow(b, e), p);
  }

  /** Both parts depend on the randomness; only the second on the plain text. */
  lemma EncEncodes(k: Key, m: nat, r: nat)
    requires k.p > 0
    ensures Encodes(k, Enc(k, m, r), m, r)
    ensures Cong(Enc(k, m, r).c1, Pow(k.g, r), k.p) && Cong(Enc(k, m, r).c2, Pow(k.g, k.secret * r + m), k.p)
  {
    var p, x := k.p, PowMod(k.g, k.secret, k.p);
    PowModCong(k.g, r, p);
    PowModCong(k.g, k.secret, p);
    PowModCong(x, r, p);
    PowModCong(k.g, m, p);
    CongPow(x, Pow(k.g, k.secret), r, p);
    PowMul(k.g, k.secret, r);
    PowAdd(k.g, k.secret * r, m);
    CongMul(PowMod(x, r, p), Pow(k.g, k.secret * r), PowMod(k.g, m, p), Pow(k.g, m), p);
    CongMod(PowMod(x, r, p) * PowMod(k.g, m, p), p);
  }

  /** Multiplying cipher texts adds plain texts. */
  lemma HAddEncodes(k: Key, a: Cipher, b: Cipher, m: nat, r: nat, m': nat, r': nat)
    requires k.p > 0 && Encodes(k, a, m, r) && Encodes(k, b, m', r')
    ensures Encodes(k, HAdd(k, a, b), m + m', r + r')
  {
    var p, s := k.p, k.secret;
    CongMul(a.c1, Pow(k.g, r), b.c1, Pow(k.g, r'), p);
    PowAdd(k.g, r, r');
    CongMod(a.c1 * b.c1, p);
    CongMul(a.c2, Pow(k.g, s * r + m), b.c2, Pow(k.g, s * r' + m'), p);
    PowAdd(k.g, s * r + m, s * r' + m');
    assert s * r + m + (s * r' + m') == s * (r + r') + (m + m') by { MulDist(s, r, r'); }
    CongMod(a.c2 * b.c2, p);
  }

  /** Raising a cipher text to a power multiplies its plain text. */
  lemma SMulEncodes(k: Key, c: Cipher, m: nat, r: nat, d: nat)
    requires k.p > 0 && Encodes(k, c, m, r)
    ensures 0 <= m * d && 0 <= r * d
    ensures Encodes(k, SMul(k, c, d), m * d, r * d)
  {
    var p, s := k.p, k.secret;
    MulMono(0, m, 0, d);
    MulMono(0, r, 0, d);
    if d == 0 {
      assert m * d == 0 && r * d == 0 && s * (r * d) == 0;
    } else {
      PowModCong(c.c1, d, p);
      PowModCong(c.c2, d, p);
      CongPow(c.c1, Pow(k.g, r), d, p);
      CongPow(c.c2, Pow(k.g, s * r + m), d, p);
      PowMul(k.g, r, d);
      PowMul(k.g, s * r + m, d);
      assert (s * r + m) * d == s * (r * d) + m * d by { MulDist(d, s * r, m); MulAssoc(s, r, d); }
    }
  }

  lemma {:induction false} PowNonzero(g: int, e: nat, p: int)
    requires IsPrime(p) && !Cong(g, 0, p)
    ensures !Cong(Pow(g, e), 0, p)
    decreases e
  {
    if e == 0 {
      SmallMod(0, p); SmallMod(1, p);
    } else {
      PowNonzero(g, e - 1, p);
      if Cong(Pow(g, e), 0, p) { NoZeroDivisors(g, Pow(g, e - 1), p); }
    }
  }

  /** Decryption undoes encryption, up to the exponent. */
  lemma DecEncodes(k: Key, c: Cipher, m: nat, r: nat)
    requires ValidKey(k) && Encodes(k, c, m, r)
    ensures Dec(k, c) == PowMod(k.g, m, k.p)
  {
    var p, s := k.p, k.secret;
    var x, y := PowMod(c.c1, s, p), Pow(k.g, s * r);
    PowModCong(c.c1, s, p);
    CongPow(c.c1, Pow(k.g, r), s, p);
    PowMul(k.g, r, s);
    assert r * s == s * r;
    PowNonzero(k.g, s * r, p);
    InvCorrect(x, p);
    PowAdd(k.g, s * r, m);
    Unmask(x, y, Inv(x, p), c.c2, Pow(k.g, m), p);
  }

  lemma Unmask(x: int, y: int, i: int, c: int, z: int, p: int)
    requires p > 0 && Cong(x, y, p) && Cong(x * i, 1, p) && Cong(c, y * z, p)
    ensures (i * c) % p == z % p
  {
    CongMul(y, x, z, z, p);
    CongMul(i, i, c, x * z, p);
    MulAssoc(i, x, z);
    assert i * x == x * i;
    CongMul(x * i, 1, z, z, p);
  }

  /** Decryption of an encryption. */
  lemma RoundTrip(k: Key, m: nat, r: nat)
    requires ValidKey(k)
    ensures Dec(k, Enc(k, m, r)) == PowMod(k.g, m, k.p)
  {
    EncEncodes(k, m, r);
    DecEncodes(k, Enc(k, m, r), m, r);
  }

  // ----- commitment query and answer -----

  /** `elgamal_enc_vec`: first and second parts of cipher `i` at `2 i` and `2 i + 1`. */
  method EncVec(k: Key, plain: seq<nat>, r: seq<nat>) returns (cipher: array<int>)
    requires k.p > 0 && |plain| == |r|
    ensures fresh(cipher) && cipher.Length == 2 * |plain|
    ensures forall i :: 0 <= i < |plain| ==> cipher[2 * i] == Enc(k, plain[i], r[i]).c1 && cipher[2 * i + 1] == Enc(k, plain[i], r[i]).c2
  {
    cipher := new int[2 * |plain|];
    for i := 0 to |plain|
      invariant forall j :: 0 <= j < i ==> cipher[2 * j] == Enc(k, plain[j], r[j]).c1 && cipher[2 * j + 1] == Enc(k, plain[j], r[j]).c2
    {
      var c := Enc(k, plain[i], r[i]);
      cipher[2 * i], cipher[2 * i + 1] := c.c1, c.c2;
    }
  }

  /** `dump_vector_interleaved`: all first parts, then all second parts. */
  method Interleave(q: seq<int>) returns (r: seq<int>)
    requires |q| % 2 == 0
    ensures |r| == |q|
    ensures forall i :: 0 <= i < |q| / 2 ==> r[i] == q[2 * i] && r[|q| / 2 + i] == q[2 * i + 1]
  {
    r := [];
    for i := 0 to |q| / 2
      invariant |r| == i && forall j :: 0 <= j < i ==> r[j] == q[2 * j]
    {
      r := r + [q[2 * i]];
    }
    for i := 0 to |q| / 2
      invariant |r| == |q| / 2 + i
      invariant forall j :: 0 <= j < |q| / 2 ==> r[j] == q[2 * j]
      invariant forall j :: 0 <= j < i ==> r[|q| / 2 + j] == q[2 * j + 1]
    {
      r := r + [q[2 * i + 1]];
    }
  }

  /** `q` holds encryptions of `plain`, first parts in the first half. */
  ghost predicate Encrypts(k: Key, q: seq<int>, plain: seq<nat>, r: seq<nat>)
    requires k.p > 0
  {
    && |plain| == |r| && |q| == 2 * |plain|
    && forall i :: 0 <= i < |plain| ==> Encodes(k, Cipher(q[i], q[|plain| + i]), plain[i], r[i])
  }

  /** `create_commitment_query` followed by the reordering dump. */
  method CreateCommitmentQuery(k: Key, plain: seq<nat>, r: seq<nat>) returns (q: seq<int>)
    requires k.p > 0 && |plain| == |r|
    ensures Encrypts(k, q, plain, r)
  {
    var cipher := EncVec(k, plain, r);
    q := Interleave(cipher[..]);
    forall i | 0 <= i < |plain| ensures Encodes(k, Cipher(q[i], q[|plain| + i]), plain[i], r[i]) {
      EncEncodes(k, plain[i], r[i]);
    }
  }

  lemma {:induction false} DotNat(q: seq<nat>, f: seq<nat>, n: nat)
    requires n <= |q| && n <= |f|
    ensures DotTo(q, f, n) >= 0
    decreases n
  {
    if n > 0 {
      DotNat(q, f, n - 1);
      MulMono(0, q[n - 1], 0, f[n - 1]);
    }
  }
}
