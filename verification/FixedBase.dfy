/** Fixed-base exponentiation: the power table of `crypto/powm_cache.cpp` and the windowed product
    over it (`mp_modexp_cached_cpu` in `lib_gpu/mp_modexp_cpu.cpp`). */
module FixedBase {
  import opened Arith
  import opened Limbs
  import opened Bits
  import opened MontReduce
  import opened Clnw
  import opened ModExp
  import Vectors

  /** `get_num_pow_per_chunk`. */
  function PowsPerChunk(w: nat): (r: nat)
    ensures 0 < w ==> 0 < r
  {
    if w > 0 then assert Pow(2, w) == 2 * Pow(2, w - 1); Pow(2, w) - 1 else 0
  }

  /** `get_num_chunks`. */
  function NumChunks(maxExpBits: nat, w: nat): nat {
    if w == 0 then 0 else (maxExpBits + w - 1) / w
  }

  /** As many chunks as it takes to cover the exponent's bits, and no more. */
  lemma ChunksCover(maxExpBits: nat, w: nat)
    requires 0 < w
    ensures maxExpBits <= NumChunks(maxExpBits, w) * w < maxExpBits + w
  {
    var n := maxExpBits + w - 1;
    assert n == (n / w) * w + n % w;
  }

  /** The exponent of the base that slot `k` stands for: `2^(w i) (j + 1)` for `k == i (2^w - 1) + j`. */
  function SlotExp(k: nat, w: nat): (r: nat)
    ensures 1 <= r
  {
    var m := PowsPerChunk(w);
    if m == 0 then 1 else SlotParts(k, m, w); Pow(2, w * (k / m)) * (k % m + 1)
  }

  lemma SlotParts(k: nat, m: nat, w: nat)
    requires 0 < m
    ensures 0 <= k / m && 0 <= k % m < m && 0 <= w * (k / m)
    ensures 1 <= Pow(2, w * (k / m)) * (k % m + 1)
  {
    MulMono(0, w, 0, k / m);
    MulMono(1, Pow(2, w * (k / m)), 1, k % m + 1);
  }

  /** Slot `i (2^w - 1) + j` stands for `2^(w i) (j + 1)`, a chunk's last slot being the next one's first. */
  lemma SlotAt(i: nat, j: nat, w: nat)
    requires 0 < w && j <= PowsPerChunk(w)
    ensures 0 <= i * PowsPerChunk(w) && 0 <= w * i
    ensures SlotExp(i * PowsPerChunk(w) + j, w) == Pow(2, w * i) * (j + 1)
  {
    var m := PowsPerChunk(w);
    MulMono(0, i, 0, m);
    MulMono(0, w, 0, i);
    if j < m {
      DivModIs(i * m + j, i, j, m);
    } else {
      MulDist(m, i, 1);
      DivModIs(i * m + j, i + 1, 0, m);
      MulDist(w, i, 1);
      PowAdd(2, w * i, w);
    }
  }

  /** What `PowmCache` stores in slot `k`. The base itself is stored unreduced. */
  function SlotValue(b: int, p: int, k: nat, w: nat): int
    requires 0 < p
  {
    if k == 0 then b else Pow(b, SlotExp(k, w)) % p
  }

  lemma SlotCong(b: int, p: int, k: nat, w: nat)
    requires 0 < p
    ensures Cong(SlotValue(b, p, k, w), Pow(b, SlotExp(k, w)), p)
  {
    CongMod(Pow(b, SlotExp(k, w)), p);
    if k == 0 {
      if 0 < w {
        SlotAt(0, 0, w);
        PowOne(2);
        assert w * 0 == 0;
      }
      PowOne(b);
    }
  }

  /** Multiplying a slot by its chunk's base gives the next slot. */
  lemma NextSlot(b: int, p: int, i: nat, j: nat, w: nat)
    requires 0 < p && 0 < w && 1 <= j <= PowsPerChunk(w)
    ensures 0 <= i * PowsPerChunk(w)
    ensures (SlotValue(b, p, i * PowsPerChunk(w), w) * SlotValue(b, p, i * PowsPerChunk(w) + j - 1, w)) % p
         == SlotValue(b, p, i * PowsPerChunk(w) + j, w)
  {
    SlotAt(i, 0, w);
    var base := i * PowsPerChunk(w);
    SlotAt(i, j - 1, w);
    SlotAt(i, j, w);
    SlotCong(b, p, base, w);
    SlotCong(b, p, base + j - 1, w);
    var q := Pow(2, w * i);
    CongMul(SlotValue(b, p, base, w), Pow(b, q), SlotValue(b, p, base + j - 1, w), Pow(b, q * j), p);
    MulDist(q, j, 1);
    PowAdd(b, q, q * j);
  }

  class PowmCache {
    var prime: int
    var cache: array<int>
    var windowSize: nat
    var numChunks: nat
    ghost var base: int

    /** The table is complete for `numChunks` chunks of the base's powers. */
    ghost predicate Valid()
      reads this, cache
    {
      && 0 < prime
      && (windowSize == 0 ==> numChunks == 0)
      && cache.Length == numChunks * PowsPerChunk(windowSize) + 1
      && FilledTo(cache.Length)
    }

    ghost predicate FilledTo(n: nat)
      reads this, cache
      requires 0 < prime
    {
      n <= cache.Length && forall k :: 0 <= k < n ==> cache[k] == SlotValue(base, prime, k, windowSize)
    }

    constructor (b: int, p: int, maxExpBits: nat, w: nat)
      requires 0 < p
      ensures Valid() && fresh(cache)
      ensures base == b && prime == p && windowSize == w && numChunks == NumChunks(maxExpBits, w)
      ensures 0 < w ==> maxExpBits <= numChunks * w < maxExpBits + w
    {
      if 0 < w { ChunksCover(maxExpBits, w); }
      prime, windowSize, numChunks, base := p, w, NumChunks(maxExpBits, w), b;
      MulMono(0, NumChunks(maxExpBits, w), 0, PowsPerChunk(w));
      cache := new int[NumChunks(maxExpBits, w) * PowsPerChunk(w) + 1];
      new;
      cache[0] := b;
      if windowSize == 0 {
        assert numChunks * PowsPerChunk(windowSize) == 0;
      }
      ComputeCache(0);
    }

    /** `computeCache`: fill every chunk from `start` on; its base is the previous chunk's last slot. */
    method ComputeCache(start: nat)
      requires 0 < prime && start <= numChunks && (windowSize == 0 ==> numChunks == 0)
      requires cache.Length == numChunks * PowsPerChunk(windowSize) + 1
      requires 0 <= start * PowsPerChunk(windowSize) && FilledTo(start * PowsPerChunk(windowSize) + 1)
      modifies cache
      ensures Valid()
    {
      var m := PowsPerChunk(windowSize);
      for i := start to numChunks
        invariant 0 <= i * m && FilledTo(i * m + 1)
      {
        ChunkFits(i, numChunks, m);
        for j := 1 to m + 1
          invariant FilledTo(i * m + j)
        {
          NextSlot(base, prime, i, j, windowSize);
          cache[i * m + j] := (cache[i * m] * cache[i * m + j - 1]) % prime;
        }
      }
    }

    /** `extendCache`: a table grown to more exponent bits holds what a fresh one would. */
    method ExtendCache(maxExpBits: nat)
      requires Valid()
      modifies this, cache
      ensures Valid()
      ensures base == old(base) && prime == old(prime) && windowSize == old(windowSize)
      ensures numChunks == if NumChunks(maxExpBits, windowSize) <= old(numChunks) then old(numChunks)
                           else NumChunks(maxExpBits, windowSize)
      ensures cache == old(cache) || fresh(cache)
      ensures old(cache.Length) <= cache.Length && forall k :: 0 <= k < old(cache.Length) ==> cache[k] == old(cache[k])
    {
      var m := PowsPerChunk(windowSize);
      if m == 0 { return; }
      var newChunks := NumChunks(maxExpBits, windowSize);
      if newChunks <= numChunks { return; }
      MulMono(numChunks, newChunks, m, m);
      var newCache := new int[newChunks * m + 1];
      Vectors.Copy(cache, newCache);
      var start := numChunks;
      cache := newCache;
      numChunks := newChunks;
      ComputeCache(start);
    }

    /** `getItem`: the power of the base for value `chunkValue + 1` of chunk `chunk`. */
    method GetItem(chunk: nat, chunkValue: nat) returns (item: int)
      requires Valid() && 0 < windowSize && chunk < numChunks && chunkValue < PowsPerChunk(windowSize)
      ensures 0 <= windowSize * chunk
      ensures Cong(item, Pow(base, Pow(2, windowSize * chunk) * (chunkValue + 1)), prime)
      ensures if chunk == chunkValue == 0 then item == base else 0 <= item < prime
    {
      ChunkFits(chunk, numChunks, PowsPerChunk(windowSize));
      SlotAt(chunk, chunkValue, windowSize);
      SlotCong(base, prime, chunk * PowsPerChunk(windowSize) + chunkValue, windowSize);
      item := cache[chunk * PowsPerChunk(windowSize) + chunkValue];
    }
  }

  lemma ChunkFits(i: nat, n: nat, m: nat)
    requires i < n
    ensures 0 <= i * m && i * m + m == (i + 1) * m <= n * m
  {
    MulMono(0, i, 0, m);
    MulDist(m, i, 1);
    MulMono(i + 1, n, m, m);
  }

  // ----- the windowed product over the table -----

  /** Montgomery form of slot `k`, at offset `k S` of the flat table. */
  ghost predicate SlotHeld(words: seq<int>, k: nat, b: int, ws: nat, N: int, S: nat, B: nat)
    requires 0 < N
  {
    && 0 <= k * S && k * S + S <= |words|
    && Holds(words[k * S..k * S + S], Pow(b, SlotExp(k, ws)), N, Pow(B, S), B)
  }

  /** A Montgomerized slot of a `PowmCache` for prime `N` is what the windowed product expects. */
  lemma CacheSlotServes(s: seq<int>, b: int, k: nat, ws: nat, N: int, R: int, B: nat)
    requires 0 < N && Holds(s, SlotValue(b, N, k, ws), N, R, B)
    ensures Holds(s, Pow(b, SlotExp(k, ws)), N, R, B)
  {
    SlotCong(b, N, k, ws);
    CongMul(SlotValue(b, N, k, ws), Pow(b, SlotExp(k, ws)), R, R, N);
  }

  /** One window's factor: slot `q (2^ws - 1) + v - 1` holds `b^(2^(ws q) v)`. */
  method MultiplyWindow(ret: array<int>, table: array<int>, q: nat, v: nat, ws: nat, n: array<int>, np: array<int>,
                        B: nat, ghost b: int, ghost e: nat)
    requires Modulus(n, np, B) && ret != n && ret != np && ret != table && ret.Length == n.Length
    requires 0 < ws && v <= PowsPerChunk(ws) && 0 <= ws * q && 0 <= q * PowsPerChunk(ws)
    requires forall k :: q * PowsPerChunk(ws) <= k < q * PowsPerChunk(ws) + PowsPerChunk(ws) ==>
               SlotHeld(table[..], k, b, ws, Val(n[..], B), n.Length, B)
    requires Holds(ret[..], Pow(b, e), Val(n[..], B), Pow(B, n.Length), B)
    modifies ret
    ensures Modulus(n, np, B) && 0 <= Pow(2, ws * q) * v
    ensures Holds(ret[..], Pow(b, e + Pow(2, ws * q) * v), Val(n[..], B), Pow(B, n.Length), B)
  {
    if v > 0 {
      var k := q * PowsPerChunk(ws) + v - 1;
      assert SlotHeld(table[..], k, b, ws, Val(n[..], B), n.Length, B);
      var S := n.Length;
      var tmp := new int[S](i requires 0 <= i < S && 0 <= k * S && k * S + S <= table.Length reads table => table[k * S + i]);
      assert tmp[..] == table[..][k * S..k * S + S];
      SlotAt(q, v - 1, ws);
      PowAdd(b, e, Pow(2, ws * q) * v);
      MontStep(ret, ret, tmp, n, np, B, Pow(b, e), Pow(b, Pow(2, ws * q) * v));
    } else {
      assert Pow(2, ws * q) * v == 0;
    }
  }

  /** The windows of one exponent word. */
  method MultiplyWord(ret: array<int>, exp: seq<int>, i: nat, table: array<int>, per: nat, ws: nat, w: nat,
                      n: array<int>, np: array<int>, ghost b: int)
    requires w == per * ws && 0 < ws && i < |exp| && Words(exp, Pow(2, w))
    requires Modulus(n, np, Pow(2, w)) && ret != n && ret != np && ret != table && ret.Length == n.Length
    requires 0 <= i * per && 0 <= (i + 1) * per * PowsPerChunk(ws)
    requires forall k :: 0 <= k < (i + 1) * per * PowsPerChunk(ws) ==>
               SlotHeld(table[..], k, b, ws, Val(n[..], Pow(2, w)), n.Length, Pow(2, w))
    requires 0 <= Val(exp, Pow(2, w)) && 0 <= ws * (i * per)
    requires Holds(ret[..], Pow(b, Val(exp, Pow(2, w)) % Pow(2, ws * (i * per))), Val(n[..], Pow(2, w)), Pow(Pow(2, w), n.Length), Pow(2, w))
    modifies ret
    ensures Modulus(n, np, Pow(2, w)) && 0 <= ws * ((i + 1) * per)
    ensures Holds(ret[..], Pow(b, Val(exp, Pow(2, w)) % Pow(2, ws * ((i + 1) * per))), Val(n[..], Pow(2, w)), Pow(Pow(2, w), n.Length), Pow(2, w))
  {
    ghost var e, B := Val(exp, Pow(2, w)), Pow(2, w);
    ghost var m := PowsPerChunk(ws);
    for j := 0 to per
      invariant Modulus(n, np, B) && 0 <= ws * (i * per + j)
      invariant forall k :: 0 <= k < (i + 1) * per * m ==> SlotHeld(table[..], k, b, ws, Val(n[..], B), n.Length, B)
      invariant Holds(ret[..], Pow(b, e % Pow(2, ws * (i * per + j))), Val(n[..], B), Pow(B, n.Length), B)
    {
      WindowPlace(i, j, per, ws, w, m);
      var q := i * per + j;
      WindowOfValue(exp, i, ws * j, ws, w);
      var v := Shift(exp[i], ws * j) % Pow(2, ws);
      LowBitsStep(e, ws * q, ws);
      MultiplyWindow(ret, table, q, v, ws, n, np, Pow(2, w), b, e % Pow(2, ws * q));
    }
    MulDist(per, i, 1);
  }

  lemma WindowPlace(i: nat, j: nat, per: nat, ws: nat, w: nat, m: nat)
    requires j < per && w == per * ws
    ensures 0 <= i * per + j && 0 <= ws * j && ws * j + ws <= w && 0 <= w * i
    ensures 0 <= ws * (i * per + j) == w * i + ws * j
    ensures ws * (i * per + (j + 1)) == ws * (i * per + j) + ws
    ensures 0 <= (i * per + j) * m && (i * per + j) * m + m <= (i + 1) * per * m
  {
    MulMono(0, i, 0, per); MulMono(0, ws, 0, j); MulMono(0, ws, 0, i * per + j); MulMono(0, w, 0, i);
    MulMono(j + 1, per, ws, ws); MulDist(ws, j, 1);
    MulDist(ws, i * per, j); MulSwap(ws, i, per); MulDist(ws, i * per + j, 1);
    MulMono(0, i * per + j, 0, m);
    MulDist(per, i, 1); MulDist(m, i * per + j, 1);
    MulMono(i * per + j + 1, (i + 1) * per, m, m);
  }

  /** `mp_modexp_cached_cpu`: the product of one table entry per nonzero window is `b^exp mod n`. */
  method ModExpCached(ret: array<int>, exp: array<int>, table: array<int>, rsq: array<int>, per: nat, ws: nat, w: nat,
                      n: array<int>, np: array<int>, ghost b: int)
    requires w == per * ws && 0 < ws && exp.Length == n.Length && Words(exp[..], Pow(2, w))
    requires Modulus(n, np, Pow(2, w)) && ret != n && ret != np && ret != table && ret != exp
    requires ret.Length == rsq.Length == n.Length && Words(rsq[..], Pow(2, w))
    requires Val(rsq[..], Pow(2, w)) == (Pow(Pow(2, w), n.Length) * Pow(Pow(2, w), n.Length)) % Val(n[..], Pow(2, w))
    requires forall k :: 0 <= k < n.Length * per * PowsPerChunk(ws) ==>
               SlotHeld(table[..], k, b, ws, Val(n[..], Pow(2, w)), n.Length, Pow(2, w))
    modifies ret
    ensures Words(ret[..], Pow(2, w)) && 0 <= Val(exp[..], Pow(2, w))
    ensures Val(ret[..], Pow(2, w)) == Pow(b, Val(exp[..], Pow(2, w))) % Val(n[..], Pow(2, w))
  {
    ghost var B := Pow(2, w);
    var S := n.Length;
    ghost var es := exp[..];
    var tmp := new int[S];
    MakeOne(tmp, Pow(2, w));
    Montgomerize(ret, tmp, rsq, n, np, Pow(2, w));
    ValBound(es, B);
    ghost var e := Val(es, B);
    StartOfProduct(b, e, ws, per);
    for i := 0 to S
      invariant Modulus(n, np, B) && exp[..] == es && 0 <= i * per && 0 <= ws * (i * per)
      invariant forall k :: 0 <= k < S * per * PowsPerChunk(ws) ==> SlotHeld(table[..], k, b, ws, Val(n[..], B), S, B)
      invariant Holds(ret[..], Pow(b, e % Pow(2, ws * (i * per))), Val(n[..], B), Pow(B, S), B)
    {
      RowsUpTo(i, S, per, PowsPerChunk(ws));
      MultiplyWord(ret, exp[..], i, table, per, ws, w, n, np, b);
    }
    WholeExponent(e, ws, per, S, w);
    Demontgomerize(ret, n, np, Pow(2, w), Pow(b, e));
  }

  lemma StartOfProduct(b: int, e: nat, ws: nat, per: nat)
    ensures ws * (0 * per) == 0 && Pow(b, e % Pow(2, 0)) == 1
  {
    assert 0 * per == 0;
    assert e % 1 == 0;
  }

  lemma RowsUpTo(i: nat, S: nat, per: nat, m: nat)
    requires i < S
    ensures 0 <= i * per && 0 <= (i + 1) * per * m <= S * per * m && 0 <= (i + 1) * per
  {
    MulMono(0, i, 0, per);
    MulMono(i + 1, S, per, per);
    MulMono((i + 1) * per, S * per, m, m);
  }

  lemma WholeExponent(e: nat, ws: nat, per: nat, S: nat, w: nat)
    requires w == per * ws && e < Pow(Pow(2, w), S)
    ensures 0 <= ws * (S * per) && e % Pow(2, ws * (S * per)) == e
  {
    MulMono(0, S, 0, per); MulMono(0, ws, 0, S * per);
    assert ws * (S * per) == w * S by { MulSwap(ws, S, per); }
    assert Pow(2, w * S) == Pow(Pow(2, w), S) by { PowMul(2, w, S); }
    SmallMod(e, Pow(2, ws * (S * per)));
  }
}
