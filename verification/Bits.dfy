/** Shifts and windows of natural numbers. */
module Bits {
  import opened Arith

  /** `x >> k`. */
  function Shift(x: nat, k: nat): nat {
    if k == 0 then x else Shift(x, k - 1) / 2
  }

  lemma {:induction false} ShiftShift(x: nat, i: nat, j: nat)
    ensures Shift(x, i + j) == Shift(Shift(x, i), j)
    decreases j
  {
    if j > 0 { ShiftShift(x, i, j - 1); }
  }

  lemma {:induction false} ShiftSplit(x: nat, y: nat, r: nat, w: nat)
    requires r <= w
    ensures 0 <= Pow(2, w) * y && 0 <= Pow(2, w - r) * y
    ensures Shift(x + Pow(2, w) * y, r) == Shift(x, r) + Pow(2, w - r) * y
    decreases r
  {
    MulMono(0, Pow(2, w), 0, y); MulMono(0, Pow(2, w - r), 0, y);
    if r > 0 {
      ShiftSplit(x, y, r - 1, w);
      MulAssoc(2, Pow(2, w - r), y);
      assert w - (r - 1) == w - r + 1;
    }
  }

  lemma {:induction false} ShiftOut(x: nat, w: nat)
    requires x < Pow(2, w)
    ensures Shift(x, w) == 0
    decreases w
  {
    if w > 0 {
      ShiftOut(x / 2, w - 1);
      ShiftShift(x, 1, w - 1);
      assert Shift(x, 1) == Shift(x, 0) / 2;
    }
  }

  /** Shifting by the word size drops the lowest word. */
  lemma DropWord(x: nat, y: nat, w: nat)
    requires x < Pow(2, w)
    ensures 0 <= Pow(2, w) * y
    ensures Shift(x + Pow(2, w) * y, w) == y
  {
    ShiftSplit(x, y, w, w);
    ShiftOut(x, w);
  }

  /** A window lying inside the lowest word does not see the words above. */
  lemma WindowInWord(x: nat, y: nat, s: nat, ws: nat, w: nat)
    requires s + ws <= w
    ensures 0 <= Pow(2, w) * y
    ensures Shift(x + Pow(2, w) * y, s) % Pow(2, ws) == Shift(x, s) % Pow(2, ws)
  {
    ShiftSplit(x, y, s, w);
    var q, r := Pow(2, ws), Pow(2, w - s - ws);
    assert Pow(2, w - s) * y == (r * y) * q by {
      PowAdd(2, ws, w - s - ws);
      MulAssoc(q, r, y);
    }
    CongShift(Shift(x, s), r * y, q);
  }

  lemma ShiftDigit(x: nat, k: nat)
    ensures x == x % Pow(2, k) + Pow(2, k) * Shift(x, k)
  {
    ShiftIsDiv(x, k);
  }

  lemma {:induction false} ShiftIsDiv(x: nat, k: nat)
    ensures Shift(x, k) == x / Pow(2, k)
    decreases k
  {
    if k == 0 {
      assert x / 1 == x;
    } else {
      ShiftIsDiv(x, k - 1);
      var q := Pow(2, k - 1);
      var y, r := x / q, x % q;
      assert x == y * q + r;
      var j := (y % 2) * q + r;
      assert x == (y / 2) * (2 * q) + j by {
        assert y == 2 * (y / 2) + y % 2;
        MulDist(q, 2 * (y / 2), y % 2);
        MulAssoc(2, y / 2, q); MulSwap(y / 2, 2, q);
      }
      assert 0 <= j < 2 * q;
      DivModIs(x, y / 2, j, 2 * q);
    }
  }

  /** The low `s + ws` bits are the low `s` bits and the window above them. */
  lemma LowBitsStep(e: nat, s: nat, ws: nat)
    ensures e % Pow(2, s + ws) == e % Pow(2, s) + Pow(2, s) * (Shift(e, s) % Pow(2, ws))
  {
    var h := Shift(e, s);
    var v := h % Pow(2, ws);
    ShiftDigit(e, s);
    ShiftDigit(h, ws);
    ShiftDigit(e, s + ws);
    ShiftShift(e, s, ws);
    PowAdd(2, s, ws);
    MulDist(Pow(2, s), v, Pow(2, ws) * Shift(h, ws));
    MulAssoc(Pow(2, s), Pow(2, ws), Shift(h, ws));
  }
}
