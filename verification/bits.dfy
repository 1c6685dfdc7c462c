/**
  Go's bitwise `&`, `|` and `<<` on non-negative integers, defined bit by bit,
  with the facts colour packing needs: a low mask keeps a value that fits under
  it, shifting distributes over or, and or-ing a value below a shifted one is
  addition.
 */
module Bits {

  function Pow2(k: nat): (p: nat)
    ensures p >= 1
  {
    if k == 0 then 1 else 2 * Pow2(k - 1)
  }

  /** `a & b`. */
  function BitAnd(a: nat, b: nat): nat
    decreases a
  {
    if a == 0 || b == 0 then 0
    else 2 * BitAnd(a / 2, b / 2) + (if a % 2 == 1 && b % 2 == 1 then 1 else 0)
  }

  /** `a | b`. */
  function BitOr(a: nat, b: nat): nat
    decreases a + b
  {
    if a == 0 then b
    else if b == 0 then a
    else 2 * BitOr(a / 2, b / 2) + (if a % 2 == 1 || b % 2 == 1 then 1 else 0)
  }

  /** `a << k`: `k` doublings. */
  function Shl(a: nat, k: nat): nat {
    if k == 0 then a else 2 * Shl(a, k - 1)
  }

  /** Shifting left by `k` multiplies by `2^k`. */
  lemma {:induction false} ShlIsMul(a: nat, k: nat)
    ensures Shl(a, k) == a * Pow2(k)
  {
    if k > 0 {
      ShlIsMul(a, k - 1);
      var p := Pow2(k - 1);
      assert a * (2 * p) == 2 * (a * p);
    }
  }

  /** Two shifts add up. */
  lemma {:induction false} ShlShl(a: nat, j: nat, k: nat)
    ensures Shl(Shl(a, j), k) == Shl(a, j + k)
  {
    if k > 0 {
      ShlShl(a, j, k - 1);
    }
  }

  /** Masking with `2^k - 1` leaves a value below `2^k` unchanged. */
  lemma {:induction false} AndLowMask(x: nat, k: nat)
    requires x < Pow2(k)
    ensures BitAnd(x, Pow2(k) - 1) == x
  {
    if k > 0 && x > 0 {
      var m := Pow2(k) - 1;
      assert m / 2 == Pow2(k - 1) - 1 && m % 2 == 1;
      AndLowMask(x / 2, k - 1);
    }
  }

  /** Or-ing two values shifted by the same amount is shifting their or. */
  lemma {:induction false} OrShift(a: nat, b: nat, k: nat)
    ensures BitOr(Shl(a, k), Shl(b, k)) == Shl(BitOr(a, b), k)
  {
    if k > 0 {
      var x, y := Shl(a, k - 1), Shl(b, k - 1);
      OrShift(a, b, k - 1);
      if x > 0 && y > 0 {
        assert BitOr(2 * x, 2 * y) == 2 * BitOr(x, y);
      }
    }
  }

  /** Or-ing a shifted value with one that fits below the shift is addition. */
  lemma {:induction false} OrBelowShift(a: nat, y: nat, k: nat)
    requires y < Pow2(k)
    ensures BitOr(Shl(a, k), y) == Shl(a, k) + y
  {
    if k > 0 {
      var x := Shl(a, k - 1);
      OrBelowShift(a, y / 2, k - 1);
      if x > 0 && y > 0 {
        assert BitOr(2 * x, y) == 2 * BitOr(x, y / 2) + y % 2;
      }
    }
  }
}
