/** Bitwise operations on w-bit words, spelled out bit by bit, and what masks of leading
    ones do to a word. */
module Bits {
  function Pow2(n: nat): (r: nat)
    ensures r > 0
  {
    if n == 0 then 1 else 2 * Pow2(n - 1)
  }

  function And(w: nat, x: nat, y: nat): nat {
    if w == 0 then 0
    else 2 * And(w - 1, x / 2, y / 2) + if x % 2 == 1 && y % 2 == 1 then 1 else 0
  }

  function Or(w: nat, x: nat, y: nat): nat {
    if w == 0 then 0
    else 2 * Or(w - 1, x / 2, y / 2) + if x % 2 == 1 || y % 2 == 1 then 1 else 0
  }

  function Not(w: nat, x: nat): nat {
    if w == 0 then 0
    else 2 * Not(w - 1, x / 2) + if x % 2 == 1 then 0 else 1
  }

  // x << n cut to w bits: each step drops the top bit.
  function ShiftLeft(w: nat, x: nat, n: nat): (r: nat)
    requires x < Pow2(w)
    ensures r < Pow2(w)
  {
    if n == 0 then x
    else
      var y := ShiftLeft(w, x, n - 1);
      if 2 * y < Pow2(w) then 2 * y else 2 * y - Pow2(w)
  }

  // The w-bit word of the given number of leading ones: all ones, shifted.
  function Mask(w: nat, ones: nat): nat
    requires ones <= w
  {
    ShiftLeft(w, Pow2(w) - 1, w - ones)
  }

  // x with its n low bits cleared, and with them set.
  function Clear(x: nat, n: nat): nat {
    if n == 0 then x else 2 * Clear(x / 2, n - 1)
  }

  function Fill(x: nat, n: nat): nat {
    if n == 0 then x else 2 * Fill(x / 2, n - 1) + 1
  }

  lemma {:induction false} Pow2Monotone(a: nat, b: nat)
    requires a <= b
    ensures Pow2(a) <= Pow2(b)
  {
    if a == b {
    } else {
      Pow2Monotone(a, b - 1);
    }
  }

  lemma {:induction false} ShiftedOnes(w: nat, n: nat)
    requires n <= w
    ensures ShiftLeft(w, Pow2(w) - 1, n) == Pow2(w) - Pow2(n)
  {
    if n == 0 {
    } else {
      ShiftedOnes(w, n - 1);
      Pow2Monotone(n, w);
    }
  }

  lemma {:induction false} AndOnes(w: nat, x: nat, n: nat)
    requires n <= w && x < Pow2(w)
    ensures Pow2(n) <= Pow2(w) && And(w, x, Pow2(w) - Pow2(n)) == Clear(x, n)
  {
    Pow2Monotone(n, w);
    if w == 0 {
    } else if n == 0 {
      AndOnes(w - 1, x / 2, 0);
      assert (Pow2(w) - 1) / 2 == Pow2(w - 1) - 1;
    } else {
      AndOnes(w - 1, x / 2, n - 1);
      assert (Pow2(w) - Pow2(n)) / 2 == Pow2(w - 1) - Pow2(n - 1);
    }
  }

  lemma {:induction false} NotOnes(w: nat, n: nat)
    requires n <= w
    ensures Pow2(n) <= Pow2(w) && Not(w, Pow2(w) - Pow2(n)) == Pow2(n) - 1
  {
    Pow2Monotone(n, w);
    if w == 0 {
    } else if n == 0 {
      NotOnes(w - 1, 0);
      assert (Pow2(w) - 1) / 2 == Pow2(w - 1) - 1;
    } else {
      NotOnes(w - 1, n - 1);
      assert (Pow2(w) - Pow2(n)) / 2 == Pow2(w - 1) - Pow2(n - 1);
    }
  }

  lemma {:induction false} OrLow(w: nat, x: nat, n: nat)
    requires n <= w && x < Pow2(w)
    ensures Or(w, x, Pow2(n) - 1) == Fill(x, n)
  {
    if n == 0 {
      OrZero(w, x);
    } else {
      var y := Pow2(n - 1) - 1;
      assert Pow2(n) - 1 == 2 * y + 1 && (2 * y + 1) / 2 == y && (2 * y + 1) % 2 == 1;
      OrLow(w - 1, x / 2, n - 1);
    }
  }

  lemma {:induction false} OrZero(w: nat, x: nat)
    requires x < Pow2(w)
    ensures Or(w, x, 0) == x
  {
    if w == 0 {
    } else {
      OrZero(w - 1, x / 2);
    }
  }

  // And with a mask of leading ones clears the remaining low bits, Or with its
  // complement sets them.
  lemma MaskActs(w: nat, ones: nat, x: nat)
    requires ones <= w && x < Pow2(w)
    ensures And(w, x, Mask(w, ones)) == Clear(x, w - ones)
    ensures Or(w, x, Not(w, Mask(w, ones))) == Fill(x, w - ones)
  {
    ShiftedOnes(w, w - ones);
    AndOnes(w, x, w - ones);
    NotOnes(w, w - ones);
    OrLow(w, x, w - ones);
  }

  lemma MaskBounds(w: nat, ones: nat, x: nat)
    requires ones <= w && x < Pow2(w)
    ensures And(w, x, Mask(w, ones)) == Clear(x, w - ones)
    ensures Or(w, x, Not(w, Mask(w, ones))) == Fill(x, w - ones)
    ensures Clear(x, w - ones) <= x <= Fill(x, w - ones) < Pow2(w)
  {
    MaskActs(w, ones, x);
    FillBelow(w, x, w - ones);
  }

  // Words that agree above their n low bits form an interval.
  lemma {:induction false} ClearInterval(a: nat, x: nat, n: nat)
    ensures Clear(x, n) == Clear(a, n) <==> Clear(a, n) <= x <= Fill(a, n)
  {
    if n == 0 {
    } else {
      ClearInterval(a / 2, x / 2, n - 1);
    }
  }

  lemma {:induction false} ClearNests(x: nat, n: nat, m: nat)
    requires n <= m
    ensures Clear(Clear(x, n), m) == Clear(x, m)
  {
    if n == 0 {
    } else {
      ClearNests(x / 2, n - 1, m - 1);
    }
  }

  lemma {:induction false} FillBelow(w: nat, x: nat, n: nat)
    requires n <= w && x < Pow2(w)
    ensures Clear(x, n) <= x <= Fill(x, n) < Pow2(w)
  {
    if n == 0 {
    } else {
      FillBelow(w - 1, x / 2, n - 1);
    }
  }

  // Clearing every bit leaves 0, filling them leaves all ones.
  lemma {:induction false} ClearAll(w: nat, x: nat)
    requires x < Pow2(w)
    ensures Clear(x, w) == 0 && Fill(x, w) == Pow2(w) - 1
  {
    if w == 0 {
    } else {
      ClearAll(w - 1, x / 2);
    }
  }

  lemma WordSizes()
    ensures Pow2(8) == 256 && Pow2(32) == 0x1_0000_0000
  {
    assert Pow2(8) == 256;
    assert Pow2(16) == 256 * Pow2(8);
    assert Pow2(24) == 256 * Pow2(16);
    assert Pow2(32) == 256 * Pow2(24);
  }
}
