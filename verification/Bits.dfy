/** Exclusive or and conjunction on two's complement integers of any width. */
module Bits {
  import opened Arith

  function Mag(x: int): nat {
    if x < 0 then -x - 1 else x
  }

  predicate Sign(x: int) {
    x == 0 || x == -1
  }

  function Xor(a: int, b: int): int
    decreases Mag(a) + Mag(b)
  {
    if Sign(a) && Sign(b) then (if a == b then 0 else -1)
    else 2 * Xor(a / 2, b / 2) + (if a % 2 == b % 2 then 0 else 1)
  }

  function And(a: int, b: int): int
    decreases Mag(a) + Mag(b)
  {
    if Sign(a) && Sign(b) then (if a == b then a else 0)
    else 2 * And(a / 2, b / 2) + (if a % 2 == 1 && b % 2 == 1 then 1 else 0)
  }

  lemma {:induction false} XorComm(a: int, b: int)
    ensures Xor(a, b) == Xor(b, a)
    decreases Mag(a) + Mag(b)
  {
    if !(Sign(a) && Sign(b)) {
      XorComm(a / 2, b / 2);
    }
  }

  lemma {:induction false} XorUndo(a: int, b: int)
    ensures Xor(a, Xor(a, b)) == b
    decreases Mag(a) + Mag(b)
  {
    if !(Sign(a) && Sign(b)) {
      XorUndo(a / 2, b / 2);
      XorHalf(a, Xor(a, b));
      assert Xor(a, b) / 2 == Xor(a / 2, b / 2);
    }
  }

  /** The recursive equation of Xor holds everywhere, the base cases included. */
  lemma XorHalf(a: int, b: int)
    ensures Xor(a, b) == 2 * Xor(a / 2, b / 2) + (if a % 2 == b % 2 then 0 else 1)
  {
  }

  lemma {:induction false} AndMask(x: int)
    ensures And(0, x) == 0 && And(-1, x) == x
    decreases Mag(x)
  {
    if !Sign(x) {
      AndMask(x / 2);
    }
  }

  lemma {:induction false} XorRange(a: int, b: int, k: nat)
    requires -Pow(2, k) <= a < Pow(2, k) && -Pow(2, k) <= b < Pow(2, k)
    ensures -Pow(2, k) <= Xor(a, b) < Pow(2, k)
    decreases k
  {
    if k > 0 {
      XorRange(a / 2, b / 2, k - 1);
      XorHalf(a, b);
    }
  }

  /** Exclusive or works on the low k bits and on the bits above them apart. */
  lemma {:induction false} XorSplit(hi1: int, lo1: int, hi2: int, lo2: int, k: nat)
    requires 0 <= lo1 < Pow(2, k) && 0 <= lo2 < Pow(2, k)
    ensures Xor(hi1 * Pow(2, k) + lo1, hi2 * Pow(2, k) + lo2) == Xor(hi1, hi2) * Pow(2, k) + Xor(lo1, lo2)
    decreases k
  {
    if k > 0 {
      hide Xor;
      var w := Pow(2, k - 1);
      var a, b := hi1 * (2 * w) + lo1, hi2 * (2 * w) + lo2;
      XorSplit(hi1, lo1 / 2, hi2, lo2 / 2, k - 1);
      Halve(hi1, w, lo1);
      Halve(hi2, w, lo2);
      Double(Xor(hi1, hi2), w);
      XorHalf(a, b);
      XorHalf(lo1, lo2);
    }
  }

  lemma Halve(h: int, w: int, lo: int)
    ensures (h * (2 * w) + lo) / 2 == h * w + lo / 2 && (h * (2 * w) + lo) % 2 == lo % 2
  {
    Double(h, w);
  }

  lemma Double(x: int, w: int)
    ensures x * (2 * w) == 2 * (x * w)
  {
  }

  lemma {:induction false} XorNonnegative(a: nat, b: nat)
    ensures 0 <= Xor(a, b)
    decreases a + b
  {
    if !(Sign(a) && Sign(b)) {
      XorNonnegative(a / 2, b / 2);
    }
  }

  lemma XorI64(a: i64, b: i64)
    ensures -0x8000_0000_0000_0000 <= Xor(a, b) < 0x8000_0000_0000_0000
  {
    assert Pow(2, 7) == 128;
    PowAdd(2, 7, 7);
    PowAdd(2, 14, 7);
    PowAdd(2, 21, 21);
    PowAdd(2, 42, 21);
    XorRange(a, b, 63);
  }

  lemma XorByte(a: byte, b: byte)
    ensures 0 <= Xor(a, b) < 256
  {
    assert Pow(2, 8) == 256;
    XorRange(a, b, 8);
    XorNonnegative(a, b);
  }

  lemma {:induction false} XorZero(a: int)
    ensures Xor(a, 0) == a
    decreases Mag(a)
  {
    if !Sign(a) {
      XorZero(a / 2);
    }
  }
}
