/** Unsigned machine words: rotation, shifts and the bitwise operations, with their ranges. */
module Words {
  import opened Arith
  import opened Bits

  type u32 = x: int | 0 <= x < 0x1_0000_0000
  type u64 = x: int | 0 <= x < 0x1_0000_0000_0000_0000

  lemma Pow32()
    ensures Pow(2, 32) == 0x1_0000_0000
  {
    assert Pow(2, 8) == 256;
    PowAdd(2, 8, 8);
    PowAdd(2, 16, 16);
  }

  lemma Pow64()
    ensures Pow(2, 64) == 0x1_0000_0000_0000_0000
  {
    Pow32();
    PowAdd(2, 32, 32);
  }

  // ---- at any width

  function Shift(x: nat, n: nat): nat {
    PowPositive(2, n);
    x / Pow(2, n)
  }

  /** (x >> n) | (x << (w - n)): the two halves share no bit, so their disjunction is their sum. */
  function Rotate(w: nat, x: nat, n: nat): int
    requires n <= w
  {
    PowPositive(2, n);
    PowPositive(2, w - n);
    x / Pow(2, n) + x % Pow(2, n) * Pow(2, w - n)
  }

  lemma RotateRange(w: nat, x: nat, n: nat)
    requires n <= w && x < Pow(2, w)
    ensures 0 <= Rotate(w, x, n) < Pow(2, w)
  {
    PowPositive(2, n);
    PowPositive(2, w - n);
    PowAdd(2, n, w - n);
    HalvesRange(x, Pow(2, n), Pow(2, w - n));
  }

  lemma HalvesRange(x: nat, p: nat, q: nat)
    requires 0 < p && 0 < q && x < p * q
    ensures 0 <= x / p + x % p * q < p * q
  {
    var h, l := x / p, x % p;
    assert x == h * p + l;
    if h >= q {
      MulOrder(q, h, h, p);
    }
    MulOrder(0, l, p - 1, q);
    Distribute(p, 1, q);
  }

  lemma ShiftRange(x: nat, n: nat, m: nat)
    requires x < m
    ensures Shift(x, n) < m
  {
    PowPositive(2, n);
    QuotientSmall(x, Pow(2, n));
  }

  lemma QuotientSmall(x: nat, p: nat)
    requires 0 < p
    ensures x / p <= x
  {
    MulOrder(1, p, p, x / p);
  }

  lemma {:induction false} AndRange(a: nat, b: nat)
    ensures 0 <= And(a, b) <= a
    decreases a + b
  {
    if !(Sign(a) && Sign(b)) {
      AndRange(a / 2, b / 2);
    }
  }

  lemma WordXor(a: nat, b: nat, w: nat)
    requires a < Pow(2, w) && b < Pow(2, w)
    ensures 0 <= Xor(a, b) < Pow(2, w)
  {
    XorRange(a, b, w);
    XorNonnegative(a, b);
  }

  // ---- 32 bits

  function Add32(x: int): u32 {
    x % 0x1_0000_0000
  }

  function Plus32(x: int, y: int): u32 {
    Add32(x + y)
  }

  function Xor32(x: u32, y: u32): u32 {
    Pow32();
    WordXor(x, y, 32);
    Xor(x, y)
  }

  function And32(x: u32, y: u32): u32 {
    AndRange(x, y);
    And(x, y)
  }

  function Not32(x: u32): u32 {
    0xffff_ffff - x
  }

  function Rotr32(x: u32, n: nat): u32
    requires n <= 32
  {
    Pow32();
    RotateRange(32, x, n);
    Rotate(32, x, n)
  }

  function Shr32(x: u32, n: nat): u32 {
    ShiftRange(x, n, 0x1_0000_0000);
    Shift(x, n)
  }

  // ---- 64 bits

  function Add64(x: int): u64 {
    x % 0x1_0000_0000_0000_0000
  }

  function Plus64(x: int, y: int): u64 {
    Add64(x + y)
  }

  function Xor64(x: u64, y: u64): u64 {
    Pow64();
    WordXor(x, y, 64);
    Xor(x, y)
  }

  function And64(x: u64, y: u64): u64 {
    AndRange(x, y);
    And(x, y)
  }

  function Not64(x: u64): u64 {
    0xffff_ffff_ffff_ffff - x
  }

  function Rotr64(x: u64, n: nat): u64
    requires n <= 64
  {
    Pow64();
    RotateRange(64, x, n);
    Rotate(64, x, n)
  }

  function Shr64(x: u64, n: nat): u64 {
    ShiftRange(x, n, 0x1_0000_0000_0000_0000);
    Shift(x, n)
  }
}
