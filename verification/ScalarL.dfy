/** Reduction modulo the group order L, and the scalars of a signature. */
module ScalarL {
  import opened Arith

  const L: int := 0x1000000000000000000000000000000014def9dea2f79cd65812631a5cf5d3ed

  const LBYTES: seq<byte> := [0xed, 0xd3, 0xf5, 0x5c, 0x1a, 0x63, 0x12, 0x58, 0xd6, 0x9c, 0xf7, 0xa2, 0xde, 0xf9, 0xde, 0x14,
                              0, 0, 0, 0, 0, 0, 0, 0, 0, 0, 0, 0, 0, 0, 0, 0x10]

  /** The part of L below its top byte. */
  const DELTA: int := 0x14def9dea2f79cd65812631a5cf5d3ed

  /** Limb size the callers of modL can build. */
  const RAW: int := 255 + 32 * 255 * 255

  /** Limb size once the first pass has carried into limb 51. */
  const RAISED: int := RAW + 8300

  function Value64(x: seq<int>): int
    requires |x| == 64
  {
    Val(256, x, 64)
  }

  // ---- one elimination

  /** What the limbs hold before limb i is eliminated. */
  ghost predicate Before(x: seq<int>, i: int) {
    |x| == 64 && 31 <= i <= 63
    && (forall k :: i < k < 64 ==> x[k] == 0)
    && (forall k :: 0 <= k <= i - 32 ==> 0 <= x[k] <= RAW)
    && (forall k :: i - 31 <= k <= i - 12 && i < 63 ==> -128 <= x[k] <= 127)
    && (forall k :: i - 11 <= k <= i && k <= 50 ==> -129 <= x[k] <= 128)
    && (forall k :: 51 <= k <= i ==> -RAISED <= x[k] <= RAISED)
    && (i == 63 ==> forall k :: 0 <= k < 64 ==> 0 <= x[k] <= RAW)
  }

  /** How large the carry out of o limbs can be: it shrinks fast once the bytes of L are zero. */
  function CarryLimit(i: int, o: nat): int {
    if o <= 16 then 0x400_0000
    else if i == 63 then (if o == 17 then 300000 else if o == 18 then 9500 else 8300)
    else if o == 17 then 270000 else if o == 18 then 1060 else if o == 19 then 6 else 1
  }

  lemma CarryShrinks(i: int, o: nat, x: int, carry: int, xi: int, next: int)
    requires o < 20 && -RAISED <= xi <= RAISED && -CarryLimit(i, o) <= carry <= CarryLimit(i, o)
    requires if i == 63 then 0 <= x <= RAW else if o < 16 then -128 <= x <= RAW else -128 <= x <= 127
    requires next == (x + carry - 16 * xi * LBYTES[o] + 128) / 256
    ensures -CarryLimit(i, o + 1) <= next <= CarryLimit(i, o + 1)
  {
    if o < 16 {
      MulOrder(-RAISED, xi, RAISED, LBYTES[o]);
      MulOrder(0, LBYTES[o], 255, RAISED);
    } else {
      assert LBYTES[o] == 0;
    }
  }

  lemma StepL(j: nat, o: nat)
    requires o < 20
    ensures |LBYTES| == 32 && Pow(256, j + 1) == 256 * Pow(256, j)
    ensures Val(256, LBYTES, o + 1) == Val(256, LBYTES, o) + LBYTES[o] * Pow(256, o)
  {
  }

  lemma Value64Is(x: seq<int>)
    requires |x| == 64
    ensures Value64(x) == Val(256, x, 64)
  {
  }

  /** The value once o limbs have been subtracted, the outgoing carry counted at its weight. */
  ghost predicate Subtracted(x: seq<int>, i: int, o: nat, carry: int, xi: int, v: int) {
    |x| == 64 && i >= 32 && o <= 20
    && Value64(x) + carry * Pow(256, i - 32 + o) == v - 16 * xi * Val(256, LBYTES, o) * Pow(256, i - 32)
  }

  lemma SubtractedIs(x: seq<int>, i: int, o: nat, carry: int, xi: int, v: int)
    requires |x| == 64 && i >= 32 && o <= 20
    ensures Subtracted(x, i, o, carry, xi, v) <==>
      Value64(x) + carry * Pow(256, i - 32 + o) == v - 16 * xi * Val(256, LBYTES, o) * Pow(256, i - 32)
  {
    hide Value64, Pow, Val, LBYTES;
  }

  lemma ElimStep(x: seq<int>, y: seq<int>, i: nat, o: nat, carry: int, next: int, xi: int, v: int)
    requires 32 <= i < 64 && o < 20 && |x| == |y| == 64
    requires y == x[i - 32 + o := x[i - 32 + o] + carry - 16 * xi * LBYTES[o] - next * 256]
    requires Subtracted(x, i, o, carry, xi, v)
    ensures Subtracted(y, i, o + 1, next, xi, v)
  {
    hide *;
    SubtractedIs(x, i, o, carry, xi, v);
    SubtractedIs(y, i, o + 1, next, xi, v);
    var j := i - 32 + o;
    ValUpdate(256, x, y, 64, j);
    PowAdd(256, i - 32, o);
    StepL(j, o);
    Value64Is(x);
    Value64Is(y);
    ElimWeights(Value64(x), carry, next, 16 * xi, LBYTES[o], Val(256, LBYTES, o), Pow(256, i - 32), Pow(256, o));
  }

  lemma ElimWeights(v: int, carry: int, next: int, m: int, l: int, low: int, w: int, u: int)
    ensures v + (carry - m * l - next * 256) * (w * u) + next * (256 * (w * u)) + m * (low + l * u) * w
         == v + carry * (w * u) + m * low * w
  {
    var z := w * u;
    Distribute(carry - m * l, next * 256, z);
    Distribute(carry, m * l, z);
    assert (next * 256) * z == next * (256 * z);
    assert m * (low + l * u) * w == m * low * w + (m * l) * z;
  }

  /** One limb of the subtraction. */
  method EliminateLimb(x: array<i64>, i: int, o: nat, carry: i64) returns (next: i64)
    requires x.Length == 64 && 32 <= i <= 63 && o < 20
    requires -RAISED <= x[i] <= RAISED && -CarryLimit(i, o) <= carry <= CarryLimit(i, o)
    requires if i == 63 then 0 <= x[i - 32 + o] <= RAW
             else if o < 16 then -128 <= x[i - 32 + o] <= RAW else -128 <= x[i - 32 + o] <= 127
    modifies x
    ensures x[..] == old(x[..])[i - 32 + o := old(x[i - 32 + o]) + carry - 16 * old(x[i]) * LBYTES[o] - next * 256]
    ensures -128 <= x[i - 32 + o] <= 127
    ensures -CarryLimit(i, o + 1) <= next <= CarryLimit(i, o + 1)
  {
    var j := i - 32 + o;
    CarryShrinks(i, o, x[j], carry, x[i], (x[j] + carry - 16 * x[i] * LBYTES[o] + 128) / 256);
    ProductLimit(x[i], LBYTES[o]);
    var product: i64 := 16 * x[i] * LBYTES[o];
    var sum: i64 := carry - product;
    x[j] := x[j] + sum;
    next := (x[j] + 128) / 256;
    x[j] := x[j] - next * 256;
  }

  lemma ProductLimit(xi: int, l: byte)
    requires -RAISED <= xi <= RAISED
    ensures -256 * 16 * RAISED <= 16 * xi * l <= 256 * 16 * RAISED
  {
    MulOrder(-RAISED, xi, RAISED, l);
  }

  lemma BeforeAt(s: seq<int>, i: int, o: nat)
    requires 32 <= i <= 63 && o < 20 && Before(s, i)
    ensures |s| == 64 && -RAISED <= s[i] <= RAISED
    ensures if i == 63 then 0 <= s[i - 32 + o] <= RAW
            else if o < 16 then -128 <= s[i - 32 + o] <= RAW else -128 <= s[i - 32 + o] <= 127
  {
  }

  lemma CarryStart(x: seq<int>, i: int, xi: int)
    requires |x| == 64 && 32 <= i
    ensures CarryLimit(i, 0) >= 0 && Subtracted(x, i, 0, 0, xi, Value64(x))
  {
    hide Value64, Pow, LBYTES;
  }

  /** The twenty low limbs of the subtraction. */
  method EliminateLow(x: array<i64>, i: int) returns (carry: i64)
    requires x.Length == 64 && 32 <= i <= 63 && Before(x[..], i)
    modifies x
    ensures -CarryLimit(i, 20) <= carry <= CarryLimit(i, 20)
    ensures forall k :: 0 <= k < i - 32 || i - 12 <= k < 64 ==> x[k] == old(x[k])
    ensures forall k :: i - 32 <= k < i - 12 ==> -128 <= x[k] <= 127
    ensures Value64(x[..]) + carry * Pow(256, i - 12)
         == old(Value64(x[..])) - 16 * old(x[i]) * Val(256, LBYTES, 20) * Pow(256, i - 32)
  {
    ghost var s: seq<int>, xi, v := x[..], x[i], Value64(x[..]);
    hide *;
    CarryStart(s, i, xi);
    assert x[..] == s;
    carry := 0;
    for o := 0 to 20
      invariant -CarryLimit(i, o) <= carry <= CarryLimit(i, o)
      invariant forall k :: 0 <= k < i - 32 || i - 32 + o <= k < 64 ==> x[k] == s[k]
      invariant forall k :: i - 32 <= k < i - 32 + o ==> -128 <= x[k] <= 127
      invariant Subtracted(x[..], i, o, carry, xi, v)
    {
      ghost var t: seq<int>, before := x[..], carry;
      BeforeAt(s, i, o);
      assert s[i - 32 + o] == x[i - 32 + o] && x[i] == xi;
      carry := EliminateLimb(x, i, o, carry);
      ElimStep(t, x[..], i, o, before, carry, xi, v);
    }
    SubtractedIs(x[..], i, 20, carry, xi, v);
  }

  /** Subtracting 16 x[i] L at limb i - 32 clears limb i. */
  method Eliminate(x: array<i64>, i: int)
    requires x.Length == 64 && 32 <= i <= 63 && Before(x[..], i)
    modifies x
    ensures Before(x[..], i - 1)
    ensures Value64(x[..]) == old(Value64(x[..])) - 16 * old(x[i]) * Pow(256, i - 32) * L
  {
    hide Value64, Val, Pow, L;
    ghost var xi, v := x[i], Value64(x[..]);
    var carry := EliminateLow(x, i);
    ghost var t: seq<int> := x[..];
    x[i - 12] := x[i - 12] + carry;
    x[i] := 0;
    ElimTop(t, x[..], i, carry, xi, v);
  }

  lemma ElimTop(t: seq<int>, y: seq<int>, i: nat, carry: int, xi: int, v: int)
    requires 32 <= i < 64 && |t| == |y| == 64 && t[i] == xi
    requires y == t[i - 12 := t[i - 12] + carry][i := 0]
    requires Value64(t) + carry * Pow(256, i - 12) == v - 16 * xi * Val(256, LBYTES, 20) * Pow(256, i - 32)
    ensures Value64(y) == v - 16 * xi * Pow(256, i - 32) * L
  {
    var u := t[i - 12 := t[i - 12] + carry];
    ValUpdate(256, t, u, 64, i - 12);
    ValUpdate(256, u, y, 64, i);
    PowAdd(256, i - 32, 32);
    LowL();
    Pow256_32();
    TopSum(Value64(t), carry * Pow(256, i - 12), xi, Pow(256, i - 32), v);
  }

  lemma TopSum(vt: int, c: int, xi: int, w: int, v: int)
    requires vt + c == v - 16 * xi * DELTA * w
    ensures vt + c + (0 - xi) * (w * (16 * (L - DELTA))) == v - 16 * xi * w * L
  {
    TopWeights(xi, w);
  }

  lemma TopWeights(xi: int, w: int)
    ensures xi * (w * (16 * (L - DELTA))) + 16 * xi * DELTA * w == 16 * xi * w * L
  {
    var u := xi * w;
    assert xi * (w * (16 * (L - DELTA))) == u * (16 * (L - DELTA));
    assert 16 * xi * DELTA * w == u * (16 * DELTA);
    assert 16 * xi * w * L == u * (16 * L);
  }

  lemma LowL()
    ensures Val(256, LBYTES, 20) == DELTA
  {
    hide Val, Pow;
    LowWritten(LBYTES);
    ZeroTop(LBYTES, 16, 4);
  }

  /** Zero digits on top add nothing. */
  lemma {:induction false} ZeroTop(s: seq<int>, m: nat, n: nat)
    requires m + n <= |s| && forall k :: m <= k < m + n ==> s[k] == 0
    ensures Val(256, s, m + n) == Val(256, s, m)
  {
    if n > 0 {
      ZeroTop(s, m, n - 1);
    }
  }

  /** The value of sixteen bytes with the weights written out. */
  lemma LowWritten(s: seq<int>)
    requires |s| >= 16
    ensures Val(256, s, 16)
         == s[0] + s[1] * 0x100 + s[2] * 0x10000 + s[3] * 0x1000000
           + s[4] * 0x100000000 + s[5] * 0x10000000000 + s[6] * 0x1000000000000 + s[7] * 0x100000000000000
           + s[8] * 0x10000000000000000 + s[9] * 0x1000000000000000000 + s[10] * 0x100000000000000000000 + s[11] * 0x10000000000000000000000
           + s[12] * 0x1000000000000000000000000 + s[13] * 0x100000000000000000000000000 + s[14] * 0x10000000000000000000000000000 + s[15] * 0x1000000000000000000000000000000
  {
    assert Pow(256, 0) == 0x1;
    assert Pow(256, 1) == 0x100;
    assert Pow(256, 2) == 0x10000;
    assert Pow(256, 3) == 0x1000000;
    assert Pow(256, 4) == 0x100000000;
    assert Pow(256, 5) == 0x10000000000;
    assert Pow(256, 6) == 0x1000000000000;
    assert Pow(256, 7) == 0x100000000000000;
    assert Pow(256, 8) == 0x10000000000000000;
    assert Pow(256, 9) == 0x1000000000000000000;
    assert Pow(256, 10) == 0x100000000000000000000;
    assert Pow(256, 11) == 0x10000000000000000000000;
    assert Pow(256, 12) == 0x1000000000000000000000000;
    assert Pow(256, 13) == 0x100000000000000000000000000;
    assert Pow(256, 14) == 0x10000000000000000000000000000;
    assert Pow(256, 15) == 0x1000000000000000000000000000000;
    assert Val(256, s, 1) == Val(256, s, 0) + s[0] * 0x1;
    assert Val(256, s, 2) == Val(256, s, 1) + s[1] * 0x100;
    assert Val(256, s, 3) == Val(256, s, 2) + s[2] * 0x10000;
    assert Val(256, s, 4) == Val(256, s, 3) + s[3] * 0x1000000;
    assert Val(256, s, 5) == Val(256, s, 4) + s[4] * 0x100000000;
    assert Val(256, s, 6) == Val(256, s, 5) + s[5] * 0x10000000000;
    assert Val(256, s, 7) == Val(256, s, 6) + s[6] * 0x1000000000000;
    assert Val(256, s, 8) == Val(256, s, 7) + s[7] * 0x100000000000000;
    assert Val(256, s, 9) == Val(256, s, 8) + s[8] * 0x10000000000000000;
    assert Val(256, s, 10) == Val(256, s, 9) + s[9] * 0x1000000000000000000;
    assert Val(256, s, 11) == Val(256, s, 10) + s[10] * 0x100000000000000000000;
    assert Val(256, s, 12) == Val(256, s, 11) + s[11] * 0x10000000000000000000000;
    assert Val(256, s, 13) == Val(256, s, 12) + s[12] * 0x1000000000000000000000000;
    assert Val(256, s, 14) == Val(256, s, 13) + s[13] * 0x100000000000000000000000000;
    assert Val(256, s, 15) == Val(256, s, 14) + s[14] * 0x10000000000000000000000000000;
    assert Val(256, s, 16) == Val(256, s, 15) + s[15] * 0x1000000000000000000000000000000;
  }

  lemma Pow256_32()
    ensures Pow(256, 32) == 16 * (L - DELTA) == 0x1_0000000000000000_0000000000000000_0000000000000000_0000000000000000
    ensures Pow(256, 31) == L - DELTA - 15 * Pow(256, 31)
  {
    assert Pow(256, 4) == 0x1_0000_0000;
    PowAdd(256, 4, 4);
    PowAdd(256, 8, 8);
    PowAdd(256, 16, 16);
    assert Pow(256, 32) == 256 * Pow(256, 31);
  }

  lemma AllL()
    ensures Val(256, LBYTES, 32) == L
  {
    LowL();
    ZeroTop(LBYTES, 20, 11);
    Pow256_32();
    assert Val(256, LBYTES, 32) == Val(256, LBYTES, 31) + LBYTES[31] * Pow(256, 31);
  }

  // ---- the last two subtractions

  /** Bytes after subtracting floor(x[31] / 16) L, with the borrow that leaves the top. */
  method SubtractMultiple(x: array<i64>) returns (carry: i64)
    requires x.Length == 64 && Before(x[..], 31)
    modifies x
    ensures -10 <= carry <= 10
    ensures forall k :: 0 <= k < 32 ==> 0 <= x[k] <= 255
    ensures forall k :: 32 <= k < 64 ==> x[k] == 0
    ensures Val(256, x[..], 32) + carry * Pow(256, 32) == old(Val(256, x[..], 32)) - old(x[31]) / 16 * L
  {
    ghost var s: seq<int>, q := x[..], x[31] / 16;
    carry := 0;
    for j := 0 to 32
      invariant -10 <= carry <= 10
      invariant forall k :: 0 <= k < j ==> 0 <= x[k] <= 255
      invariant forall k :: j <= k < 64 ==> x[k] == s[k]
      invariant Val(256, x[..], j) + carry * Pow(256, j) == Val(256, s, j) - q * Val(256, LBYTES, j)
    {
      ghost var t: seq<int>, before := x[..], carry;
      assert -129 <= s[j] <= 128 && -9 <= q <= 8;
      MulOrder(-9, q, 8, LBYTES[j]);
      var product: i64 := x[31] / 16 * LBYTES[j];
      x[j] := x[j] + (carry - product);
      carry := x[j] / 256;
      x[j] := x[j] % 256;
      MultipleStep(t, x[..], s, j, before, carry, q);
    }
    AllL();
  }

  lemma MultipleStep(t: seq<int>, y: seq<int>, s: seq<int>, j: nat, carry: int, next: int, q: int)
    requires j < 32 && |t| == |y| == |s| == 64
    requires forall k :: 0 <= k < j ==> y[k] == t[k]
    requires y[j] + 256 * next == s[j] + carry - q * LBYTES[j]
    requires Val(256, t, j) + carry * Pow(256, j) == Val(256, s, j) - q * Val(256, LBYTES, j)
    ensures Val(256, y, j + 1) + next * Pow(256, j + 1) == Val(256, s, j + 1) - q * Val(256, LBYTES, j + 1)
  {
    ValSame(256, t, y, j);
    MultipleWeights(y[j], next, s[j], carry, q, LBYTES[j], Val(256, LBYTES, j), Pow(256, j));
  }

  lemma MultipleWeights(y: int, next: int, s: int, carry: int, q: int, l: int, low: int, w: int)
    requires y + 256 * next == s + carry - q * l
    ensures y * w + next * (256 * w) - carry * w == s * w - q * (low + l * w) + q * low
  {
    Distribute(y, 256 * next, w);
    Distribute(s + carry, q * l, w);
    Distribute(s, carry, w);
    assert (256 * next) * w == next * (256 * w);
    assert (q * l) * w == q * (l * w);
  }

  /** x := x - carry L, limb by limb. */
  method AddBack(x: array<i64>, carry: i64)
    requires x.Length == 64 && -10 <= carry <= 10
    requires forall k :: 0 <= k < 32 ==> 0 <= x[k] <= 255
    modifies x
    ensures forall k :: 0 <= k < 32 ==> -2600 <= x[k] <= 2900
    ensures forall k :: 32 <= k < 64 ==> x[k] == old(x[k])
    ensures Val(256, x[..], 32) == old(Val(256, x[..], 32)) - carry * L
  {
    ghost var s: seq<int> := x[..];
    for j := 0 to 32
      invariant forall k :: 0 <= k < j ==> x[k] == s[k] - carry * LBYTES[k]
      invariant forall k :: 0 <= k < j ==> -2600 <= x[k] <= 2900
      invariant forall k :: j <= k < 64 ==> x[k] == s[k]
    {
      MulOrder(-10, carry, 10, LBYTES[j]);
      var product: i64 := carry * LBYTES[j];
      x[j] := x[j] - product;
    }
    AllL();
    SubMultiple(s, LBYTES, x[..], carry, 32);
  }

  lemma {:induction false} SubMultiple(s: seq<int>, l: seq<int>, y: seq<int>, c: int, n: nat)
    requires n <= |s| && n <= |l| && n <= |y|
    requires forall k :: 0 <= k < n ==> y[k] == s[k] - c * l[k]
    ensures Val(256, y, n) == Val(256, s, n) - c * Val(256, l, n)
  {
    if n > 0 {
      SubMultiple(s, l, y, c, n - 1);
      Distribute(s[n - 1], c * l[n - 1], Pow(256, n - 1));
      assert (c * l[n - 1]) * Pow(256, n - 1) == c * (l[n - 1] * Pow(256, n - 1));
    }
  }

  /** The bytes of x modulo 2^256. */
  method Emit(r: array<byte>, x: array<i64>)
    requires r.Length >= 32 && x.Length == 64
    requires forall k :: 0 <= k < 32 ==> -2600 <= x[k] <= 2900
    requires forall k :: 32 <= k < 64 ==> x[k] == 0
    modifies r, x
    ensures Val(256, r[..], 32) == old(Val(256, x[..], 32)) % Pow256()
    ensures forall k :: 32 <= k < r.Length ==> r[k] == old(r[k])
  {
    ghost var s: seq<int>, c := x[..], 0;
    for i := 0 to 32
      invariant -20 <= c <= 20
      invariant x[i] == s[i] + c
      invariant forall k :: i < k < 64 ==> x[k] == s[k]
      invariant forall k :: 32 <= k < r.Length ==> r[k] == old(r[k])
      invariant Val(256, r[..], i) + c * Pow(256, i) == Val(256, s, i)
    {
      ghost var t := r[..];
      x[i + 1] := x[i + 1] + x[i] / 256;
      r[i] := x[i] % 256;
      EmitStep(t, r[..], s, i, c, x[i] / 256);
      c := x[i] / 256;
    }
    ValRange(256, r[..], 32);
    Pow256_32();
    ModUnique(Val(256, s, 32), c, Val(256, r[..], 32), Pow256());
  }

  function Pow256(): int {
    0x1_0000000000000000_0000000000000000_0000000000000000_0000000000000000
  }

  lemma EmitStep(t: seq<int>, r: seq<int>, s: seq<int>, i: nat, c: int, next: int)
    requires i < 32 && |t| == |r| >= 32 && |s| == 64
    requires forall k :: 0 <= k < i ==> r[k] == t[k]
    requires r[i] + 256 * next == s[i] + c
    requires Val(256, t, i) + c * Pow(256, i) == Val(256, s, i)
    ensures Val(256, r, i + 1) + next * Pow(256, i + 1) == Val(256, s, i + 1)
  {
    ValSame(256, t, r, i);
    MultipleWeights(r[i], next, s[i], c, 0, 0, 0, Pow(256, i));
  }

  lemma LastLimbs(s: seq<int>)
    requires Before(s, 31)
    ensures |s| == 64 && forall k :: 0 <= k < 32 ==> -129 <= s[k] <= 128
  {
  }

  lemma TopLimb(s: seq<int>)
    requires |s| == 64
    ensures Val(256, s, 32) == Val(256, s, 31) + s[31] * Pow(256, 31)
  {
  }

  lemma Pow256Is()
    ensures Pow256() == 0x1_0000000000000000_0000000000000000_0000000000000000_0000000000000000
  {
  }

  lemma ScaleTop(low: int, top: int, w: int, m: int)
    requires w == m - 15 * w
    ensures 16 * (low + top * w) == 16 * low + top * m
  {
    assert m == 16 * w;
    assert top * (16 * w) == 16 * (top * w);
  }

  lemma ResidueBounds(low: int, top: int, v: int, b: int, carry: int)
    requires -129 * (L - DELTA) <= 16 * 255 * low <= 128 * (L - DELTA)
    requires -129 <= top <= 128 && 16 * v == 16 * low + top * (L - DELTA)
    requires 0 <= b < 16 * (L - DELTA) && b + carry * (16 * (L - DELTA)) == v - top / 16 * L
    ensures (b - carry * L) % (16 * (L - DELTA)) == v % L
  {
    var q := top / 16;
    var t := v - q * L;
    TopBounds(low, top, v);
    CarryIs(t, b, carry);
    hide *;
    FinalMod(v, q, t, b, carry, L, 16 * (L - DELTA));
  }

  lemma TopBounds(low: int, top: int, v: int)
    requires -129 * (L - DELTA) <= 16 * 255 * low <= 128 * (L - DELTA)
    requires -129 <= top <= 128 && 16 * v == 16 * low + top * (L - DELTA)
    ensures -L < v - top / 16 * L < L
  {
    var q, r := top / 16, top % 16;
    assert top == 16 * q + r && -9 <= q <= 8 && 0 <= r <= 15;
    assert 16 * (v - q * L) == 16 * low + r * (L - DELTA) - 16 * (q * DELTA);
  }

  lemma CarryIs(t: int, b: int, carry: int)
    requires -L < t < L && 0 <= b < 16 * (L - DELTA) && b + carry * (16 * (L - DELTA)) == t
    ensures if t >= 0 then carry == 0 && b == t else carry == -1 && b == t + 16 * (L - DELTA)
    ensures 0 < L < 16 * (L - DELTA)
  {
  }

  lemma FinalMod(v: int, q: int, t: int, b: int, carry: int, l: int, w: int)
    requires 0 < l < w && -l < t < l && v == t + q * l
    requires if t >= 0 then carry == 0 && b == t else carry == -1 && b == t + w
    ensures (b - carry * l) % w == v % l
  {
    if t >= 0 {
      ModUnique(v, q, t, l);
      ModUnique(b - carry * l, 0, t, w);
    } else {
      Distribute(q, 1, l);
      ModUnique(v, q - 1, t + l, l);
      ModUnique(b - carry * l, 1, t + l, w);
    }
  }

  /** modL: the residue in [0, L), for every input its two callers can build. */
  method ModL(r: array<byte>, x: array<i64>)
    requires r.Length >= 32 && x.Length == 64
    requires forall k :: 0 <= k < 64 ==> 0 <= x[k] <= RAW
    modifies r, x
    ensures Val(256, r[..], 32) == old(Value64(x[..])) % L
    ensures forall k :: 32 <= k < r.Length ==> r[k] == old(r[k])
  {
    ghost var v := Value64(x[..]);
    var i := 63;
    while i >= 32
      invariant 31 <= i <= 63 && r[..] == old(r[..])
      invariant Before(x[..], i) && Value64(x[..]) % L == v % L
    {
      ghost var u, m := Value64(x[..]), 16 * x[i] * Pow(256, i - 32);
      Eliminate(x, i);
      ModShift(u, -m, L);
      i := i - 1;
    }
    ghost var s: seq<int> := x[..];
    ZeroTop(s, 32, 32);
    Finish(r, x);
  }

  /** From eliminated limbs to the residue: the bytes left over, one L added back where a borrow left the top. */
  method Finish(r: array<byte>, x: array<i64>)
    requires r.Length >= 32 && x.Length == 64 && Before(x[..], 31)
    modifies r, x
    ensures Val(256, r[..], 32) == old(Val(256, x[..], 32)) % L
    ensures forall k :: 32 <= k < r.Length ==> r[k] == old(r[k])
  {
    hide *;
    ghost var s: seq<int> := x[..];
    LastLimbs(s);
    TopLimb(s);
    ValBounds(256, s, 31, -129, 128);
    Pow256_32();
    Pow256Is();
    ScaleTop(Val(256, s, 31), s[31], Pow(256, 31), L - DELTA);
    var carry := SubtractMultiple(x);
    ValRange(256, x[..], 32);
    ResidueBounds(Val(256, s, 31), s[31], Val(256, s, 32), Val(256, x[..], 32), carry);
    AddBack(x, carry);
    Emit(r, x);
  }

  // ---- the scalars of a signature

  /** reduce: a 64-byte hash to its residue, in place. */
  method Reduce(r: array<byte>)
    requires r.Length == 64
    modifies r
    ensures LeVal(r[..32]) == old(LeVal(r[..])) % L
    ensures forall k :: 32 <= k < 64 ==> r[k] == 0
  {
    ghost var s: seq<byte> := r[..];
    var x := new i64[64](_ => 0);
    for i := 0 to 64
      invariant r[..] == s
      invariant forall k :: 0 <= k < i ==> x[k] == s[k]
      invariant forall k :: i <= k < 64 ==> x[k] == 0
    {
      x[i] := r[i];
    }
    for i := 0 to 64
      invariant x[..] == s
      invariant forall k :: 0 <= k < i ==> r[k] == 0
    {
      r[i] := 0;
    }
    assert Value64(x[..]) == LeVal(s);
    ModL(r, x);
    ValSame(256, r[..], r[..32], 32);

  }

  lemma ByteProduct(x: byte, y: byte)
    ensures 0 <= x * y <= 255 * 255
  {
    MulOrder(0, x, 255, y);
  }

  /** x := the bytes of r. */
  method Load(r: seq<byte>) returns (x: array<i64>)
    requires |r| == 32
    ensures fresh(x) && x.Length == 64 && Value64(x[..]) == LeVal(r)
    ensures forall k :: 0 <= k < 64 ==> 0 <= x[k] <= 255
  {
    x := new i64[64](_ => 0);
    for i := 0 to 32
      invariant forall k :: 0 <= k < i ==> x[k] == r[k]
      invariant forall k :: i <= k < 64 ==> x[k] == 0
    {
      x[i] := r[i];
    }
    ZeroTop(x[..], 32, 32);
    ValSame(256, x[..], r, 32);
  }

  /** x := x + h[i] d, shifted by i limbs. */
  method AddRow(x: array<i64>, h: byte, d: seq<byte>, i: nat, ghost hs: seq<byte>)
    requires x.Length == 64 && |d| == 32 && i < 32 && |hs| == 32 && hs[i] == h
    requires forall k :: 0 <= k < 64 ==> 0 <= x[k] <= 255 + i * 65025
    modifies x
    ensures forall k :: 0 <= k < 64 ==> 0 <= x[k] <= 255 + (i + 1) * 65025
    ensures Value64(x[..]) == old(Value64(x[..])) + h * Pow(256, i) * LeVal(d)
  {
    ghost var v := Value64(x[..]);
    for j := 0 to 32
      invariant Value64(x[..]) == v + h * Pow(256, i) * Val(256, d, j)
      invariant forall k :: 0 <= k < 64 ==> 0 <= x[k] <= 255 + (i + 1) * 65025
      invariant forall k :: i + j <= k < 64 ==> 0 <= x[k] <= 255 + i * 65025
    {
      ghost var t: seq<int> := x[..];
      ByteProduct(h, d[j]);
      var product: i64 := h * d[j];
      x[i + j] := x[i + j] + product;
      ConvolutionStep(256, hs, d, t, x[..], 64, i, j);
    }
  }

  /** r + h d, row by row. */
  method MultiplyAdd(r: seq<byte>, h: seq<byte>, d: seq<byte>) returns (x: array<i64>)
    requires |r| == |h| == |d| == 32
    ensures fresh(x) && x.Length == 64
    ensures forall k :: 0 <= k < 64 ==> 0 <= x[k] <= RAW
    ensures Value64(x[..]) == LeVal(r) + LeVal(h) * LeVal(d)
  {
    x := Load(r);
    for i := 0 to 32
      invariant Value64(x[..]) == LeVal(r) + Val(256, h, i) * LeVal(d)
      invariant forall k :: 0 <= k < 64 ==> 0 <= x[k] <= 255 + i * 65025
    {
      Distribute(Val(256, h, i), h[i] * Pow(256, i), LeVal(d));
      AddRow(x, h[i], d, i, h);
    }
  }

  /** The second half of a signature: S = (r + h d) mod L, in canonical form. */
  method SignScalar(s: array<byte>, r: seq<byte>, h: seq<byte>, d: seq<byte>)
    requires s.Length == 32 && |r| == |h| == |d| == 32
    modifies s
    ensures LeVal(s[..]) == (LeVal(r) + LeVal(h) * LeVal(d)) % L
  {
    var x := MultiplyAdd(r, h, d);
    ModL(s, x);
  }

  // ---- canonical scalars

  /** scalar_canonical: the comparison from the top byte down decides S < L exactly. */
  method ScalarCanonical(s: seq<byte>) returns (ok: bool)
    requires |s| == 32
    ensures ok <==> LeVal(s) < L
  {
    AllL();
    var i := 31;
    while i >= 0
      invariant -1 <= i <= 31
      invariant forall k :: i < k < 32 ==> s[k] == LBYTES[k]
    {
      if s[i] < LBYTES[i] {
        FirstDifference(s, LBYTES, i);
        return true;
      }
      if s[i] > LBYTES[i] {
        FirstDifference(LBYTES, s, i);
        return false;
      }
      i := i - 1;
    }
    ValSame(256, s, LBYTES, 32);
    return false;
  }

  /** The highest byte in which two strings differ orders their values. */
  lemma FirstDifference(s: seq<byte>, t: seq<byte>, i: nat)
    requires |s| == |t| == 32 && i < 32 && s[i] < t[i]
    requires forall k :: i < k < 32 ==> s[k] == t[k]
    ensures Val(256, s, 32) < Val(256, t, 32)
  {
    ValRange(256, s, i);
    ValRange(256, t, i);
    PowPositive(256, i);
    MulOrder(s[i], s[i], t[i] - 1, Pow(256, i));
    Distribute(t[i], 1, Pow(256, i));
    SameAbove(s, t, i + 1, 32);
  }

  lemma {:induction false} SameAbove(s: seq<byte>, t: seq<byte>, m: nat, n: nat)
    requires m <= n <= |s| && n <= |t| && forall k :: m <= k < n ==> s[k] == t[k]
    ensures Val(256, s, n) - Val(256, s, m) == Val(256, t, n) - Val(256, t, m)
  {
    if m < n {
      SameAbove(s, t, m, n - 1);
    }
  }

  /** The second encoding of one scalar, S + L in 32 bytes. */
  function NonCanonical(s: seq<byte>): (t: seq<byte>)
    requires |s| == 32
    ensures |t| == 32
  {
    LeBytes(LeVal(s) + L, 32)
  }

  /** S + L is the same scalar modulo L, fits in 32 bytes when S is canonical, and is never canonical itself. */
  lemma NonCanonicalRefused(s: seq<byte>)
    requires |s| == 32 && LeVal(s) < L
    ensures LeVal(NonCanonical(s)) == LeVal(s) + L >= L
    ensures LeVal(NonCanonical(s)) % L == LeVal(s)
  {
    hide LeBytes, LeVal, Pow;
    LeValRange(s);
    TwoL();
    LeValLeBytes(LeVal(s) + L, 32);
    ModAgain(LeVal(s));
  }

  lemma ModAgain(v: int)
    requires 0 <= v < L
    ensures (v + L) % L == v
  {
  }

  lemma TwoL()
    ensures L + L < Pow(256, 32)
  {
    Pow256_32();
  }
}
