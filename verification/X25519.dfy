/** X25519: the function of RFC 7748, section 5, and the limb program that computes it. */
module X25519 {
  import opened Arith
  import opened Field

  // ---- RFC 7748, section 5

  datatype Ladder = Ladder(x2: int, z2: int, x3: int, z3: int)

  function CSwap(swap: int, s: Ladder): Ladder {
    if swap == 1 then Ladder(s.x3, s.z3, s.x2, s.z2) else s
  }

  function Step(x1: int, s: Ladder): Ladder {
    var A := FAdd(s.x2, s.z2);
    var AA := FMul(A, A);
    var B := FSub(s.x2, s.z2);
    var BB := FMul(B, B);
    var E := FSub(AA, BB);
    var C := FAdd(s.x3, s.z3);
    var D := FSub(s.x3, s.z3);
    var DA := FMul(D, A);
    var CB := FMul(C, B);
    Ladder(FMul(AA, BB),
           FMul(E, FAdd(AA, FMul(121665, E))),
           FMul(FAdd(DA, CB), FAdd(DA, CB)),
           FMul(x1, FMul(FSub(DA, CB), FSub(DA, CB))))
  }

  /** Bit t of k. */
  function Bit(k: int, t: nat): int {
    PowPositive(2, t);
    (k / Pow(2, t)) % 2
  }

  /** The RFC's loop after bits 254 down to t: its four variables and the pending swap. */
  function Loop(k: int, x1: int, t: nat): (Ladder, int)
    requires t <= 255
    decreases 255 - t
  {
    if t == 255 then (Ladder(1, 0, x1, 1), 0)
    else
      var (s, swap) := Loop(k, x1, t + 1);
      var bit := Bit(k, t);
      (Step(x1, CSwap((swap + bit) % 2, s)), bit)
  }

  function DecodeScalar(n: seq<byte>): (z: seq<byte>)
    requires |n| == 32
    ensures |z| == 32
  {
    n[0 := n[0] - n[0] % 8][31 := n[31] % 64 + 64]
  }

  function DecodeU(p: seq<byte>): int {
    (LeVal(p) % TWO255) % P
  }

  function X(n: seq<byte>, p: seq<byte>): seq<byte>
    requires |n| == 32
  {
    var (s, swap) := Loop(LeVal(DecodeScalar(n)), DecodeU(p), 0);
    var r := CSwap(swap, s);
    LeBytes(FMul(r.x2, FPow(r.z2, P - 2)), 32)
  }

  /** Every decoded scalar is a multiple of the cofactor 8 with its highest bit at place 254. */
  lemma ScalarShape(n: seq<byte>)
    requires |n| == 32
    ensures var v := LeVal(DecodeScalar(n)); v % 8 == 0 && Pow(2, 254) <= v < Pow(2, 255)
  {
    hide *;
    var z := DecodeScalar(n);
    EndsOf(n);
    SixAndSeven();
    assert z == [z[0]] + z[1..];
    ValCons(256, z[0], z[1..], 31);
    ValRange(256, z, 31);
    LeValIs(z);
    MultipleOfEight(z[0], Val(256, z[1..], 31));
    PowBytes(31);
    PowAdd(2, 248, 6);
    PowAdd(2, 248, 7);
    MulOrder(64, z[31], 127, Pow(256, 31));
    PowPositive(256, 31);
  }

  lemma EndsOf(n: seq<byte>)
    requires |n| == 32
    ensures var z := DecodeScalar(n); |z| == 32 && z[0] % 8 == 0 && 64 <= z[31] < 128
  {
  }

  lemma SixAndSeven()
    ensures Pow(2, 6) == 64 && Pow(2, 7) == 128
  {
  }

  lemma LeValIs(z: seq<byte>)
    requires |z| == 32
    ensures LeVal(z) == Val(256, z, 32) == Val(256, z, 31) + z[31] * Pow(256, 31)
  {
  }

  lemma MultipleOfEight(b: int, v: int)
    requires b % 8 == 0
    ensures (b + 256 * v) % 8 == 0
  {
    var c := b / 8;
    assert b + 256 * v == 8 * (c + 32 * v);
    ModUnique(b + 256 * v, c + 32 * v, 0, 8);
  }

  // ---- the bits of a byte string

  lemma BitOfBytes(z: seq<byte>, i: nat)
    requires i < 8 * |z|
    ensures 0 < Pow(2, i % 8)
    ensures Bit(LeVal(z), i) == (z[i / 8] / Pow(2, i % 8)) % 2
  {
    var q, r := i / 8, i % 8;
    ValSplit(256, z, q, |z| - q);
    var rest := z[q..];
    ValSplit(256, rest, 1, |z| - q - 1);
    assert Val(256, rest, 1) == Val(256, rest, 0) + z[q] * Pow(256, 0) && Pow(256, 0) == 1;
    assert Pow(256, 1) == 256 * Pow(256, 0);
    ValRange(256, z, q);
    PowPositive(2, r);
    PowBytes(q);
    PowAdd(2, 8 * q, r);
    BitShift(LeVal(z), Val(256, z, q), Pow(256, q), z[q], Val(256, rest[1..], |z| - q - 1), r);
  }

  lemma {:induction false} PowBytes(q: nat)
    ensures Pow(256, q) == Pow(2, 8 * q)
  {
    if q > 0 {
      PowBytes(q - 1);
      assert Pow(2, 8) == 256;
      PowAdd(2, 8, 8 * (q - 1));
    }
  }

  lemma BitShift(v: int, lo: int, w: int, d: int, hi: int, r: nat)
    requires r < 8 && 0 <= lo < w && v == lo + w * (d + 256 * hi)
    ensures 0 < Pow(2, r) && 0 < w * Pow(2, r)
    ensures (v / (w * Pow(2, r))) % 2 == (d / Pow(2, r)) % 2
  {
    SmallPowers(r);
    DivProduct(lo, w, d + 256 * hi, Pow(2, r));
    LowBit(d, hi, Pow(2, r));
  }

  lemma DivProduct(lo: int, w: int, y: int, e: int)
    requires 0 <= lo < w && 0 < e
    ensures 0 < w * e && (lo + w * y) / (w * e) == y / e
  {
    var q, r := y / e, y % e;
    MulOrder(0, r, e - 1, w);
    assert w * (q * e + r) == q * (w * e) + w * r;
    ModUnique(lo + w * y, q, lo + w * r, w * e);
  }

  lemma LowBit(d: int, hi: int, e: int)
    requires e in {1, 2, 4, 8, 16, 32, 64, 128}
    ensures ((d + 256 * hi) / e) % 2 == (d / e) % 2
  {
    var k := if e == 1 then 128 else if e == 2 then 64 else if e == 4 then 32 else if e == 8 then 16
      else if e == 16 then 8 else if e == 32 then 4 else if e == 64 then 2 else 1;
    assert (d + 256 * hi) / e == d / e + 2 * (k * hi);
  }

  lemma SmallPowers(r: nat)
    requires r < 8
    ensures Pow(2, r) in {1, 2, 4, 8, 16, 32, 64, 128}
  {
    assert Pow(2, 0) == 1 && Pow(2, 1) == 2 && Pow(2, 2) == 4 && Pow(2, 3) == 8;
    assert Pow(2, 4) == 16 && Pow(2, 5) == 32 && Pow(2, 6) == 64 && Pow(2, 7) == 128;
  }

  // ---- the limb program

  /** One ladder step in the order the limb program takes, its difference negated where the RFC's is not. */
  function LimbStep(x1: int, s: Ladder): Ladder {
    var e, a, c, b := FAdd(s.x2, s.z2), FSub(s.x2, s.z2), FAdd(s.x3, s.z3), FSub(s.x3, s.z3);
    var d, f, cb, da := FMul(e, e), FMul(a, a), FMul(c, a), FMul(b, e);
    var sum, diff, ee := FAdd(cb, da), FSub(cb, da), FSub(d, f);
    Ladder(FMul(d, f),
           FMul(ee, FAdd(FMul(ee, 121665), d)),
           FMul(sum, sum),
           FMul(FMul(diff, diff), x1))
  }

  lemma LimbStepIsStep(x1: int, s: Ladder)
    ensures LimbStep(x1, s) == Step(x1, s)
  {
    hide FMul, FAdd, FSub;
    var A, B, C, D := FAdd(s.x2, s.z2), FSub(s.x2, s.z2), FAdd(s.x3, s.z3), FSub(s.x3, s.z3);
    var DA, CB := FMul(D, A), FMul(C, B);
    assert FMul(FSub(DA, CB), FSub(DA, CB)) == FMul(FSub(CB, DA), FSub(CB, DA)) by {
      hide *;
      var d, m := FSub(DA, CB), FSub(CB, DA);
      Opposed(DA, CB);
      assert (P - d) * (P - d) == d * d + (P - 2 * d) * P;
      FMulShift(d * d, P - 2 * d, d, m);
    }
    FAddComm(DA, CB);
    var AA, E := FMul(A, A), FSub(FMul(A, A), FMul(B, B));
    FMulComm(E, 121665);
    FAddComm(AA, FMul(121665, E));
    FMulComm(x1, FMul(FSub(DA, CB), FSub(DA, CB)));
  }

  lemma FAddComm(x: int, y: int)
    ensures FAdd(x, y) == FAdd(y, x)
  {
  }

  lemma Opposed(x: int, y: int)
    ensures FSub(y, x) == if FSub(x, y) == 0 then 0 else P - FSub(x, y)
  {
    ModOpposite(x - y, P);
  }

  lemma FMulShift(n: int, q: int, d: int, m: int)
    requires n == d * d && (m * m == n + q * P || m == d)
    ensures FMul(m, m) == FMul(d, d)
  {
    ModShift(d * d, q, P);
  }

  /** The first ten operations of a step. */
  method FirstHalf(a: array<i64>, b: array<i64>, c: array<i64>, d: array<i64>, e: array<i64>, f: array<i64>)
    requires a.Length == b.Length == c.Length == d.Length == e.Length == f.Length == 16
    requires a != b && a != c && a != d && a != e && a != f && b != c && b != d && b != e && b != f
    requires c != d && c != e && c != f && d != e && d != f && e != f
    requires Reduced(a[..]) && Reduced(b[..]) && Reduced(c[..]) && Reduced(d[..])
    modifies a, b, c, d, e, f
    ensures Small(a[..]) && Small(e[..]) && Reduced(d[..]) && Reduced(f[..])
    ensures Fe(d[..]) == FMul(old(FAdd(Fe(a[..]), Fe(c[..]))), old(FAdd(Fe(a[..]), Fe(c[..]))))
    ensures Fe(f[..]) == FMul(old(FSub(Fe(a[..]), Fe(c[..]))), old(FSub(Fe(a[..]), Fe(c[..]))))
    ensures Fe(e[..]) == FAdd(FMul(old(FAdd(Fe(b[..]), Fe(d[..]))), old(FSub(Fe(a[..]), Fe(c[..])))),
                              FMul(old(FSub(Fe(b[..]), Fe(d[..]))), old(FAdd(Fe(a[..]), Fe(c[..])))))
    ensures Fe(a[..]) == FSub(FMul(old(FAdd(Fe(b[..]), Fe(d[..]))), old(FSub(Fe(a[..]), Fe(c[..])))),
                              FMul(old(FSub(Fe(b[..]), Fe(d[..]))), old(FAdd(Fe(a[..]), Fe(c[..])))))
  {
    A(e, a, c);
    Z(a, a, c);
    A(c, b, d);
    Z(b, b, d);
    S(d, e);
    S(f, a);
    M(a, c, a);
    M(c, b, e);
    A(e, a, c);
    Z(a, a, c);
  }

  /** The last eight operations of a step. */
  method SecondHalf(a: array<i64>, b: array<i64>, c: array<i64>, d: array<i64>, e: array<i64>, f: array<i64>,
                    k: array<i64>, x: array<i64>)
    requires a.Length == b.Length == c.Length == d.Length == e.Length == f.Length == k.Length == x.Length == 16
    requires a != b && a != c && a != d && a != e && a != f && b != c && b != d && b != e && b != f
    requires c != d && c != e && c != f && d != e && d != f && e != f
    requires x != a && x != b && x != c && x != d && k != a && k != b && k != c && k != d
    requires Small(a[..]) && Small(e[..]) && Reduced(d[..]) && Reduced(f[..]) && Reduced(k[..]) && Reduced(x[..])
    modifies a, b, c, d
    ensures Reduced(a[..]) && Reduced(b[..]) && Reduced(c[..]) && Reduced(d[..])
    ensures Fe(a[..]) == FMul(old(Fe(d[..])), Fe(f[..]))
    ensures Fe(c[..]) == FMul(FSub(old(Fe(d[..])), Fe(f[..])),
                              FAdd(FMul(FSub(old(Fe(d[..])), Fe(f[..])), Fe(k[..])), old(Fe(d[..]))))
    ensures Fe(b[..]) == FMul(Fe(e[..]), Fe(e[..]))
    ensures Fe(d[..]) == FMul(FMul(old(Fe(a[..])), old(Fe(a[..]))), Fe(x[..]))
  {
    S(b, a);
    Z(c, d, f);
    M(a, c, k);
    A(a, a, d);
    M(c, c, a);
    M(a, d, f);
    M(d, b, x);
    S(b, e);
  }

  const A24: seq<i64> := [0xDB41, 1, 0, 0, 0, 0, 0, 0, 0, 0, 0, 0, 0, 0, 0, 0]

  lemma A24Value(s: seq<int>)
    requires |s| == 16 && s[0] == 0xDB41 && s[1] == 1 && forall i :: 2 <= i < 16 ==> s[i] == 0
    ensures Fe(s) == 121665
  {
    PIs();
    ZeroTail(s, 16);
  }

  lemma {:induction false} ZeroTail(s: seq<int>, n: nat)
    requires 2 <= n <= |s| && forall i :: 2 <= i < n ==> s[i] == 0
    ensures Val(65536, s, n) == s[0] + 65536 * s[1]
  {
    if n > 2 {
      ZeroTail(s, n - 1);
    } else {
      assert Val(65536, s, 1) == Val(65536, s, 0) + s[0] * Pow(65536, 0);
      assert Pow(65536, 0) == 1 && Pow(65536, 1) == 65536;
    }
  }

  /** Zero and one in limbs. */
  lemma BitLimbs(s: seq<int>, v: int)
    requires |s| == 16 && s[0] == v && 0 <= v <= 1 && forall i :: 1 <= i < 16 ==> s[i] == 0
    ensures Fe(s) == v && Reduced(s) && Small(s)
  {
    ZeroTail(s, 16);
    assert Value(s) == v;
    hide Fe, Val, Pow, P, TWO255;
    FeIs(s, v);
  }

  /** The pass between the two conditional swaps, on limbs: exactly the RFC's step. */
  method LadderStep(a: array<i64>, b: array<i64>, c: array<i64>, d: array<i64>, e: array<i64>, f: array<i64>,
                    k: array<i64>, x: array<i64>)
    requires a.Length == b.Length == c.Length == d.Length == e.Length == f.Length == k.Length == x.Length == 16
    requires a != b && a != c && a != d && a != e && a != f && b != c && b != d && b != e && b != f
    requires c != d && c != e && c != f && d != e && d != f && e != f
    requires x !in {a, b, c, d, e, f} && k !in {a, b, c, d, e, f}
    requires Reduced(a[..]) && Reduced(b[..]) && Reduced(c[..]) && Reduced(d[..]) && Reduced(x[..])
    requires Reduced(k[..]) && Fe(k[..]) == 121665
    modifies a, b, c, d, e, f
    ensures Reduced(a[..]) && Reduced(b[..]) && Reduced(c[..]) && Reduced(d[..])
    ensures State(a[..], b[..], c[..], d[..]) == Step(Fe(x[..]), old(State(a[..], b[..], c[..], d[..])))
  {
    LimbStepIsStep(Fe(x[..]), State(a[..], b[..], c[..], d[..]));
    FirstHalf(a, b, c, d, e, f);
    SecondHalf(a, b, c, d, e, f, k, x);
  }

  /** The field elements in the four arrays; the program keeps x2, x3, z2, z3 in a, b, c, d. */
  function State(a: seq<int>, b: seq<int>, c: seq<int>, d: seq<int>): Ladder
    requires |a| == |b| == |c| == |d| == 16
  {
    Ladder(Fe(a), Fe(c), Fe(b), Fe(d))
  }

  /** Swapping back at the end of every pass is the RFC's lazy swap, one pass later. */
  lemma EagerSwap(s: Ladder, swap: int, bit: int)
    requires 0 <= swap <= 1 && 0 <= bit <= 1
    ensures CSwap(bit, CSwap(swap, s)) == CSwap((swap + bit) % 2, s)
  {
  }

  method Start(z: seq<byte>, p: seq<byte>, x: array<i64>, a: array<i64>, b: array<i64>, c: array<i64>, d: array<i64>)
    requires |p| == 32 && a.Length == b.Length == c.Length == d.Length == x.Length == 16
    requires x != a && x != b && x != c && x != d && a != b && a != c && a != d && b != c && b != d && c != d
    modifies x, a, b, c, d
    ensures Reduced(x[..]) && Fe(x[..]) == DecodeU(p)
    ensures Reduced(a[..]) && Reduced(b[..]) && Reduced(c[..]) && Reduced(d[..])
    ensures State(a[..], b[..], c[..], d[..]) == Ladder(1, 0, DecodeU(p), 1)
  {
    Unpack(x, p);
    ghost var sx := x[..];
    for i := 0 to 16
      invariant x[..] == sx
      invariant forall j :: 0 <= j < i ==> b[j] == x[j]
      invariant forall j :: 0 <= j < i ==> a[j] == 0 && c[j] == 0 && d[j] == 0
    {
      b[i] := x[i];
      a[i] := 0;
      c[i] := 0;
      d[i] := 0;
    }
    a[0] := 1;
    d[0] := 1;
    assert b[..] == sx;
    BitLimbs(a[..], 1);
    BitLimbs(c[..], 0);
    BitLimbs(d[..], 1);
  }

  /** One pass of the loop: swap, step, swap back. */
  method LadderPass(a: array<i64>, b: array<i64>, c: array<i64>, d: array<i64>, e: array<i64>, f: array<i64>,
                    k: array<i64>, x: array<i64>, r: int)
    requires a.Length == b.Length == c.Length == d.Length == e.Length == f.Length == k.Length == x.Length == 16
    requires a != b && a != c && a != d && a != e && a != f && b != c && b != d && b != e && b != f
    requires c != d && c != e && c != f && d != e && d != f && e != f
    requires x !in {a, b, c, d, e, f} && k !in {a, b, c, d, e, f} && 0 <= r <= 1
    requires Reduced(a[..]) && Reduced(b[..]) && Reduced(c[..]) && Reduced(d[..]) && Reduced(x[..])
    requires Reduced(k[..]) && Fe(k[..]) == 121665
    modifies a, b, c, d, e, f
    ensures Reduced(a[..]) && Reduced(b[..]) && Reduced(c[..]) && Reduced(d[..])
    ensures State(a[..], b[..], c[..], d[..])
         == CSwap(r, Step(Fe(x[..]), CSwap(r, old(State(a[..], b[..], c[..], d[..])))))
  {
    Sel(a, b, r);
    Sel(c, d, r);
    LadderStep(a, b, c, d, e, f, k, x);
    Sel(a, b, r);
    Sel(c, d, r);
  }

  /** What the limb program's four arrays hold before bit i: the RFC's variables with the pending swap done. */
  function Eager(s: int, u: int, i: nat): Ladder
    requires i <= 255
  {
    CSwap(Loop(s, u, i).1, Loop(s, u, i).0)
  }

  lemma LazyPass(s: int, u: int, i: nat)
    requires i < 255
    ensures Eager(s, u, i) == CSwap(Bit(s, i), Step(u, CSwap(Bit(s, i), Eager(s, u, i + 1))))
  {
    assert 0 <= Loop(s, u, (i + 1)).1 <= 1;
    EagerSwap(Loop(s, u, i + 1).0, Loop(s, u, i + 1).1, Bit(s, i));
  }

  /** All 255 passes, every limb of a, b, c, d in [-38, 2^16 + 38) throughout. */
  method Passes(z: seq<byte>, a: array<i64>, b: array<i64>, c: array<i64>, d: array<i64>,
                k: array<i64>, x: array<i64>)
    requires |z| == 32
    requires a.Length == b.Length == c.Length == d.Length == k.Length == x.Length == 16
    requires a != b && a != c && a != d && b != c && b != d && c != d
    requires x !in {a, b, c, d} && k !in {a, b, c, d}
    requires Reduced(a[..]) && Reduced(b[..]) && Reduced(c[..]) && Reduced(d[..]) && Reduced(x[..])
    requires Reduced(k[..]) && Fe(k[..]) == 121665
    requires State(a[..], b[..], c[..], d[..]) == Ladder(1, 0, Fe(x[..]), 1)
    modifies a, b, c, d
    ensures Reduced(a[..]) && Reduced(b[..]) && Reduced(c[..]) && Reduced(d[..])
    ensures State(a[..], b[..], c[..], d[..]) == Eager(LeVal(z), Fe(x[..]), 0)
  {
    var e, f := new i64[16](_ => 0), new i64[16](_ => 0);
    ghost var sx, sk, s := x[..], k[..], LeVal(z);
    assert Eager(s, Fe(sx), 255) == Ladder(1, 0, Fe(sx), 1);
    hide *;
    var i := 254;
    while i >= 0
      invariant -1 <= i <= 254
      invariant x[..] == sx && k[..] == sk
      invariant Reduced(a[..]) && Reduced(b[..]) && Reduced(c[..]) && Reduced(d[..])
      invariant State(a[..], b[..], c[..], d[..]) == Eager(s, Fe(sx), i + 1)
    {
      BitOfBytes(z, i);
      var r := (z[i / 8] / Pow(2, i % 8)) % 2;
      LazyPass(s, Fe(sx), i);
      LadderPass(a, b, c, d, e, f, k, x, r);
      i := i - 1;
    }
  }

  /** crypto_scalarmult: X25519 of RFC 7748 for every 32-byte scalar and every 32-byte u. */
  method ScalarMult(q: array<byte>, n: seq<byte>, p: seq<byte>)
    requires q.Length == 32 && |n| == 32 && |p| == 32
    modifies q
    ensures q[..] == X(n, p)
  {
    hide Fe, LeVal, LeBytes, FMul, FPow, Pow, Loop, DecodeU, DecodeScalar;
    var z := DecodeScalar(n);
    var x, k := new i64[16](_ => 0), new i64[16](i requires 0 <= i < 16 => A24[i]);
    A24Value(k[..]);
    var a, b, c, d := new i64[16](_ => 0), new i64[16](_ => 0), new i64[16](_ => 0), new i64[16](_ => 0);
    Start(z, p, x, a, b, c, d);
    Passes(z, a, b, c, d, k, x);
    Inv25519(c, c);
    M(a, a, c);
    Pack(q, a);
  }
}
