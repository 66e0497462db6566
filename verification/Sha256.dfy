/** SHA-256, section 6.2 of FIPS 180-4: whole blocks from the message, the rest from a tail of one or two. */
module Sha256 {
  import opened Arith
  import opened BigEndian
  import opened Words

  // ---- section 4.1.2: the word functions

  function Ch(x: u32, y: u32, z: u32): u32 {
    Xor32(And32(x, y), And32(Not32(x), z))
  }

  function Maj(x: u32, y: u32, z: u32): u32 {
    Xor32(Xor32(And32(x, y), And32(x, z)), And32(y, z))
  }

  function Sum0(x: u32): u32 {
    Xor32(Xor32(Rotr32(x, 2), Rotr32(x, 13)), Rotr32(x, 22))
  }

  function Sum1(x: u32): u32 {
    Xor32(Xor32(Rotr32(x, 6), Rotr32(x, 11)), Rotr32(x, 25))
  }

  function Sigma0(x: u32): u32 {
    Xor32(Xor32(Rotr32(x, 7), Rotr32(x, 18)), Shr32(x, 3))
  }

  function Sigma1(x: u32): u32 {
    Xor32(Xor32(Rotr32(x, 17), Rotr32(x, 19)), Shr32(x, 10))
  }

  type Row = s: seq<u32> | |s| == 16 witness seq(16, _ => 0)

  const K0: Row := [
    0x428a_2f98, 0x7137_4491, 0xb5c0_fbcf, 0xe9b5_dba5, 0x3956_c25b, 0x59f1_11f1, 0x923f_82a4, 0xab1c_5ed5,
    0xd807_aa98, 0x1283_5b01, 0x2431_85be, 0x550c_7dc3, 0x72be_5d74, 0x80de_b1fe, 0x9bdc_06a7, 0xc19b_f174]

  const K1: Row := [
    0xe49b_69c1, 0xefbe_4786, 0x0fc1_9dc6, 0x240c_a1cc, 0x2de9_2c6f, 0x4a74_84aa, 0x5cb0_a9dc, 0x76f9_88da,
    0x983e_5152, 0xa831_c66d, 0xb003_27c8, 0xbf59_7fc7, 0xc6e0_0bf3, 0xd5a7_9147, 0x06ca_6351, 0x1429_2967]

  const K2: Row := [
    0x27b7_0a85, 0x2e1b_2138, 0x4d2c_6dfc, 0x5338_0d13, 0x650a_7354, 0x766a_0abb, 0x81c2_c92e, 0x9272_2c85,
    0xa2bf_e8a1, 0xa81a_664b, 0xc24b_8b70, 0xc76c_51a3, 0xd192_e819, 0xd699_0624, 0xf40e_3585, 0x106a_a070]

  const K3: Row := [
    0x19a4_c116, 0x1e37_6c08, 0x2748_774c, 0x34b0_bcb5, 0x391c_0cb3, 0x4ed8_aa4a, 0x5b9c_ca4f, 0x682e_6ff3,
    0x748f_82ee, 0x78a5_636f, 0x84c8_7814, 0x8cc7_0208, 0x90be_fffa, 0xa450_6ceb, 0xbef9_a3f7, 0xc671_78f2]

  /** Section 4.2.2: the sixty-four constants. */
  function K(i: nat): u32
    requires i < 64
  {
    if i < 16 then K0[i] else if i < 32 then K1[i - 16] else if i < 48 then K2[i - 32] else K3[i - 48]
  }

  type Digest = s: seq<u32> | |s| == 8 witness seq(8, _ => 0)
  type Block = s: seq<u32> | |s| == 16 witness seq(16, _ => 0)

  function Initial(): Digest {
    [0x6a09_e667, 0xbb67_ae85, 0x3c6e_f372, 0xa54f_f53a, 0x510e_527f, 0x9b05_688c, 0x1f83_d9ab, 0x5be0_cd19]
  }

  // ---- section 6.2.2: one block

  function W(m: Block, t: nat): u32 {
    if t < 16 then m[t] else Add32(Sigma1(W(m, t - 2)) + W(m, t - 7) + Sigma0(W(m, t - 15)) + W(m, t - 16))
  }

  /** The assignment of the working variables a to h in one of the sixty-four rounds. */
  function Round(s: Digest, k: u32, w: u32): Digest {
    var t1 := Add32(s[7] + Sum1(s[4]) + Ch(s[4], s[5], s[6]) + k + w);
    var t2 := Add32(Sum0(s[0]) + Maj(s[0], s[1], s[2]));
    [Plus32(t1, t2), s[0], s[1], s[2], Plus32(s[3], t1), s[4], s[5], s[6]]
  }

  function Rounds(h: Digest, m: Block, t: nat): Digest
    requires t <= 64
  {
    if t == 0 then h else Round(Rounds(h, m, t - 1), K(t - 1), W(m, t - 1))
  }

  function AddAll(s: Digest, h: Digest): Digest {
    [Plus32(h[0], s[0]), Plus32(h[1], s[1]), Plus32(h[2], s[2]), Plus32(h[3], s[3]),
     Plus32(h[4], s[4]), Plus32(h[5], s[5]), Plus32(h[6], s[6]), Plus32(h[7], s[7])]
  }

  function Compress(h: Digest, m: Block): Digest {
    AddAll(Rounds(h, m, 64), h)
  }

  // ---- whole messages

  /** n big-endian words. */
  function Load(s: seq<byte>, n: nat): (w: seq<u32>)
    requires |s| >= 4 * n
    ensures |w| == n
  {
    if n == 0 then []
    else
      WordFits(s[4 * n - 4..4 * n]);
      Load(s, n - 1) + [BeVal(s[4 * n - 4..4 * n])]
  }

  lemma WordFits(s: seq<byte>)
    requires |s| == 4
    ensures BeVal(s) < 0x1_0000_0000
  {
    BeRange(s);
    assert Pow(256, 2) == 0x1_0000;
    PowAdd(256, 2, 2);
  }

  function Fold(h: Digest, m: seq<byte>): Digest
    decreases |m|
  {
    if |m| < 64 then h else Fold(Compress(h, Load(m, 16)), m[64..])
  }

  /** The smallest number of zero bytes that leaves room for the length. */
  function Zeros(n: nat): nat {
    (119 - n % 64) % 64
  }

  function Padding(n: nat): seq<byte> {
    [0x80] + seq(Zeros(n), _ => 0) + BeBytes(8 * n, 8)
  }

  /** Section 5.1.1: a one bit, zeros up to the next multiple of 64 bytes less 8, and the length in bits. */
  function Padded(m: seq<byte>): (p: seq<byte>)
    ensures |p| % 64 == 0
  {
    PaddedLength(|m|);
    hide BeBytes;
    m + Padding(|m|)
  }

  lemma PaddedLength(n: nat)
    ensures (n + (1 + Zeros(n) + 8)) % 64 == 0 && Zeros(n) < 64
    ensures n % 64 + 9 + Zeros(n) == if n % 64 < 56 then 64 else 128
  {
  }

  function Bytes(h: seq<u32>): (s: seq<byte>)
    ensures |s| == 4 * |h|
  {
    if h == [] then [] else Bytes(h[..|h| - 1]) + BeBytes(h[|h| - 1], 4)
  }

  function Hash(m: seq<byte>): (r: seq<byte>)
    ensures |r| == 32
  {
    Bytes(Fold(Initial(), Padded(m)))
  }

  // ---- the program: one block

  /** Four bytes shifted to their places; they share no bit, so their disjunction is their sum. */
  function Quad(a: byte, b: byte, c: byte, d: byte): u32 {
    Place(a, 0x100_0000) + Place(b, 0x1_0000) + Place(c, 0x100) + d
  }

  function Place(a: int, w: int): int {
    a * w
  }

  lemma FourBytes(s: seq<byte>, at: nat)
    requires at + 4 <= |s|
    ensures BeVal(s[at..at + 4]) == Quad(s[at], s[at + 1], s[at + 2], s[at + 3])
  {
    var t := s[at..at + 4];
    assert t[..3] == s[at..at + 3] && t[..3][..2] == s[at..at + 2] && t[..3][..2][..1] == s[at..at + 1];
    assert t[..3][..2][..1][..0] == [];
    assert BeVal(s[at..at + 1]) == s[at];
    assert BeVal(s[at..at + 2]) == 256 * BeVal(s[at..at + 1]) + s[at + 1];
    assert BeVal(s[at..at + 3]) == 256 * BeVal(s[at..at + 2]) + s[at + 2];
  }

  lemma LoadAt(s: seq<byte>, n: nat, i: nat)
    requires |s| >= 4 * n && i < n
    ensures Load(s, n)[i] == BeVal(s[4 * i..4 * i + 4])
  {
    hide BeVal;
  }

  lemma WStart(m: Block, j: nat)
    requires j < 16
    ensures W(m, j) == m[j]
  {
  }

  function Sum4(a: int, b: int, c: int, d: int): u32 {
    Add32(a + b + c + d)
  }

  lemma WNext(m: Block, i: nat)
    requires i >= 16
    ensures W(m, i) == Sum4(W(m, i - 16), Sigma0(W(m, i - 15)), W(m, i - 7), Sigma1(W(m, i - 2)))
  {
    hide Sigma0, Sigma1;
  }

  /** The schedule of sixty-four words, filled in from a block of bytes. */
  method Schedule(p: seq<byte>) returns (w: array<u32>)
    requires |p| == 64
    ensures fresh(w) && w.Length == 64
    ensures forall j :: 0 <= j < 64 ==> w[j] == W(Load(p, 16), j)
  {
    hide W, Load, BeVal, Sigma0, Sigma1, Sum4, Quad;
    w := new u32[64];
    ghost var m: Block := Load(p, 16);
    for i := 0 to 16
      invariant forall j :: 0 <= j < i ==> w[j] == W(m, j)
    {
      FourBytes(p, 4 * i);
      LoadAt(p, 16, i);
      WStart(m, i);
      w[i] := Quad(p[i * 4], p[i * 4 + 1], p[i * 4 + 2], p[i * 4 + 3]);
    }
    for i := 16 to 64
      invariant forall j :: 0 <= j < i ==> w[j] == W(m, j)
    {
      var s0 := Sigma0(w[i - 15]);
      var s1 := Sigma1(w[i - 2]);
      WNext(m, i);
      w[i] := Sum4(w[i - 16], s0, w[i - 7], s1);
    }
  }

  lemma RoundsStep(h: Digest, m: Block, t: nat)
    requires t < 64
    ensures Rounds(h, m, t + 1) == Round(Rounds(h, m, t), K(t), W(m, t)) && Rounds(h, m, 0) == h
  {
    hide Round, K, W;
  }

  lemma RoundIs(s: Digest, k: u32, w: u32)
    ensures var t1 := Add32(s[7] + Sum1(s[4]) + Ch(s[4], s[5], s[6]) + k + w);
      var t2 := Add32(Sum0(s[0]) + Maj(s[0], s[1], s[2]));
      Round(s, k, w) == [Plus32(t1, t2), s[0], s[1], s[2], Plus32(s[3], t1), s[4], s[5], s[6]]
  {
  }

  /** block: the state compressed with one block of bytes. */
  method CompressInto(h: array<u32>, p: seq<byte>)
    requires h.Length == 8 && |p| == 64
    modifies h
    ensures h[..] == Compress(old(h[..]), Load(p, 16))
  {
    hide W, Load, K, Round, Rounds, Sum0, Sum1, Ch, Maj, Add32, Plus32;
    var w := Schedule(p);
    ghost var start: Digest, m: Block := h[..], Load(p, 16);
    var a, b, c, d := h[0], h[1], h[2], h[3];
    var e, f, g, hh := h[4], h[5], h[6], h[7];
    RoundsStep(start, m, 0);
    assert start == [a, b, c, d, e, f, g, hh];
    for i := 0 to 64
      invariant h[..] == start && forall j :: 0 <= j < 64 ==> w[j] == W(m, j)
      invariant [a, b, c, d, e, f, g, hh] == Rounds(start, m, i)
    {
      RoundsStep(start, m, i);
      ghost var s: Digest := [a, b, c, d, e, f, g, hh];
      RoundIs(s, K(i), w[i]);
      assert s[0] == a && s[1] == b && s[2] == c && s[3] == d && s[4] == e && s[5] == f && s[6] == g && s[7] == hh;
      var t1 := Add32(hh + Sum1(e) + Ch(e, f, g) + K(i) + w[i]);
      var t2 := Add32(Sum0(a) + Maj(a, b, c));
      hh := g;
      g := f;
      f := e;
      e := Plus32(d, t1);
      d := c;
      c := b;
      b := a;
      a := Plus32(t1, t2);
    }
    AddInto(h, [a, b, c, d, e, f, g, hh]);
  }

  method AddInto(h: array<u32>, s: Digest)
    requires h.Length == 8
    modifies h
    ensures h[..] == AddAll(s, old(h[..]))
  {
    hide Plus32;
    ghost var was: Digest := h[..];
    h[0], h[1], h[2], h[3] := Plus32(h[0], s[0]), Plus32(h[1], s[1]), Plus32(h[2], s[2]), Plus32(h[3], s[3]);
    h[4], h[5], h[6], h[7] := Plus32(h[4], s[4]), Plus32(h[5], s[5]), Plus32(h[6], s[6]), Plus32(h[7], s[7]);
    assert h[..] == AddAll(s, was);
  }

  // ---- the program: whole messages

  lemma FoldStep(h: Digest, m: seq<byte>, at: nat)
    requires at + 64 <= |m|
    ensures Fold(h, m[at..]) == Fold(Compress(h, Load(m[at..at + 64], 16)), m[at + 64..])
  {
    hide Compress, Load;
    assert m[at..] == m[at..at + 64] + m[at + 64..];
    LoadFront(m[at..at + 64], m[at + 64..], 16);
    assert m[at..][64..] == m[at + 64..];
  }

  lemma {:induction false} LoadFront(a: seq<byte>, b: seq<byte>, n: nat)
    requires |a| >= 4 * n
    ensures Load(a + b, n) == Load(a, n)
  {
    hide BeVal;
    if n > 0 {
      LoadFront(a, b, n - 1);
      assert (a + b)[4 * n - 4..4 * n] == a[4 * n - 4..4 * n];
    }
  }

  /** Folding one piece after another is folding both, when the first ends on a block's edge. */
  lemma {:induction false} FoldJoin(h: Digest, a: seq<byte>, b: seq<byte>)
    requires |a| % 64 == 0
    ensures Fold(h, a + b) == Fold(Fold(h, a), b)
    decreases |a|
  {
    hide Compress, Load;
    if a == [] {
      assert a + b == b;
    } else {
      assert (a + b)[64..] == a[64..] + b;
      LoadFront(a, b, 16);
      FoldJoin(Compress(h, Load(a, 16)), a[64..], b);
    }
  }

  lemma FoldNone(h: Digest)
    ensures Fold(h, []) == h
  {
  }

  lemma OneBlock(h: Digest, t: seq<byte>)
    requires |t| == 64
    ensures Fold(h, t) == Compress(h, Load(t, 16))
  {
    hide Compress, Load;
    assert t[64..] == [];
  }

  lemma TwoBlocks(h: Digest, t: seq<byte>)
    requires |t| == 128
    ensures Fold(h, t) == Compress(Compress(h, Load(t[..64], 16)), Load(t[64..], 16))
  {
    hide Compress, Load, Fold;
    assert t == t[..64] + t[64..];
    FoldJoin(h, t[..64], t[64..]);
    OneBlock(h, t[..64]);
    OneBlock(Compress(h, Load(t[..64], 16)), t[64..]);
  }

  lemma PaddedTail(m: seq<byte>, q: nat)
    requires q <= |m|
    ensures Padded(m) == m[..q] + (m[q..] + Padding(|m|))
  {
    PaddedIs(m);
    hide *;
    assert (m[..q] + m[q..]) + Padding(|m|) == m[..q] + (m[q..] + Padding(|m|));
    assert m == m[..q] + m[q..];
  }

  lemma PaddedIs(m: seq<byte>)
    ensures Padded(m) == m + Padding(|m|)
  {
    hide BeBytes, Zeros;
  }

  lemma {:induction false} BeByte(v: nat, n: nat, i: nat)
    requires i < n
    ensures Pow(256, i) > 0 && BeBytes(v, n)[n - 1 - i] == v / Pow(256, i) % 256
    decreases n
  {
    PowPositive(256, i);
    if i > 0 {
      BeByte(v / 256, n - 1, i - 1);
      PowPositive(256, i - 1);
      DivideTwice(v, 256, Pow(256, i - 1));
    }
  }

  lemma DivideTwice(v: nat, p: nat, q: nat)
    requires 0 < p && 0 < q
    ensures p * q > 0 && v / (p * q) == v / p / q
  {
    var a := v / p;
    var b, c := a / q, a % q;
    var d := v % p;
    assert v == a * p + d && a == b * q + c;
    assert a * p == (b * q) * p + c * p by { Distribute(b * q, c, p); }
    MulOrder(0, c, q - 1, p);
    assert (q - 1) * p == q * p - p by { Distribute(q, 1, p); }
    assert (b * q) * p == b * (p * q);
    ModUnique(v, b, c * p + d, p * q);
  }

  /** The length, byte by byte from the end. */
  method WriteLength(tail: array<byte>, pad: nat, bits: nat)
    requires 8 <= pad <= tail.Length
    modifies tail
    ensures tail[..pad] == old(tail[..pad - 8]) + BeBytes(bits, 8)
  {
    hide BeBytes;
    for i := 0 to 8
      invariant tail[..pad - 8] == old(tail[..pad - 8])
      invariant tail[pad - i..pad] == BeBytes(bits, 8)[8 - i..]
    {
      BeByte(bits, 8, i);
      ghost var low := tail[pad - i..pad];
      tail[pad - 1 - i] := bits / Pow(256, i) % 256;
      assert tail[pad - 1 - i..pad] == [tail[pad - 1 - i]] + low;
    }
    assert tail[..pad] == tail[..pad - 8] + tail[pad - 8..pad];
  }

  /** The tail, filled in place: the leftover bytes, the one bit, zeros, and the length. */
  method FillTail(m: seq<byte>, from: nat, tail: array<byte>) returns (pad: nat)
    requires from == |m| - |m| % 64 && tail.Length == 128
    modifies tail
    ensures pad == (if |m| % 64 < 56 then 64 else 128) && tail[..pad] == m[from..] + Padding(|m|)
  {
    hide BeBytes, Padding, Zeros;
    var rest := |m| - from;
    for i := 0 to rest
      invariant tail[..i] == m[from..from + i]
    {
      tail[i] := m[from + i];
    }
    tail[rest] := 0x80;
    pad := if rest < 56 then 64 else 128;
    for i := rest + 1 to pad - 8
      invariant tail[..rest] == m[from..] && tail[rest] == 0x80
      invariant forall j :: rest + 1 <= j < i ==> tail[j] == 0
    {
      tail[i] := 0;
    }
    PaddedLength(|m|);
    assert tail[..pad - 8] == m[from..] + ([0x80] + seq(Zeros(|m|), _ => 0));
    WriteLength(tail, pad, 8 * |m|);
    PaddingIs(m[from..], |m|);
  }

  lemma PaddingIs(s: seq<byte>, n: nat)
    ensures (s + ([0x80] + seq(Zeros(n), _ => 0))) + BeBytes(8 * n, 8) == s + Padding(n)
  {
    hide BeBytes, Zeros;
  }

  /** sha256: SHA-256 of every message whose length in bits fits 64 bits. */
  method HashInto(data: seq<byte>, out: array<byte>)
    requires out.Length == 32 && 8 * |data| < 0x1_0000_0000_0000_0000
    modifies out
    ensures out[..] == Hash(data)
  {
    hide Fold, Load, Padded, Padding, Bytes, Initial, Compress, Hash;
    var h, tail := new u32[8], new byte[128];
    var start := Initial();
    for i := 0 to 8
      invariant h[..i] == start[..i]
    {
      h[i] := start[i];
    }
    assert h[..] == start;
    var i := 0;
    assert data[0..] == data && data[..0] == [];
    FoldNone(start);
    while i + 64 <= |data|
      invariant i <= |data| && i % 64 == 0
      invariant Fold(h[..], data[i..]) == Fold(start, data) && h[..] == Fold(start, data[..i])
      decreases |data| - i
    {
      ghost var before: Digest := h[..];
      CompressInto(h, data[i..i + 64]);
      OneBlock(before, data[i..i + 64]);
      FoldJoin(start, data[..i], data[i..i + 64]);
      assert data[..i + 64] == data[..i] + data[i..i + 64];
      FoldStep(before, data, i);
      i := i + 64;
    }
    ghost var middle: Digest := h[..];
    var pad := FillTail(data, i, tail);
    ghost var t := tail[..pad];
    assert t[..64] == tail[..64];
    CompressInto(h, tail[..64]);
    if pad == 128 {
      assert t[64..] == tail[64..128];
      CompressInto(h, tail[64..128]);
      TwoBlocks(middle, t);
    } else {
      OneBlock(middle, t);
    }
    HashIs(data, i, t);
    StoreWords(out, h);
  }

  lemma HashIs(m: seq<byte>, q: nat, tail: seq<byte>)
    requires q <= |m| && q % 64 == 0 && tail == m[q..] + Padding(|m|)
    ensures Hash(m) == Bytes(Fold(Fold(Initial(), m[..q]), tail))
  {
    hide Fold, Padded, Padding, Bytes, Initial;
    PaddedTail(m, q);
    FoldJoin(Initial(), m[..q], tail);
  }

  lemma BytesStep(z: seq<u32>, i: nat)
    requires i < |z|
    ensures Bytes(z[..i + 1]) == Bytes(z[..i]) + BeBytes(z[i], 4) && Bytes(z[..0]) == []
  {
    hide BeBytes;
    assert z[..i + 1][..i] == z[..i];
  }

  lemma WordBytes(v: u32)
    ensures BeBytes(v, 4) == [v / 0x100_0000, v / 0x1_0000 % 256, v / 0x100 % 256, v % 256]
  {
    assert BeBytes(v, 4) == BeBytes(v / 256, 3) + [v % 256];
    assert BeBytes(v / 256, 3) == BeBytes(v / 256 / 256, 2) + [v / 256 % 256];
    assert BeBytes(v / 256 / 256, 2) == BeBytes(v / 256 / 256 / 256, 1) + [v / 256 / 256 % 256];
    assert BeBytes(v / 256 / 256 / 256, 1) == BeBytes(v / 256 / 256 / 256 / 256, 0) + [v / 256 / 256 / 256 % 256];
  }

  method StoreWords(out: array<byte>, h: array<u32>)
    requires out.Length == 32 && h.Length == 8
    modifies out
    ensures out[..] == Bytes(h[..])
  {
    hide Bytes, BeBytes;
    BytesStep(h[..], 0);
    for i := 0 to 8
      invariant out[..4 * i] == Bytes(h[..i])
    {
      BytesStep(h[..], i);
      WordBytes(h[i]);
      ghost var front := out[..4 * i];
      out[i * 4] := h[i] / 0x100_0000;
      out[i * 4 + 1] := h[i] / 0x1_0000 % 256;
      out[i * 4 + 2] := h[i] / 0x100 % 256;
      out[i * 4 + 3] := h[i] % 256;
      assert out[..4 * i + 4] == front + BeBytes(h[i], 4);
    }
    assert out[..32] == out[..] && h[..8] == h[..];
  }
}
