/** SHA-512, section 6.4 of FIPS 180-4, and the program that keeps sixteen words of its schedule. */
module Sha512 {
  import opened Arith
  import opened BigEndian
  import opened Words

  // ---- section 4.1.3: the word functions

  function Ch(x: u64, y: u64, z: u64): u64 {
    Xor64(And64(x, y), And64(Not64(x), z))
  }

  function Maj(x: u64, y: u64, z: u64): u64 {
    Xor64(Xor64(And64(x, y), And64(x, z)), And64(y, z))
  }

  function Sum0(x: u64): u64 {
    Xor64(Xor64(Rotr64(x, 28), Rotr64(x, 34)), Rotr64(x, 39))
  }

  function Sum1(x: u64): u64 {
    Xor64(Xor64(Rotr64(x, 14), Rotr64(x, 18)), Rotr64(x, 41))
  }

  function Sigma0(x: u64): u64 {
    Xor64(Xor64(Rotr64(x, 1), Rotr64(x, 8)), Shr64(x, 7))
  }

  function Sigma1(x: u64): u64 {
    Xor64(Xor64(Rotr64(x, 19), Rotr64(x, 61)), Shr64(x, 6))
  }

  type Row = s: seq<u64> | |s| == 16 witness seq(16, _ => 0)
  type ByteRow = s: seq<byte> | |s| == 16 witness seq(16, _ => 0)

  const K0: Row := [
    0x428a_2f98_d728_ae22, 0x7137_4491_23ef_65cd, 0xb5c0_fbcf_ec4d_3b2f, 0xe9b5_dba5_8189_dbbc,
    0x3956_c25b_f348_b538, 0x59f1_11f1_b605_d019, 0x923f_82a4_af19_4f9b, 0xab1c_5ed5_da6d_8118,
    0xd807_aa98_a303_0242, 0x1283_5b01_4570_6fbe, 0x2431_85be_4ee4_b28c, 0x550c_7dc3_d5ff_b4e2,
    0x72be_5d74_f27b_896f, 0x80de_b1fe_3b16_96b1, 0x9bdc_06a7_25c7_1235, 0xc19b_f174_cf69_2694]

  const K1: Row := [
    0xe49b_69c1_9ef1_4ad2, 0xefbe_4786_384f_25e3, 0x0fc1_9dc6_8b8c_d5b5, 0x240c_a1cc_77ac_9c65,
    0x2de9_2c6f_592b_0275, 0x4a74_84aa_6ea6_e483, 0x5cb0_a9dc_bd41_fbd4, 0x76f9_88da_8311_53b5,
    0x983e_5152_ee66_dfab, 0xa831_c66d_2db4_3210, 0xb003_27c8_98fb_213f, 0xbf59_7fc7_beef_0ee4,
    0xc6e0_0bf3_3da8_8fc2, 0xd5a7_9147_930a_a725, 0x06ca_6351_e003_826f, 0x1429_2967_0a0e_6e70]

  const K2: Row := [
    0x27b7_0a85_46d2_2ffc, 0x2e1b_2138_5c26_c926, 0x4d2c_6dfc_5ac4_2aed, 0x5338_0d13_9d95_b3df,
    0x650a_7354_8baf_63de, 0x766a_0abb_3c77_b2a8, 0x81c2_c92e_47ed_aee6, 0x9272_2c85_1482_353b,
    0xa2bf_e8a1_4cf1_0364, 0xa81a_664b_bc42_3001, 0xc24b_8b70_d0f8_9791, 0xc76c_51a3_0654_be30,
    0xd192_e819_d6ef_5218, 0xd699_0624_5565_a910, 0xf40e_3585_5771_202a, 0x106a_a070_32bb_d1b8]

  const K3: Row := [
    0x19a4_c116_b8d2_d0c8, 0x1e37_6c08_5141_ab53, 0x2748_774c_df8e_eb99, 0x34b0_bcb5_e19b_48a8,
    0x391c_0cb3_c5c9_5a63, 0x4ed8_aa4a_e341_8acb, 0x5b9c_ca4f_7763_e373, 0x682e_6ff3_d6b2_b8a3,
    0x748f_82ee_5def_b2fc, 0x78a5_636f_4317_2f60, 0x84c8_7814_a1f0_ab72, 0x8cc7_0208_1a64_39ec,
    0x90be_fffa_2363_1e28, 0xa450_6ceb_de82_bde9, 0xbef9_a3f7_b2c6_7915, 0xc671_78f2_e372_532b]

  const K4: Row := [
    0xca27_3ece_ea26_619c, 0xd186_b8c7_21c0_c207, 0xeada_7dd6_cde0_eb1e, 0xf57d_4f7f_ee6e_d178,
    0x06f0_67aa_7217_6fba, 0x0a63_7dc5_a2c8_98a6, 0x113f_9804_bef9_0dae, 0x1b71_0b35_131c_471b,
    0x28db_77f5_2304_7d84, 0x32ca_ab7b_40c7_2493, 0x3c9e_be0a_15c9_bebc, 0x431d_67c4_9c10_0d4c,
    0x4cc5_d4be_cb3e_42b6, 0x597f_299c_fc65_7e2a, 0x5fcb_6fab_3ad6_faec, 0x6c44_198c_4a47_5817]

  /** Section 4.2.3: the eighty constants. */
  function K(i: nat): u64
    requires i < 80
  {
    if i < 16 then K0[i] else if i < 32 then K1[i - 16] else if i < 48 then K2[i - 32]
    else if i < 64 then K3[i - 48] else K4[i - 64]
  }

  const IV0: ByteRow := [0x6a, 0x09, 0xe6, 0x67, 0xf3, 0xbc, 0xc9, 0x08, 0xbb, 0x67, 0xae, 0x85, 0x84, 0xca, 0xa7, 0x3b]
  const IV1: ByteRow := [0x3c, 0x6e, 0xf3, 0x72, 0xfe, 0x94, 0xf8, 0x2b, 0xa5, 0x4f, 0xf5, 0x3a, 0x5f, 0x1d, 0x36, 0xf1]
  const IV2: ByteRow := [0x51, 0x0e, 0x52, 0x7f, 0xad, 0xe6, 0x82, 0xd1, 0x9b, 0x05, 0x68, 0x8c, 0x2b, 0x3e, 0x6c, 0x1f]
  const IV3: ByteRow := [0x1f, 0x83, 0xd9, 0xab, 0xfb, 0x41, 0xbd, 0x6b, 0x5b, 0xe0, 0xcd, 0x19, 0x13, 0x7e, 0x21, 0x79]

  /** Section 5.3.5: the initial state, as bytes. */
  function InitialBytes(): (s: seq<byte>)
    ensures |s| == 64
  {
    IV0 + IV1 + IV2 + IV3
  }

  // ---- section 6.4.2: one block

  type Digest = s: seq<u64> | |s| == 8 witness seq(8, _ => 0)
  type Block = s: seq<u64> | |s| == 16 witness seq(16, _ => 0)

  /** The schedule: the standard uses its first eighty words. */
  function W(m: Block, t: nat): u64 {
    if t < 16 then m[t] else Add64(Sigma1(W(m, t - 2)) + W(m, t - 7) + Sigma0(W(m, t - 15)) + W(m, t - 16))
  }

  /** The assignment of the working variables a to h in one of the eighty rounds. */
  function Round(s: Digest, k: u64, w: u64): Digest {
    var t1 := Add64(s[7] + Sum1(s[4]) + Ch(s[4], s[5], s[6]) + k + w);
    var t2 := Add64(Sum0(s[0]) + Maj(s[0], s[1], s[2]));
    [Add64(t1 + t2), s[0], s[1], s[2], Add64(s[3] + t1), s[4], s[5], s[6]]
  }

  function Rounds(h: Digest, m: Block, t: nat): Digest
    requires t <= 80
  {
    if t == 0 then h else Round(Rounds(h, m, t - 1), K(t - 1), W(m, t - 1))
  }

  function AddAll(s: Digest, h: Digest): (r: Digest)
    ensures forall i :: 0 <= i < 8 ==> r[i] == Plus64(s[i], h[i])
  {
    seq(8, i requires 0 <= i < 8 => Plus64(s[i], h[i]))
  }

  function Compress(h: Digest, m: Block): Digest {
    AddAll(Rounds(h, m, 80), h)
  }

  // ---- whole messages

  /** n big-endian words. */
  function Load(s: seq<byte>, n: nat): (w: seq<u64>)
    requires |s| >= 8 * n
    ensures |w| == n && forall i :: 0 <= i < n ==> w[i] == BeVal(s[8 * i..8 * i + 8])
  {
    if n == 0 then []
    else
      WordFits(s[8 * n - 8..8 * n]);
      Load(s, n - 1) + [BeVal(s[8 * n - 8..8 * n])]
  }

  lemma WordFits(s: seq<byte>)
    requires |s| == 8
    ensures BeVal(s) < 0x1_0000_0000_0000_0000
  {
    BeRange(s);
    assert Pow(256, 2) == 0x1_0000;
    PowAdd(256, 2, 2);
    PowAdd(256, 4, 4);
  }

  /** The compression of every whole block of a message, one after another. */
  function Fold(h: Digest, m: seq<byte>): Digest
    decreases |m|
  {
    if |m| < 128 then h else Fold(Compress(h, Load(m, 16)), m[128..])
  }

  /** Section 5.1.2: a one bit, zeros up to the next multiple of 128 bytes less 16, and the length in bits. */
  function Padded(m: seq<byte>): (p: seq<byte>)
    ensures |p| % 128 == 0
  {
    PaddedLength(|m|);
    hide BeBytes;
    m + ([0x80] + seq(Zeros(|m|), _ => 0) + BeBytes(8 * |m|, 16))
  }

  /** The smallest number of zero bytes that leaves room for the length. */
  function Zeros(n: nat): nat {
    (239 - n % 128) % 128
  }

  lemma PaddedLength(n: nat)
    ensures (n + (1 + Zeros(n) + 16)) % 128 == 0 && Zeros(n) < 128
  {
  }

  function Bytes(h: seq<u64>): (s: seq<byte>)
    ensures |s| == 8 * |h|
  {
    if h == [] then [] else Bytes(h[..|h| - 1]) + BeBytes(h[|h| - 1], 8)
  }

  function Hash(m: seq<byte>): (r: seq<byte>)
    ensures |r| == 64
  {
    Bytes(Fold(Load(InitialBytes(), 8), Padded(m)))
  }

  // ---- the program: words and bytes

  lemma BeGrow(s: seq<byte>, at: nat, i: nat)
    requires at + i < |s|
    ensures BeVal(s[at..at + i + 1]) == 256 * BeVal(s[at..at + i]) + s[at + i]
  {
    var t := s[at..at + i + 1];
    assert t[..i] == s[at..at + i];
  }

  /** dl64: eight bytes shifted in one after another. */
  method LoadWord(s: seq<byte>, at: nat) returns (u: u64)
    requires at + 8 <= |s|
    ensures u == BeVal(s[at..at + 8])
  {
    u := 0;
    for i := 0 to 8
      invariant u == BeVal(s[at..at + i])
    {
      BeGrow(s, at, i);
      PrefixFits(s, at, i + 1);
      u := Add64(256 * u) + s[at + i];
    }
  }

  lemma PrefixFits(s: seq<byte>, at: nat, i: nat)
    requires i <= 8 && at + i <= |s|
    ensures BeVal(s[at..at + i]) < 0x1_0000_0000_0000_0000
  {
    BeRange(s[at..at + i]);
    assert Pow(256, 2) == 0x1_0000;
    PowAdd(256, 2, 2);
    PowAdd(256, 4, 4);
    PowAdd(256, i, 8 - i);
    PowPositive(256, i);
    PowPositive(256, 8 - i);
    MulOrder(1, Pow(256, 8 - i), Pow(256, 8 - i), Pow(256, i));
  }

  /** ts64: eight bytes cut off one after another, the last first. */
  method StoreWord(x: array<byte>, at: nat, u: u64)
    requires at + 8 <= x.Length
    modifies x
    ensures x[..] == old(x[..at]) + BeBytes(u, 8) + old(x[at + 8..])
  {
    var v: int := u;
    var i := 8;
    assert BeBytes(v, 8) + x[at + 8..at + 8] == BeBytes(u, 8);
    while i > 0
      invariant 0 <= i <= 8 && v >= 0
      invariant BeBytes(v, i) + x[at + i..at + 8] == BeBytes(u, 8)
      invariant x[..at] == old(x[..at]) && x[at + 8..] == old(x[at + 8..])
    {
      i := i - 1;
      ghost var low := x[at + i + 1..at + 8];
      x[at + i] := v % 256;
      assert x[at + i..at + 8] == [v % 256] + low;
      v := v / 256;
    }
    assert x[..] == x[..at] + x[at..at + 8] + x[at + 8..];
  }

  // ---- the program: one block

  lemma RoundIs(s: Digest, k: u64, w: u64, t: u64, n: u64, e: u64)
    requires t == Add64(s[7] + Sum1(s[4]) + Ch(s[4], s[5], s[6]) + k + w)
    requires n == Add64(t + Sum0(s[0]) + Maj(s[0], s[1], s[2])) && e == Add64(s[3] + t)
    ensures Round(s, k, w) == [n, s[0], s[1], s[2], e, s[4], s[5], s[6]]
  {
    hide Sum0, Sum1, Ch, Maj, Add64;
    AddTwice(t, Sum0(s[0]) + Maj(s[0], s[1], s[2]));
  }

  lemma AddTwice(t: int, u: int)
    ensures Add64(t + Add64(u)) == Add64(t + u)
  {
  }

  /** One round: the eight words copied, two changed, and all put back one place further. */
  method RoundInto(a: array<u64>, b: array<u64>, k: u64, w: u64)
    requires a.Length == 8 && b.Length == 8 && a != b
    modifies a, b
    ensures a[..] == Round(old(a[..]), k, w)
  {
    hide Round, Sum0, Sum1, Ch, Maj, Add64;
    ghost var s := a[..];
    for j := 0 to 8
      invariant a[..] == s && forall i :: 0 <= i < j ==> b[i] == s[i]
    {
      b[j] := a[j];
    }
    var t := Add64(a[7] + Sum1(a[4]) + Ch(a[4], a[5], a[6]) + k + w);
    b[7] := Add64(t + Sum0(a[0]) + Maj(a[0], a[1], a[2]));
    b[3] := Add64(b[3] + t);
    ghost var r := b[..];
    for j := 0 to 8
      invariant b[..] == r && forall i :: 0 <= i < j ==> a[(i + 1) % 8] == r[i]
    {
      a[(j + 1) % 8] := b[j];
    }
    RoundIs(s, k, w, t, r[7], r[3]);
    assert a[1] == r[0] && a[2] == r[1] && a[3] == r[2] && a[4] == r[3] && a[5] == r[4] && a[6] == r[5] && a[7] == r[6];
    assert a[0] == a[(7 + 1) % 8] == r[7];
  }

  lemma NextWord(m: Block, base: nat, j: nat)
    ensures W(m, base + 16 + j)
      == Add64(W(m, base + j) + W(m, base + j + 9) + Sigma0(W(m, base + j + 1)) + Sigma1(W(m, base + j + 14)))
  {
    hide Sigma0, Sigma1, Add64;
    var t := base + 16 + j;
    assert t - 2 == base + j + 14 && t - 7 == base + j + 9 && t - 15 == base + j + 1 && t - 16 == base + j;
  }

  /** The sixteen words moved on in place: words already moved stand where the schedule wants them. */
  method Advance(w: array<u64>, ghost m: Block, ghost base: nat)
    requires w.Length == 16 && forall j :: 0 <= j < 16 ==> w[j] == W(m, base + j)
    modifies w
    ensures forall j :: 0 <= j < 16 ==> w[j] == W(m, base + 16 + j)
  {
    hide W, Sigma0, Sigma1, Add64;
    for j := 0 to 16
      invariant forall i :: 0 <= i < j ==> w[i] == W(m, base + 16 + i)
      invariant forall i :: j <= i < 16 ==> w[i] == W(m, base + i)
    {
      NextWord(m, base, j);
      assert w[(j + 9) % 16] == W(m, base + j + 9);
      assert w[(j + 1) % 16] == W(m, base + j + 1);
      assert w[(j + 14) % 16] == W(m, base + j + 14);
      w[j] := Add64(w[j] + w[(j + 9) % 16] + Sigma0(w[(j + 1) % 16]) + Sigma1(w[(j + 14) % 16]));
    }
  }

  lemma WStart(m: Block, j: nat)
    requires j < 16
    ensures W(m, j) == m[j]
  {
  }

  lemma RoundsStep(h: Digest, m: Block, t: nat)
    requires t < 80
    ensures Rounds(h, m, t + 1) == Round(Rounds(h, m, t), K(t), W(m, t))
  {
    hide Round, K, W;
  }

  /** The eighty rounds over one block, the schedule moved on after every sixteenth. */
  method RoundsInto(a: array<u64>, b: array<u64>, w: array<u64>)
    requires a.Length == 8 && b.Length == 8 && w.Length == 16 && a != b && w != a && w != b
    modifies a, b, w
    ensures a[..] == Rounds(old(a[..]), old(w[..]), 80)
  {
    hide *;
    ghost var h: Digest, m: Block := a[..], w[..];
    forall j | 0 <= j < 16 ensures w[j] == W(m, j) {
      WStart(m, j);
    }
    RoundsStart(h, m);
    for i := 0 to 80
      invariant a[..] == Rounds(h, m, i)
      invariant forall j :: 0 <= j < 16 ==> w[j] == W(m, i - i % 16 + j)
    {
      ghost var base := i - i % 16;
      RoundsStep(h, m, i);
      RoundInto(a, b, K(i), w[i % 16]);
      NextBase(i);
      if i % 16 == 15 {
        Advance(w, m, base);
      }
    }
  }

  lemma NextBase(i: nat)
    ensures i + 1 - (i + 1) % 16 == i - i % 16 + (if i % 16 == 15 then 16 else 0)
  {
  }

  lemma RoundsStart(h: Digest, m: Block)
    ensures Rounds(h, m, 0) == h
  {
  }

  // ---- the program: many blocks

  method LoadWords(s: seq<byte>, at: nat, n: nat, w: array<u64>)
    requires at + 8 * n <= |s| && n == w.Length
    modifies w
    ensures w[..] == Load(s[at..], n)
  {
    hide Load;
    for i := 0 to n
      invariant w[..i] == Load(s[at..], i)
    {
      LoadStep(s, at, i);
      w[i] := LoadWord(s, at + 8 * i);
    }
    assert w[..n] == w[..];
  }

  lemma LoadStep(s: seq<byte>, at: nat, i: nat)
    requires at + 8 * i + 8 <= |s|
    ensures Load(s[at..], i + 1) == Load(s[at..], i) + [BeVal(s[at + 8 * i..at + 8 * i + 8])]
    ensures i == 0 ==> Load(s[at..], i) == []
  {
    hide BeVal;
    assert s[at..][8 * i..8 * i + 8] == s[at + 8 * i..at + 8 * i + 8];
  }

  lemma FoldStep(h: Digest, m: seq<byte>, at: nat)
    requires at + 128 <= |m|
    ensures Fold(h, m[at..]) == Fold(Compress(h, Load(m[at..], 16)), m[at + 128..])
  {
    hide Compress, Load;
    assert m[at..][128..] == m[at + 128..];
  }

  lemma FoldEnd(h: Digest, m: seq<byte>)
    requires |m| < 128
    ensures Fold(h, m) == h
  {
  }

  method FeedForward(a: array<u64>, z: array<u64>)
    requires a.Length == 8 && z.Length == 8 && a != z
    modifies a, z
    ensures a[..] == z[..] == AddAll(old(a[..]), old(z[..]))
  {
    hide Plus64;
    ghost var s: Digest, h: Digest := a[..], z[..];
    for i := 0 to 8
      invariant forall j :: 0 <= j < i ==> a[j] == z[j] == AddAll(s, h)[j]
      invariant forall j :: i <= j < 8 ==> a[j] == s[j] && z[j] == h[j]
    {
      a[i] := Plus64(a[i], z[i]);
      z[i] := a[i];
    }
    assert a[..] == AddAll(s, h);
  }

  /** crypto_hashblocks: every whole block folded into the state, and how many bytes were left over. */
  method HashBlocks(x: array<byte>, m: seq<byte>) returns (rest: nat)
    requires x.Length == 64
    modifies x
    ensures x[..] == Bytes(Fold(Load(old(x[..]), 8), m))
    ensures rest == |m| % 128
  {
    hide Fold, Load, Compress, Bytes, AddAll, Rounds;
    var z, b, a, w := new u64[8], new u64[8], new u64[8], new u64[16];
    LoadWords(x[..], 0, 8, z);
    LoadWords(x[..], 0, 8, a);
    assert x[..][0..] == x[..];
    ghost var start: Digest := Load(x[..], 8);
    var n, at := |m|, 0;
    assert m[0..] == m;
    while n >= 128
      invariant at + n == |m| && at % 128 == 0 && n >= 0
      invariant a[..] == z[..]
      invariant Fold(a[..], m[at..]) == Fold(start, m)
      invariant x[..] == old(x[..])
    {
      ghost var h: Digest := z[..];
      LoadWords(m, at, 16, w);
      ghost var block: Block := w[..];
      RoundsInto(a, b, w);
      FeedForward(a, z);
      CompressIs(h, block);
      FoldStep(h, m, at);
      at := at + 128;
      n := n - 128;
    }
    FoldEnd(z[..], m[at..]);
    StoreWords(x, z);
    return n;
  }

  lemma CompressIs(h: Digest, m: Block)
    ensures Compress(h, m) == AddAll(Rounds(h, m, 80), h)
  {
    hide AddAll, Rounds;
  }

  method StoreWords(x: array<byte>, z: array<u64>)
    requires x.Length == 64 && z.Length == 8
    modifies x
    ensures x[..] == Bytes(z[..])
  {
    hide Bytes, BeBytes;
    BytesStart(z[..]);
    for i := 0 to 8
      invariant x[..8 * i] == Bytes(z[..i])
    {
      BytesStep(z[..], i);
      ghost var front := x[..8 * i];
      StoreWord(x, 8 * i, z[i]);
      assert x[..8 * i + 8] == front + BeBytes(z[i], 8);
    }
    assert x[..64] == x[..] && z[..8] == z[..];
  }

  lemma BytesStart(z: seq<u64>)
    ensures Bytes(z[..0]) == []
  {
  }

  lemma BytesStep(z: seq<u64>, i: nat)
    requires i < |z|
    ensures Bytes(z[..i + 1]) == Bytes(z[..i]) + BeBytes(z[i], 8)
  {
    hide BeBytes;
    assert z[..i + 1][..i] == z[..i];
  }

  // ---- the program: whole messages

  /** Folding one piece after another is folding both, when the first ends on a block's edge. */
  lemma {:induction false} FoldJoin(h: Digest, a: seq<byte>, b: seq<byte>)
    requires |a| % 128 == 0
    ensures Fold(h, a + b) == Fold(Fold(h, a), b)
    decreases |a|
  {
    hide Compress, Load;
    if a == [] {
      assert a + b == b;
    } else {
      assert (a + b)[128..] == a[128..] + b;
      LoadFront(a, b, 16);
      FoldJoin(Compress(h, Load(a, 16)), a[128..], b);
    }
  }

  lemma {:induction false} LoadFront(a: seq<byte>, b: seq<byte>, n: nat)
    requires |a| >= 8 * n
    ensures Load(a + b, n) == Load(a, n)
  {
    hide BeVal;
    if n > 0 {
      LoadFront(a, b, n - 1);
      assert (a + b)[8 * n - 8..8 * n] == a[8 * n - 8..8 * n];
    }
  }

  /** What is left over after the last whole block changes nothing. */
  lemma {:induction false} FoldWhole(h: Digest, m: seq<byte>)
    ensures Fold(h, m) == Fold(h, m[..|m| - |m| % 128])
    decreases |m|
  {
    hide Compress, Load;
    if |m| >= 128 {
      var q := |m| - |m| % 128;
      assert m == m[..q] + m[q..];
      LoadFront(m[..q], m[q..], 16);
      assert m[..q][128..] == m[128..][..q - 128];
      FoldWhole(Compress(h, Load(m, 16)), m[128..]);
    } else {
      assert m[..0] == [];
    }
  }

  lemma {:induction false} BeSplit(v: nat, m: nat, n: nat, hi: nat, lo: nat)
    requires v == hi * Pow(256, n) + lo && lo < Pow(256, n)
    ensures BeBytes(v, m + n) == BeBytes(hi, m) + BeBytes(lo, n)
    decreases n
  {
    if n == 0 {
      assert v == hi;
      assert BeBytes(hi, m) + [] == BeBytes(hi, m);
    } else {
      var w := Pow(256, n - 1);
      PowPositive(256, n - 1);
      Regroup(hi, w, lo);
      BeSplit(v / 256, m, n - 1, hi, lo / 256);
      assert BeBytes(v, m + n) == BeBytes(v / 256, m + n - 1) + [v % 256];
      assert BeBytes(lo, n) == BeBytes(lo / 256, n - 1) + [lo % 256];
    }
  }

  lemma Regroup(hi: nat, w: nat, lo: nat)
    requires 0 < w && lo < 256 * w
    ensures hi * (256 * w) + lo == 256 * (hi * w) + lo
    ensures (256 * (hi * w) + lo) / 256 == hi * w + lo / 256 && (256 * (hi * w) + lo) % 256 == lo % 256
    ensures lo / 256 < w
  {
  }

  lemma {:induction false} BeSmall(v: byte, n: nat)
    ensures BeBytes(v, n + 1) == seq(n, _ => 0) + [v]
  {
    BeZero(n);
  }

  lemma {:induction false} BeZero(n: nat)
    ensures BeBytes(0, n) == seq(n, _ => 0)
  {
    if n > 0 {
      BeZero(n - 1);
    }
  }

  /** The 128-bit length as the program writes it: seven zeros, the top three bits, and the low 64. */
  lemma LengthBytes(b: u64)
    ensures BeBytes(8 * b, 16) == seq(7, _ => 0) + [b / 0x2000_0000_0000_0000] + BeBytes(Add64(8 * b), 8)
  {
    hide BeBytes;
    assert Pow(256, 2) == 0x1_0000;
    PowAdd(256, 2, 2);
    PowAdd(256, 4, 4);
    var hi := b / 0x2000_0000_0000_0000;
    BeSplit(8 * b, 8, 8, hi, Add64(8 * b));
    BeSmall(hi, 7);
  }

  function Padding(n: nat): seq<byte> {
    [0x80] + seq(Zeros(n), _ => 0) + BeBytes(8 * n, 16)
  }

  /** The padded message is the message up to its last block's edge, and one or two blocks more. */
  lemma PaddedTail(m: seq<byte>, q: nat)
    requires q <= |m|
    ensures Padded(m) == m[..q] + (m[q..] + Padding(|m|))
  {
    PaddedIs(m);
    hide *;
    assert (m[..q] + m[q..]) + Padding(|m|) == m[..q] + (m[q..] + Padding(|m|));
    assert m == m[..q] + m[q..];
  }

  lemma PaddedIs(m: seq<byte>)
    ensures Padded(m) == m + Padding(|m|)
  {
    hide BeBytes, Zeros;
  }

  lemma TailLength(n: nat)
    ensures n % 128 + 17 + Zeros(n) == if n % 128 < 112 then 128 else 256
  {
  }

  /** The last one or two blocks, filled in place: the leftover bytes, the one bit, zeros, the length. */
  method FillTail(m: seq<byte>, q: nat, b: u64, x: array<byte>) returns (n: nat)
    requires q == |m| - |m| % 128 && x.Length == 256 && b == |m|
    modifies x
    ensures n <= 256
    ensures x[..n] == m[q..] + Padding(|m|)
  {
    hide BeBytes, Padding;
    var r := |m| % 128;
    for i := 0 to 256
      invariant forall j :: 0 <= j < i ==> x[j] == 0
    {
      x[i] := 0;
    }
    for i := 0 to r
      invariant forall j :: 0 <= j < i ==> x[j] == m[q + j]
      invariant forall j :: i <= j < 256 ==> x[j] == 0
    {
      x[i] := m[q + i];
    }
    x[r] := 128;
    n := 256 - 128 * (if r < 112 then 1 else 0);
    x[n - 9] := b / 0x2000_0000_0000_0000;
    assert x[..n - 8] == m[q..] + ([0x80] + seq(n - 10 - r, _ => 0)) + [b / 0x2000_0000_0000_0000];
    ghost var front := x[..n - 8];
    StoreWord(x, n - 8, Add64(8 * b));
    assert x[..n] == front + BeBytes(Add64(8 * b), 8);
    TailIs(m, q, b, n);
  }

  lemma TailIs(m: seq<byte>, q: nat, b: u64, n: nat)
    requires q == |m| - |m| % 128 && b == |m| && n == (if |m| % 128 < 112 then 128 else 256)
    ensures n - 10 - |m| % 128 >= 0
    ensures (m[q..] + ([0x80] + seq(n - 10 - |m| % 128, _ => 0)) + [b / 0x2000_0000_0000_0000]) + BeBytes(Add64(8 * b), 8)
      == m[q..] + Padding(|m|)
  {
    hide BeBytes, Zeros;
    LengthBytes(b);
    TailLength(|m|);
    var z, top, low := Zeros(|m|), [b / 0x2000_0000_0000_0000], BeBytes(Add64(8 * b), 8);
    assert n - 10 - |m| % 128 == z + 7;
    assert seq(z, _ => 0) + seq(7, _ => 0) == seq(z + 7, _ => 0 as byte);
    assert (m[q..] + ([0x80] + (seq(z, _ => 0) + seq(7, _ => 0))) + top) + low
        == m[q..] + ([0x80] + seq(z, _ => 0) + (seq(7, _ => 0) + top + low));
  }

  /** crypto_hash: SHA-512 of every message a 64-bit length can name. */
  method HashInto(out: array<byte>, m: seq<byte>)
    requires out.Length == 64 && |m| < 0x1_0000_0000_0000_0000
    modifies out
    ensures out[..] == Hash(m)
  {
    hide Fold, Load, Padded, Bytes, InitialBytes, BeBytes, Zeros, Hash, Padding;
    var h, x := new byte[64], new byte[256];
    var start := InitialBytes();
    for i := 0 to 64
      invariant h[..i] == start[..i]
    {
      h[i] := start[i];
    }
    assert h[..] == start;
    var rest := HashBlocks(h, m);
    var n := FillTail(m, |m| - rest, |m|, x);
    rest := HashBlocks(h, x[..n]);
    HashIs(m, x[..n]);
    for i := 0 to 64
      invariant out[..i] == h[..i] && h[..] == Hash(m)
    {
      out[i] := h[i];
    }
    assert out[..] == h[..];
  }

  /** Hashing the message's whole blocks and then the tail is hashing the padded message. */
  lemma HashIs(m: seq<byte>, tail: seq<byte>)
    requires tail == m[|m| - |m| % 128..] + Padding(|m|)
    ensures Hash(m) == Bytes(Fold(Load(Bytes(Fold(Load(InitialBytes(), 8), m)), 8), tail))
  {
    hide Fold, Load, Padded, Bytes, InitialBytes, Padding;
    var q := |m| - |m| % 128;
    var start := Load(InitialBytes(), 8);
    BytesLoad(Fold(start, m));
    FoldWhole(start, m);
    PaddedTail(m, q);
    FoldJoin(start, m[..q], tail);
  }

  /** A state written as bytes reads back. */
  lemma BytesLoad(h: Digest)
    ensures Load(Bytes(h), 8) == h
  {
    hide Bytes, Load;
    BytesLoadTo(h, 8);
    assert h[..8] == h;
  }

  lemma {:induction false} BytesLoadTo(h: seq<u64>, n: nat)
    requires n <= |h|
    ensures Load(Bytes(h[..n]), n) == h[..n]
  {
    hide Load, BeBytes, BeVal, Bytes;
    if n == 0 {
      LoadNone(Bytes(h[..0]));
    } else {
      BytesLoadTo(h, n - 1);
      BytesStep(h, n - 1);
      LoadLast(Bytes(h[..n - 1]), h[n - 1], n - 1);
    }
  }

  lemma LoadNone(s: seq<byte>)
    ensures Load(s, 0) == []
  {
  }

  lemma LoadLast(front: seq<byte>, u: u64, n: nat)
    requires |front| == 8 * n
    ensures Load(front + BeBytes(u, 8), n + 1) == Load(front, n) + [u]
  {
    hide BeBytes, BeVal;
    WordBack(u);
    LoadFront(front, BeBytes(u, 8), n);
    assert (front + BeBytes(u, 8))[8 * n..8 * n + 8] == BeBytes(u, 8);
  }

  lemma WordBack(u: u64)
    ensures BeVal(BeBytes(u, 8)) == u
  {
    assert Pow(256, 2) == 0x1_0000;
    PowAdd(256, 2, 2);
    PowAdd(256, 4, 4);
    BeValBytes(u, 8);
  }
}
