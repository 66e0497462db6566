/** HMAC and HKDF over any 32-byte hash, section 2 of RFC 2104 and section 2 of RFC 5869. */
module Hkdf {
  import opened Arith
  import opened Bits
  import opened Wrappers

  const BLOCK := 64
  const HASH := 32
  const MAXMSG := 8192

  type Digest = s: seq<byte> | |s| == 32 witness seq(32, _ => 0)

  function ByteXor(a: byte, b: byte): byte {
    XorByte(a, b);
    Xor(a, b)
  }

  // ---- HMAC

  function Masked(k: seq<byte>, pad: byte): (r: seq<byte>)
    ensures |r| == |k| && forall i :: 0 <= i < |k| ==> r[i] == ByteXor(k[i], pad)
  {
    if k == [] then [] else [ByteXor(k[0], pad)] + Masked(k[1..], pad)
  }

  /** The key as one block: hashed when it is longer, filled up with zeros. */
  function KeyBlock(hash: seq<byte> -> Digest, key: seq<byte>): (r: seq<byte>)
    ensures |r| == BLOCK
  {
    var k := if |key| > BLOCK then hash(key) else key;
    k + seq(BLOCK - |k|, _ => 0)
  }

  lemma KeyBlockIs(hash: seq<byte> -> Digest, key: seq<byte>, k: seq<byte>)
    requires |k| == BLOCK
    requires var head := if |key| > BLOCK then hash(key) else key;
      (forall j :: 0 <= j < |head| ==> k[j] == head[j]) && forall j :: |head| <= j < BLOCK ==> k[j] == 0
    ensures k == KeyBlock(hash, key)
  {
  }

  function Hmac(hash: seq<byte> -> Digest, key: seq<byte>, text: seq<byte>): Digest {
    var k := KeyBlock(hash, key);
    hash(Masked(k, 0x5c) + hash(Masked(k, 0x36) + text))
  }

  /** hmac_sha256: None where the program aborts. */
  method HmacInto(hash: seq<byte> -> Digest, key: seq<byte>, data: seq<byte>) returns (out: Option<Digest>)
    ensures out == if |data| > MAXMSG then None else Some(Hmac(hash, key, data))
  {
    if |data| > MAXMSG {
      return None;
    }
    hide KeyBlock, Masked;
    var k, inner, outer := new byte[BLOCK](_ => 0), new byte[BLOCK], new byte[BLOCK];
    var head := if |key| > BLOCK then hash(key) else key;
    for i := 0 to |head|
      invariant forall j :: 0 <= j < i ==> k[j] == head[j]
      invariant forall j :: i <= j < BLOCK ==> k[j] == 0
    {
      k[i] := head[i];
    }
    KeyBlockIs(hash, key, k[..]);
    MaskInto(k, 0x36, inner);
    var digest := hash(inner[..] + data);
    MaskInto(k, 0x5c, outer);
    return Some(hash(outer[..] + digest));
  }

  method MaskInto(k: array<byte>, pad: byte, to: array<byte>)
    requires k.Length == to.Length == BLOCK && k != to
    modifies to
    ensures to[..] == Masked(k[..], pad)
  {
    hide ByteXor;
    for i := 0 to BLOCK
      invariant forall j :: 0 <= j < i ==> to[j] == ByteXor(k[j], pad)
    {
      to[i] := ByteXor(k[i], pad);
    }
    assert to[..] == Masked(k[..], pad);
  }

  // ---- HKDF

  /** T(i) of section 2.3 of RFC 5869. */
  function T(hash: seq<byte> -> Digest, prk: seq<byte>, info: seq<byte>, i: nat): (r: seq<byte>)
    ensures |r| == if i == 0 then 0 else HASH
  {
    if i == 0 then [] else Hmac(hash, prk, T(hash, prk, info, i - 1) + info + [i % 256])
  }

  /** T(1) followed by T(2) and so on to T(n). */
  function Stream(hash: seq<byte> -> Digest, prk: seq<byte>, info: seq<byte>, n: nat): (r: seq<byte>)
    ensures |r| == HASH * n
  {
    if n == 0 then [] else Stream(hash, prk, info, n - 1) + T(hash, prk, info, n)
  }

  function Blocks(length: nat): (n: nat)
    ensures HASH * n >= length && (n == 0 || HASH * (n - 1) < length)
  {
    (length + 31) / 32
  }

  /** The first length octets of the stream. */
  function Expand(hash: seq<byte> -> Digest, prk: seq<byte>, info: seq<byte>, length: nat): (r: seq<byte>)
    ensures |r| == length
  {
    Stream(hash, prk, info, Blocks(length))[..length]
  }

  function Extract(hash: seq<byte> -> Digest, salt: seq<byte>, ikm: seq<byte>): Digest {
    Hmac(hash, if salt == [] then seq(HASH, _ => 0) else salt, ikm)
  }

  function Derive(hash: seq<byte> -> Digest, ikm: seq<byte>, salt: seq<byte>, info: seq<byte>,
                  length: nat): (r: seq<byte>)
    ensures |r| == length
  {
    Expand(hash, Extract(hash, salt, ikm), info, length)
  }

  lemma {:induction false} StreamPrefix(hash: seq<byte> -> Digest, prk: seq<byte>, info: seq<byte>, m: nat, n: nat)
    requires m <= n
    ensures Stream(hash, prk, info, m) <= Stream(hash, prk, info, n)
    decreases n
  {
    if m < n {
      StreamPrefix(hash, prk, info, m, n - 1);
    }
  }

  /** A shorter output is a prefix of a longer one. */
  lemma ExpandPrefix(hash: seq<byte> -> Digest, prk: seq<byte>, info: seq<byte>, m: nat, n: nat)
    requires m <= n
    ensures Expand(hash, prk, info, m) == Expand(hash, prk, info, n)[..m]
  {
    StreamPrefix(hash, prk, info, Blocks(m), Blocks(n));
  }

  /** As long as the standard allows an output to be, every block's counter is the single octet it names. */
  lemma CounterIsOctet(hash: seq<byte> -> Digest, prk: seq<byte>, info: seq<byte>, length: nat, i: nat)
    requires length <= 255 * HASH && 1 <= i <= Blocks(length)
    ensures i <= 255 && T(hash, prk, info, i) == Hmac(hash, prk, T(hash, prk, info, i - 1) + info + [i])
  {
  }

  /** memcpy into the middle of the output. */
  method CopyInto(out: array<byte>, at: nat, part: seq<byte>)
    requires at + |part| <= out.Length
    modifies out
    ensures out[..at + |part|] == old(out[..at]) + part
  {
    for i := 0 to |part|
      invariant out[..at] == old(out[..at])
      invariant forall j :: 0 <= j < i ==> out[at + j] == part[j]
    {
      out[at + i] := part[i];
    }
  }

  lemma StreamStep(hash: seq<byte> -> Digest, prk: seq<byte>, info: seq<byte>, n: nat, produced: nat, take: nat)
    requires take <= HASH && (produced == HASH * n || take == 0) && produced <= HASH * n
    ensures Stream(hash, prk, info, n + 1)[..produced + take]
      == Stream(hash, prk, info, n)[..produced] + T(hash, prk, info, n + 1)[..take]
  {
    hide T;
  }

  /** Every message the loop hashes fits: the first is the context and an octet, the others a block more. */
  predicate Derivable(ikm: nat, info: nat, length: nat) {
    0 < length && 0 < ikm <= MAXMSG && (if length <= HASH then 0 else HASH) + info + 1 <= MAXMSG
  }

  /** hkdf_sha256: false where the program aborts. */
  method DeriveInto(hash: seq<byte> -> Digest, ikm: seq<byte>, salt: seq<byte>, info: seq<byte>, out: array<byte>)
      returns (ok: bool)
    modifies out
    ensures ok <==> Derivable(|ikm|, |info|, out.Length)
    ensures ok ==> out[..] == Derive(hash, ikm, salt, info, out.Length)
  {
    hide Hmac, Stream, T;
    if out.Length == 0 || |ikm| == 0 {
      return false;
    }
    var start := if salt == [] then seq(HASH, _ => 0) else salt;
    var extracted := HmacInto(hash, start, ikm);
    if extracted == None {
      return false;
    }
    var prk := extracted.value;
    var block: seq<byte> := [];
    var produced, counter := 0, 0;
    TZero(hash, prk, info);
    while produced < out.Length
      invariant block == T(hash, prk, info, counter)
      invariant produced == (if HASH * counter < out.Length then HASH * counter else out.Length)
      invariant counter == 0 || HASH * (counter - 1) < out.Length
      invariant out[..produced] == Stream(hash, prk, info, counter)[..produced]
      invariant counter > 0 ==> |block| == HASH && |info| + 1 <= MAXMSG
      invariant counter > 1 ==> |info| + HASH + 1 <= MAXMSG
      decreases out.Length - produced
    {
      var octet: byte := (counter + 1) % 256;
      var made := HmacInto(hash, prk, block + info + [octet]);
      if made == None {
        return false;
      }
      TStep(hash, prk, info, counter);
      block := made.value;
      var take := if out.Length - produced < HASH then out.Length - produced else HASH;
      StreamStep(hash, prk, info, counter, produced, take);
      CopyInto(out, produced, block[..take]);
      counter := counter + 1;
      produced := produced + take;
    }
    BlocksIs(out.Length, counter);
    assert out[..] == out[..produced];
    return true;
  }

  lemma TZero(hash: seq<byte> -> Digest, prk: seq<byte>, info: seq<byte>)
    ensures T(hash, prk, info, 0) == []
  {
  }

  lemma TStep(hash: seq<byte> -> Digest, prk: seq<byte>, info: seq<byte>, n: nat)
    ensures T(hash, prk, info, n + 1) == Hmac(hash, prk, T(hash, prk, info, n) + info + [(n + 1) % 256])
  {
  }

  lemma BlocksIs(length: nat, n: nat)
    requires HASH * n >= length && (n == 0 || HASH * (n - 1) < length)
    ensures n == Blocks(length)
  {
  }
}
