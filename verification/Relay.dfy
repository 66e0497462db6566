/** What a packet keeps while it travels: the bytes its hash and its link id are taken over. */
module Relay {
  import opened Arith
  import opened Wrappers
  import opened Packet

  /** The generator's own hashable part; with a payload length it leaves the signalling bytes out. */
  function Hashed(raw: seq<byte>, payload_len: Option<nat>): seq<byte>
    requires |raw| >= 18
  {
    var part := [raw[0] % 16] + (if (raw[0] / 64) % 2 == 1 then raw[18..] else raw[2..]);
    match payload_len
    case None => part
    case Some(n) => if n > ECPUBSIZE && n - ECPUBSIZE <= |part| then part[..|part| - (n - ECPUBSIZE)] else part
  }

  /** transport_insert: flags | 0x40 | 0x10, a new hop count, and a transport id behind them. */
  function TransportInsert(raw: seq<byte>, hops: byte, transport_id: seq<byte>): seq<byte>
    requires |raw| >= 2
  {
    var or40 := raw[0] / 128 * 128 + 64 + raw[0] % 64;
    [or40 / 32 * 32 + 16 + or40 % 16, hops] + transport_id + raw[2..]
  }

  /** hashable_part as the decoder assembles it in a buffer. */
  method AssembleHashable(raw: seq<byte>, h: Header, out: array<byte>) returns (n: nat)
    requires |raw| >= 18 && out.Length >= |raw|
    modifies out
    ensures n <= out.Length && out[..n] == HashablePart(raw, h)
  {
    var from := if h.HeaderType() == 1 then 2 + ADDRLEN else 2;
    out[0] := raw[0] % 16;
    for i := from to |raw|
      invariant out[0] == raw[0] % 16
      invariant forall j :: from <= j < i ==> out[1 + j - from] == raw[j]
    {
      out[1 + i - from] := raw[i];
    }
    n := 1 + |raw| - from;
  }

  /** What the hashable part is made of: hop count, transport id and the high flag bits are not in it. */
  lemma HashableIs(raw: seq<byte>, h: Header)
    requires ParseHeader(raw) == Ok(h)
    ensures |raw| >= 19 && HashablePart(raw, h) == [h.flags % 16] + (h.destination_hash + ([h.context] + h.payload))
  {
    if h.HeaderType() == 1 {
      assert raw[18..] == raw[18..34] + ([raw[34]] + raw[35..]);
    } else {
      assert raw[2..] == raw[2..18] + ([raw[18]] + raw[19..]);
    }
  }

  function Clipped(p: seq<byte>): seq<byte> {
    if |p| > ECPUBSIZE then p[..ECPUBSIZE] else p
  }

  lemma LinkIdIs(raw: seq<byte>, h: Header)
    requires ParseHeader(raw) == Ok(h)
    ensures |raw| >= 19
    ensures LinkIdPart(raw, h) == [h.flags % 16] + (h.destination_hash + ([h.context] + Clipped(h.payload)))
  {
    HashableIs(raw, h);
    hide ParseHeader, HashablePart;
    var part := HashablePart(raw, h);
    if |h.payload| > ECPUBSIZE {
      var front := [h.flags % 16] + (h.destination_hash + [h.context]);
      assert part == front + h.payload;
      var keep := |part| - (|h.payload| - ECPUBSIZE);
      assert part[..keep] == front + h.payload[..ECPUBSIZE];
    } else {
      assert part[..|part|] == part;
    }
  }

  /** The decoder's link id preimage and the generator's are one function of the packet. */
  lemma GeneratorAgrees(raw: seq<byte>, h: Header)
    requires ParseHeader(raw) == Ok(h)
    ensures |raw| >= 19 && Hashed(raw, None) == HashablePart(raw, h)
    ensures Hashed(raw, Some(|h.payload|)) == LinkIdPart(raw, h)
  {
    HashableIs(raw, h);
  }

  /** Relaying a packet keeps everything but its high flag bits, its hop count and its transport id. */
  lemma RelayKeeps(raw: seq<byte>, h: Header, hops: byte, transport_id: seq<byte>)
    requires ParseHeader(raw) == Ok(h) && h.HeaderType() == 0 && hops < MAX_HOPS && |transport_id| == ADDRLEN
    ensures var sent := TransportInsert(raw, hops, transport_id); var r := ParseHeader(sent);
      r.Ok? && |sent| >= 19 && |raw| >= 19
      && r.value.HeaderType() == 1 && r.value.TransportType() == 1
      && r.value == h.(flags := r.value.flags, hops := hops, transport_id := Some(transport_id))
      && r.value.flags % 16 == h.flags % 16 && r.value.ContextFlag() == h.ContextFlag()
      && HashablePart(sent, r.value) == HashablePart(raw, h)
      && LinkIdPart(sent, r.value) == LinkIdPart(raw, h)
  {
    var sent := TransportInsert(raw, hops, transport_id);
    RelayParses(raw, h, hops, transport_id);
    var g := ParseHeader(sent).value;
    RelayFlags(raw[0]);
    hide ParseHeader, TransportInsert, HashablePart, LinkIdPart;
    HashableIs(raw, h);
    HashableIs(sent, g);
    LinkIdIs(raw, h);
    LinkIdIs(sent, g);
  }

  lemma RelayFlags(x: byte)
    ensures var or40 := x / 128 * 128 + 64 + x % 64; var f := or40 / 32 * 32 + 16 + or40 % 16;
      0 <= f < 256 && f % 16 == x % 16 && (f / 64) % 2 == 1 && (f / 16) % 2 == 1 && (f / 32) % 2 == (x / 32) % 2
      && f / 128 == x / 128
  {
    var a, y := x / 128, x % 64;
    var b, c := y / 32, y % 16;
    assert (a * 128 + 64 + y) / 32 == 4 * a + 2 + y / 32 && (a * 128 + 64 + y) % 16 == y % 16;
    FlagBits(a, b, c);
    LowBits(x);
  }

  lemma LowBits(x: byte)
    ensures x / 32 % 2 == x % 64 / 32 && x % 16 == x % 64 % 16 && x % 64 / 32 < 2 && x / 128 < 2
  {
    var q, y := x / 64, x % 64;
    assert x == 64 * q + y;
    assert x / 32 == 2 * q + y / 32;
  }

  lemma FlagBits(a: nat, b: nat, c: nat)
    requires a < 2 && b < 2 && c < 16
    ensures var f := 128 * a + 64 + 32 * b + 16 + c;
      f < 256 && f % 16 == c && (f / 64) % 2 == 1 && (f / 16) % 2 == 1 && (f / 32) % 2 == b && f / 128 == a
  {
    if a == 0 {
    } else {
    }
  }

  lemma RelayParses(raw: seq<byte>, h: Header, hops: byte, transport_id: seq<byte>)
    requires ParseHeader(raw) == Ok(h) && h.HeaderType() == 0 && hops < MAX_HOPS && |transport_id| == ADDRLEN
    ensures var sent := TransportInsert(raw, hops, transport_id);
      ParseHeader(sent) == Ok(h.(flags := sent[0], hops := hops, transport_id := Some(transport_id)))
      && raw[0] == h.flags && |sent| >= 19
      && sent[0] == (var or40 := raw[0] / 128 * 128 + 64 + raw[0] % 64; or40 / 32 * 32 + 16 + or40 % 16)
  {
    var sent := TransportInsert(raw, hops, transport_id);
    RelayFlags(raw[0]);
    assert sent[2..18] == transport_id && sent[18..34] == raw[2..18] && sent[34] == raw[18] && sent[35..] == raw[19..];
  }

  /** Two packets have one hashable part exactly when they agree on the low flag bits, destination, context and
      payload. */
  lemma HashableDetermines(raw1: seq<byte>, h1: Header, raw2: seq<byte>, h2: Header)
    requires ParseHeader(raw1) == Ok(h1) && ParseHeader(raw2) == Ok(h2)
    ensures |raw1| >= 19 && |raw2| >= 19
    ensures HashablePart(raw1, h1) == HashablePart(raw2, h2) <==>
      (h1.flags % 16 == h2.flags % 16 && h1.destination_hash == h2.destination_hash && h1.context == h2.context
       && h1.payload == h2.payload)
  {
    HashableIs(raw1, h1);
    HashableIs(raw2, h2);
    Lengths(raw1, h1);
    Lengths(raw2, h2);
    hide ParseHeader, HashablePart;
    PartsApart(h1.flags % 16, h1.destination_hash, h1.context, h1.payload,
               h2.flags % 16, h2.destination_hash, h2.context, h2.payload);
  }

  /** Two packets name one link exactly when they agree on the low flag bits, destination, context and the first 64
      payload bytes: what is signalled behind the two keys does not change the link's identity. */
  lemma LinkIdDetermines(raw1: seq<byte>, h1: Header, raw2: seq<byte>, h2: Header)
    requires ParseHeader(raw1) == Ok(h1) && ParseHeader(raw2) == Ok(h2)
    ensures |raw1| >= 19 && |raw2| >= 19
    ensures LinkIdPart(raw1, h1) == LinkIdPart(raw2, h2) <==>
      (h1.flags % 16 == h2.flags % 16 && h1.destination_hash == h2.destination_hash && h1.context == h2.context
       && Clipped(h1.payload) == Clipped(h2.payload))
  {
    LinkIdIs(raw1, h1);
    LinkIdIs(raw2, h2);
    Lengths(raw1, h1);
    Lengths(raw2, h2);
    hide ParseHeader, LinkIdPart, Clipped;
    PartsApart(h1.flags % 16, h1.destination_hash, h1.context, Clipped(h1.payload),
               h2.flags % 16, h2.destination_hash, h2.context, Clipped(h2.payload));
  }

  lemma Lengths(raw: seq<byte>, h: Header)
    requires ParseHeader(raw) == Ok(h)
    ensures |h.destination_hash| == 16
  {
  }

  lemma PartsApart(f: byte, d: seq<byte>, c: byte, p: seq<byte>, g: byte, e: seq<byte>, b: byte, q: seq<byte>)
    requires |d| == |e| == 16
    ensures [f] + (d + ([c] + p)) == [g] + (e + ([b] + q)) <==> (f == g && d == e && c == b && p == q)
  {
    var s, t := [f] + (d + ([c] + p)), [g] + (e + ([b] + q));
    assert s[0] == f && s[1..17] == d && s[17] == c && s[18..] == p;
    assert t[0] == g && t[1..17] == e && t[17] == b && t[18..] == q;
  }

  /** Header 1 packets with one hashable part differ at most in the high flag bits and the hop count. */
  lemma HeaderOneTwins(raw1: seq<byte>, h1: Header, raw2: seq<byte>, h2: Header)
    requires ParseHeader(raw1) == Ok(h1) && ParseHeader(raw2) == Ok(h2)
    requires h1.HeaderType() == 0 && h2.HeaderType() == 0 && |raw1| >= 18 && |raw2| >= 18
    ensures HashablePart(raw1, h1) == HashablePart(raw2, h2) <==>
      (|raw1| == |raw2| && raw1[2..] == raw2[2..] && raw1[0] % 16 == raw2[0] % 16)
  {
    var s, t := [raw1[0] % 16] + raw1[2..], [raw2[0] % 16] + raw2[2..];
    assert s[0] == raw1[0] % 16 && s[1..] == raw1[2..] && t[0] == raw2[0] % 16 && t[1..] == raw2[2..];
  }
}
