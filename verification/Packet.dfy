/** Packets: blobs, headers, announces, and the part of a packet that is hashed. */
module Packet {
  import opened Arith
  import opened Wrappers
  import opened Text

  const MAXBLOB := 2048
  const ADDRLEN := 16
  const KEYHALF := 32
  const KEYSIZE := 64
  const NAMEHASHLEN := 10
  const RANDHASHLEN := 10
  const SIGLEN := 64
  const RATCHETLEN := 32
  const MAX_HOPS := 128
  const ECPUBSIZE := 64
  const SIGNALLEN := 3
  const TOKEN_OVERHEAD := 48

  // ---- blobs

  /** One line of a raw file: a dash, or at least one byte. */
  datatype Blob = Absent | Data(s: seq<byte>)

  function Raw(b: Blob): seq<byte> {
    match b
    case Absent => []
    case Data(s) => s
  }

  /** What readraw can return: no empty line is a blob, and no blob exceeds MAXBLOB. */
  predicate Readable(b: Blob) {
    b.Data? ==> 0 < |b.s| <= MAXBLOB
  }

  /** The line a blob was read from. */
  function Line(b: Blob): string {
    match b
    case Absent => "-"
    case Data(s) => Hex(s)
  }

  // ---- headers

  /** The rule a rejected packet breaks, with its two numbers. */
  datatype Fault = ShortHeader(length: nat, minimum: nat) | HopLimit(hops: nat) | ShortPayload(length: nat,
    minimum: nat)

  datatype Result<+T> = Ok(value: T) | Err(fault: Fault)

  datatype Header = Header(flags: byte, hops: byte, transport_id: Option<seq<byte>>, destination_hash: seq<byte>,
                           context: byte, payload: seq<byte>)
  {
    function HeaderType(): int { (flags / 64) % 2 }
    function ContextFlag(): int { (flags / 32) % 2 }
    function TransportType(): int { (flags / 16) % 2 }
    function DestinationType(): int { (flags / 4) % 4 }
    function PacketType(): int { flags % 4 }
  }

  function ParseHeader(raw: seq<byte>): (r: Result<Header>)
    ensures r.Ok? ==> |r.value.destination_hash| == ADDRLEN && r.value.hops < MAX_HOPS
    ensures r.Ok? ==> (r.value.transport_id.Some? <==> r.value.HeaderType() == 1)
    ensures r.Ok? && r.value.transport_id.Some? ==> |r.value.transport_id.value| == ADDRLEN
  {
    if |raw| < 2 then Err(ShortHeader(|raw|, 2))
    else if raw[1] >= MAX_HOPS then Err(HopLimit(raw[1]))
    else
      var two := (raw[0] / 64) % 2 == 1;
      var header_len := 3 + ADDRLEN * (if two then 2 else 1);
      if |raw| < header_len then Err(ShortHeader(|raw|, header_len))
      else if two then
        Ok(Header(raw[0], raw[1], Some(raw[2..18]), raw[18..34], raw[34], raw[35..]))
      else
        Ok(Header(raw[0], raw[1], None, raw[2..18], raw[18], raw[19..]))
  }

  /** The bytes a header and its payload are parsed from. */
  function Assemble(h: Header): seq<byte> {
    [h.flags, h.hops] + (match h.transport_id case None => [] case Some(t) => t) + h.destination_hash + [h.context]
      + h.payload
  }

  /** Parsing loses nothing: the header's fields and the payload are the packet. */
  lemma ParseAssembles(raw: seq<byte>)
    requires ParseHeader(raw).Ok?
    ensures Assemble(ParseHeader(raw).value) == raw
  {
    if (raw[0] / 64) % 2 == 1 {
      assert raw == [raw[0], raw[1]] + raw[2..18] + raw[18..34] + [raw[34]] + raw[35..];
    } else {
      assert raw == [raw[0], raw[1]] + [] + raw[2..18] + [raw[18]] + raw[19..];
    }
  }

  /** And the other way: a header whose flags say what it holds parses back from its bytes. */
  lemma AssembleParses(h: Header)
    requires h.hops < MAX_HOPS && |h.destination_hash| == ADDRLEN
    requires h.transport_id.Some? <==> h.HeaderType() == 1
    requires h.transport_id.Some? ==> |h.transport_id.value| == ADDRLEN
    ensures ParseHeader(Assemble(h)) == Ok(h)
  {
    var raw := Assemble(h);
    if h.transport_id.Some? {
      assert raw[2..18] == h.transport_id.value && raw[18..34] == h.destination_hash;
      assert raw[34] == h.context && raw[35..] == h.payload;
    } else {
      assert raw[2..18] == h.destination_hash && raw[18] == h.context && raw[19..] == h.payload;
    }
  }

  // ---- announces

  datatype Announce = Announce(public_key: seq<byte>, name_hash: seq<byte>, random_hash: seq<byte>,
                               ratchet: Option<seq<byte>>, signature: seq<byte>, app_data: seq<byte>)

  function ParseAnnounce(h: Header): Result<Announce> {
    var p := h.payload;
    var minimum := KEYSIZE + NAMEHASHLEN + RANDHASHLEN + SIGLEN + (if h.ContextFlag() == 1 then RATCHETLEN else 0);
    if |p| < minimum then Err(ShortPayload(|p|, minimum))
    else if h.ContextFlag() == 1 then
      Ok(Announce(p[..64], p[64..74], p[74..84], Some(p[84..116]), p[116..180], p[180..]))
    else
      Ok(Announce(p[..64], p[64..74], p[74..84], None, p[84..148], p[148..]))
  }

  function OptionBytes(o: Option<seq<byte>>): seq<byte> {
    match o
    case None => []
    case Some(s) => s
  }

  /** The six parts of an announce are its payload. */
  lemma AnnounceParts(h: Header)
    requires ParseAnnounce(h).Ok?
    ensures var a := ParseAnnounce(h).value;
      h.payload == a.public_key + (a.name_hash + (a.random_hash + (OptionBytes(a.ratchet) + (a.signature + a.app_data))))
      && |a.public_key| == 64 && |a.name_hash| == 10 && |a.random_hash| == 10 && |a.signature| == 64
      && (a.ratchet.Some? ==> |a.ratchet.value| == 32)
  {
    var p := h.payload;
    if h.ContextFlag() == 1 {
      assert p == p[..64] + (p[64..74] + (p[74..84] + (p[84..116] + (p[116..180] + p[180..]))));
    } else {
      assert p == p[..64] + (p[64..74] + (p[74..84] + ([] + (p[84..148] + p[148..]))));
    }
  }

  // ---- the part that is hashed

  /** hashable_part: the low flag bits and everything after the hop count and the transport id. */
  function HashablePart(raw: seq<byte>, h: Header): seq<byte>
    requires |raw| >= 18
  {
    [raw[0] % 16] + raw[if h.HeaderType() == 1 then 2 + ADDRLEN else 2..]
  }

  /** The bytes a link id is the hash of: signalling bytes after the two public keys are cut off. */
  function LinkIdPart(raw: seq<byte>, h: Header): seq<byte>
    requires |raw| >= 18
  {
    var part := HashablePart(raw, h);
    var excess := if |h.payload| > ECPUBSIZE then |h.payload| - ECPUBSIZE else 0;
    if excess <= |part| then part[..|part| - excess] else []
  }
}
