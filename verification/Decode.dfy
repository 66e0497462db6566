/** The decoders: what each kind prints, field by field. Hashes, signatures and ciphers are parameters. */
module Decode {
  import opened Arith
  import opened Wrappers
  import opened BigEndian
  import opened Text
  import opened Packet
  import Advert
  import Hkdf

  /** The field names the decoders print. */
  datatype Name =
    | AcceptedField | AcceptedLengthField | AdvertisedHashField | AppDataField | AppNameField | AspectField
    | CiphertextField | ContextField | ContextFlagField | DataSizeField | DeclaredLengthField | DestinationHashField
    | DestinationMatchField | DestinationTypeField | Ed25519PrivateField | Ed25519PublicField | EncryptedField
    | EncryptionKeyField | EphemeralPublicField | ExpectedHashField | ExpectedIfacField | ExplicitLengthField
    | FlagsField | FormField | FrameLengthField | GroupKeyField | HashMatchField | HashmapField
    | HashmapExhaustedField | HeaderTypeField | HmacField | HmacValidField | HopLimitField | HopsField
    | IdentityHashField | IdentityPublicField | IdentitySignedField | IdentityValidField | ImplicitLengthField
    | IfacField | IfacKeyField | IfacOriginField | IfacSizeField | IfacValidField | InvalidField | IvField
    | LastMapHashField | LengthField | LinkIdField | LinkIdMatchField | LinkRequestField | MessageField
    | MinimumLengthField | ModeField | MsgtypeField | MtuField | NameField | NetkeyField | NetnameField
    | NameHashField | OriginalHashField | PacketField | PacketHashField | PacketTypeField | PayloadLengthField
    | PlaintextField | PlaintextLengthField | PrivateKeyField | ProofDestinationField | ProofHashField
    | ProvedPacketField | PublicKeyField | RandomHashField | RatchetField | RatchetPrivateField | RatchetPublicField
    | RecipientPrivateField | RequestDataField | RequestIdField | RequestPathHashField | RequestTimeField
    | RequestedHashesField | RequesterIdField | RequiredLengthField | ResourceFlagsField | ResourceHashField
    | ResourcePartsField | ResourceProofField | ResourceRandomField | ResponderPrivateField | ResponseDataField
    | SegmentIndexField | SequenceField | SharedKeyField | SignalledLengthField | SignallingField | SignatureField
    | SignatureValidField | SignedDataField | SignerEd25519Field | SignerPublicField | SigningKeyField | TagField
    | TotalSegmentsField | TransferSizeField | TransportIdField | TransportTypeField | UniqueTagField
    | WantedHashField | X25519PrivateField | X25519PublicField

  datatype Field = F(name: Name, value: string)

  /** What a decoder does: stop with a message, or print fields. */
  datatype Decoded = Fatal | Printed(fields: seq<Field>)

  /** The primitives the decoders call, whatever they compute. */
  datatype Crypto = Crypto(
    sha256: seq<byte> -> Hkdf.Digest,
    x25519Public: seq<byte> -> seq<byte>,
    ed25519Public: seq<byte> -> seq<byte>,
    agree: (seq<byte>, seq<byte>) -> Option<seq<byte>>,
    derive: (seq<byte>, seq<byte>) -> seq<byte>,
    open: (seq<byte>, seq<byte>) -> (bool, Option<seq<byte>>),
    verify: (seq<byte>, seq<byte>, seq<byte>) -> bool)

  // ---- pieces every decoder prints

  function YesNo(b: bool): string {
    if b then "yes" else "no"
  }

  function BlobText(b: Blob): string {
    match b
    case Absent => "-"
    case Data(s) => FieldText(s)
  }

  function OptionText(o: Option<seq<byte>>): string {
    match o
    case None => "-"
    case Some(s) => FieldText(s)
  }

  function ContextName(c: byte): Option<string> {
    if c == 0x00 then Some("none") else if c == 0x01 then Some("resource") else if c == 0x02 then Some("resource_adv")
    else if c == 0x03 then Some("resource_req") else if c == 0x04 then Some("resource_hmu")
    else if c == 0x05 then Some("resource_prf") else if c == 0x06 then Some("resource_icl")
    else if c == 0x07 then Some("resource_rcl") else if c == 0x09 then Some("request")
    else if c == 0x0a then Some("response") else if c == 0x0b then Some("path_response")
    else if c == 0x0e then Some("channel") else if c == 0xfa then Some("keepalive")
    else if c == 0xfb then Some("link_identify") else if c == 0xfc then Some("link_close")
    else if c == 0xfd then Some("link_proof") else if c == 0xfe then Some("link_rtt")
    else if c == 0xff then Some("link_request_proof") else None
  }

  function ContextText(c: byte): string {
    match ContextName(c)
    case Some(name) => name
    case None => Hex2(c)
  }

  /** print_header: eleven fields. */
  function PrintHeader(h: Header): (r: seq<Field>)
    ensures |r| == 11
  {
    [F(FlagsField, Hex2(h.flags)),
     F(HeaderTypeField, Dec(if h.HeaderType() == 1 then 2 else 1)),
     F(ContextFlagField, if h.ContextFlag() == 1 then "set" else "unset"),
     F(TransportTypeField, if h.TransportType() == 1 then "transport" else "broadcast"),
     F(DestinationTypeField, ["single", "group", "plain", "link"][h.DestinationType()]),
     F(PacketTypeField, ["data", "announce", "linkrequest", "proof"][h.PacketType()]),
     F(HopsField, Dec(h.hops)),
     F(TransportIdField, OptionText(h.transport_id)),
     F(DestinationHashField, FieldText(h.destination_hash)),
     F(ContextField, ContextText(h.context)),
     F(PayloadLengthField, Dec(|h.payload|))]
  }

  function PrintFault(f: Fault): seq<Field> {
    match f
    case ShortHeader(length, minimum) =>
      [F(InvalidField, "short-header"), F(LengthField, Dec(length)), F(MinimumLengthField, Dec(minimum))]
    case HopLimit(hops) =>
      [F(InvalidField, "hop-limit"), F(HopsField, Dec(hops)), F(HopLimitField, Dec(MAX_HOPS))]
    case ShortPayload(length, minimum) =>
      [F(InvalidField, "short-payload"), F(PayloadLengthField, Dec(length)), F(MinimumLengthField, Dec(minimum))]
  }

  function Cut(s: seq<byte>, lo: nat, hi: nat): seq<byte> {
    if lo <= hi <= |s| then s[lo..hi] else []
  }

  /** iv, ciphertext and hmac of a token. */
  function PrintToken(t: seq<byte>): seq<Field>
    requires |t| >= TOKEN_OVERHEAD
  {
    [F(IvField, FieldText(t[..16])), F(CiphertextField, FieldText(t[16..|t| - 32])), F(HmacField,
      FieldText(t[|t| - 32..]))]
  }

  function PrintKeys(shared: Option<seq<byte>>, derived: seq<byte>): seq<Field> {
    match shared
    case None => [F(SharedKeyField, "-"), F(SigningKeyField, "-"), F(EncryptionKeyField, "-")]
    case Some(k) =>
      [F(SharedKeyField, FieldText(k)), F(SigningKeyField, FieldText(Cut(derived, 0, 32))),
       F(EncryptionKeyField, FieldText(Cut(derived, 32, 64)))]
  }

  /** The token opened with a key, or not tried without one. */
  function OpenToken(x: Crypto, key: Option<seq<byte>>, t: seq<byte>): (bool, Option<seq<byte>>) {
    match key
    case None => (false, None)
    case Some(k) => x.open(k, t)
  }

  function PrintPlaintext(x: Crypto, key: Option<seq<byte>>, t: seq<byte>): seq<Field> {
    var (ok, plain) := OpenToken(x, key, t);
    [F(HmacValidField, if key == None then "-" else YesNo(ok)),
     F(PlaintextLengthField, if plain == None then "-" else Dec(|plain.value|)),
     F(PlaintextField, OptionText(plain))]
  }

  function PrintSignalling(p: Option<seq<byte>>): seq<Field>
    requires p.Some? ==> |p.value| == SIGNALLEN
  {
    match p
    case None => [F(SignallingField, "-"), F(ModeField, "aes256_cbc"), F(MtuField, "-")]
    case Some(s) =>
      var mode := s[0] / 32;
      [F(SignallingField, FieldText(s)), F(ModeField, if mode == 1 then "aes256_cbc" else Hex2(mode)),
       F(MtuField, Dec(BeVal(s) % 0x20_0000))]
  }

  function Identity(x: Crypto, public: seq<byte>): seq<byte> {
    x.sha256(public)[..ADDRLEN]
  }

  // ---- the decoders

  function DumpIdentity(x: Crypto, b: seq<Blob>): Decoded
    requires |b| == 1
  {
    var k := Raw(b[0]);
    if |k| != KEYSIZE then Fatal
    else Printed([F(PublicKeyField, FieldText(k)), F(X25519PublicField, FieldText(k[..32])),
                  F(Ed25519PublicField, FieldText(k[32..])), F(IdentityHashField, FieldText(Identity(x, k)))])
  }

  function DumpKeyset(x: Crypto, b: seq<Blob>): Decoded
    requires |b| == 1
  {
    var k := Raw(b[0]);
    if |k| != KEYSIZE then Fatal
    else
      var pub := x.x25519Public(k[..32]) + x.ed25519Public(k[32..]);
      Printed([F(PrivateKeyField, FieldText(k)), F(X25519PrivateField, FieldText(k[..32])),
               F(Ed25519PrivateField, FieldText(k[32..])), F(PublicKeyField, FieldText(pub)),
               F(X25519PublicField, FieldText(Cut(pub, 0, 32))), F(Ed25519PublicField, FieldText(Cut(pub, 32, 64))),
               F(IdentityHashField, FieldText(Identity(x, pub)))])
  }

  /** The components of a name between its dots: the first is the application, the others its aspects. */
  function Components(s: seq<byte>, first: bool): (r: seq<Field>)
    ensures |r| == 1 + Dots(s)
    ensures forall i :: 0 <= i < |r| ==> r[i].name in {AppNameField, AspectField}
  {
    var i := DotAt(s);
    [F(if first then AppNameField else AspectField, FieldText(s[..i]))]
      + (if i < |s| then Components(s[i + 1..], false) else [])
  }

  /** Where the first dot is, or the length. */
  function DotAt(s: seq<byte>): (i: nat)
    ensures i <= |s| && (i < |s| ==> s[i] == 0x2e) && forall j :: 0 <= j < i ==> s[j] != 0x2e
    ensures Dots(s) == if i < |s| then 1 + Dots(s[i + 1..]) else 0
  {
    if s == [] || s[0] == 0x2e then 0
    else
      var j := DotAt(s[1..]);
      assert j < |s[1..]| ==> s[1..][j + 1..] == s[j + 2..];
      1 + j
  }

  function Dots(s: seq<byte>): nat {
    if s == [] then 0 else (if s[0] == 0x2e then 1 else 0) + Dots(s[1..])
  }

  lemma DotAtIs(s: seq<byte>, i: nat)
    requires i <= |s| && (i < |s| ==> s[i] == 0x2e) && forall j :: 0 <= j < i ==> s[j] != 0x2e
    ensures DotAt(s) == i
  {
    hide DotAt, Dots;
  }

  /** The component that ends at i, and what is left after it. */
  lemma ComponentAt(s: seq<byte>, start: nat, i: nat, first: bool)
    requires start <= i <= |s| && (i < |s| ==> s[i] == 0x2e) && forall j :: start <= j < i ==> s[j] != 0x2e
    ensures Components(s[start..], first) ==
      [F(if first then AppNameField else AspectField, FieldText(s[start..i]))]
        + (if i < |s| then Components(s[i + 1..], false) else [])
  {
    hide DotAt, Dots, FieldText;
    var part := s[start..];
    DotAtIs(part, i - start);
    assert part[..i - start] == s[start..i];
    assert i < |s| ==> part[i - start + 1..] == s[i + 1..];
  }

  /** The scan over a name's bytes that prints its components. */
  method SplitName(s: seq<byte>) returns (f: seq<Field>)
    ensures f == Components(s, true)
  {
    hide *;
    f := [];
    var start := 0;
    assert s[0..] == s;
    for i := 0 to |s| + 1
      invariant start <= i && forall j :: start <= j < i ==> j < |s| && s[j] != 0x2e
      invariant start <= |s| ==> f + Components(s[start..], start == 0) == Components(s, true)
      invariant start > |s| ==> f == Components(s, true)
      invariant i == |s| + 1 ==> start > |s|
    {
      if i == |s| || s[i] == 0x2e {
        ComponentAt(s, start, i, start == 0);
        f := f + [F(if start == 0 then AppNameField else AspectField, FieldText(s[start..i]))];
        start := i + 1;
      }
    }
  }

  function DumpDestination(x: Crypto, b: seq<Blob>): Decoded
    requires |b| == 2
  {
    if b[1].Data? && |b[1].s| != ADDRLEN then Fatal
    else
      var name := Raw(b[0]);
      var name_hash := x.sha256(name)[..NAMEHASHLEN];
      var dest_hash := x.sha256(name_hash + Raw(b[1]))[..ADDRLEN];
      Printed([F(NameField, FieldText(name))] + Components(name, true)
        + [F(NameHashField, FieldText(name_hash)), F(IdentityHashField, BlobText(b[1])),
           F(DestinationHashField, FieldText(dest_hash))])
  }

  /** print_announce, after the header. */
  function AnnounceRest(x: Crypto, h: Header, a: Announce): seq<Field> {
    var identity_hash := Identity(x, a.public_key);
    var expected := x.sha256(a.name_hash + identity_hash)[..ADDRLEN];
    var signed_data := h.destination_hash + a.public_key + a.name_hash + a.random_hash
                       + OptionBytes(a.ratchet) + a.app_data;
    [F(PublicKeyField, FieldText(a.public_key)), F(NameHashField, FieldText(a.name_hash)),
     F(RandomHashField, FieldText(a.random_hash)), F(RatchetField, OptionText(a.ratchet)),
     F(SignatureField, FieldText(a.signature)), F(AppDataField, FieldText(a.app_data)),
     F(IdentityHashField, FieldText(identity_hash)), F(ExpectedHashField, FieldText(expected)),
     F(DestinationMatchField, YesNo(h.destination_hash == expected)), F(SignedDataField, FieldText(signed_data)),
     F(SignatureValidField, YesNo(x.verify(Cut(a.public_key, 32, 64), a.signature, signed_data)))]
  }

  function DumpAnnounce(x: Crypto, b: seq<Blob>): Decoded
    requires |b| == 1
  {
    match ParseHeader(Raw(b[0]))
    case Err(f) => Printed(PrintFault(f))
    case Ok(h) =>
      match ParseAnnounce(h)
      case Err(f) => Printed(PrintFault(f))
      case Ok(a) => Printed(PrintHeader(h) + AnnounceRest(x, h, a))
  }

  function DumpPlain(x: Crypto, b: seq<Blob>): Decoded
    requires |b| == 1
  {
    match ParseHeader(Raw(b[0]))
    case Err(f) => Printed(PrintFault(f))
    case Ok(h) =>
      Printed(PrintHeader(h) + [F(PlaintextLengthField, Dec(|h.payload|)), F(PlaintextField, FieldText(h.payload))])
  }

  function PathRequestRest(p: seq<byte>): seq<Field>
    requires |p| >= ADDRLEN
  {
    var long := |p| > 2 * ADDRLEN;
    var tag := if long then p[32..] else p[16..];
    [F(WantedHashField, FieldText(p[..16])), F(RequesterIdField, if long then FieldText(p[16..32]) else "-"),
     F(TagField, FieldText(tag)),
     F(UniqueTagField, if tag == [] then "-" else FieldText(p[..16] + tag[..if |tag| < 16 then |tag| else 16])),
     F(AcceptedField, YesNo(tag != []))]
  }

  function DumpPathRequest(x: Crypto, b: seq<Blob>): Decoded
    requires |b| == 1
  {
    match ParseHeader(Raw(b[0]))
    case Err(f) => Printed(PrintFault(f))
    case Ok(h) =>
      var p := h.payload;
      if |p| < ADDRLEN then Printed(PrintFault(ShortPayload(|p|, ADDRLEN)))
      else
        Printed(PrintHeader(h) + PathRequestRest(p))
  }

  function EncryptedRest(x: Crypto, k: seq<byte>, ratchet: Blob, p: seq<byte>): (r: seq<Field>)
    requires |k| == KEYSIZE && |p| >= KEYHALF + TOKEN_OVERHEAD
    ensures |r| == 8
  {
    var identity_hash := Identity(x, x.x25519Public(k[..32]) + x.ed25519Public(k[32..]));
    var shared := x.agree(if ratchet.Data? then ratchet.s else k[..32], p[..32]);
    var derived := if shared == None then [] else x.derive(shared.value, identity_hash);
    var key := if shared == None then None else Some(derived);
    [F(IdentityHashField, FieldText(identity_hash)),
     F(RatchetPublicField, if ratchet.Data? then FieldText(x.x25519Public(ratchet.s)) else "-")]
      + PrintKeys(shared, derived) + PrintPlaintext(x, key, p[32..])
  }

  function DumpEncrypted(x: Crypto, b: seq<Blob>): Decoded
    requires |b| == 3
  {
    var k := Raw(b[0]);
    if |k| != KEYSIZE || (b[1].Data? && |b[1].s| != KEYHALF) then Fatal
    else
      var before := [F(RecipientPrivateField, BlobText(b[0])), F(RatchetPrivateField, BlobText(b[1]))];
      match ParseHeader(Raw(b[2]))
      case Err(f) => Printed(before + PrintFault(f))
      case Ok(h) =>
        var p := h.payload;
        if |p| < KEYHALF + TOKEN_OVERHEAD then
          Printed(before + PrintFault(ShortPayload(|p|, KEYHALF + TOKEN_OVERHEAD)))
        else
          Printed(before + PrintHeader(h) + ([F(EphemeralPublicField, FieldText(p[..32]))] + PrintToken(p[32..]))
            + EncryptedRest(x, k, b[1], p))
  }

  function DumpGroup(x: Crypto, b: seq<Blob>): Decoded
    requires |b| == 2
  {
    var k := Raw(b[0]);
    if |k| != 64 && |k| != 32 then Fatal
    else
      var before := [F(GroupKeyField, BlobText(b[0]))];
      match ParseHeader(Raw(b[1]))
      case Err(f) => Printed(before + PrintFault(f))
      case Ok(h) =>
        if |h.payload| < TOKEN_OVERHEAD then
          Printed(before + PrintFault(ShortPayload(|h.payload|, TOKEN_OVERHEAD)))
        else
          Printed(before + PrintHeader(h) + PrintToken(h.payload)
            + ([F(SigningKeyField, FieldText(k[..|k| / 2])), F(EncryptionKeyField, FieldText(k[|k| / 2..]))]
               + PrintPlaintext(x, Some(k), h.payload)))
  }

  function InvalidLength(names: seq<Name>, numbers: seq<nat>): seq<Field>
    requires |names| == |numbers|
  {
    [F(InvalidField, "invalid-length")] + seq(|names|, i requires 0 <= i < |names| => F(names[i], Dec(numbers[i])))
  }

  function LinkId(x: Crypto, raw: seq<byte>, h: Header): seq<byte>
    requires |raw| >= 18
  {
    x.sha256(LinkIdPart(raw, h))[..ADDRLEN]
  }

  function DumpLinkRequest(x: Crypto, b: seq<Blob>): Decoded
    requires |b| == 1
  {
    var raw := Raw(b[0]);
    match ParseHeader(raw)
    case Err(f) => Printed(PrintFault(f))
    case Ok(h) =>
      var p := h.payload;
      if |p| != ECPUBSIZE && |p| != ECPUBSIZE + SIGNALLEN then
        Printed(InvalidLength([PayloadLengthField, AcceptedLengthField, SignalledLengthField],
                              [|p|, ECPUBSIZE, ECPUBSIZE + SIGNALLEN]))
      else
        Printed(PrintHeader(h)
          + ([F(X25519PublicField, FieldText(p[..32])), F(Ed25519PublicField, FieldText(p[32..64]))]
             + PrintSignalling(if |p| == ECPUBSIZE then None else Some(p[64..])))
          + [F(LinkIdField, FieldText(LinkId(x, raw, h)))])
  }

  function DumpLinkProof(x: Crypto, b: seq<Blob>): Decoded
    requires |b| == 3
  {
    var signer := Raw(b[1]);
    if |signer| != KEYSIZE || ParseHeader(Raw(b[0])).Err? then Fatal
    else
      var before := [F(LinkRequestField, BlobText(b[0])), F(SignerPublicField, BlobText(b[1]))];
      match ParseHeader(Raw(b[2]))
      case Err(f) => Printed(before + PrintFault(f))
      case Ok(h) =>
        var p := h.payload;
        if |p| != SIGLEN + KEYHALF && |p| != SIGLEN + KEYHALF + SIGNALLEN then
          Printed(before + InvalidLength([PayloadLengthField, AcceptedLengthField, SignalledLengthField],
                                         [|p|, SIGLEN + KEYHALF, SIGLEN + KEYHALF + SIGNALLEN]))
        else
          var link_id := LinkId(x, Raw(b[0]), ParseHeader(Raw(b[0])).value);
          var signed_data := link_id + p[64..96] + signer[32..] + p[96..];
          Printed(before + PrintHeader(h)
            + ([F(LinkIdField, FieldText(link_id)), F(LinkIdMatchField, YesNo(h.destination_hash == link_id)),
                F(SignatureField, FieldText(p[..64])), F(X25519PublicField, FieldText(p[64..96]))]
               + PrintSignalling(if |p| == SIGLEN + KEYHALF then None else Some(p[96..])))
            + [F(SignerEd25519Field, FieldText(signer[32..])), F(SignedDataField, FieldText(signed_data)),
               F(SignatureValidField, YesNo(x.verify(signer[32..], p[..64], signed_data)))])
  }

  function DumpProof(x: Crypto, b: seq<Blob>): Decoded
    requires |b| == 3
  {
    var k := Raw(b[1]);
    if (|k| != KEYSIZE && |k| != KEYHALF) || ParseHeader(Raw(b[0])).Err? then Fatal
    else
      var before := [F(ProvedPacketField, BlobText(b[0])), F(SignerPublicField, BlobText(b[1]))];
      match ParseHeader(Raw(b[2]))
      case Err(f) => Printed(before + PrintFault(f))
      case Ok(h) =>
        var p := h.payload;
        var explicit := |p| == 32 + SIGLEN;
        var on_link := h.DestinationType() == 3;
        if |p| != SIGLEN && !explicit then
          Printed(before + InvalidLength([PayloadLengthField, ImplicitLengthField, ExplicitLengthField],
                                         [|p|, SIGLEN, 32 + SIGLEN]))
        else if |k| != (if on_link then KEYHALF else KEYSIZE) then Fatal
        else
          Printed(before + PrintHeader(h) + ProofRest(x, Raw(b[0]), ParseHeader(Raw(b[0])).value, h, k))
  }

  /** The proof's own fields, after the header. */
  function ProofRest(x: Crypto, raw: seq<byte>, ph: Header, h: Header, k: seq<byte>): (r: seq<Field>)
    requires |raw| >= 18 && (|h.payload| == SIGLEN || |h.payload| == 32 + SIGLEN)
    requires |k| == (if h.DestinationType() == 3 then KEYHALF else KEYSIZE)
    ensures |r| == 9
  {
    var p := h.payload;
    var explicit := |p| == 32 + SIGLEN;
    var on_link := h.DestinationType() == 3;
    var packet_hash := x.sha256(HashablePart(raw, ph));
    var signature := if explicit then p[32..] else p;
    var signer := if on_link then k else k[32..];
    [F(FormField, if explicit then "explicit" else "implicit"), F(PacketHashField, FieldText(packet_hash)),
     F(ProofHashField, if explicit then FieldText(p[..32]) else "-"),
     F(HashMatchField, YesNo(!explicit || p[..32] == packet_hash)),
     if on_link then F(LinkIdField, FieldText(ph.destination_hash))
     else F(ProofDestinationField, FieldText(packet_hash[..ADDRLEN])),
     if on_link then F(LinkIdMatchField, YesNo(h.destination_hash == ph.destination_hash))
     else F(DestinationMatchField, YesNo(h.destination_hash == packet_hash[..ADDRLEN])),
     F(SignatureField, FieldText(signature)), F(SignerEd25519Field, FieldText(signer)),
     F(SignatureValidField, YesNo(x.verify(signer, signature, packet_hash)))]
  }

  function DumpResourceProof(x: Crypto, b: seq<Blob>): Decoded
    requires |b| == 2
  {
    if |Raw(b[0])| != 32 then Fatal
    else
      var before := [F(AdvertisedHashField, BlobText(b[0]))];
      match ParseHeader(Raw(b[1]))
      case Err(f) => Printed(before + PrintFault(f))
      case Ok(h) =>
        var p := h.payload;
        if |p| != 64 then
          Printed(before + PrintHeader(h) + InvalidLength([PayloadLengthField, AcceptedLengthField], [|p|, 64]))
        else
          Printed(before + PrintHeader(h)
            + [F(ResourceHashField, FieldText(p[..32])), F(ResourceProofField, FieldText(p[32..])),
               F(HashMatchField, YesNo(p[..32] == Raw(b[0])))])
  }

  // ---- linkdata

  /** One field of a resource advertisement or an array body. */
  function ReadingText(r: Advert.Reading): string {
    match r
    case Unread => "-"
    case Number(n) => Dec(n)
    case Octets(s) => FieldText(s)
  }

  /** %02llx: at least two hex digits. */
  function HexNumber(n: nat): string {
    if n < 256 then Hex2(n) else HexNumber(n / 16) + [Digit(n % 16)]
  }

  const ADVERT_NAMES: seq<Name> := [TransferSizeField, DataSizeField, ResourcePartsField, ResourceHashField,
    ResourceRandomField,
    OriginalHashField, SegmentIndexField, TotalSegmentsField, RequestIdField, ResourceFlagsField, HashmapField]

  function NamedReadings(names: seq<Name>, rs: seq<Advert.Reading>): (r: seq<Field>)
    requires |names| == |rs|
    ensures |r| == |names| && forall i :: 0 <= i < |r| ==> r[i].name == names[i]
  {
    seq(|names|, i requires 0 <= i < |names| =>
      F(names[i], if names[i] == ResourceFlagsField && rs[i].Number? then HexNumber(rs[i].n) else ReadingText(rs[i])))
  }

  function ShortPlaintext(need: nat): seq<Field> {
    [F(InvalidField, "short-plaintext"), F(MinimumLengthField, Dec(need))]
  }

  /** print_resource. */
  function PrintResource(context: byte, p: seq<byte>): seq<Field> {
    if context == 0x02 then NamedReadings(ADVERT_NAMES, Advert.Advertisement(p))
    else if context == 0x03 then
      if |p| < 1 then ShortPlaintext(1)
      else
        var exhausted := p[0] == 0xff;
        var at := 1 + (if exhausted then 4 else 0);
        if |p| < at + 32 then ShortPlaintext(at + 32)
        else
          [F(HashmapExhaustedField, YesNo(exhausted)), F(LastMapHashField,
            if exhausted then FieldText(p[1..5]) else "-"),
           F(ResourceHashField, FieldText(p[at..at + 32])), F(RequestedHashesField, FieldText(p[at + 32..]))]
    else if context == 0x04 then
      if |p| < 33 then ShortPlaintext(33)
      else
        [F(ResourceHashField, FieldText(p[..32]))]
          + NamedReadings([SegmentIndexField, HashmapField], Advert.ReadArrayBody([Advert.UintKind, Advert.BinKind],
            p[32..]))
    else if context == 0x06 || context == 0x07 then [F(ResourceHashField, FieldText(p))]
    else []
  }

  /** What an opened plaintext prints, by the packet's context. */
  function PrintOpened(x: Crypto, context: byte, link_id: seq<byte>, p: seq<byte>): seq<Field> {
    if context == 0x0e then
      if |p| < 6 then ShortPlaintext(6)
      else
        [F(MsgtypeField, FieldText(p[..2])), F(SequenceField, Dec(BeVal(p[2..4]))), F(DeclaredLengthField,
          Dec(BeVal(p[4..6]))),
         F(MessageField, FieldText(p[6..]))]
    else if context == 0x09 then
      if |p| < 1 then ShortPlaintext(1)
      else NamedReadings([RequestTimeField, RequestPathHashField, RequestDataField],
                         Advert.ReadArrayBody([Advert.DoubleKind, Advert.BinKind, Advert.BinKind], p))
    else if context == 0x0a then
      if |p| < 1 then ShortPlaintext(1)
      else NamedReadings([RequestIdField, ResponseDataField], Advert.ReadArrayBody([Advert.BinKind, Advert.BinKind], p))
    else if context == 0xfb then
      if |p| != 128 then [F(InvalidField, "identify-length"), F(RequiredLengthField, Dec(128))]
      else
        [F(IdentityPublicField, FieldText(p[..64])), F(IdentityHashField, FieldText(Identity(x, p[..64]))),
         F(IdentitySignedField, FieldText(link_id + p[..64])),
         F(IdentityValidField, YesNo(x.verify(p[32..64], p[64..], link_id + p[..64])))]
    else PrintResource(context, p)
  }

  function DumpLinkData(x: Crypto, b: seq<Blob>): Decoded
    requires |b| == 3
  {
    if |Raw(b[1])| != KEYHALF || ParseHeader(Raw(b[0])).Err? then Fatal
    else
      var before := [F(LinkRequestField, BlobText(b[0])), F(ResponderPrivateField, BlobText(b[1]))];
      match ParseHeader(Raw(b[2]))
      case Err(f) => Printed(before + PrintFault(f))
      case Ok(h) =>
        var rh := ParseHeader(Raw(b[0])).value;
        var link_id := LinkId(x, Raw(b[0]), rh);
        var head := before + PrintHeader(h);
        var about := [F(LinkIdField, FieldText(link_id)), F(LinkIdMatchField, YesNo(h.destination_hash == link_id))];
        if h.context == 0x01 || h.context == 0xfa then
          Printed(head + (about + [F(EncryptedField, "no"), F(PlaintextLengthField, Dec(|h.payload|)),
                                   F(PlaintextField, FieldText(h.payload))]))
        else if |h.payload| < TOKEN_OVERHEAD then
          Printed(head + (about + [F(EncryptedField, "yes")]) + PrintFault(ShortPayload(|h.payload|, TOKEN_OVERHEAD)))
        else
          Printed(head + (about + [F(EncryptedField, "yes")] + PrintToken(h.payload))
            + LinkDataRest(x, h, link_id, x.agree(Raw(b[1]), Cut(rh.payload, 0, 32))))
  }

  /** Keys, plaintext, and what the plaintext says. */
  function LinkDataRest(x: Crypto, h: Header, link_id: seq<byte>, shared: Option<seq<byte>>): seq<Field> {
    var derived := if shared == None then [] else x.derive(shared.value, link_id);
    var key := if shared == None then None else Some(derived);
    var plain := OpenToken(x, key, h.payload).1;
    PrintKeys(shared, derived) + PrintPlaintext(x, key, h.payload)
      + (if plain == None then [] else PrintOpened(x, h.context, link_id, plain.value))
  }
}
