/** The encoders: rebuilding raw lines from printed fields. */
module Encode {
  import opened Arith
  import opened Wrappers
  import opened Text
  import opened Packet
  import opened Decode

  const MAXFIELDS := 40

  // ---- looking fields up

  /** The value of the first field of that name. */
  function Lookup(f: seq<Field>, name: Name): Option<string> {
    if f == [] then None else if f[0].name == name then Some(f[0].value) else Lookup(f[1..], name)
  }

  lemma {:induction false} LookupAt(f: seq<Field>, name: Name, i: nat)
    requires i < |f| && f[i].name == name && forall j :: 0 <= j < i ==> f[j].name != name
    ensures Lookup(f, name) == Some(f[i].value)
  {
    if i > 0 {
      LookupAt(f[1..], name, i - 1);
    }
  }

  method FindField(f: seq<Field>, name: Name) returns (v: Option<string>)
    ensures v == Lookup(f, name)
  {
    for i := 0 to |f|
      invariant Lookup(f, name) == Lookup(f[i..], name)
    {
      if f[i].name == name {
        return Some(f[i].value);
      }
      assert f[i..][1..] == f[i + 1..];
    }
    return None;
  }

  // ---- appending hex, as functions: None where the program stops

  function PutHex(o: string, v: string): Option<string> {
    if |v| % 2 == 0 && AllHex(v) && |o| + |v| < MAXHEX then Some(o + v) else None
  }

  function PutField(o: string, f: seq<Field>, name: Name): Option<string> {
    match Lookup(f, name)
    case None => None
    case Some(v) => if v == "-" then Some(o) else PutHex(o, v)
  }

  function PutFields(o: string, f: seq<Field>, names: seq<Name>): Option<string>
    decreases |names|
  {
    if names == [] then Some(o)
    else
      match PutField(o, f, names[0])
      case None => None
      case Some(p) => PutFields(p, f, names[1..])
  }

  function PutHops(o: string, f: seq<Field>): Option<string> {
    match Lookup(f, HopsField)
    case None => None
    case Some(v) =>
      match Strtoul(v)
      case None => None
      case Some(n) => if n >= MAX_HOPS then None else PutHex(o, Hex2(n))
  }

  function ContextByte(v: string): Option<byte> {
    if v == "none" then Some(0x00) else if v == "resource" then Some(0x01) else if v == "resource_adv" then Some(0x02)
    else if v == "resource_req" then Some(0x03) else if v == "resource_hmu" then Some(0x04)
    else if v == "resource_prf" then Some(0x05) else if v == "resource_icl" then Some(0x06)
    else if v == "resource_rcl" then Some(0x07) else if v == "request" then Some(0x09)
    else if v == "response" then Some(0x0a) else if v == "path_response" then Some(0x0b)
    else if v == "channel" then Some(0x0e) else if v == "keepalive" then Some(0xfa)
    else if v == "link_identify" then Some(0xfb) else if v == "link_close" then Some(0xfc)
    else if v == "link_proof" then Some(0xfd) else if v == "link_rtt" then Some(0xfe)
    else if v == "link_request_proof" then Some(0xff) else None
  }

  function PutContext(o: string, f: seq<Field>): Option<string> {
    match Lookup(f, ContextField)
    case None => None
    case Some(v) =>
      match ContextByte(v)
      case Some(c) => PutHex(o, Hex2(c))
      case None => if |v| != 2 then None else PutHex(o, v)
  }

  function PutHeader(o: string, f: seq<Field>): Option<string> {
    match PutField(o, f, FlagsField)
    case None => None
    case Some(a) =>
      match PutHops(a, f)
      case None => None
      case Some(b) =>
        match PutFields(b, f, [TransportIdField, DestinationHashField])
        case None => None
        case Some(c) => PutContext(c, f)
  }

  // ---- struct out

  class Out {
    var hex: string

    constructor ()
      ensures hex == ""
    {
      hex := "";
    }

    /** put: append checked hex; false where the program stops. */
    method Put(v: string) returns (ok: bool)
      modifies this
      ensures ok <==> PutHex(old(hex), v).Some?
      ensures ok ==> Some(hex) == PutHex(old(hex), v)
      ensures !ok ==> hex == old(hex)
    {
      ok := |v| % 2 == 0 && AllHex(v) && |hex| + |v| < MAXHEX;
      if ok {
        hex := hex + v;
      }
    }

    method AddField(f: seq<Field>, name: Name) returns (ok: bool)
      modifies this
      ensures ok <==> PutField(old(hex), f, name).Some?
      ensures ok ==> Some(hex) == PutField(old(hex), f, name)
    {
      var v := FindField(f, name);
      if v == None { return false; }
      if v.value == "-" { return true; }
      ok := Put(v.value);
    }

    method AddHops(f: seq<Field>) returns (ok: bool)
      modifies this
      ensures ok <==> PutHops(old(hex), f).Some?
      ensures ok ==> Some(hex) == PutHops(old(hex), f)
    {
      var v := FindField(f, HopsField);
      if v == None { return false; }
      var n := Strtoul(v.value);
      if n == None || n.value >= MAX_HOPS { return false; }
      ok := Put(Hex2(n.value));
    }

    method AddContext(f: seq<Field>) returns (ok: bool)
      modifies this
      ensures ok <==> PutContext(old(hex), f).Some?
      ensures ok ==> Some(hex) == PutContext(old(hex), f)
    {
      hide ContextByte;
      var v := FindField(f, ContextField);
      if v == None { return false; }
      var c := ContextByte(v.value);
      if c != None {
        ok := Put(Hex2(c.value));
        return;
      }
      if |v.value| != 2 { return false; }
      ok := Put(v.value);
    }

    method AddHeader(f: seq<Field>) returns (ok: bool)
      modifies this
      ensures ok <==> PutHeader(old(hex), f).Some?
      ensures ok ==> Some(hex) == PutHeader(old(hex), f)
    {
      ghost var o := hex;
      hide PutField, PutHops, PutContext;
      ok := AddField(f, FlagsField);
      if !ok { return; }
      ghost var a := hex;
      ok := AddHops(f);
      if !ok { return; }
      ghost var b := hex;
      PutTwo(b, f, TransportIdField, DestinationHashField);
      ok := AddField(f, TransportIdField);
      if !ok { return; }
      ok := AddField(f, DestinationHashField);
      if !ok { return; }
      ok := AddContext(f);
    }
  }

  lemma PutTwo(o: string, f: seq<Field>, m: Name, n: Name)
    ensures PutFields(o, f, [m, n]) ==
      match PutField(o, f, m)
      case None => None
      case Some(p) => PutField(p, f, n)
  {
    assert [m, n][1..] == [n] && [n][1..] == [];
    match PutField(o, f, m)
    case None =>
    case Some(p) =>
      assert PutFields(p, f, [n]) == match PutField(p, f, n) case None => None case Some(q) => PutFields(q, f, []);
  }

  // ---- layouts

  /** A layout's words: a field name, or the sign after which everything goes into one packet. */
  datatype Token = Pack | Item(name: Name)

  /** What a layout run has printed, and the packet it is filling. */
  datatype Run = Run(lines: seq<string>, hex: string, packing: bool) | Stopped

  function Word(r: Run, f: seq<Field>, t: Token): Run
    requires r.Run?
  {
    match t
    case Pack => (match PutHeader(r.hex, f) case None => Stopped case Some(o) => Run(r.lines, o, true))
    case Item(name) =>
      if r.packing then (match PutField(r.hex, f, name) case None => Stopped case Some(o) => Run(r.lines, o, true))
      else (match Lookup(f, name) case None => Stopped case Some(v) => Run(r.lines + [v], r.hex, false))
  }

  function Words(r: Run, f: seq<Field>, layout: seq<Token>): Run
    decreases |layout|
  {
    if layout == [] || r.Stopped? then r else Words(Word(r, f, layout[0]), f, layout[1..])
  }

  /** The lines a layout rebuilds from the fields, or None where the program stops. */
  function LayoutLines(f: seq<Field>, layout: seq<Token>): Option<seq<string>> {
    match Words(Run([], "", false), f, layout)
    case Stopped => None
    case Run(lines, hex, packing) => Some(if packing then lines + [hex] else lines)
  }

  /** encode_layout. */
  method EncodeLayout(f: seq<Field>, layout: seq<Token>) returns (r: Option<seq<string>>)
    ensures r == LayoutLines(f, layout)
  {
    var o := new Out();
    var lines: seq<string> := [];
    var packing := false;
    for i := 0 to |layout|
      invariant fresh(o)
      invariant Words(Run(lines, o.hex, packing), f, layout[i..]) == Words(Run([], "", false), f, layout)
    {
      ghost var before := Run(lines, o.hex, packing);
      assert layout[i..][0] == layout[i] && layout[i..][1..] == layout[i + 1..];
      var ok := true;
      match layout[i] {
        case Pack =>
          ok := o.AddHeader(f);
          packing := true;
        case Item(name) =>
          if packing {
            ok := o.AddField(f, name);
          } else {
            var v := FindField(f, name);
            ok := v != None;
            if ok {
              lines := lines + [v.value];
            }
          }
      }
      if !ok {
        return None;
      }
    }
    return Some(if packing then lines + [o.hex] else lines);
  }

  // ---- the table of kinds

  datatype Kind = Identity | Keyset | Destination | Announce | Plain | PathRequest | Encrypted | Group
    | LinkRequest | LinkProof | LinkData | Proof | ResourceProof

  /** How many lines a kind's raw holds. */
  function Blobs(k: Kind): nat {
    match k
    case Encrypted | LinkProof | LinkData | Proof => 3
    case Destination | Group | ResourceProof => 2
    case _ => 1
  }

  function Decoder(k: Kind, x: Crypto, b: seq<Blob>): Decoded
    requires |b| == Blobs(k)
  {
    match k
    case Identity => DumpIdentity(x, b)
    case Keyset => DumpKeyset(x, b)
    case Destination => DumpDestination(x, b)
    case Announce => DumpAnnounce(x, b)
    case Plain => DumpPlain(x, b)
    case PathRequest => DumpPathRequest(x, b)
    case Encrypted => DumpEncrypted(x, b)
    case Group => DumpGroup(x, b)
    case LinkRequest => DumpLinkRequest(x, b)
    case LinkProof => DumpLinkProof(x, b)
    case LinkData => DumpLinkData(x, b)
    case Proof => DumpProof(x, b)
    case ResourceProof => DumpResourceProof(x, b)
  }

  /** The fields a kind prints as lines of their own. */
  function Emits(k: Kind): seq<Name> {
    match k
    case Identity => [PublicKeyField]
    case Keyset => [PrivateKeyField]
    case Destination => [NameField, IdentityHashField]
    case Encrypted => [RecipientPrivateField, RatchetPrivateField]
    case Group => [GroupKeyField]
    case LinkProof => [LinkRequestField, SignerPublicField]
    case LinkData => [LinkRequestField, ResponderPrivateField]
    case Proof => [ProvedPacketField, SignerPublicField]
    case ResourceProof => [AdvertisedHashField]
    case _ => []
  }

  /** The fields a kind packs after the header, when its last line is a packet. */
  function Packs(k: Kind): Option<seq<Name>> {
    match k
    case Identity | Keyset | Destination => None
    case Announce => Some([PublicKeyField, NameHashField, RandomHashField, RatchetField, SignatureField, AppDataField])
    case Plain => Some([PlaintextField])
    case PathRequest => Some([WantedHashField, RequesterIdField, TagField])
    case Encrypted => Some([EphemeralPublicField, IvField, CiphertextField, HmacField])
    case Group => Some([IvField, CiphertextField, HmacField])
    case LinkRequest => Some([X25519PublicField, Ed25519PublicField, SignallingField])
    case LinkProof => Some([SignatureField, X25519PublicField, SignallingField])
    case LinkData => Some([])
    case Proof => Some([ProofHashField, SignatureField])
    case ResourceProof => Some([ResourceHashField, ResourceProofField])
  }

  function Items(names: seq<Name>): seq<Token> {
    seq(|names|, i requires 0 <= i < |names| => Item(names[i]))
  }

  function Layout(k: Kind): seq<Token> {
    Items(Emits(k)) + (match Packs(k) case None => [] case Some(names) => [Pack] + Items(names))
  }

  /** encode_linkdata: which fields are packed depends on whether the packet was encrypted. */
  function LinkDataLines(f: seq<Field>): Option<seq<string>> {
    match Lookup(f, LinkRequestField)
    case None => None
    case Some(request) =>
      match Lookup(f, ResponderPrivateField)
      case None => None
      case Some(private) =>
        match PutHeader("", f)
        case None => None
        case Some(o) =>
          match Lookup(f, EncryptedField)
          case None => None
          case Some(encrypted) =>
            match PutFields(o, f, if encrypted == "no" then [PlaintextField] else [IvField, CiphertextField, HmacField])
            case None => None
            case Some(hex) => Some([request, private, hex])
  }

  /** encode_linkdata. */
  method EncodeLinkData(f: seq<Field>) returns (r: Option<seq<string>>)
    ensures r == LinkDataLines(f)
  {
    hide PutHeader, PutField, Lookup;
    var request := FindField(f, LinkRequestField);
    if request == None { return None; }
    var private := FindField(f, ResponderPrivateField);
    if private == None { return None; }
    var o := new Out();
    var ok := o.AddHeader(f);
    if !ok { return None; }
    var encrypted := FindField(f, EncryptedField);
    if encrypted == None { return None; }
    ghost var hex := o.hex;
    if encrypted.value == "no" {
      PutOne(hex, f, PlaintextField);
      ok := o.AddField(f, PlaintextField);
      if !ok { return None; }
    } else {
      PutThree(hex, f, IvField, CiphertextField, HmacField);
      ok := o.AddField(f, IvField);
      if !ok { return None; }
      ok := o.AddField(f, CiphertextField);
      if !ok { return None; }
      ok := o.AddField(f, HmacField);
      if !ok { return None; }
    }
    return Some([request.value, private.value, o.hex]);
  }

  lemma PutOne(o: string, f: seq<Field>, m: Name)
    ensures PutFields(o, f, [m]) == PutField(o, f, m)
  {
    hide PutField;
    assert [m][1..] == [];
  }

  lemma PutThree(o: string, f: seq<Field>, l: Name, m: Name, n: Name)
    ensures PutFields(o, f, [l, m, n]) ==
      match PutField(o, f, l)
      case None => None
      case Some(p) =>
        match PutField(p, f, m)
        case None => None
        case Some(q) => PutField(q, f, n)
  {
    hide PutField;
    assert [l, m, n][1..] == [m, n];
    match PutField(o, f, l)
    case None =>
    case Some(p) => PutTwo(p, f, m, n);
  }

  /** What dump -e prints: at most forty fields are read. */
  function Rebuild(k: Kind, f: seq<Field>): Option<seq<string>> {
    if |f| > MAXFIELDS then None
    else if k == LinkData then LinkDataLines(f)
    else LayoutLines(f, Layout(k))
  }
}
