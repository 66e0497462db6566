/** Interface access codes: framing a packet behind a mask, and taking the frame apart again. */
module Ifac {
  import opened Arith
  import opened Bits
  import opened Wrappers
  import opened Text
  import opened Packet
  import opened Decode
  import opened Encode
  import opened RoundTrip
  import opened Hkdf

  const SALT: seq<byte> := [
    0xad, 0xf5, 0x4d, 0x88, 0x2c, 0x9a, 0x9b, 0x80, 0x77, 0x1e, 0xb4, 0x99, 0x5d, 0x70, 0x2d, 0x4a,
    0x3e, 0x73, 0x33, 0x91, 0xb2, 0xa0, 0xf5, 0x3f, 0x41, 0x6d, 0x9f, 0x90, 0x7e, 0x55, 0xcf, 0xf8]

  /** The hash and the signature scheme, whatever they compute. */
  datatype Suite = Suite(hash: seq<byte> -> Digest, sign: (seq<byte>, seq<byte>) -> Signature)

  type Signature = s: seq<byte> | |s| == 64 witness seq(64, _ => 0)

  // ---- the mask

  function BlobHash(c: Suite, b: Blob): seq<byte> {
    match b
    case Absent => []
    case Data(s) => c.hash(s)
  }

  function Origin(c: Suite, netname: Blob, netkey: Blob): seq<byte> {
    BlobHash(c, netname) + BlobHash(c, netkey)
  }

  function Key(c: Suite, origin: seq<byte>): (r: seq<byte>)
    ensures |r| == KEYSIZE
  {
    Derive(c.hash, c.hash(origin), SALT, [], KEYSIZE)
  }

  /** A frame masked or unmasked: its access code, n bytes from the third on, is left as it is. */
  function Mask(m: seq<byte>, n: nat, s: seq<byte>): (r: seq<byte>)
    requires |m| == |s|
    ensures |r| == |s|
  {
    seq(|s|, i requires 0 <= i < |s| => if i <= 1 || i > n + 1 then ByteXor(s[i], m[i]) else s[i])
  }

  function MaskBytes(c: Suite, code: seq<byte>, key: seq<byte>, length: nat): (m: seq<byte>)
    ensures |m| == length
  {
    Derive(c.hash, code, key, [], length)
  }

  /** ifac_mask. */
  method MaskInto(c: Suite, code: seq<byte>, key: seq<byte>, s: seq<byte>, out: array<byte>)
    requires 0 < |s| <= out.Length && 0 < |code| <= 64
    modifies out
    ensures out[..|s|] == Mask(MaskBytes(c, code, key, |s|), |code|, s)
  {
    hide Derive;
    var mask := new byte[|s|];
    var ok := DeriveInto(c.hash, code, key, [], mask);
    ghost var m := MaskBytes(c, code, key, |s|);
    for i := 0 to |s|
      invariant mask[..] == m
      invariant forall j :: 0 <= j < i ==> out[j] == Mask(m, |code|, s)[j]
    {
      assert mask[..][i] == m[i];
      if i <= 1 || i > |code| + 1 {
        out[i] := ByteXor(s[i], mask[i]);
      } else {
        out[i] := s[i];
      }
    }
  }

  lemma ByteXorUndo(a: byte, b: byte)
    ensures ByteXor(ByteXor(a, b), b) == a
  {
    XorComm(a, b);
    XorUndo(b, a);
    XorComm(Xor(b, a), b);
  }

  /** Exclusive or works on the low seven bits and on the eighth apart. */
  lemma ByteXorLow(a: byte, b: byte)
    ensures ByteXor(a, b) % 128 == ByteXor(a % 128, b) % 128
  {
    assert Pow(2, 7) == 128;
    XorSplit(a / 128, a % 128, b / 128, b % 128, 7);
    XorSplit(0, a % 128, b / 128, b % 128, 7);
    XorRange(a % 128, b % 128, 7);
    XorNonnegative(a % 128, b % 128);
    Low(Xor(a / 128, b / 128), Xor(a % 128, b % 128));
    Low(Xor(0, b / 128), Xor(a % 128, b % 128));
  }

  lemma Low(hi: int, lo: int)
    requires 0 <= lo < 128
    ensures (hi * 128 + lo) % 128 == lo
  {
  }

  /** What the mask leaves at one place depends on what was there and nowhere else. */
  lemma MaskBack(m: seq<byte>, n: nat, s: seq<byte>, t: seq<byte>, i: nat)
    requires |m| == |s| == |t| && i < |s| && t[i] == Mask(m, n, s)[i]
    ensures Mask(m, n, t)[i] == s[i]
  {
    ByteXorUndo(s[i], m[i]);
    hide ByteXor;
  }

  // ---- frames

  function Set7(x: byte): byte {
    128 + x % 128
  }

  function Clear7(x: byte): byte {
    x % 128
  }

  function Frame(code: seq<byte>, packet: seq<byte>): seq<byte>
    requires |packet| >= 2
  {
    [Set7(packet[0]), packet[1]] + code + packet[2..]
  }

  /** The masked frame of a packet, its first bit set again. */
  function Wrap(c: Suite, key: seq<byte>, code: seq<byte>, packet: seq<byte>): (r: seq<byte>)
    requires |packet| >= 2
    ensures |r| == |packet| + |code|
  {
    var frame := Frame(code, packet);
    var masked := Mask(MaskBytes(c, code, key, |frame|), |code|, frame);
    masked[0 := Set7(masked[0])]
  }

  function CodeOf(n: nat, frame: seq<byte>): seq<byte>
    requires |frame| >= 2 + n
  {
    frame[2..2 + n]
  }

  /** The packet in a frame, its first bit cleared. */
  function Unwrap(c: Suite, key: seq<byte>, n: nat, frame: seq<byte>): (r: seq<byte>)
    requires |frame| > 2 + n
    ensures |r| == |frame| - n
  {
    var unmasked := Mask(MaskBytes(c, CodeOf(n, frame), key, |frame|), n, frame);
    [Clear7(unmasked[0]), unmasked[1]] + unmasked[2 + n..]
  }

  lemma FrameAt(code: seq<byte>, packet: seq<byte>)
    requires |packet| >= 2
    ensures var f := Frame(code, packet);
      |f| == |packet| + |code| && f[0] == Set7(packet[0]) && f[1] == packet[1] && f[2..2 + |code|] == code
      && f[2 + |code|..] == packet[2..]
  {
  }

  lemma WrapAt(c: Suite, key: seq<byte>, code: seq<byte>, packet: seq<byte>, i: nat)
    requires |packet| >= 2 && 1 <= i < |packet| + |code|
    ensures var f := Frame(code, packet);
      |f| == |packet| + |code| && Wrap(c, key, code, packet)[i] == Mask(MaskBytes(c, code, key, |f|), |code|, f)[i]
  {
    hide Mask, MaskBytes;
  }

  lemma CodeKept(c: Suite, key: seq<byte>, code: seq<byte>, packet: seq<byte>)
    requires |packet| >= 2
    ensures CodeOf(|code|, Wrap(c, key, code, packet)) == code
  {
    hide MaskBytes, Wrap, Frame;
    FrameAt(code, packet);
    var frame, w := Frame(code, packet), Wrap(c, key, code, packet);
    forall i | 0 <= i < |code| ensures w[2 + i] == code[i] {
      WrapAt(c, key, code, packet, 2 + i);
      assert frame[2..2 + |code|][i] == frame[2 + i];
    }
  }

  /** Taking apart what was framed: the access code comes back, and the packet with its first bit cleared. */
  lemma UnwrapWrap(c: Suite, key: seq<byte>, code: seq<byte>, packet: seq<byte>)
    requires |packet| > 2
    ensures var w := Wrap(c, key, code, packet);
      CodeOf(|code|, w) == code && Unwrap(c, key, |code|, w) == packet[0 := Clear7(packet[0])]
  {
    hide Mask, MaskBytes, Wrap, Frame, CodeOf, Clear7, Set7;
    CodeKept(c, key, code, packet);
    FrameAt(code, packet);
    var frame, n, w := Frame(code, packet), |code|, Wrap(c, key, code, packet);
    var m := MaskBytes(c, code, key, |frame|);
    var u := Mask(m, n, w);
    forall i | 1 <= i < |frame| ensures u[i] == frame[i] {
      WrapAt(c, key, code, packet, i);
      MaskBack(m, n, frame, w, i);
    }
    assert u[2 + n..] == frame[2 + n..];
    FirstBack(c, key, code, packet);
    assert packet == [packet[0], packet[1]] + packet[2..];
  }

  lemma FirstBack(c: Suite, key: seq<byte>, code: seq<byte>, packet: seq<byte>)
    requires |packet| > 2
    ensures var w := Wrap(c, key, code, packet);
      Clear7(Mask(MaskBytes(c, code, key, |w|), |code|, w)[0]) == Clear7(packet[0])
  {
    hide MaskBytes, ByteXor;
    FirstByte(Set7(packet[0]), MaskBytes(c, code, key, |packet| + |code|)[0]);
  }

  lemma FirstByte(a: byte, m: byte)
    ensures Clear7(ByteXor(Set7(ByteXor(a, m)), m)) == a % 128
  {
    hide ByteXor;
    var y := ByteXor(a, m);
    ByteXorLow(Set7(y), m);
    ByteXorLow(y, m);
    ByteXorUndo(a, m);
    assert Set7(y) % 128 == y % 128;
  }

  /** Framing what was taken apart: the frame comes back with its first bit set. */
  lemma WrapUnwrap(c: Suite, key: seq<byte>, n: nat, frame: seq<byte>)
    requires |frame| > 2 + n
    ensures Wrap(c, key, CodeOf(n, frame), Unwrap(c, key, n, frame)) == frame[0 := Set7(frame[0])]
  {
    hide Mask, MaskBytes, Wrap, Frame, CodeOf, Clear7, Set7;
    var code, packet := CodeOf(n, frame), Unwrap(c, key, n, frame);
    CodeLength(n, frame);
    FrameAt(code, packet);
    var m := MaskBytes(c, code, key, |frame|);
    var u, again, w := Mask(m, n, frame), Frame(code, packet), Wrap(c, key, code, packet);
    assert packet[1] == u[1] && packet[2..] == u[2 + n..];
    CodeUnmasked(m, n, frame);
    AgainAt(n, frame, u, packet, again);
    forall i | 1 <= i < |frame| ensures w[i] == frame[i] {
      WrapAt(c, key, code, packet, i);
      MaskBack(m, n, frame, again, i);
    }
    FirstAgain(c, key, n, frame);
  }

  lemma CodeLength(n: nat, frame: seq<byte>)
    requires |frame| >= 2 + n
    ensures |CodeOf(n, frame)| == n && CodeOf(n, frame) == frame[2..2 + n]
  {
  }

  lemma CodeUnmasked(m: seq<byte>, n: nat, s: seq<byte>)
    requires |m| == |s| >= 2 + n
    ensures Mask(m, n, s)[2..2 + n] == s[2..2 + n]
  {
    hide ByteXor;
  }

  /** The rebuilt frame and the unmasked one agree behind their first byte: there the access code is unmasked. */
  lemma AgainAt(n: nat, frame: seq<byte>, u: seq<byte>, packet: seq<byte>, again: seq<byte>)
    requires |frame| > 2 + n && |u| == |frame| == |again| && |packet| == |frame| - n
    requires packet[1] == u[1] == again[1] && packet[2..] == u[2 + n..] == again[2 + n..]
    requires again[2..2 + n] == frame[2..2 + n]
    requires u[2..2 + n] == frame[2..2 + n]
    ensures forall i :: 1 <= i < |frame| ==> again[i] == u[i]
  {
    forall i | 1 <= i < |frame| ensures again[i] == u[i] {
      if 2 <= i < 2 + n {
        assert again[2..2 + n][i - 2] == again[i] && u[2..2 + n][i - 2] == u[i];
      } else if i >= 2 + n {
        assert again[2 + n..][i - 2 - n] == again[i] && u[2 + n..][i - 2 - n] == u[i];
      }
    }
  }

  lemma FirstAgain(c: Suite, key: seq<byte>, n: nat, frame: seq<byte>)
    requires |frame| > 2 + n
    ensures Wrap(c, key, CodeOf(n, frame), Unwrap(c, key, n, frame))[0] == Set7(frame[0])
  {
    hide MaskBytes, ByteXor;
    SetAgain(frame[0], MaskBytes(c, CodeOf(n, frame), key, |frame|)[0]);
  }

  lemma SetAgain(f: byte, m: byte)
    ensures Set7(ByteXor(Set7(Clear7(ByteXor(f, m))), m)) == Set7(f)
  {
    hide ByteXor;
    var y := ByteXor(f, m);
    ByteXorLow(Set7(Clear7(y)), m);
    ByteXorLow(y, m);
    ByteXorUndo(f, m);
    assert Set7(Clear7(y)) % 128 == y % 128;
  }

  // ---- the decoder

  function Last(n: nat, s: seq<byte>): seq<byte>
    requires n <= |s|
  {
    s[|s| - n..]
  }

  /** dump_ifac. */
  function DumpIfac(c: Suite, b: seq<Blob>): Decoded
    requires |b| == 4
  {
    if (b[0] == Absent && b[1] == Absent) || |Raw(b[2])| != 1 then Fatal
    else
      var n, frame := Raw(b[2])[0], Raw(b[3]);
      if n < 1 || n > SIGLEN || |frame| <= 2 + n || |frame| > MAXBLOB then Fatal
      else Printed(IfacFields(c, b[0], b[1], n, frame))
  }

  function IfacFields(c: Suite, netname: Blob, netkey: Blob, n: byte, frame: seq<byte>): (f: seq<Field>)
    requires n <= SIGLEN && |frame| > 2 + n
    ensures |f| == 10
  {
    var origin := Origin(c, netname, netkey);
    var key := Key(c, origin);
    var packet := Unwrap(c, key, n, frame);
    var expected := Last(n, c.sign(key[32..], packet));
    [F(NetnameField, BlobText(netname)), F(NetkeyField, BlobText(netkey)), F(IfacOriginField, FieldText(origin)),
     F(IfacKeyField, FieldText(key)), F(IfacSizeField, Dec(n)), F(FrameLengthField, Dec(|frame|)),
     F(IfacField, FieldText(CodeOf(n, frame))), F(PacketField, FieldText(packet)), F(ExpectedIfacField,
       FieldText(expected)),
     F(IfacValidField, YesNo(CodeOf(n, frame) == expected))]
  }

  // ---- the encoder

  function GetBlob(f: seq<Field>, name: Name): Option<Blob> {
    match Lookup(f, name)
    case None => None
    case Some(v) =>
      if v == "-" then Some(Absent)
      else if |v| / 2 > MAXBLOB then None
      else match FromHex(v) case None => None case Some(s) => Some(Data(s))
  }

  function Built(c: Suite, netname: Blob, netkey: Blob, code: seq<byte>, packet: seq<byte>): Option<seq<string>> {
    if |packet| < 2 || |code| < 1 || |code| > SIGLEN || |packet| + |code| > MAXBLOB then None
    else
      var wrapped := Wrap(c, Key(c, Origin(c, netname, netkey)), code, packet);
      Some([Hex([|code|]), Hex(wrapped)])
  }

  /** encode_ifac. */
  function EncodeIfac(c: Suite, f: seq<Field>): Option<seq<string>> {
    var netname, netkey, code, packet :=
      GetBlob(f, NetnameField), GetBlob(f, NetkeyField), GetBlob(f, IfacField), GetBlob(f, PacketField);
    if netname == None || netkey == None || code == None || packet == None then None
    else
      match Built(c, netname.value, netkey.value, Raw(code.value), Raw(packet.value))
      case None => None
      case Some(lines) => Some([Lookup(f, NetnameField).value, Lookup(f, NetkeyField).value] + lines)
  }

  // ---- both directions

  lemma BlobRead(f: seq<Field>, name: Name, s: seq<byte>)
    requires Lookup(f, name) == Some(FieldText(s)) && |s| <= MAXBLOB
    ensures GetBlob(f, name) == Some(if s == [] then Absent else Data(s))
  {
    HexShape(s);
    FromHexHex(s);
    hide Lookup, Hex, FromHex;
  }

  lemma NameRead(f: seq<Field>, name: Name, b: Blob)
    requires Lookup(f, name) == Some(BlobText(b)) && Readable(b)
    ensures GetBlob(f, name) == Some(b)
  {
    hide Lookup;
    if b.Data? {
      BlobRead(f, name, b.s);
    } else {
      BlobRead(f, name, []);
    }
  }

  lemma FieldAt(f: seq<Field>, i: nat)
    requires |f| == 10 && f[0].name == NetnameField && f[1].name == NetkeyField && f[6].name == IfacField
      && f[7].name == PacketField
    requires f[2].name == IfacOriginField && f[3].name == IfacKeyField && f[4].name == IfacSizeField
    requires f[5].name == FrameLengthField && f[8].name == ExpectedIfacField && f[9].name == IfacValidField
    requires i < 10
    ensures Lookup(f, f[i].name) == Some(f[i].value)
  {
    LookupAt(f, f[i].name, i);
  }

  /** What a decoded frame shows: what can be looked up in its fields. */
  ghost predicate Shows(g: seq<Field>, netname: Blob, netkey: Blob, code: seq<byte>, packet: seq<byte>, valid: bool) {
    Lookup(g, NetnameField) == Some(BlobText(netname)) && Lookup(g, NetkeyField) == Some(BlobText(netkey))
    && Lookup(g, IfacField) == Some(FieldText(code)) && Lookup(g, PacketField) == Some(FieldText(packet))
    && Lookup(g, IfacValidField) == Some(YesNo(valid))
  }

  lemma FieldsAre(c: Suite, netname: Blob, netkey: Blob, n: byte, frame: seq<byte>)
    requires n <= SIGLEN && |frame| > 2 + n
    ensures var f := IfacFields(c, netname, netkey, n, frame); var key := Key(c, Origin(c, netname, netkey));
      var packet := Unwrap(c, key, n, frame);
      |f| == 10 && f[0] == F(NetnameField, BlobText(netname)) && f[1] == F(NetkeyField, BlobText(netkey))
      && f[6] == F(IfacField, FieldText(CodeOf(n, frame))) && f[7] == F(PacketField, FieldText(packet))
      && f[9] == F(IfacValidField, YesNo(CodeOf(n, frame) == Last(n, c.sign(key[32..], packet))))
  {
    hide FieldText, BlobText, Unwrap, CodeOf, Last, Dec, YesNo, Key, Origin;
  }

  lemma FieldsNamed(c: Suite, netname: Blob, netkey: Blob, n: byte, frame: seq<byte>)
    requires n <= SIGLEN && |frame| > 2 + n
    ensures var f := IfacFields(c, netname, netkey, n, frame);
      |f| == 10 && f[2].name == IfacOriginField && f[3].name == IfacKeyField && f[4].name == IfacSizeField
      && f[5].name == FrameLengthField && f[8].name == ExpectedIfacField
  {
    hide FieldText, BlobText, Unwrap, CodeOf, Last, Dec, YesNo, Key, Origin;
  }

  lemma FieldsRead(c: Suite, netname: Blob, netkey: Blob, n: byte, frame: seq<byte>)
    requires n <= SIGLEN && |frame| > 2 + n
    ensures var key := Key(c, Origin(c, netname, netkey)); var packet := Unwrap(c, key, n, frame);
      Shows(IfacFields(c, netname, netkey, n, frame), netname, netkey, CodeOf(n, frame), packet,
            CodeOf(n, frame) == Last(n, c.sign(key[32..], packet)))
  {
    hide Lookup, FieldText, BlobText, Unwrap, CodeOf, Last, Dec, YesNo, Key, Origin, IfacFields;
    var f := IfacFields(c, netname, netkey, n, frame);
    FieldsAre(c, netname, netkey, n, frame);
    FieldsNamed(c, netname, netkey, n, frame);
    FieldAt(f, 0);
    FieldAt(f, 1);
    FieldAt(f, 6);
    FieldAt(f, 7);
    FieldAt(f, 9);
  }

  lemma EncodeIs(c: Suite, f: seq<Field>, netname: Blob, netkey: Blob, code: seq<byte>, packet: seq<byte>)
    requires Readable(netname) && Readable(netkey) && |code| <= MAXBLOB && |packet| <= MAXBLOB
    requires Lookup(f, NetnameField) == Some(BlobText(netname)) && Lookup(f, NetkeyField) == Some(BlobText(netkey))
    requires Lookup(f, IfacField) == Some(FieldText(code)) && Lookup(f, PacketField) == Some(FieldText(packet))
    ensures EncodeIfac(c, f) ==
      match Built(c, netname, netkey, code, packet)
      case None => None
      case Some(lines) => Some([Line(netname), Line(netkey)] + lines)
  {
    hide Lookup, Built, FromHex, GetBlob, BlobText, FieldText, Line, Readable;
    NameRead(f, NetnameField, netname);
    NameRead(f, NetkeyField, netkey);
    BlobRead(f, IfacField, code);
    BlobRead(f, PacketField, packet);
    BlobLine(netname);
    BlobLine(netkey);
  }

  /** Rebuilding what was decoded: the four lines come back but for the frame's first bit, which is set; so the
      frame comes back exactly when that bit was set. */
  lemma ReEncode(c: Suite, b: seq<Blob>, f: seq<Field>)
    requires |b| == 4 && Readable(b[0]) && Readable(b[1]) && Readable(b[2]) && Readable(b[3])
    requires DumpIfac(c, b) == Printed(f)
    ensures Raw(b[3]) != []
    ensures var frame := Raw(b[3]);
      EncodeIfac(c, f) == Some([Line(b[0]), Line(b[1]), Line(b[2]), Hex(frame[0 := Set7(frame[0])])])
    ensures EncodeIfac(c, f) == Some(Lines(b)) <==> Raw(b[3])[0] >= 128
  {
    hide *;
    DumpIs(c, b, f);
    ReBuilt(c, b[0], b[1], Raw(b[2])[0], Raw(b[3]));
    OneByte(b[2]);
    SameFrame(b, Raw(b[3])[0 := Set7(Raw(b[3])[0])]);
    SetIs(Raw(b[3]));
  }

  lemma ReBuilt(c: Suite, netname: Blob, netkey: Blob, n: byte, frame: seq<byte>)
    requires 1 <= n <= 64 && 2 + n < |frame| <= 2048 && Readable(netname) && Readable(netkey)
    ensures EncodeIfac(c, IfacFields(c, netname, netkey, n, frame)) ==
      Some([Line(netname), Line(netkey), Hex([n]), Hex(frame[0 := Set7(frame[0])])])
  {
    hide EncodeIfac, IfacFields, Line, Hex, Set7, Unwrap, CodeOf, Wrap, Key, Origin, Readable, Built, Last, Lookup,
      Shows, FieldText, BlobText;
    var key := Key(c, Origin(c, netname, netkey));
    var code, packet := CodeOf(n, frame), Unwrap(c, key, n, frame);
    CodeLength(n, frame);
    ReBuiltFrom(c, netname, netkey, n, frame);
    WrapUnwrap(c, key, n, frame);
    BuiltIs(c, netname, netkey, code, packet);
    FourLines(Line(netname), Line(netkey), Hex([n]), Hex(frame[0 := Set7(frame[0])]));
  }

  lemma ReBuiltFrom(c: Suite, netname: Blob, netkey: Blob, n: byte, frame: seq<byte>)
    requires 1 <= n <= 64 && 2 + n < |frame| <= 2048 && Readable(netname) && Readable(netkey)
    ensures EncodeIfac(c, IfacFields(c, netname, netkey, n, frame)) ==
      match Built(c, netname, netkey, CodeOf(n, frame), Unwrap(c, Key(c, Origin(c, netname, netkey)), n, frame))
      case None => None
      case Some(lines) => Some([Line(netname), Line(netkey)] + lines)
  {
    hide EncodeIfac, IfacFields, Line, Hex, Set7, Unwrap, CodeOf, Wrap, Key, Origin, Readable, Built, Last, Lookup,
      Shows, FieldText, BlobText;
    var f, key := IfacFields(c, netname, netkey, n, frame), Key(c, Origin(c, netname, netkey));
    var code, packet := CodeOf(n, frame), Unwrap(c, key, n, frame);
    CodeLength(n, frame);
    FieldsRead(c, netname, netkey, n, frame);
    ShowsMeans(f, netname, netkey, code, packet, code == Last(n, c.sign(key[32..], packet)));
    EncodeIs(c, f, netname, netkey, code, packet);
  }

  lemma FourLines(a: string, b: string, d: string, e: string)
    ensures [a, b] + [d, e] == [a, b, d, e]
  {
  }

  lemma BuiltIs(c: Suite, netname: Blob, netkey: Blob, code: seq<byte>, packet: seq<byte>)
    requires 2 <= |packet| && 1 <= |code| <= 64 && |code| + |packet| <= 2048
    ensures Built(c, netname, netkey, code, packet) ==
      Some([Hex([|code|]), Hex(Wrap(c, Key(c, Origin(c, netname, netkey)), code, packet))])
  {
    hide Hex, Wrap, Key, Origin;
  }

  lemma ShowsMeans(g: seq<Field>, netname: Blob, netkey: Blob, code: seq<byte>, packet: seq<byte>, valid: bool)
    requires Shows(g, netname, netkey, code, packet, valid)
    ensures Lookup(g, NetnameField) == Some(BlobText(netname)) && Lookup(g, NetkeyField) == Some(BlobText(netkey))
    ensures Lookup(g, IfacField) == Some(FieldText(code)) && Lookup(g, PacketField) == Some(FieldText(packet))
  {
    hide Lookup, BlobText, FieldText;
  }

  lemma DumpIs(c: Suite, b: seq<Blob>, f: seq<Field>)
    requires |b| == 4 && Readable(b[3]) && DumpIfac(c, b) == Printed(f)
    ensures |Raw(b[2])| == 1 && b[3].Data?
    ensures var n, frame := Raw(b[2])[0], Raw(b[3]);
      1 <= n <= 64 && 2 + n < |frame| <= 2048 && f == IfacFields(c, b[0], b[1], n, frame)
  {
    hide IfacFields;
  }

  lemma OneByte(b: Blob)
    requires |Raw(b)| == 1
    ensures Line(b) == Hex([Raw(b)[0]])
  {
    assert Raw(b) == [Raw(b)[0]];
  }

  lemma SetIs(frame: seq<byte>)
    requires frame != []
    ensures frame[0 := Set7(frame[0])] == frame <==> frame[0] >= 128
  {
    assert frame[0 := Set7(frame[0])][0] == Set7(frame[0]);
  }

  lemma SameFrame(b: seq<Blob>, g: seq<byte>)
    requires |b| == 4 && b[3].Data?
    ensures [Line(b[0]), Line(b[1]), Line(b[2]), Hex(g)] == Lines(b) <==> g == Raw(b[3])
  {
    hide Hex, FromHex;
    FromHexHex(g);
    FromHexHex(Raw(b[3]));
    var mine := [Line(b[0]), Line(b[1]), Line(b[2]), Hex(g)];
    assert mine[3] == Hex(g) && Lines(b)[3] == Hex(Raw(b[3]));
    assert Hex(g) == Hex(Raw(b[3])) ==> mine == Lines(b);
  }

  /** The lines decode, and the fields show this access code and this packet. */
  ghost predicate DumpShows(c: Suite, b: seq<Blob>, netname: Blob, netkey: Blob, code: seq<byte>, packet: seq<byte>,
                            valid: bool)
    requires |b| == 4
  {
    DumpIfac(c, b).Printed? && Shows(DumpIfac(c, b).fields, netname, netkey, code, packet, valid)
  }

  /** The encoder frames every packet longer than its first two bytes under every access code it takes. */
  lemma Encodes(c: Suite, f: seq<Field>, netname: Blob, netkey: Blob, code: seq<byte>, packet: seq<byte>)
    requires Readable(netname) && Readable(netkey)
    requires 1 <= |code| <= SIGLEN && |packet| > 2 && |code| + |packet| <= MAXBLOB
    requires Lookup(f, NetnameField) == Some(BlobText(netname)) && Lookup(f, NetkeyField) == Some(BlobText(netkey))
    requires Lookup(f, IfacField) == Some(FieldText(code)) && Lookup(f, PacketField) == Some(FieldText(packet))
    ensures EncodeIfac(c, f) == Some(Lines(Sent(c, netname, netkey, code, packet)))
  {
    hide EncodeIfac, Line, Hex, Wrap, Key, Origin, Readable, Built, Lookup, FieldText, BlobText, Lines, Sent;
    EncodeIs(c, f, netname, netkey, code, packet);
    BuiltIs(c, netname, netkey, code, packet);
    SentLines(c, netname, netkey, code, packet);
    FourLines(Line(netname), Line(netkey), Hex([|code|]),
              Hex(Wrap(c, Key(c, Origin(c, netname, netkey)), code, packet)));
  }

  /** Decoding what was encoded: that access code and that packet come back, the packet with its first bit cleared;
      the access code is found valid exactly when it is the end of the packet's signature. */
  lemma Decodes(c: Suite, netname: Blob, netkey: Blob, code: seq<byte>, packet: seq<byte>)
    requires (netname.Data? || netkey.Data?)
    requires 1 <= |code| <= SIGLEN && |packet| > 2 && |code| + |packet| <= MAXBLOB
    ensures var key, back := Key(c, Origin(c, netname, netkey)), packet[0 := Clear7(packet[0])];
      DumpShows(c, Sent(c, netname, netkey, code, packet), netname, netkey, code, back,
                code == Last(|code|, c.sign(key[32..], back)))
    ensures packet[0 := Clear7(packet[0])] == packet <==> packet[0] < 128
  {
    ClearIs(packet);
    hide DumpIfac, Sent, Shows, Key, Origin, Wrap, Last, Unwrap, CodeOf, Clear7, IfacFields;
    var key := Key(c, Origin(c, netname, netkey));
    SentDumps(c, netname, netkey, code, packet);
    UnwrapWrap(c, key, code, packet);
    FieldsRead(c, netname, netkey, |code|, Wrap(c, key, code, packet));
  }

  /** The four lines of a framed packet. */
  function Sent(c: Suite, netname: Blob, netkey: Blob, code: seq<byte>, packet: seq<byte>): (b: seq<Blob>)
    requires 1 <= |code| <= SIGLEN && |packet| > 2
    ensures |b| == 4
  {
    [netname, netkey, Data([|code|]), Data(Wrap(c, Key(c, Origin(c, netname, netkey)), code, packet))]
  }

  lemma SentLines(c: Suite, netname: Blob, netkey: Blob, code: seq<byte>, packet: seq<byte>)
    requires 1 <= |code| <= SIGLEN && |packet| > 2
    ensures Lines(Sent(c, netname, netkey, code, packet)) ==
      [Line(netname), Line(netkey), Hex([|code|]), Hex(Wrap(c, Key(c, Origin(c, netname, netkey)), code, packet))]
  {
    hide Hex, Wrap, Key, Origin;
  }

  lemma SentDumps(c: Suite, netname: Blob, netkey: Blob, code: seq<byte>, packet: seq<byte>)
    requires netname.Data? || netkey.Data?
    requires 1 <= |code| <= SIGLEN && |packet| > 2 && |code| + |packet| <= MAXBLOB
    ensures DumpIfac(c, Sent(c, netname, netkey, code, packet)) ==
      Printed(IfacFields(c, netname, netkey, |code|, Wrap(c, Key(c, Origin(c, netname, netkey)), code, packet)))
  {
    hide Wrap, Key, Origin, IfacFields;
  }

  lemma ClearIs(packet: seq<byte>)
    requires packet != []
    ensures packet[0 := Clear7(packet[0])] == packet <==> packet[0] < 128
  {
    assert packet[0 := Clear7(packet[0])][0] == Clear7(packet[0]);
  }
}
