/** The encode class: the fields a decoder prints rebuild every line it read. */
module RoundTrip {
  import opened Arith
  import opened Wrappers
  import opened Text
  import opened Packet
  import opened Decode
  import opened Encode

  // ---- where a field is found

  ghost predicate FirstAt(f: seq<Field>, name: Name, i: nat) {
    i < |f| && f[i].name == name && forall j :: 0 <= j < i ==> f[j].name != name
  }

  ghost predicate Lacks(f: seq<Field>, name: Name) {
    forall j :: 0 <= j < |f| ==> f[j].name != name
  }

  ghost predicate HeaderName(name: Name) {
    name in {FlagsField, HeaderTypeField, ContextFlagField, TransportTypeField, DestinationTypeField,
      PacketTypeField, HopsField,
             TransportIdField, DestinationHashField, ContextField, PayloadLengthField}
  }

  lemma HeaderFirst(h: Header)
    ensures var f := PrintHeader(h);
      FirstAt(f, FlagsField, 0) && FirstAt(f, HopsField, 6) && FirstAt(f, TransportIdField, 7)
      && FirstAt(f, DestinationHashField, 8) && FirstAt(f, ContextField, 9)
  {
    hide *;
    HopsFirst(h);
    TransportFirst(h);
    DestinationFirst(h);
    ContextFirst(h);
    FlagsFirst(h);
  }

  lemma FlagsFirst(h: Header)
    ensures FirstAt(PrintHeader(h), FlagsField, 0)
  {
    hide PrintHeader;
    HeaderNames(h);
  }

  lemma HopsFirst(h: Header)
    ensures FirstAt(PrintHeader(h), HopsField, 6)
  {
    hide PrintHeader;
    HeaderNames(h);
  }

  lemma TransportFirst(h: Header)
    ensures FirstAt(PrintHeader(h), TransportIdField, 7)
  {
    hide PrintHeader;
    HeaderNames(h);
  }

  lemma DestinationFirst(h: Header)
    ensures FirstAt(PrintHeader(h), DestinationHashField, 8)
  {
    hide PrintHeader;
    HeaderNames(h);
  }

  lemma ContextFirst(h: Header)
    ensures FirstAt(PrintHeader(h), ContextField, 9)
  {
    hide PrintHeader;
    HeaderNames(h);
  }

  lemma HeaderLacks(h: Header, name: Name)
    requires !HeaderName(name)
    ensures Lacks(PrintHeader(h), name)
  {
    hide PrintHeader;
    HeaderNames(h);
  }

  lemma HeaderNames(h: Header)
    ensures var f := PrintHeader(h);
      |f| == 11 && f[0].name == FlagsField && f[1].name == HeaderTypeField && f[2].name == ContextFlagField
      && f[3].name == TransportTypeField && f[4].name == DestinationTypeField && f[5].name == PacketTypeField
      && f[6] == F(HopsField, Dec(h.hops)) && f[7] == F(TransportIdField, OptionText(h.transport_id))
      && f[8] == F(DestinationHashField, FieldText(h.destination_hash))
      && f[9] == F(ContextField, ContextText(h.context))
      && f[10].name == PayloadLengthField && f[0].value == Hex2(h.flags)
  {
    hide Dec, Hex2, FieldText, OptionText, ContextText;
  }

  lemma LookupPast(before: seq<Field>, f: seq<Field>, after: seq<Field>, name: Name, i: nat)
    requires Lacks(before, name) && FirstAt(f, name, i)
    ensures Lookup(before + f + after, name) == Some(f[i].value)
  {
    var all := before + f + after;
    assert all[|before| + i] == f[i];
    forall j | 0 <= j < |before| + i ensures all[j].name != name {
      assert all[j] == if j < |before| then before[j] else f[j - |before|];
    }
    LookupAt(all, name, |before| + i);
  }

  /** Nothing printed before a header hides its fields. */
  ghost predicate Clear(before: seq<Field>) {
    Lacks(before, FlagsField) && Lacks(before, HopsField) && Lacks(before, TransportIdField)
    && Lacks(before, DestinationHashField) && Lacks(before, ContextField)
  }

  /** The five header fields the encoder reads, as the decoder printed them. */
  ghost predicate ShowsHeader(f: seq<Field>, h: Header) {
    Lookup(f, FlagsField) == Some(Hex2(h.flags)) && Lookup(f, HopsField) == Some(Dec(h.hops))
    && Lookup(f, TransportIdField) == Some(OptionText(h.transport_id))
    && Lookup(f, DestinationHashField) == Some(FieldText(h.destination_hash))
    && Lookup(f, ContextField) == Some(ContextText(h.context))
  }

  lemma HeaderShown(before: seq<Field>, h: Header, after: seq<Field>)
    requires Clear(before)
    ensures ShowsHeader(before + PrintHeader(h) + after, h)
  {
    HeaderFirst(h);
    HeaderNames(h);
    hide PrintHeader;
    var f := PrintHeader(h);
    LookupPast(before, f, after, FlagsField, 0);
    LookupPast(before, f, after, HopsField, 6);
    LookupPast(before, f, after, TransportIdField, 7);
    LookupPast(before, f, after, DestinationHashField, 8);
    LookupPast(before, f, after, ContextField, 9);
  }

  /** A field printed after the header under a name of its own. */
  lemma ShownAfter(before: seq<Field>, h: Header, f: seq<Field>, after: seq<Field>, name: Name, i: nat)
    requires Lacks(before, name) && !HeaderName(name) && FirstAt(f, name, i)
    ensures Lookup(before + PrintHeader(h) + f + after, name) == Some(f[i].value)
  {
    HeaderLacks(h, name);
    hide PrintHeader, HeaderName;
    LookupPast(before + PrintHeader(h), f, after, name, i);
  }

  // ---- rebuilding text from bytes

  /** Text goes into the buffer exactly when it decodes to bytes that still fit, and goes in as those bytes. */
  lemma PutHexDecodes(o: seq<byte>, v: string)
    ensures PutHex(Hex(o), v) == match FromHex(v)
      case None => None
      case Some(s) => if |o| + |s| <= MAXBLOB then Some(Hex(o + s)) else None
  {
    HexFromHex(v);
    HexShape(o);
    if FromHex(v).Some? {
      var s := FromHex(v).value;
      HexShape(s);
      HexAppend(o, s);
    }
    hide Hex, FromHex, AllHex;
  }

  lemma PutHexExact(o: seq<byte>, s: seq<byte>)
    requires |o| + |s| <= MAXBLOB
    ensures PutHex(Hex(o), Hex(s)) == Some(Hex(o + s))
  {
    HexShape(o);
    HexShape(s);
    HexAppend(o, s);
  }

  lemma PutFieldExact(o: seq<byte>, f: seq<Field>, name: Name, s: seq<byte>)
    requires |o| + |s| <= MAXBLOB && Lookup(f, name) == Some(FieldText(s))
    ensures PutField(Hex(o), f, name) == Some(Hex(o + s))
  {
    HexShape(s);
    PutHexExact(o, s);
    if s == [] {
      assert o + [] == o;
    }
  }

  function Flatten(chunks: seq<seq<byte>>): seq<byte> {
    if chunks == [] then [] else chunks[0] + Flatten(chunks[1..])
  }

  /** Fields holding these chunks, in this order. */
  ghost predicate Holds(f: seq<Field>, names: seq<Name>, chunks: seq<seq<byte>>) {
    |names| == |chunks| && forall i :: 0 <= i < |names| ==> Lookup(f, names[i]) == Some(FieldText(chunks[i]))
  }

  lemma {:induction false} PutFieldsExact(o: seq<byte>, f: seq<Field>, names: seq<Name>, chunks: seq<seq<byte>>)
    requires Holds(f, names, chunks) && |o| + |Flatten(chunks)| <= MAXBLOB
    ensures PutFields(Hex(o), f, names) == Some(Hex(o + Flatten(chunks)))
    decreases |names|
  {
    hide *;
    HoldsFirst(f, names, chunks);
    if names == [] {
      PutNone(Hex(o), f);
      assert o + Flatten(chunks) == o;
    } else {
      FlattenFirst(chunks);
      PutFieldExact(o, f, names[0], chunks[0]);
      PutFieldsExact(o + chunks[0], f, names[1..], chunks[1..]);
      PutFirst(Hex(o), f, names);
      assert (o + chunks[0]) + Flatten(chunks[1..]) == o + Flatten(chunks);
    }
  }

  lemma HoldsFirst(f: seq<Field>, names: seq<Name>, chunks: seq<seq<byte>>)
    requires Holds(f, names, chunks)
    ensures |names| == |chunks| && (names == [] ==> Flatten(chunks) == [])
    ensures names != [] ==> Lookup(f, names[0]) == Some(FieldText(chunks[0])) && Holds(f, names[1..], chunks[1..])
  {
    hide Lookup, FieldText;
  }

  lemma FlattenFirst(chunks: seq<seq<byte>>)
    requires chunks != []
    ensures Flatten(chunks) == chunks[0] + Flatten(chunks[1..])
  {
  }

  lemma PutNone(o: string, f: seq<Field>)
    ensures PutFields(o, f, []) == Some(o)
  {
  }

  lemma PutFirst(o: string, f: seq<Field>, names: seq<Name>)
    requires names != []
    ensures PutFields(o, f, names) ==
      match PutField(o, f, names[0])
      case None => None
      case Some(p) => PutFields(p, f, names[1..])
  {
    hide PutField;
  }

  lemma Hex2IsHex(b: byte)
    ensures Hex([b]) == Hex2(b) && Hex2(b) != "-" && |Hex2(b)| == 2
  {
    assert [b][1..] == [];
    assert Hex([b]) == Hex2(b) + Hex([]);
  }

  lemma ContextRoundTrip(c: byte)
    ensures ContextByte(ContextText(c)) == if ContextName(c).Some? then Some(c) else None
    ensures ContextName(c).None? ==> ContextText(c) == Hex2(c)
  {
    if ContextName(c).None? {
      hide Digit;
      assert |ContextText(c)| == 2;
    }
  }

  lemma PutHopsExact(o: seq<byte>, f: seq<Field>, hops: byte)
    requires hops < MAX_HOPS && Lookup(f, HopsField) == Some(Dec(hops)) && |o| + 1 <= MAXBLOB
    ensures PutHops(Hex(o), f) == Some(Hex(o + [hops]))
  {
    DecReads(hops);
    Hex2IsHex(hops);
    PutHexExact(o, [hops]);
  }

  lemma PutContextExact(o: seq<byte>, f: seq<Field>, c: byte)
    requires Lookup(f, ContextField) == Some(ContextText(c)) && |o| + 1 <= MAXBLOB
    ensures PutContext(Hex(o), f) == Some(Hex(o + [c]))
  {
    hide ContextByte, ContextName;
    ContextRoundTrip(c);
    Hex2IsHex(c);
    PutHexExact(o, [c]);
  }

  function HeaderBytes(h: Header): seq<byte> {
    [h.flags, h.hops] + OptionBytes(h.transport_id) + h.destination_hash + [h.context]
  }

  lemma PutHeaderExact(f: seq<Field>, h: Header)
    requires ShowsHeader(f, h) && h.hops < MAX_HOPS && |HeaderBytes(h)| <= MAXBLOB
    requires h.transport_id.Some? ==> h.transport_id.value != []
    ensures PutHeader("", f) == Some(Hex(HeaderBytes(h)))
  {
    hide PutHops, PutContext, PutField, Lookup, Hex, FieldText, OptionText, ContextText, Hex2, Dec;
    var t, d := OptionBytes(h.transport_id), h.destination_hash;
    Hex2IsHex(h.flags);
    HexNothing();
    ShownAs(h);
    PutFieldExact([], f, FlagsField, [h.flags]);
    assert [] + [h.flags] == [h.flags];
    PutHopsExact([h.flags], f, h.hops);
    assert [h.flags] + [h.hops] == [h.flags, h.hops];
    PutTwo(Hex([h.flags, h.hops]), f, TransportIdField, DestinationHashField);
    PutFieldExact([h.flags, h.hops], f, TransportIdField, t);
    PutFieldExact([h.flags, h.hops] + t, f, DestinationHashField, d);
    PutContextExact([h.flags, h.hops] + t + d, f, h.context);
  }

  lemma HexNothing()
    ensures Hex([]) == ""
  {
  }

  /** The header's fields as the encoder takes them: bytes, nothing standing for a dash. */
  lemma ShownAs(h: Header)
    ensures Hex2(h.flags) == FieldText([h.flags]) && OptionText(h.transport_id) == FieldText(OptionBytes(h.transport_id))
  {
    Hex2IsHex(h.flags);
  }

  // ---- running a layout

  lemma {:induction false} WordsAppend(r: Run, f: seq<Field>, a: seq<Token>, b: seq<Token>)
    ensures Words(r, f, a + b) == Words(Words(r, f, a), f, b)
    decreases |a|
  {
    if a == [] {
      assert a + b == b;
    } else if r.Run? {
      assert (a + b)[1..] == a[1..] + b;
      WordsAppend(Word(r, f, a[0]), f, a[1..], b);
    }
  }

  lemma {:induction false} WordsEmit(r: Run, f: seq<Field>, names: seq<Name>, texts: seq<string>)
    requires r.Run? && !r.packing && |names| == |texts|
    requires forall i :: 0 <= i < |names| ==> Lookup(f, names[i]) == Some(texts[i])
    ensures Words(r, f, Items(names)) == Run(r.lines + texts, r.hex, false)
    decreases |names|
  {
    if names == [] {
      assert r.lines + texts == r.lines;
    } else {
      assert Items(names)[1..] == Items(names[1..]) && Items(names)[0] == Item(names[0]);
      WordsEmit(Run(r.lines + [texts[0]], r.hex, false), f, names[1..], texts[1..]);
      assert (r.lines + [texts[0]]) + texts[1..] == r.lines + texts;
    }
  }

  lemma {:induction false} WordsPut(r: Run, f: seq<Field>, names: seq<Name>)
    requires r.Run? && r.packing && PutFields(r.hex, f, names).Some?
    ensures Words(r, f, Items(names)) == Run(r.lines, PutFields(r.hex, f, names).value, true)
    decreases |names|
  {
    if names != [] {
      assert Items(names)[1..] == Items(names[1..]) && Items(names)[0] == Item(names[0]);
      WordsPut(Run(r.lines, PutField(r.hex, f, names[0]).value, true), f, names[1..]);
    }
  }

  /** A layout that packs prints the lines before the sign and then one packet. */
  lemma PackedLines(f: seq<Field>, emits: seq<Name>, texts: seq<string>, names: seq<Name>, o: string, hex: string)
    requires |emits| == |texts| && forall i :: 0 <= i < |emits| ==> Lookup(f, emits[i]) == Some(texts[i])
    requires PutHeader("", f) == Some(o) && PutFields(o, f, names) == Some(hex)
    ensures LayoutLines(f, Items(emits) + ([Pack] + Items(names))) == Some(texts + [hex])
  {
    var start := Run([], "", false);
    hide PutHeader, PutFields, Lookup, Items;
    WordsAppend(start, f, Items(emits), [Pack] + Items(names));
    WordsEmit(start, f, emits, texts);
    assert [] + texts == texts;
    assert ([Pack] + Items(names))[1..] == Items(names);
    var r := Run(texts, "", false);
    assert Words(r, f, [Pack] + Items(names)) == Words(Word(r, f, Pack), f, Items(names));
    WordsPut(Run(texts, o, true), f, names);
  }

  lemma PlainLines(f: seq<Field>, emits: seq<Name>, texts: seq<string>)
    requires |emits| == |texts| && forall i :: 0 <= i < |emits| ==> Lookup(f, emits[i]) == Some(texts[i])
    ensures LayoutLines(f, Items(emits) + []) == Some(texts)
  {
    WordsEmit(Run([], "", false), f, emits, texts);
    assert [] + texts == texts && Items(emits) + [] == Items(emits);
  }

  // ---- one packet

  /** Fields that show a header and hold its payload in chunks rebuild the packet. */
  lemma PacketRebuilt(f: seq<Field>, raw: seq<byte>, h: Header, names: seq<Name>, chunks: seq<seq<byte>>)
    requires ParseHeader(raw) == Ok(h) && |raw| <= MAXBLOB
    requires ShowsHeader(f, h) && Holds(f, names, chunks) && Flatten(chunks) == h.payload
    ensures PutHeader("", f) == Some(Hex(HeaderBytes(h)))
    ensures PutFields(Hex(HeaderBytes(h)), f, names) == Some(Hex(raw))
  {
    ParseAssembles(raw);
    assert Assemble(h) == HeaderBytes(h) + h.payload;
    hide *;
    HeaderFits(raw, h);
    PutHeaderExact(f, h);
    PutFieldsExact(HeaderBytes(h), f, names, chunks);
  }

  lemma HeaderFits(raw: seq<byte>, h: Header)
    requires ParseHeader(raw) == Ok(h)
    ensures h.hops < MAX_HOPS && |HeaderBytes(h)| + |h.payload| == |raw|
    ensures h.transport_id.Some? ==> h.transport_id.value != []
  {
    ParseAssembles(raw);
    hide ParseHeader;
  }

  // ---- what a round trip is

  /** A rejection other than the two that come after every byte of the packet has been printed. */
  ghost predicate Rejected(f: seq<Field>) {
    exists i :: 0 <= i < |f| && f[i].name == InvalidField && f[i].value != "short-plaintext"
      && f[i].value != "identify-length"
  }

  function Lines(b: seq<Blob>): seq<string> {
    seq(|b|, i requires 0 <= i < |b| => Line(b[i]))
  }

  lemma BlobLine(b: Blob)
    requires Readable(b)
    ensures BlobText(b) == Line(b) && (b.Data? ==> FieldText(b.s) == Line(b)) && FieldText(Raw(b)) == Line(b)
  {
  }

  /** The lines of the encode class come back when the field list can be read again. */
  ghost predicate Returns(k: Kind, b: seq<Blob>, f: seq<Field>) {
    |f| <= MAXFIELDS ==> Rebuild(k, f) == Some(Lines(b))
  }
}
