/** The round trip, kind by kind. */
module Kinds {
  import opened Arith
  import opened Wrappers
  import opened BigEndian
  import opened Text
  import opened Packet
  import opened Decode
  import opened Encode
  import opened RoundTrip

  // ---- common steps

  /** dump -e on a decoder's fields: it rebuilds every line, or stops when the decoder rejected the packet. */
  ghost predicate Exact(k: Kind, b: seq<Blob>, f: seq<Field>) {
    |f| <= MAXFIELDS && Rebuild(k, f) == if Rejected(f) then None else Some(Lines(b))
  }

  /** A rejection printed where the header would have been. */
  lemma Fails(k: Kind, b: seq<Blob>, fault: seq<Field>)
    requires Packs(k).Some? && |Emits(k)| <= |b| && |fault| <= 4 && Lacks(fault, FlagsField)
    requires fault != [] && fault[0].name == InvalidField && IsRejection(fault[0].value)
    ensures Exact(k, b, Before(k, b) + fault)
  {
    hide *;
    var f := Before(k, b) + fault;
    BeforeClear(k, b);
    FailsShape(k, b, fault);
    LacksLookup(f, FlagsField);
    NoHeader(f);
    if k == LinkData {
      LinkDataStops(f);
    } else {
      LayoutStops(k, f);
    }
    RebuildStops(k, f);
    ExactRejected(k, b, f);
  }

  predicate IsRejection(v: string) {
    v != "short-plaintext" && v != "identify-length"
  }

  lemma FailsShape(k: Kind, b: seq<Blob>, fault: seq<Field>)
    requires |Emits(k)| <= |b| && |fault| <= 4 && Lacks(fault, FlagsField) && Clear(Before(k, b))
    requires fault != [] && fault[0].name == InvalidField && IsRejection(fault[0].value)
    ensures |Before(k, b) + fault| <= 6 && Lacks(Before(k, b) + fault, FlagsField) && Rejected(Before(k, b) + fault)
  {
    assert |Before(k, b)| == |Emits(k)|;
    assert Lacks(Before(k, b), FlagsField);
    hide *;
    EmitsShort(k);
    LacksJoin(Before(k, b), fault, FlagsField);
    RejectedJoin(Before(k, b), fault);
  }

  lemma RejectedJoin(before: seq<Field>, fault: seq<Field>)
    requires fault != [] && fault[0].name == InvalidField && IsRejection(fault[0].value)
    ensures Rejected(before + fault)
  {
    assert (before + fault)[|before|] == fault[0];
  }

  lemma ExactRejected(k: Kind, b: seq<Blob>, f: seq<Field>)
    requires |f| <= 40 && Rejected(f) && Rebuild(k, f) == None
    ensures Exact(k, b, f)
  {
    hide Rejected, Rebuild;
  }

  lemma RebuildStops(k: Kind, f: seq<Field>)
    requires if k == LinkData then LinkDataLines(f) == None else LayoutLines(f, Layout(k)) == None
    ensures Rebuild(k, f) == None
  {
    hide LinkDataLines, LayoutLines, Layout;
  }

  lemma {:induction false} LacksLookup(f: seq<Field>, name: Name)
    requires Lacks(f, name)
    ensures Lookup(f, name) == None
  {
    if f != [] {
      LacksLookup(f[1..], name);
    }
  }

  lemma NoHeader(f: seq<Field>)
    requires Lookup(f, FlagsField) == None
    ensures PutHeader("", f) == None
  {
    hide Lookup;
  }

  lemma LinkDataStops(f: seq<Field>)
    requires PutHeader("", f) == None
    ensures LinkDataLines(f) == None
  {
    hide PutHeader, Lookup, PutFields;
  }

  /** Lines printed before the packet put nothing into it. */
  lemma {:induction false} WordsBefore(r: Run, f: seq<Field>, names: seq<Name>)
    requires r.Run? && !r.packing
    ensures var w := Words(r, f, Items(names)); w.Stopped? || (w.hex == r.hex && !w.packing)
    decreases |names|
  {
    if names != [] {
      assert Items(names)[1..] == Items(names[1..]) && Items(names)[0] == Item(names[0]);
      var w := Word(r, f, Item(names[0]));
      if w.Run? {
        WordsBefore(w, f, names[1..]);
      }
    }
  }

  lemma LayoutStops(k: Kind, f: seq<Field>)
    requires Packs(k).Some? && PutHeader("", f) == None
    ensures LayoutLines(f, Layout(k)) == None
  {
    hide PutHeader, Lookup, Items, Emits, Packs;
    var start, rest := Run([], "", false), [Pack] + Items(Packs(k).value);
    WordsAppend(start, f, Items(Emits(k)), rest);
    WordsBefore(start, f, Emits(k));
    assert Layout(k) == Items(Emits(k)) + rest;
    assert rest[0] == Pack;
  }

  lemma FaultFails(k: Kind, b: seq<Blob>, fault: Fault)
    requires Packs(k).Some? && |Emits(k)| <= |b|
    ensures Exact(k, b, Before(k, b) + PrintFault(fault))
  {
    hide Exact, Dec, Before, Packs, Emits;
    var f := PrintFault(fault);
    assert |f| == 3 && f[0].name == InvalidField && f[0].value in {"short-header", "hop-limit", "short-payload"};
    Fails(k, b, f);
  }

  lemma LengthFails(k: Kind, b: seq<Blob>, names: seq<Name>, numbers: seq<nat>)
    requires Packs(k).Some? && |Emits(k)| <= |b| && |names| == |numbers| <= 3 && FlagsField !in names
    ensures Exact(k, b, Before(k, b) + InvalidLength(names, numbers))
  {
    hide Exact, Dec, Before, Packs, Emits;
    var f := InvalidLength(names, numbers);
    assert f[0] == F(InvalidField, "invalid-length");
    forall j | 0 <= j < |f| ensures f[j].name != FlagsField {
      assert j > 0 ==> f[j].name == names[j - 1];
    }
    Fails(k, b, f);
  }

  /** What has to be looked up for a packing kind to return every line it read. */
  lemma PackedReturns(k: Kind, b: seq<Blob>, f: seq<Field>, h: Header, chunks: seq<seq<byte>>)
    requires Packs(k).Some? && k != LinkData && |b| == Blobs(k) == |Emits(k)| + 1
    requires forall i :: 0 <= i < |b| ==> Readable(b[i])
    requires forall i :: 0 <= i < |Emits(k)| ==> Lookup(f, Emits(k)[i]) == Some(BlobText(b[i]))
    requires ParseHeader(Raw(b[|b| - 1])) == Ok(h) && ShowsHeader(f, h)
    requires Holds(f, Packs(k).value, chunks) && Flatten(chunks) == h.payload
    ensures Returns(k, b, f)
  {
    hide *;
    var last := b[|b| - 1];
    LastIsData(last, h);
    PacketRebuilt(f, Raw(last), h, Packs(k).value, chunks);
    LinesLength(b);
    var texts := Lines(b)[..|b| - 1];
    forall i | 0 <= i < |Emits(k)| ensures Lookup(f, Emits(k)[i]) == Some(texts[i]) {
      LineAt(b, i);
      BlobLine(b[i]);
    }
    PackedLines(f, Emits(k), texts, Packs(k).value, Hex(HeaderBytes(h)), Hex(Raw(last)));
    LineAt(b, |b| - 1);
    assert Lines(b) == texts + [Line(last)];
    RebuildPacked(k, b, f);
  }

  lemma RebuildPacked(k: Kind, b: seq<Blob>, f: seq<Field>)
    requires Packs(k).Some? && k != LinkData
    requires LayoutLines(f, Items(Emits(k)) + ([Pack] + Items(Packs(k).value))) == Some(Lines(b))
    ensures Returns(k, b, f)
  {
    hide LayoutLines, Emits, Packs, Items, Lines;
  }

  lemma LinesLength(b: seq<Blob>)
    ensures |Lines(b)| == |b|
  {
  }

  lemma LineAt(b: seq<Blob>, i: nat)
    requires i < |b|
    ensures |Lines(b)| == |b| && Lines(b)[i] == Line(b[i])
  {
  }

  lemma LastIsData(b: Blob, h: Header)
    requires Readable(b) && ParseHeader(Raw(b)) == Ok(h)
    ensures b.Data? && Line(b) == Hex(Raw(b)) && |Raw(b)| <= MAXBLOB
  {
  }

  /** The lines of their own, printed first by every packing kind. */
  function Before(k: Kind, b: seq<Blob>): (r: seq<Field>)
    requires |Emits(k)| <= |b|
    ensures |r| == |Emits(k)| && forall i :: 0 <= i < |r| ==> r[i] == F(Emits(k)[i], BlobText(b[i]))
  {
    seq(|Emits(k)|, i requires 0 <= i < |Emits(k)| => F(Emits(k)[i], BlobText(b[i])))
  }

  /** The kinds' own lines, the header and the packed fields have names apart. */
  lemma EmitApart(k: Kind, i: nat)
    requires i < |Emits(k)|
    ensures !HeaderName(Emits(k)[i]) && |Emits(k)| <= 2 && (|Emits(k)| == 2 ==> Emits(k)[0] != Emits(k)[1])
  {
  }

  lemma BeforeClear(k: Kind, b: seq<Blob>)
    requires |Emits(k)| <= |b|
    ensures Clear(Before(k, b))
  {
    assert HeaderName(FlagsField) && HeaderName(HopsField) && HeaderName(TransportIdField)
      && HeaderName(DestinationHashField) && HeaderName(ContextField);
    hide Emits, HeaderName;
    forall i | 0 <= i < |Emits(k)| ensures !HeaderName(Emits(k)[i]) {
      EmitApart(k, i);
    }
  }

  lemma BeforeLacks(k: Kind, b: seq<Blob>, i: nat)
    requires Packs(k).Some? && i < |Packs(k).value| && |Emits(k)| <= |b|
    ensures Lacks(Before(k, b), Packs(k).value[i]) && !HeaderName(Packs(k).value[i])
  {
    assert !HeaderName(Packs(k).value[i]);
    assert forall j :: 0 <= j < |Emits(k)| ==> Emits(k)[j] != Packs(k).value[i];
    hide Emits, Packs, HeaderName;
  }

  lemma BeforeFirst(k: Kind, b: seq<Blob>, i: nat)
    requires i < |Emits(k)| <= |b|
    ensures FirstAt(Before(k, b), Emits(k)[i], i)
  {
    hide Emits, HeaderName;
    EmitApart(k, i);
  }

  /** Chunks printed in mid, right after the header, each under the name it is packed by. */
  ghost predicate Prints(mid: seq<Field>, names: seq<Name>, at: seq<nat>, chunks: seq<seq<byte>>) {
    |names| == |at| == |chunks|
    && forall i :: 0 <= i < |names| ==> FirstAt(mid, names[i], at[i]) && mid[at[i]].value == FieldText(chunks[i])
  }

  /** Every packing kind: own lines, header, packed fields, and whatever else. */
  lemma KindReturns(k: Kind, b: seq<Blob>, h: Header, mid: seq<Field>, tail: seq<Field>, at: seq<nat>,
                    chunks: seq<seq<byte>>)
    requires Packs(k).Some? && k != LinkData && |b| == Blobs(k) == |Emits(k)| + 1
    requires forall i :: 0 <= i < |b| ==> Readable(b[i])
    requires ParseHeader(Raw(b[|b| - 1])) == Ok(h)
    requires Prints(mid, Packs(k).value, at, chunks) && Flatten(chunks) == h.payload
    ensures Returns(k, b, Before(k, b) + PrintHeader(h) + mid + tail)
  {
    hide *;
    var f := Before(k, b) + PrintHeader(h) + mid + tail;
    ShowsAll(k, b, h, mid, tail);
    PrintsHolds(k, b, h, mid, tail, at, chunks);
    forall i | 0 <= i < |Emits(k)| ensures Lookup(f, Emits(k)[i]) == Some(BlobText(b[i])) {
      EmitShown(k, b, h, mid, tail, i);
    }
    PackedReturns(k, b, f, h, chunks);
  }

  lemma ShowsAll(k: Kind, b: seq<Blob>, h: Header, mid: seq<Field>, tail: seq<Field>)
    requires |Emits(k)| <= |b|
    ensures ShowsHeader(Before(k, b) + PrintHeader(h) + mid + tail, h)
  {
    hide *;
    BeforeClear(k, b);
    HeaderShown(Before(k, b), h, mid + tail);
    assert Before(k, b) + PrintHeader(h) + (mid + tail) == Before(k, b) + PrintHeader(h) + mid + tail;
  }

  lemma EmitShown(k: Kind, b: seq<Blob>, h: Header, mid: seq<Field>, tail: seq<Field>, i: nat)
    requires i < |Emits(k)| <= |b|
    ensures Lookup(Before(k, b) + PrintHeader(h) + mid + tail, Emits(k)[i]) == Some(BlobText(b[i]))
  {
    hide *;
    BeforeFirst(k, b, i);
    LacksNothing(Emits(k)[i]);
    LookupPast([], Before(k, b), PrintHeader(h) + mid + tail, Emits(k)[i], i);
    assert [] + Before(k, b) + (PrintHeader(h) + mid + tail) == Before(k, b) + PrintHeader(h) + mid + tail;
  }

  lemma LacksNothing(name: Name)
    ensures Lacks([], name)
  {
  }

  lemma PrintsHolds(k: Kind, b: seq<Blob>, h: Header, mid: seq<Field>, tail: seq<Field>, at: seq<nat>,
                    chunks: seq<seq<byte>>)
    requires Packs(k).Some? && |Emits(k)| <= |b| && Prints(mid, Packs(k).value, at, chunks)
    ensures Holds(Before(k, b) + PrintHeader(h) + mid + tail, Packs(k).value, chunks)
  {
    hide *;
    var f := Before(k, b) + PrintHeader(h) + mid + tail;
    PrintsLengths(mid, Packs(k).value, at, chunks);
    forall i | 0 <= i < |Packs(k).value| ensures Lookup(f, Packs(k).value[i]) == Some(FieldText(chunks[i])) {
      BeforeLacks(k, b, i);
      PrintsAt(mid, Packs(k).value, at, chunks, i);
      ShownAfter(Before(k, b), h, mid, tail, Packs(k).value[i], at[i]);
    }
    HoldsAll(f, Packs(k).value, chunks);
  }

  lemma HoldsAll(f: seq<Field>, names: seq<Name>, chunks: seq<seq<byte>>)
    requires |names| == |chunks| && forall i :: 0 <= i < |names| ==> Lookup(f, names[i]) == Some(FieldText(chunks[i]))
    ensures Holds(f, names, chunks)
  {
    hide Lookup, FieldText;
  }

  lemma PrintsLengths(mid: seq<Field>, names: seq<Name>, at: seq<nat>, chunks: seq<seq<byte>>)
    requires Prints(mid, names, at, chunks)
    ensures |names| == |at| == |chunks|
  {
  }

  lemma PrintsAt(mid: seq<Field>, names: seq<Name>, at: seq<nat>, chunks: seq<seq<byte>>, i: nat)
    requires Prints(mid, names, at, chunks) && i < |names|
    ensures |names| == |at| == |chunks| && FirstAt(mid, names[i], at[i]) && at[i] < |mid|
    ensures mid[at[i]].value == FieldText(chunks[i])
  {
    hide FieldText;
  }

  lemma FlattenCons(a: seq<byte>, rest: seq<seq<byte>>)
    ensures Flatten([a] + rest) == a + Flatten(rest)
  {
    assert ([a] + rest)[1..] == rest;
  }

  lemma Flatten1(a: seq<byte>)
    ensures Flatten([a]) == a
  {
    FlattenCons(a, []);
    assert [a] + [] == [a] && a + [] == a;
  }

  lemma Flatten2(a: seq<byte>, b: seq<byte>)
    ensures Flatten([a, b]) == a + b
  {
    Flatten1(b);
    FlattenCons(a, [b]);
    assert [a] + [b] == [a, b];
  }

  lemma Flatten3(a: seq<byte>, b: seq<byte>, c: seq<byte>)
    ensures Flatten([a, b, c]) == a + (b + c)
  {
    Flatten2(b, c);
    FlattenCons(a, [b, c]);
    assert [a] + [b, c] == [a, b, c];
  }

  lemma Flatten4(a: seq<byte>, b: seq<byte>, c: seq<byte>, d: seq<byte>)
    ensures Flatten([a, b, c, d]) == a + (b + (c + d))
  {
    Flatten3(b, c, d);
    FlattenCons(a, [b, c, d]);
    assert [a] + [b, c, d] == [a, b, c, d];
  }

  lemma Flatten6(a: seq<byte>, b: seq<byte>, c: seq<byte>, d: seq<byte>, e: seq<byte>, f: seq<byte>)
    ensures Flatten([a, b, c, d, e, f]) == a + (b + (c + (d + (e + f))))
  {
    Flatten4(c, d, e, f);
    FlattenCons(b, [c, d, e, f]);
    FlattenCons(a, [b, c, d, e, f]);
    assert [b] + [c, d, e, f] == [b, c, d, e, f] && [a] + [b, c, d, e, f] == [a, b, c, d, e, f];
  }

  /** Packed fields printed one after another, behind n other fields. */
  lemma PrintsRun(mid: seq<Field>, n: nat, names: seq<Name>, chunks: seq<seq<byte>>, at: seq<nat>)
    requires |names| == |chunks| == |at| && n + |names| <= |mid| && Apart(names)
    requires forall i :: 0 <= i < |at| ==> at[i] == n + i
    requires forall i :: 0 <= i < |names| ==> mid[n + i].name == names[i] && mid[n + i].value == FieldText(chunks[i])
    requires forall i, j :: 0 <= i < |names| && 0 <= j < n ==> mid[j].name != names[i]
    ensures Prints(mid, names, at, chunks)
  {
    hide FieldText;
    forall i | 0 <= i < |names| ensures FirstAt(mid, names[i], at[i]) {
      forall j | n <= j < n + i ensures mid[j].name != names[i] {
        assert mid[n + (j - n)].name == names[j - n];
      }
    }
  }

  ghost predicate Apart(names: seq<Name>) {
    forall i, j :: 0 <= i < j < |names| ==> names[i] != names[j]
  }

  lemma PackDistinct(k: Kind, i: nat, j: nat)
    requires Packs(k).Some? && i < j < |Packs(k).value|
    ensures Packs(k).value[i] != Packs(k).value[j]
  {
  }

  lemma PacksApart(k: Kind)
    requires Packs(k).Some?
    ensures Apart(Packs(k).value)
  {
    hide Packs;
    forall i, j | 0 <= i < j < |Packs(k).value| ensures Packs(k).value[i] != Packs(k).value[j] {
      PackDistinct(k, i, j);
    }
  }

  ghost predicate Quiet(f: seq<Field>) {
    forall i :: 0 <= i < |f| && f[i].name == InvalidField ==> !IsRejection(f[i].value)
  }

  lemma QuietJoin(f: seq<Field>, g: seq<Field>)
    requires Quiet(f) && Quiet(g)
    ensures Quiet(f + g)
  {
    hide IsRejection;
  }

  lemma QuietBefore(k: Kind, b: seq<Blob>)
    requires |Emits(k)| <= |b|
    ensures Quiet(Before(k, b)) && |Before(k, b)| <= 2
  {
    hide IsRejection, Emits, Blobs;
    forall i | 0 <= i < |Emits(k)| ensures Emits(k)[i] != InvalidField {
      EmitNotInvalid(k, i);
    }
    EmitsShort(k);
  }

  lemma EmitsShort(k: Kind)
    ensures |Emits(k)| <= 2
  {
  }

  lemma EmitNotInvalid(k: Kind, i: nat)
    requires i < |Emits(k)|
    ensures Emits(k)[i] != InvalidField
  {
  }

  lemma QuietHeader(h: Header)
    ensures Quiet(PrintHeader(h)) && |PrintHeader(h)| == 11
  {
    assert Quiet(PrintHeader(h));
    hide *;
    HeaderNames(h);
    HeaderLacksInvalid(h);
  }

  lemma HeaderLacksInvalid(h: Header)
    ensures Lacks(PrintHeader(h), InvalidField)
  {
    hide PrintHeader;
    NotInHeader();
    HeaderLacks(h, InvalidField);
  }

  lemma NotInHeader()
    ensures !HeaderName(InvalidField) && !HeaderName(IvField)
  {
  }

  lemma QuietNothing()
    ensures Quiet([])
  {
  }

  lemma QuietExact(k: Kind, b: seq<Blob>, f: seq<Field>)
    requires Quiet(f) && |f| <= 40 && Returns(k, b, f)
    ensures Exact(k, b, f)
  {
    hide Rebuild, Lines;
  }

  /** A packet that is printed whole is rebuilt whole. */
  lemma Succeeds(k: Kind, b: seq<Blob>, h: Header, mid: seq<Field>, tail: seq<Field>, at: seq<nat>,
                 chunks: seq<seq<byte>>)
    requires Packs(k).Some? && k != LinkData && |b| == Blobs(k) == |Emits(k)| + 1
    requires forall i :: 0 <= i < |b| ==> Readable(b[i])
    requires ParseHeader(Raw(b[|b| - 1])) == Ok(h)
    requires Prints(mid, Packs(k).value, at, chunks) && Flatten(chunks) == h.payload
    requires Quiet(mid) && Quiet(tail) && |mid| + |tail| <= 27
    ensures Exact(k, b, Before(k, b) + PrintHeader(h) + mid + tail)
  {
    hide *;
    KindReturns(k, b, h, mid, tail, at, chunks);
    QuietBefore(k, b);
    QuietHeader(h);
    QuietJoin(Before(k, b), PrintHeader(h));
    QuietJoin(Before(k, b) + PrintHeader(h), mid);
    QuietJoin(Before(k, b) + PrintHeader(h) + mid, tail);
    QuietExact(k, b, Before(k, b) + PrintHeader(h) + mid + tail);
  }

  // ---- announce, plain and path request

  lemma OneBlob(k: Kind, b: seq<Blob>)
    requires |b| == 1 && Emits(k) == []
    ensures Before(k, b) == []
  {
  }

  lemma AnnounceReturns(x: Crypto, b: seq<Blob>, f: seq<Field>)
    requires |b| == 1 && Readable(b[0]) && DumpAnnounce(x, b) == Printed(f)
    ensures Exact(Kind.Announce, b, f)
  {
    hide ParseHeader, ParseAnnounce, AnnounceRest, PrintHeader, PrintFault, Exact, Prints, Flatten, Raw, Quiet;
    OneBlob(Kind.Announce, b);
    match ParseHeader(Raw(b[0]))
    case Err(e) =>
      FaultFails(Kind.Announce, b, e);
      assert f == [] + PrintFault(e);
    case Ok(h) =>
      match ParseAnnounce(h)
      case Err(e) =>
        FaultFails(Kind.Announce, b, e);
        assert f == [] + PrintFault(e);
      case Ok(a) =>
        var mid := AnnounceRest(x, h, a);
        AnnouncePrints(x, h, a);
        AnnounceQuiet(x, h, a);
        QuietNothing();
        Succeeds(Kind.Announce, b, h, mid, [], [0, 1, 2, 3, 4, 5], AnnounceChunks(a));
        assert f == [] + PrintHeader(h) + mid + [];
  }

  function AnnounceChunks(a: Packet.Announce): seq<seq<byte>> {
    [a.public_key, a.name_hash, a.random_hash, OptionBytes(a.ratchet), a.signature, a.app_data]
  }

  lemma AnnouncePrints(x: Crypto, h: Header, a: Packet.Announce)
    requires ParseAnnounce(h) == Ok(a)
    ensures Prints(AnnounceRest(x, h, a), Packs(Kind.Announce).value, [0, 1, 2, 3, 4, 5], AnnounceChunks(a))
    ensures Flatten(AnnounceChunks(a)) == h.payload
  {
    hide *;
    AnnounceParts(h);
    Flatten6(a.public_key, a.name_hash, a.random_hash, OptionBytes(a.ratchet), a.signature, a.app_data);
    AnnounceTable(a);
    AnnounceFields(x, h, a);
    PacksApart(Kind.Announce);
    PrintsRun(AnnounceRest(x, h, a), 0, Packs(Kind.Announce).value, AnnounceChunks(a), [0, 1, 2, 3, 4, 5]);
  }

  lemma AnnounceTable(a: Packet.Announce)
    ensures AnnounceChunks(a) ==
      [a.public_key, a.name_hash, a.random_hash, OptionBytes(a.ratchet), a.signature, a.app_data]
    ensures Packs(Kind.Announce) ==
      Some([PublicKeyField, NameHashField, RandomHashField, RatchetField, SignatureField, AppDataField])
  {
  }

  lemma AnnounceFields(x: Crypto, h: Header, a: Packet.Announce)
    ensures var f := AnnounceRest(x, h, a);
      |f| == 11 && f[0] == F(PublicKeyField, FieldText(a.public_key))
        && f[1] == F(NameHashField, FieldText(a.name_hash))
      && f[2] == F(RandomHashField, FieldText(a.random_hash))
      && f[3] == F(RatchetField, FieldText(OptionBytes(a.ratchet)))
      && f[4] == F(SignatureField, FieldText(a.signature)) && f[5] == F(AppDataField, FieldText(a.app_data))
  {
    OptionTextBytes(a.ratchet);
    hide FieldText, OptionText, OptionBytes, YesNo, Decode.Identity, Cut;
  }

  lemma AnnounceQuiet(x: Crypto, h: Header, a: Packet.Announce)
    ensures Quiet(AnnounceRest(x, h, a)) && |AnnounceRest(x, h, a)| == 11
  {
    hide FieldText, OptionText, OptionBytes, YesNo, Decode.Identity, Cut, IsRejection;
  }

  /** An optional field prints as its bytes would, nothing standing for a dash. */
  lemma OptionTextBytes(o: Option<seq<byte>>)
    ensures OptionText(o) == FieldText(OptionBytes(o))
  {
  }

  lemma PlainReturns(x: Crypto, b: seq<Blob>, f: seq<Field>)
    requires |b| == 1 && Readable(b[0]) && DumpPlain(x, b) == Printed(f)
    ensures Exact(Plain, b, f)
  {
    hide ParseHeader, PrintHeader, PrintFault, Exact, Prints, Flatten, Raw, Quiet, FieldText, Dec;
    OneBlob(Plain, b);
    match ParseHeader(Raw(b[0]))
    case Err(e) =>
      FaultFails(Plain, b, e);
      assert f == [] + PrintFault(e);
    case Ok(h) =>
      var mid := [F(PlaintextLengthField, Dec(|h.payload|)), F(PlaintextField, FieldText(h.payload))];
      PlainPrints(h.payload);
      PlainQuiet(h.payload);
      QuietNothing();
      Succeeds(Plain, b, h, mid, [], [1], [h.payload]);
      assert f == [] + PrintHeader(h) + mid + [];
  }

  lemma PlainPrints(p: seq<byte>)
    ensures Prints([F(PlaintextLengthField, Dec(|p|)), F(PlaintextField, FieldText(p))], Packs(Plain).value, [1], [p])
    ensures Flatten([p]) == p
  {
    hide *;
    Flatten1(p);
    PlainTable();
    SecondOnly([F(PlaintextLengthField, Dec(|p|)), F(PlaintextField, FieldText(p))], Packs(Plain).value, p);
  }

  lemma SecondOnly(f: seq<Field>, names: seq<Name>, p: seq<byte>)
    requires |f| == 2 && names == [f[1].name] && f[0].name != f[1].name && f[1].value == FieldText(p)
    ensures Prints(f, names, [1], [p])
  {
    hide FieldText;
  }

  lemma PlainTable()
    ensures Packs(Plain) == Some([PlaintextField])
  {
  }

  lemma PlainQuiet(p: seq<byte>)
    ensures Quiet([F(PlaintextLengthField, Dec(|p|)), F(PlaintextField, FieldText(p))])
  {
    hide Dec, FieldText, IsRejection;
  }

  lemma PathRequestReturns(x: Crypto, b: seq<Blob>, f: seq<Field>)
    requires |b| == 1 && Readable(b[0]) && DumpPathRequest(x, b) == Printed(f)
    ensures Exact(PathRequest, b, f)
  {
    hide ParseHeader, PrintHeader, PrintFault, Exact, Prints, Flatten, Raw, Quiet, PathRequestRest;
    OneBlob(PathRequest, b);
    match ParseHeader(Raw(b[0]))
    case Err(e) =>
      FaultFails(PathRequest, b, e);
      assert f == [] + PrintFault(e);
    case Ok(h) =>
      var p := h.payload;
      if |p| < ADDRLEN {
        FaultFails(PathRequest, b, ShortPayload(|p|, ADDRLEN));
        assert f == [] + PrintFault(ShortPayload(|p|, ADDRLEN));
      } else {
        PathRequestPrints(p);
        PathRequestQuiet(p);
        QuietNothing();
        Succeeds(PathRequest, b, h, PathRequestRest(p), [], [0, 1, 2], PathRequestChunks(p));
        assert f == [] + PrintHeader(h) + PathRequestRest(p) + [];
      }
  }

  function PathRequestChunks(p: seq<byte>): seq<seq<byte>>
    requires |p| >= ADDRLEN
  {
    if |p| > 2 * ADDRLEN then [p[..16], p[16..32], p[32..]] else [p[..16], [], p[16..]]
  }

  lemma PathRequestPrints(p: seq<byte>)
    requires |p| >= ADDRLEN
    ensures Prints(PathRequestRest(p), Packs(PathRequest).value, [0, 1, 2], PathRequestChunks(p))
    ensures Flatten(PathRequestChunks(p)) == p
  {
    hide *;
    PathRequestFlat(p);
    PathRequestFields(p);
    PathRequestTable();
    PacksApart(PathRequest);
    PrintsRun(PathRequestRest(p), 0, Packs(PathRequest).value, PathRequestChunks(p), [0, 1, 2]);
  }

  lemma PathRequestTable()
    ensures Packs(PathRequest) == Some([WantedHashField, RequesterIdField, TagField])
  {
  }

  lemma PathRequestFlat(p: seq<byte>)
    requires |p| >= ADDRLEN
    ensures Flatten(PathRequestChunks(p)) == p && |PathRequestChunks(p)| == 3
  {
    hide Flatten;
    if |p| > 2 * ADDRLEN {
      Flatten3(p[..16], p[16..32], p[32..]);
      assert p == p[..16] + (p[16..32] + p[32..]);
    } else {
      Flatten3(p[..16], [], p[16..]);
      assert p == p[..16] + ([] + p[16..]);
    }
  }

  lemma PathRequestFields(p: seq<byte>)
    requires |p| >= ADDRLEN
    ensures var f, c := PathRequestRest(p), PathRequestChunks(p);
      |f| == 5 && |c| == 3 && f[0] == F(WantedHashField, FieldText(c[0]))
        && f[1] == F(RequesterIdField, FieldText(c[1]))
      && f[2] == F(TagField, FieldText(c[2]))
  {
    hide Hex, YesNo;
  }

  lemma PathRequestQuiet(p: seq<byte>)
    requires |p| >= ADDRLEN
    ensures Quiet(PathRequestRest(p)) && |PathRequestRest(p)| == 5
  {
    hide FieldText, YesNo, IsRejection;
  }

  // ---- encrypted and group

  lemma EncryptedReturns(x: Crypto, b: seq<Blob>, f: seq<Field>)
    requires |b| == 3 && Readable(b[0]) && Readable(b[1]) && Readable(b[2]) && DumpEncrypted(x, b) == Printed(f)
    ensures Exact(Encrypted, b, f)
  {
    hide ParseHeader, PrintHeader, PrintFault, Exact, Prints, Flatten, Raw, Quiet, EncryptedRest, BlobText, FieldText,
      PrintToken;
    EncryptedBefore(b);
    match ParseHeader(Raw(b[2]))
    case Err(e) =>
      FaultFails(Encrypted, b, e);
    case Ok(h) =>
      var p := h.payload;
      if |p| < KEYHALF + TOKEN_OVERHEAD {
        FaultFails(Encrypted, b, ShortPayload(|p|, KEYHALF + TOKEN_OVERHEAD));
      } else {
        EncryptedPrints(p);
        EncryptedQuiet(x, Raw(b[0]), b[1], p);
        Succeeds(Encrypted, b, h, EncryptedMid(p), EncryptedRest(x, Raw(b[0]), b[1], p), [0, 1, 2, 3],
                 EncryptedChunks(p));
      }
  }

  lemma EncryptedBefore(b: seq<Blob>)
    requires |b| == 3
    ensures Before(Encrypted, b) == [F(RecipientPrivateField, BlobText(b[0])), F(RatchetPrivateField, BlobText(b[1]))]
  {
    hide BlobText;
  }

  function EncryptedMid(p: seq<byte>): seq<Field>
    requires |p| >= KEYHALF + TOKEN_OVERHEAD
  {
    [F(EphemeralPublicField, FieldText(p[..32]))] + PrintToken(p[32..])
  }

  function EncryptedChunks(p: seq<byte>): seq<seq<byte>>
    requires |p| >= KEYHALF + TOKEN_OVERHEAD
  {
    [p[..32], p[32..48], p[48..|p| - 32], p[|p| - 32..]]
  }

  lemma EncryptedPrints(p: seq<byte>)
    requires |p| >= KEYHALF + TOKEN_OVERHEAD
    ensures Prints(EncryptedMid(p), Packs(Encrypted).value, [0, 1, 2, 3], EncryptedChunks(p))
    ensures Flatten(EncryptedChunks(p)) == p
  {
    hide *;
    EncryptedFlat(p);
    EncryptedFields(p);
    EncryptedTable();
    PacksApart(Encrypted);
    PrintsRun(EncryptedMid(p), 0, Packs(Encrypted).value, EncryptedChunks(p), [0, 1, 2, 3]);
  }

  lemma EncryptedTable()
    ensures Packs(Encrypted) == Some([EphemeralPublicField, IvField, CiphertextField, HmacField])
  {
  }

  lemma EncryptedFlat(p: seq<byte>)
    requires |p| >= KEYHALF + TOKEN_OVERHEAD
    ensures Flatten(EncryptedChunks(p)) == p
  {
    hide Flatten;
    Flatten4(p[..32], p[32..48], p[48..|p| - 32], p[|p| - 32..]);
    assert p == p[..32] + (p[32..48] + (p[48..|p| - 32] + p[|p| - 32..]));
  }

  lemma EncryptedFields(p: seq<byte>)
    requires |p| >= KEYHALF + TOKEN_OVERHEAD
    ensures var f, c := EncryptedMid(p), EncryptedChunks(p);
      |f| == 4 && |c| == 4 && f[0] == F(EphemeralPublicField, FieldText(c[0])) && f[1] == F(IvField, FieldText(c[1]))
      && f[2] == F(CiphertextField, FieldText(c[2])) && f[3] == F(HmacField, FieldText(c[3]))
  {
    hide FieldText;
    var t := p[32..];
    assert t[..16] == p[32..48] && t[16..|t| - 32] == p[48..|p| - 32] && t[|t| - 32..] == p[|p| - 32..];
  }

  lemma EncryptedQuiet(x: Crypto, k: seq<byte>, ratchet: Blob, p: seq<byte>)
    requires |k| == KEYSIZE && |p| >= KEYHALF + TOKEN_OVERHEAD
    ensures Quiet(EncryptedMid(p)) && |EncryptedMid(p)| == 4
    ensures Quiet(EncryptedRest(x, k, ratchet, p)) && |EncryptedRest(x, k, ratchet, p)| == 8
  {
    assert Quiet(EncryptedMid(p)) && |EncryptedMid(p)| == 4;
    hide *;
    EncryptedRestQuiet(x, k, ratchet, p);
  }

  lemma EncryptedRestQuiet(x: Crypto, k: seq<byte>, ratchet: Blob, p: seq<byte>)
    requires |k| == KEYSIZE && |p| >= KEYHALF + TOKEN_OVERHEAD
    ensures Quiet(EncryptedRest(x, k, ratchet, p)) && |EncryptedRest(x, k, ratchet, p)| == 8
  {
    hide FieldText, IsRejection, PrintKeys, PrintPlaintext, Quiet, Cut, Decode.Identity;
    var identity_hash := Decode.Identity(x, x.x25519Public(k[..32]) + x.ed25519Public(k[32..]));
    var shared := x.agree(if ratchet.Data? then ratchet.s else k[..32], p[..32]);
    var derived := if shared == None then [] else x.derive(shared.value, identity_hash);
    var key := if shared == None then None else Some(derived);
    var lead := [F(IdentityHashField, FieldText(identity_hash)),
                 F(RatchetPublicField, if ratchet.Data? then FieldText(x.x25519Public(ratchet.s)) else "-")];
    assert Quiet(lead) by { QuietTwo(lead[0], lead[1]); assert lead == [lead[0], lead[1]]; }
    KeysQuiet(shared, derived);
    PlaintextQuiet(x, key, p[32..]);
    QuietJoin(lead, PrintKeys(shared, derived));
    QuietJoin(lead + PrintKeys(shared, derived), PrintPlaintext(x, key, p[32..]));
  }

  lemma QuietTwo(a: Field, b: Field)
    requires a.name != InvalidField && b.name != InvalidField
    ensures Quiet([a, b]) && Quiet([a])
  {
  }

  lemma KeysQuiet(shared: Option<seq<byte>>, derived: seq<byte>)
    ensures Quiet(PrintKeys(shared, derived)) && |PrintKeys(shared, derived)| == 3
  {
    hide FieldText, IsRejection, Cut;
  }

  lemma PlaintextQuiet(x: Crypto, key: Option<seq<byte>>, t: seq<byte>)
    ensures Quiet(PrintPlaintext(x, key, t)) && |PrintPlaintext(x, key, t)| == 3
  {
    hide OptionText, IsRejection, OpenToken, Dec, YesNo;
  }

  lemma GroupReturns(x: Crypto, b: seq<Blob>, f: seq<Field>)
    requires |b| == 2 && Readable(b[0]) && Readable(b[1]) && DumpGroup(x, b) == Printed(f)
    ensures Exact(Group, b, f)
  {
    hide ParseHeader, PrintHeader, PrintFault, Exact, Prints, Flatten, Raw, Quiet, BlobText, FieldText,
      PrintToken, PrintPlaintext;
    GroupBefore(b);
    match ParseHeader(Raw(b[1]))
    case Err(e) =>
      FaultFails(Group, b, e);
    case Ok(h) =>
      var p, k := h.payload, Raw(b[0]);
      if |p| < TOKEN_OVERHEAD {
        FaultFails(Group, b, ShortPayload(|p|, TOKEN_OVERHEAD));
      } else {
        var tail := [F(SigningKeyField, FieldText(k[..|k| / 2])), F(EncryptionKeyField, FieldText(k[|k| / 2..]))]
          + PrintPlaintext(x, Some(k), p);
        GroupPrints(p);
        TokenQuiet(p);
        QuietTwo(F(SigningKeyField, FieldText(k[..|k| / 2])), F(EncryptionKeyField, FieldText(k[|k| / 2..])));
        PlaintextQuiet(x, Some(k), p);
        QuietJoin([F(SigningKeyField, FieldText(k[..|k| / 2])), F(EncryptionKeyField, FieldText(k[|k| / 2..]))],
                  PrintPlaintext(x, Some(k), p));
        Succeeds(Group, b, h, PrintToken(p), tail, [0, 1, 2], GroupChunks(p));
      }
  }

  lemma GroupBefore(b: seq<Blob>)
    requires |b| == 2
    ensures Before(Group, b) == [F(GroupKeyField, BlobText(b[0]))]
  {
    hide BlobText;
  }

  function GroupChunks(p: seq<byte>): seq<seq<byte>>
    requires |p| >= TOKEN_OVERHEAD
  {
    [p[..16], p[16..|p| - 32], p[|p| - 32..]]
  }

  lemma GroupPrints(p: seq<byte>)
    requires |p| >= TOKEN_OVERHEAD
    ensures Prints(PrintToken(p), Packs(Group).value, [0, 1, 2], GroupChunks(p))
    ensures Flatten(GroupChunks(p)) == p
  {
    hide *;
    TokenFlat(p);
    TokenFields(p);
    GroupTable();
    PacksApart(Group);
    PrintsRun(PrintToken(p), 0, Packs(Group).value, GroupChunks(p), [0, 1, 2]);
  }

  lemma GroupTable()
    ensures Packs(Group) == Some([IvField, CiphertextField, HmacField])
  {
  }

  lemma TokenFlat(p: seq<byte>)
    requires |p| >= TOKEN_OVERHEAD
    ensures Flatten(GroupChunks(p)) == p
  {
    hide Flatten;
    Flatten3(p[..16], p[16..|p| - 32], p[|p| - 32..]);
    assert p == p[..16] + (p[16..|p| - 32] + p[|p| - 32..]);
  }

  lemma TokenFields(p: seq<byte>)
    requires |p| >= TOKEN_OVERHEAD
    ensures var f, c := PrintToken(p), GroupChunks(p);
      |f| == 3 && |c| == 3 && f[0] == F(IvField, FieldText(c[0])) && f[1] == F(CiphertextField, FieldText(c[1]))
      && f[2] == F(HmacField, FieldText(c[2]))
  {
    hide FieldText;
  }

  lemma TokenQuiet(p: seq<byte>)
    requires |p| >= TOKEN_OVERHEAD
    ensures Quiet(PrintToken(p)) && |PrintToken(p)| == 3
  {
    hide FieldText, IsRejection;
  }

  // ---- link requests and link proofs

  /** A payload of a fixed length, with or without three signalling bytes behind it. */
  predicate Signalled(p: seq<byte>, n: nat) {
    |p| == n || |p| == n + SIGNALLEN
  }

  function Signalling(p: seq<byte>, n: nat): (o: Option<seq<byte>>)
    requires Signalled(p, n)
    ensures o.Some? ==> |o.value| == SIGNALLEN
  {
    if |p| == n then None else Some(p[n..])
  }

  lemma SignallingFields(o: Option<seq<byte>>)
    requires o.Some? ==> |o.value| == SIGNALLEN
    ensures |PrintSignalling(o)| == 3 && PrintSignalling(o)[0] == F(SignallingField, FieldText(OptionBytes(o)))
    ensures PrintSignalling(o)[1].name == ModeField && PrintSignalling(o)[2].name == MtuField
  {
    hide Hex, Dec, BeVal, Hex2;
  }

  lemma QuietNames(f: seq<Field>)
    requires forall i :: 0 <= i < |f| ==> f[i].name != InvalidField
    ensures Quiet(f)
  {
    hide IsRejection;
  }

  lemma SignallingQuiet(o: Option<seq<byte>>)
    requires o.Some? ==> |o.value| == SIGNALLEN
    ensures Quiet(PrintSignalling(o)) && |PrintSignalling(o)| == 3
  {
    hide *;
    SignallingFields(o);
    QuietNames(PrintSignalling(o));
  }

  lemma HeaderLength(raw: seq<byte>)
    requires ParseHeader(raw).Ok?
    ensures |raw| >= 19
  {
  }

  function LinkRequestMid(p: seq<byte>): seq<Field>
    requires Signalled(p, ECPUBSIZE)
  {
    [F(X25519PublicField, FieldText(p[..32])), F(Ed25519PublicField, FieldText(p[32..64]))]
      + PrintSignalling(Signalling(p, ECPUBSIZE))
  }

  lemma LinkRequestReturns(x: Crypto, b: seq<Blob>, f: seq<Field>)
    requires |b| == 1 && Readable(b[0]) && DumpLinkRequest(x, b) == Printed(f)
    ensures Exact(LinkRequest, b, f)
  {
    hide ParseHeader, PrintHeader, PrintFault, Exact, Prints, Flatten, Raw, Quiet, FieldText, PrintSignalling, LinkId,
      InvalidLength;
    OneBlob(LinkRequest, b);
    match ParseHeader(Raw(b[0]))
    case Err(e) =>
      FaultFails(LinkRequest, b, e);
      assert f == [] + PrintFault(e);
    case Ok(h) =>
      var p := h.payload;
      if |p| != ECPUBSIZE && |p| != ECPUBSIZE + SIGNALLEN {
        var names, numbers := [PayloadLengthField, AcceptedLengthField, SignalledLengthField],
                              [|p|, ECPUBSIZE, ECPUBSIZE + SIGNALLEN];
        LengthFails(LinkRequest, b, names, numbers);
        assert f == [] + InvalidLength(names, numbers);
      } else {
        HeaderLength(Raw(b[0]));
        var tail := [F(LinkIdField, FieldText(LinkId(x, Raw(b[0]), h)))];
        LinkRequestPrints(p);
        LinkRequestQuiet(p);
        QuietTwo(tail[0], tail[0]);
        Succeeds(LinkRequest, b, h, LinkRequestMid(p), tail, [0, 1, 2], LinkRequestChunks(p));
        assert f == [] + PrintHeader(h) + LinkRequestMid(p) + tail;
      }
  }

  function LinkRequestChunks(p: seq<byte>): seq<seq<byte>>
    requires Signalled(p, ECPUBSIZE)
  {
    [p[..32], p[32..64], OptionBytes(Signalling(p, ECPUBSIZE))]
  }

  lemma LinkRequestPrints(p: seq<byte>)
    requires Signalled(p, ECPUBSIZE)
    ensures Prints(LinkRequestMid(p), Packs(LinkRequest).value, [0, 1, 2], LinkRequestChunks(p))
    ensures Flatten(LinkRequestChunks(p)) == p
  {
    hide *;
    LinkRequestFlat(p);
    LinkRequestFields(p);
    LinkRequestTable();
    PacksApart(LinkRequest);
    PrintsRun(LinkRequestMid(p), 0, Packs(LinkRequest).value, LinkRequestChunks(p), [0, 1, 2]);
  }

  lemma LinkRequestTable()
    ensures Packs(LinkRequest) == Some([X25519PublicField, Ed25519PublicField, SignallingField])
  {
  }

  lemma LinkRequestFlat(p: seq<byte>)
    requires Signalled(p, ECPUBSIZE)
    ensures Flatten(LinkRequestChunks(p)) == p
  {
    hide Flatten;
    var s := OptionBytes(Signalling(p, ECPUBSIZE));
    Flatten3(p[..32], p[32..64], s);
    assert s == p[64..];
    assert p == p[..32] + (p[32..64] + p[64..]);
  }

  lemma LinkRequestFields(p: seq<byte>)
    requires Signalled(p, ECPUBSIZE)
    ensures var f, c := LinkRequestMid(p), LinkRequestChunks(p);
      |f| == 5 && |c| == 3 && f[0] == F(X25519PublicField, FieldText(c[0]))
        && f[1] == F(Ed25519PublicField, FieldText(c[1]))
      && f[2] == F(SignallingField, FieldText(c[2]))
  {
    hide FieldText, PrintSignalling, OptionBytes;
    SignallingFields(Signalling(p, ECPUBSIZE));
  }

  lemma LinkRequestQuiet(p: seq<byte>)
    requires Signalled(p, ECPUBSIZE)
    ensures Quiet(LinkRequestMid(p)) && |LinkRequestMid(p)| == 5
  {
    hide FieldText, PrintSignalling, OptionBytes, Quiet;
    SignallingQuiet(Signalling(p, ECPUBSIZE));
    var lead := [F(X25519PublicField, FieldText(p[..32])), F(Ed25519PublicField, FieldText(p[32..64]))];
    QuietTwo(lead[0], lead[1]);
    QuietJoin(lead, PrintSignalling(Signalling(p, ECPUBSIZE)));
  }

  lemma LinkProofReturns(x: Crypto, b: seq<Blob>, f: seq<Field>)
    requires |b| == 3 && Readable(b[0]) && Readable(b[1]) && Readable(b[2]) && DumpLinkProof(x, b) == Printed(f)
    ensures Exact(LinkProof, b, f)
  {
    hide ParseHeader, PrintHeader, PrintFault, Exact, Prints, Flatten, Raw, Quiet, FieldText, PrintSignalling, LinkId,
      InvalidLength, BlobText, YesNo;
    LinkProofBefore(b);
    match ParseHeader(Raw(b[2]))
    case Err(e) =>
      FaultFails(LinkProof, b, e);
    case Ok(h) =>
      var p, signer := h.payload, Raw(b[1]);
      if !Signalled(p, 96) {
        LengthFails(LinkProof, b, [PayloadLengthField, AcceptedLengthField, SignalledLengthField], [|p|, 96, 99]);
      } else {
        HeaderLength(Raw(b[0]));
        var link_id := LinkId(x, Raw(b[0]), ParseHeader(Raw(b[0])).value);
        var signed_data := link_id + p[64..96] + signer[32..] + p[96..];
        var valid := YesNo(x.verify(signer[32..], p[..64], signed_data));
        var matches := YesNo(h.destination_hash == link_id);
        LinkProofPrints(p, link_id, matches);
        LinkProofQuiet(p, link_id, matches);
        LinkProofTail(signer[32..], signed_data, valid);
        var tail := [F(SignerEd25519Field, FieldText(signer[32..])), F(SignedDataField, FieldText(signed_data)),
                     F(SignatureValidField, valid)];
        Succeeds(LinkProof, b, h, LinkProofMid(p, link_id, matches), tail, [2, 3, 4], LinkProofChunks(p));
      }
  }

  lemma LinkProofTail(signer: seq<byte>, signed_data: seq<byte>, valid: string)
    ensures Quiet([F(SignerEd25519Field, FieldText(signer)), F(SignedDataField, FieldText(signed_data)),
                   F(SignatureValidField, valid)])
  {
    hide FieldText, IsRejection;
  }

  lemma LinkProofBefore(b: seq<Blob>)
    requires |b| == 3
    ensures Before(LinkProof, b) == [F(LinkRequestField, BlobText(b[0])), F(SignerPublicField, BlobText(b[1]))]
  {
    hide BlobText;
  }

  function LinkProofMid(p: seq<byte>, link_id: seq<byte>, matches: string): seq<Field>
    requires Signalled(p, 96)
  {
    [F(LinkIdField, FieldText(link_id)), F(LinkIdMatchField, matches), F(SignatureField, FieldText(p[..64])),
     F(X25519PublicField, FieldText(p[64..96]))] + PrintSignalling(Signalling(p, 96))
  }

  function LinkProofChunks(p: seq<byte>): seq<seq<byte>>
    requires Signalled(p, 96)
  {
    [p[..64], p[64..96], OptionBytes(Signalling(p, 96))]
  }

  lemma LinkProofPrints(p: seq<byte>, link_id: seq<byte>, matches: string)
    requires Signalled(p, 96)
    ensures Prints(LinkProofMid(p, link_id, matches), Packs(LinkProof).value, [2, 3, 4], LinkProofChunks(p))
    ensures Flatten(LinkProofChunks(p)) == p
  {
    hide *;
    LinkProofFlat(p);
    LinkProofFields(p, link_id, matches);
    LinkProofTable();
    PacksApart(LinkProof);
    PrintsRun(LinkProofMid(p, link_id, matches), 2, Packs(LinkProof).value, LinkProofChunks(p), [2, 3, 4]);
  }

  lemma LinkProofTable()
    ensures Packs(LinkProof) == Some([SignatureField, X25519PublicField, SignallingField])
  {
  }

  lemma LinkProofFlat(p: seq<byte>)
    requires Signalled(p, 96)
    ensures Flatten(LinkProofChunks(p)) == p
  {
    hide Flatten;
    var s := OptionBytes(Signalling(p, 96));
    Flatten3(p[..64], p[64..96], s);
    assert s == p[96..];
    assert p == p[..64] + (p[64..96] + p[96..]);
  }

  lemma LinkProofFields(p: seq<byte>, link_id: seq<byte>, matches: string)
    requires Signalled(p, 96)
    ensures var f, c := LinkProofMid(p, link_id, matches), LinkProofChunks(p);
      |f| == 7 && |c| == 3 && f[2] == F(SignatureField, FieldText(c[0]))
        && f[3] == F(X25519PublicField, FieldText(c[1]))
      && f[4] == F(SignallingField, FieldText(c[2])) && f[0].name == LinkIdField && f[1].name == LinkIdMatchField
  {
    hide FieldText, PrintSignalling, OptionBytes;
    SignallingFields(Signalling(p, 96));
  }

  lemma LinkProofQuiet(p: seq<byte>, link_id: seq<byte>, matches: string)
    requires Signalled(p, 96)
    ensures Quiet(LinkProofMid(p, link_id, matches)) && |LinkProofMid(p, link_id, matches)| == 7
  {
    hide FieldText, PrintSignalling, OptionBytes, Quiet;
    SignallingQuiet(Signalling(p, 96));
    var lead := [F(LinkIdField, FieldText(link_id)), F(LinkIdMatchField, matches), F(SignatureField,
      FieldText(p[..64])),
                 F(X25519PublicField, FieldText(p[64..96]))];
    QuietFour(lead[0], lead[1], lead[2], lead[3]);
    QuietJoin(lead, PrintSignalling(Signalling(p, 96)));
  }

  lemma QuietFour(a: Field, b: Field, c: Field, d: Field)
    requires a.name != InvalidField && b.name != InvalidField && c.name != InvalidField && d.name != InvalidField
    ensures Quiet([a, b, c, d]) && Quiet([a, b, c])
  {
  }

  // ---- packet proofs and resource proofs

  lemma ProofReturns(x: Crypto, b: seq<Blob>, f: seq<Field>)
    requires |b| == 3 && Readable(b[0]) && Readable(b[1]) && Readable(b[2]) && DumpProof(x, b) == Printed(f)
    ensures Exact(Proof, b, f)
  {
    hide ParseHeader, PrintHeader, PrintFault, Exact, Prints, Flatten, Raw, Quiet, FieldText, InvalidLength, BlobText,
      ProofRest;
    ProofBefore(b);
    QuietNothing();
    match ParseHeader(Raw(b[2]))
    case Err(e) =>
      FaultFails(Proof, b, e);
    case Ok(h) =>
      var p, k := h.payload, Raw(b[1]);
      if |p| != SIGLEN && |p| != 32 + SIGLEN {
        LengthFails(Proof, b, [PayloadLengthField, ImplicitLengthField, ExplicitLengthField], [|p|, SIGLEN,
          32 + SIGLEN]);
      } else {
        HeaderLength(Raw(b[0]));
        var mid := ProofRest(x, Raw(b[0]), ParseHeader(Raw(b[0])).value, h, k);
        ProofPrints(x, Raw(b[0]), ParseHeader(Raw(b[0])).value, h, k);
        ProofQuiet(x, Raw(b[0]), ParseHeader(Raw(b[0])).value, h, k);
        Succeeds(Proof, b, h, mid, [], [2, 6], ProofChunks(p));
        assert f == Before(Proof, b) + PrintHeader(h) + mid + [];
      }
  }

  lemma ProofBefore(b: seq<Blob>)
    requires |b| == 3
    ensures Before(Proof, b) == [F(ProvedPacketField, BlobText(b[0])), F(SignerPublicField, BlobText(b[1]))]
  {
    hide BlobText;
  }

  function ProofChunks(p: seq<byte>): seq<seq<byte>>
    requires |p| == SIGLEN || |p| == 32 + SIGLEN
  {
    if |p| == SIGLEN then [[], p] else [p[..32], p[32..]]
  }

  lemma ProofFlat(p: seq<byte>)
    requires |p| == SIGLEN || |p| == 32 + SIGLEN
    ensures Flatten(ProofChunks(p)) == p && |ProofChunks(p)| == 2
  {
    hide Flatten;
    if |p| == SIGLEN {
      Flatten2([], p);
      assert [] + p == p;
    } else {
      Flatten2(p[..32], p[32..]);
      assert p == p[..32] + p[32..];
    }
  }

  ghost predicate ProofInput(raw: seq<byte>, h: Header, k: seq<byte>) {
    |raw| >= 18 && (|h.payload| == SIGLEN || |h.payload| == 32 + SIGLEN)
    && |k| == (if h.DestinationType() == 3 then KEYHALF else KEYSIZE)
  }

  lemma ProofPrints(x: Crypto, raw: seq<byte>, ph: Header, h: Header, k: seq<byte>)
    requires ProofInput(raw, h, k)
    ensures Prints(ProofRest(x, raw, ph, h, k), Packs(Proof).value, [2, 6], ProofChunks(h.payload))
    ensures Flatten(ProofChunks(h.payload)) == h.payload
  {
    ProofFlat(h.payload);
    var f := ProofRest(x, raw, ph, h, k);
    ProofForm(x, raw, ph, h, k);
    ProofSignature(x, raw, ph, h, k);
    ProofTable();
    var names, at, c := Packs(Proof).value, [2, 6], ProofChunks(h.payload);
    hide *;
    PrintsTwo(f, names, at, c);
  }

  lemma ProofTable()
    ensures Packs(Proof) == Some([ProofHashField, SignatureField])
  {
  }

  lemma PrintsTwo(f: seq<Field>, names: seq<Name>, at: seq<nat>, c: seq<seq<byte>>)
    requires |names| == |at| == |c| == 2
    requires FirstAt(f, names[0], at[0]) && f[at[0]].value == FieldText(c[0])
    requires FirstAt(f, names[1], at[1]) && f[at[1]].value == FieldText(c[1])
    ensures Prints(f, names, at, c)
  {
    hide FieldText, FirstAt;
  }

  lemma ProofForm(x: Crypto, raw: seq<byte>, ph: Header, h: Header, k: seq<byte>)
    requires ProofInput(raw, h, k)
    ensures var f := ProofRest(x, raw, ph, h, k);
      FirstAt(f, ProofHashField, 2) && f[2].value == FieldText(ProofChunks(h.payload)[0])
  {
    hide YesNo, HashablePart, Hex;
  }

  lemma ProofSignature(x: Crypto, raw: seq<byte>, ph: Header, h: Header, k: seq<byte>)
    requires ProofInput(raw, h, k)
    ensures var f := ProofRest(x, raw, ph, h, k);
      FirstAt(f, SignatureField, 6) && f[6].value == FieldText(ProofChunks(h.payload)[1])
  {
    hide YesNo, HashablePart, FieldText;
  }

  lemma ProofQuiet(x: Crypto, raw: seq<byte>, ph: Header, h: Header, k: seq<byte>)
    requires ProofInput(raw, h, k)
    ensures Quiet(ProofRest(x, raw, ph, h, k)) && |ProofRest(x, raw, ph, h, k)| == 9
  {
    hide YesNo, HashablePart, FieldText, IsRejection;
  }

  lemma ResourceProofReturns(x: Crypto, b: seq<Blob>, f: seq<Field>)
    requires |b| == 2 && Readable(b[0]) && Readable(b[1]) && DumpResourceProof(x, b) == Printed(f)
    ensures Exact(ResourceProof, b, f)
  {
    hide ParseHeader, PrintHeader, PrintFault, Exact, Prints, Flatten, Raw, Quiet, FieldText, InvalidLength, BlobText,
      YesNo;
    ResourceProofBefore(b);
    match ParseHeader(Raw(b[1]))
    case Err(e) =>
      FaultFails(ResourceProof, b, e);
    case Ok(h) =>
      var p := h.payload;
      if |p| != 64 {
        ResourceProofStops(b, h);
      } else {
        var matches := F(HashMatchField, YesNo(p[..32] == Raw(b[0])));
        ResourceProofPrints(p, matches);
        QuietNothing();
        var mid := ResourceProofMid(p, matches);
        QuietFour(mid[0], mid[1], mid[2], mid[2]);
        Succeeds(ResourceProof, b, h, mid, [], [0, 1], [p[..32], p[32..]]);
        assert f == Before(ResourceProof, b) + PrintHeader(h) + mid + [];
      }
  }

  function ResourceProofMid(p: seq<byte>, matches: Field): seq<Field>
    requires |p| == 64
  {
    [F(ResourceHashField, FieldText(p[..32])), F(ResourceProofField, FieldText(p[32..])), matches]
  }

  lemma ResourceProofBefore(b: seq<Blob>)
    requires |b| == 2
    ensures Before(ResourceProof, b) == [F(AdvertisedHashField, BlobText(b[0]))]
  {
    hide BlobText;
  }

  lemma ResourceProofPrints(p: seq<byte>, matches: Field)
    requires |p| == 64 && matches.name == HashMatchField
    ensures Prints(ResourceProofMid(p, matches), Packs(ResourceProof).value, [0, 1], [p[..32], p[32..]])
    ensures Flatten([p[..32], p[32..]]) == p
  {
    hide *;
    Flatten2(p[..32], p[32..]);
    assert p == p[..32] + p[32..];
    ResourceProofFields(p, matches);
    ResourceProofTable();
    PrintsTwo(ResourceProofMid(p, matches), Packs(ResourceProof).value, [0, 1], [p[..32], p[32..]]);
  }

  lemma ResourceProofFields(p: seq<byte>, matches: Field)
    requires |p| == 64
    ensures var f := ResourceProofMid(p, matches);
      FirstAt(f, ResourceHashField, 0) && f[0].value == FieldText(p[..32])
      && FirstAt(f, ResourceProofField, 1) && f[1].value == FieldText(p[32..])
  {
    hide FieldText;
  }

  lemma ResourceProofTable()
    ensures Packs(ResourceProof) == Some([ResourceHashField, ResourceProofField])
  {
  }

  /** The one rejection that is printed after the header: the packed fields are missing. */
  lemma ResourceProofStops(b: seq<Blob>, h: Header)
    requires |b| == 2
    ensures Exact(ResourceProof, b, Before(ResourceProof, b) + PrintHeader(h)
                  + InvalidLength([PayloadLengthField, AcceptedLengthField], [|h.payload|, 64]))
  {
    hide *;
    EmitsShort(ResourceProof);
    var fault := InvalidLength([PayloadLengthField, AcceptedLengthField], [|h.payload|, 64]);
    var f := Before(ResourceProof, b) + PrintHeader(h) + fault;
    FaultShape(|h.payload|);
    ResourceProofBefore(b);
    QuietHeader(h);
    RejectedAt(f, 12);
    ResourceProofTable();
    ResourceHashMissing(Before(ResourceProof, b), h, fault);
    LacksLookup(f, ResourceHashField);
    PackMissing(ResourceProof, f);
    RebuildStops(ResourceProof, f);
    ExactRejected(ResourceProof, b, f);
  }

  lemma FaultShape(n: nat)
    ensures var f := InvalidLength([PayloadLengthField, AcceptedLengthField], [n, 64]);
      |f| == 3 && f[0] == F(InvalidField, "invalid-length") && f[1].name == PayloadLengthField
      && f[2].name == AcceptedLengthField
  {
    hide Dec;
  }

  lemma RejectedAt(f: seq<Field>, i: nat)
    requires i < |f| && f[i] == F(InvalidField, "invalid-length")
    ensures Rejected(f)
  {
  }

  lemma ResourceHashMissing(before: seq<Field>, h: Header, fault: seq<Field>)
    requires |before| == 1 && before[0].name == AdvertisedHashField
    requires |fault| == 3 && fault[0].name == InvalidField && fault[1].name == PayloadLengthField
    requires fault[2].name == AcceptedLengthField
    ensures Lacks(before + PrintHeader(h) + fault, ResourceHashField)
  {
    hide PrintHeader;
    HeaderLacks(h, ResourceHashField);
  }

  /** A layout stops when the first field it packs is missing. */
  lemma PackMissing(k: Kind, f: seq<Field>)
    requires Packs(k).Some? && Packs(k).value != [] && Lookup(f, Packs(k).value[0]) == None
    ensures LayoutLines(f, Layout(k)) == None
  {
    hide PutHeader, Lookup, Items, Emits, Packs;
    var start, rest := Run([], "", false), [Pack] + Items(Packs(k).value);
    WordsAppend(start, f, Items(Emits(k)), rest);
    WordsBefore(start, f, Emits(k));
    assert Layout(k) == Items(Emits(k)) + rest;
    var w := Words(start, f, Items(Emits(k)));
    if w.Run? {
      assert rest[0] == Pack && rest[1..] == Items(Packs(k).value);
      PackedMissing(Word(w, f, Pack), f, Packs(k).value);
    }
  }

  lemma PackedMissing(r: Run, f: seq<Field>, names: seq<Name>)
    requires names != [] && Lookup(f, names[0]) == None && (r.Run? ==> r.packing)
    ensures Words(r, f, Items(names)) == Stopped
  {
    hide Lookup;
    assert Items(names)[0] == Item(names[0]);
  }

  // ---- identities, key sets and destinations

  lemma RebuildPlain(k: Kind, b: seq<Blob>, f: seq<Field>)
    requires Packs(k) == None && |Emits(k)| == |b| && k != LinkData && |f| <= 40 && Quiet(f)
    requires forall i :: 0 <= i < |b| ==> Lookup(f, Emits(k)[i]) == Some(Line(b[i]))
    ensures Exact(k, b, f)
  {
    assert Layout(k) == Items(Emits(k)) + [];
    hide *;
    LinesLength(b);
    forall i | 0 <= i < |Emits(k)| ensures Lookup(f, Emits(k)[i]) == Some(Lines(b)[i]) {
      LineAt(b, i);
    }
    PlainLines(f, Emits(k), Lines(b));
    RebuildLayout(k, b, f);
    QuietExact(k, b, f);
  }

  lemma RebuildLayout(k: Kind, b: seq<Blob>, f: seq<Field>)
    requires k != LinkData && LayoutLines(f, Layout(k)) == Some(Lines(b))
    ensures Returns(k, b, f)
  {
    hide LayoutLines, Layout, Lines;
  }

  lemma IdentityReturns(x: Crypto, b: seq<Blob>, f: seq<Field>)
    requires |b| == 1 && Readable(b[0]) && DumpIdentity(x, b) == Printed(f)
    ensures Exact(Kind.Identity, b, f)
  {
    hide FieldText, Exact, Decode.Identity, IsRejection, Line, Readable;
    BlobLine(b[0]);
    assert f[0] == F(PublicKeyField, FieldText(Raw(b[0])));
    RebuildPlain(Kind.Identity, b, f);
  }

  lemma KeysetReturns(x: Crypto, b: seq<Blob>, f: seq<Field>)
    requires |b| == 1 && Readable(b[0]) && DumpKeyset(x, b) == Printed(f)
    ensures Exact(Keyset, b, f)
  {
    hide FieldText, Exact, Decode.Identity, IsRejection, Line, Readable, Cut;
    BlobLine(b[0]);
    assert f[0] == F(PrivateKeyField, FieldText(Raw(b[0])));
    RebuildPlain(Keyset, b, f);
  }

  /** A destination comes back exactly when its name has at most 35 aspects; a longer field list is not read. */
  lemma DestinationReturns(x: Crypto, b: seq<Blob>, f: seq<Field>)
    requires |b| == 2 && Readable(b[0]) && Readable(b[1]) && DumpDestination(x, b) == Printed(f)
    ensures Rebuild(Destination, f) == if Dots(Raw(b[0])) <= 35 then Some(Lines(b)) else None
  {
    hide *;
    DestinationFields(x, b, f);
    if |f| <= 40 {
      DestinationRebuilt(b, f, 2 + |Components(Raw(b[0]), true)|);
    } else {
      TooMany(Destination, f);
    }
  }

  lemma DestinationRebuilt(b: seq<Blob>, f: seq<Field>, i: nat)
    requires |b| == 2 && 0 < i < |f| <= 40 && f[0] == F(NameField, Line(b[0]))
      && f[i] == F(IdentityHashField, Line(b[1]))
    requires forall j :: 0 <= j < i ==> f[j].name != IdentityHashField
    requires forall j :: 0 <= j < |f| ==> f[j].name != InvalidField
    ensures Rebuild(Destination, f) == Some(Lines(b))
  {
    assert Packs(Destination) == None && Emits(Destination) == [NameField, IdentityHashField];
    assert !Rejected(f);
    hide *;
    QuietNames(f);
    LookupAt(f, NameField, 0);
    LookupAt(f, IdentityHashField, i);
    RebuildPlain(Destination, b, f);
    ExactMeans(Destination, b, f);
  }

  lemma TooMany(k: Kind, f: seq<Field>)
    requires |f| > 40
    ensures Rebuild(k, f) == None
  {
    hide LinkDataLines, LayoutLines;
  }

  lemma DestinationFields(x: Crypto, b: seq<Blob>, f: seq<Field>)
    requires |b| == 2 && Readable(b[0]) && Readable(b[1]) && DumpDestination(x, b) == Printed(f)
    ensures |f| == Dots(Raw(b[0])) + 5 && f[0] == F(NameField, Line(b[0]))
    ensures var i := 2 + |Components(Raw(b[0]), true)|;
      i < |f| && f[i] == F(IdentityHashField, Line(b[1])) && forall j :: 0 <= j < i ==> f[j].name != IdentityHashField
    ensures forall j :: 0 <= j < |f| ==> f[j].name != InvalidField
  {
    hide FieldText, Line, Readable, BlobText, Raw, Components, Dots;
    BlobLine(b[0]);
    BlobLine(b[1]);
    var parts := Components(Raw(b[0]), true);
    var i := 2 + |parts|;
    forall j | 0 <= j < |f| ensures f[j].name != InvalidField && (j < i ==> f[j].name != IdentityHashField) {
      if 1 <= j <= |parts| {
        assert f[j] == parts[j - 1];
      }
    }
  }

  lemma ExactMeans(k: Kind, b: seq<Blob>, f: seq<Field>)
    requires Exact(k, b, f) && !Rejected(f)
    ensures Rebuild(k, f) == Some(Lines(b))
  {
    hide Rejected, Rebuild, Lines;
  }

  // ---- linkdata

  lemma LinkDataBefore(b: seq<Blob>)
    requires |b| == 3
    ensures Before(LinkData, b) == [F(LinkRequestField, BlobText(b[0])), F(ResponderPrivateField, BlobText(b[1]))]
    ensures Emits(LinkData) == [LinkRequestField, ResponderPrivateField] && Packs(LinkData) == Some([])
  {
    hide BlobText;
  }

  /** The fields encode_linkdata packs. */
  function Carried(encrypted: string): seq<Name> {
    if encrypted == "no" then [PlaintextField] else [IvField, CiphertextField, HmacField]
  }

  /** Whatever else is printed, a linkdata packet comes back from its header and the fields it was carried in. */
  lemma LinkDataSucceeds(b: seq<Blob>, h: Header, mid: seq<Field>, tail: seq<Field>, e: string, at: seq<nat>,
                         chunks: seq<seq<byte>>)
    requires |b| == 3 && Readable(b[0]) && Readable(b[1]) && Readable(b[2]) && ParseHeader(Raw(b[2])) == Ok(h)
    requires FirstAt(mid, EncryptedField, 2) && mid[2].value == e
    requires Prints(mid, Carried(e), at, chunks) && Flatten(chunks) == h.payload
    requires Quiet(mid) && Quiet(tail) && |mid| + |tail| <= 27
    ensures Exact(LinkData, b, Before(LinkData, b) + PrintHeader(h) + mid + tail)
  {
    hide *;
    LinkDataBefore(b);
    var f := Before(LinkData, b) + PrintHeader(h) + mid + tail;
    ShowsAll(LinkData, b, h, mid, tail);
    EmitShown(LinkData, b, h, mid, tail, 0);
    EmitShown(LinkData, b, h, mid, tail, 1);
    EncryptedShown(b, h, mid, tail);
    CarriedHolds(b, h, mid, tail, e, at, chunks);
    PacketRebuilt(f, Raw(b[2]), h, Carried(e), chunks) by { LastIsData(b[2], h); }
    LastIsData(b[2], h);
    LinkDataBuilt(f, b, h, e);
    RebuildLinkData(b, f);
    QuietBefore(LinkData, b);
    QuietHeader(h);
    QuietJoin(Before(LinkData, b), PrintHeader(h));
    QuietJoin(Before(LinkData, b) + PrintHeader(h), mid);
    QuietJoin(Before(LinkData, b) + PrintHeader(h) + mid, tail);
    QuietExact(LinkData, b, f);
  }

  lemma EncryptedShown(b: seq<Blob>, h: Header, mid: seq<Field>, tail: seq<Field>)
    requires |b| == 3 && FirstAt(mid, EncryptedField, 2) && |Emits(LinkData)| <= 3
    ensures Lookup(Before(LinkData, b) + PrintHeader(h) + mid + tail, EncryptedField) == Some(mid[2].value)
  {
    hide PrintHeader, Lookup, BlobText;
    LinkDataBefore(b);
    ShownAfter(Before(LinkData, b), h, mid, tail, EncryptedField, 2);
  }

  lemma CarriedApart(e: string, i: nat)
    requires i < |Carried(e)|
    ensures !HeaderName(Carried(e)[i]) && Carried(e)[i] != LinkRequestField && Carried(e)[i] != ResponderPrivateField
  {
  }

  lemma CarriedHolds(b: seq<Blob>, h: Header, mid: seq<Field>, tail: seq<Field>, e: string, at: seq<nat>,
                     chunks: seq<seq<byte>>)
    requires |b| == 3 && |Emits(LinkData)| <= 3 && Prints(mid, Carried(e), at, chunks)
    ensures Holds(Before(LinkData, b) + PrintHeader(h) + mid + tail, Carried(e), chunks)
  {
    hide *;
    LinkDataBefore(b);
    var f := Before(LinkData, b) + PrintHeader(h) + mid + tail;
    PrintsLengths(mid, Carried(e), at, chunks);
    forall i | 0 <= i < |Carried(e)| ensures Lookup(f, Carried(e)[i]) == Some(FieldText(chunks[i])) {
      CarriedApart(e, i);
      TwoLack(Before(LinkData, b), Carried(e)[i]);
      PrintsAt(mid, Carried(e), at, chunks, i);
      ShownAfter(Before(LinkData, b), h, mid, tail, Carried(e)[i], at[i]);
    }
    HoldsAll(f, Carried(e), chunks);
  }

  lemma TwoLack(f: seq<Field>, name: Name)
    requires |f| == 2 && f[0].name != name && f[1].name != name
    ensures Lacks(f, name)
  {
  }

  lemma LinkDataBuilt(f: seq<Field>, b: seq<Blob>, h: Header, e: string)
    requires |b| == 3 && Readable(b[0]) && Readable(b[1]) && Line(b[2]) == Hex(Raw(b[2]))
    requires Lookup(f, LinkRequestField) == Some(BlobText(b[0]))
      && Lookup(f, ResponderPrivateField) == Some(BlobText(b[1]))
    requires Lookup(f, EncryptedField) == Some(e) && PutHeader("", f) == Some(Hex(HeaderBytes(h)))
    requires PutFields(Hex(HeaderBytes(h)), f, Carried(e)) == Some(Hex(Raw(b[2])))
    ensures LinkDataLines(f) == Some(Lines(b))
  {
    hide Lookup, PutHeader, PutFields, Hex, HeaderBytes, Line, Raw, Readable, BlobText;
    BlobLine(b[0]);
    BlobLine(b[1]);
    assert Lines(b) == [Line(b[0]), Line(b[1]), Line(b[2])];
  }

  lemma RebuildLinkData(b: seq<Blob>, f: seq<Field>)
    requires LinkDataLines(f) == Some(Lines(b))
    ensures Returns(LinkData, b, f)
  {
    hide LinkDataLines, Lines;
  }

  lemma LinkDataReturns(x: Crypto, b: seq<Blob>, f: seq<Field>)
    requires |b| == 3 && Readable(b[0]) && Readable(b[1]) && Readable(b[2]) && DumpLinkData(x, b) == Printed(f)
    ensures Exact(LinkData, b, f)
  {
    hide ParseHeader, PrintHeader, PrintFault, Exact, Prints, Flatten, Raw, Quiet, FieldText, PrintToken, BlobText,
      LinkDataRest, LinkId, Cut, YesNo, FirstAt, Dec;
    LinkDataBefore(b);
    QuietNothing();
    match ParseHeader(Raw(b[2]))
    case Err(e) =>
      FaultFails(LinkData, b, e);
    case Ok(h) =>
      HeaderLength(Raw(b[0]));
      var p, rh := h.payload, ParseHeader(Raw(b[0])).value;
      var link_id := LinkId(x, Raw(b[0]), rh);
      var matches := YesNo(h.destination_hash == link_id);
      if h.context == 0x01 || h.context == 0xfa {
        ClearPrints(p, link_id, matches);
        LinkDataSucceeds(b, h, ClearMid(p, link_id, matches), [], "no", [4], [p]);
        assert f == Before(LinkData, b) + PrintHeader(h) + ClearMid(p, link_id, matches) + [];
      } else if |p| < TOKEN_OVERHEAD {
        LinkDataShort(b, h, link_id, matches);
      } else {
        var shared := x.agree(Raw(b[1]), Cut(rh.payload, 0, 32));
        SealedPrints(p, link_id, matches);
        RestQuiet(x, h, link_id, shared);
        LinkDataSucceeds(b, h, SealedMid(p, link_id, matches), LinkDataRest(x, h, link_id, shared), "yes", [3, 4, 5],
                         GroupChunks(p));
      }
  }

  function About(link_id: seq<byte>, matches: string, e: string): seq<Field> {
    [F(LinkIdField, FieldText(link_id)), F(LinkIdMatchField, matches)] + [F(EncryptedField, e)]
  }

  function ClearMid(p: seq<byte>, link_id: seq<byte>, matches: string): seq<Field> {
    [F(LinkIdField, FieldText(link_id)), F(LinkIdMatchField, matches)]
      + [F(EncryptedField, "no"), F(PlaintextLengthField, Dec(|p|)), F(PlaintextField, FieldText(p))]
  }

  function SealedMid(p: seq<byte>, link_id: seq<byte>, matches: string): seq<Field>
    requires |p| >= TOKEN_OVERHEAD
  {
    About(link_id, matches, "yes") + PrintToken(p)
  }

  lemma ClearFields(p: seq<byte>, link_id: seq<byte>, matches: string)
    ensures var f := ClearMid(p, link_id, matches);
      |f| == 5 && f[0].name == LinkIdField && f[1].name == LinkIdMatchField && f[2] == F(EncryptedField, "no")
      && f[3].name == PlaintextLengthField && f[4] == F(PlaintextField, FieldText(p))
  {
    hide FieldText, Dec;
  }

  lemma ClearPrints(p: seq<byte>, link_id: seq<byte>, matches: string)
    ensures var mid := ClearMid(p, link_id, matches);
      |mid| == 5 && FirstAt(mid, EncryptedField, 2) && mid[2].value == "no" && Quiet(mid)
      && Prints(mid, Carried("no"), [4], [p]) && Flatten([p]) == p
  {
    hide *;
    var mid := ClearMid(p, link_id, matches);
    ClearFields(p, link_id, matches);
    Flatten1(p);
    CarriedNames();
    QuietNames(mid);
    ThirdFirst(mid);
    PrintsRun(mid, 4, Carried("no"), [p], [4]);
  }

  lemma CarriedNames()
    ensures Carried("no") == [PlaintextField] && Carried("yes") == [IvField, CiphertextField, HmacField]
    ensures Apart(Carried("no")) && Apart(Carried("yes"))
  {
  }

  lemma ThirdFirst(f: seq<Field>)
    requires |f| >= 3 && f[0].name == LinkIdField && f[1].name == LinkIdMatchField && f[2].name == EncryptedField
    ensures FirstAt(f, EncryptedField, 2)
  {
  }

  lemma SealedFields(p: seq<byte>, link_id: seq<byte>, matches: string)
    requires |p| >= TOKEN_OVERHEAD
    ensures var f, c := SealedMid(p, link_id, matches), GroupChunks(p);
      |f| == 6 && |c| == 3 && f[0].name == LinkIdField && f[1].name == LinkIdMatchField
        && f[2] == F(EncryptedField, "yes")
      && f[3] == F(IvField, FieldText(c[0])) && f[4] == F(CiphertextField, FieldText(c[1]))
      && f[5] == F(HmacField, FieldText(c[2]))
  {
    hide FieldText, PrintToken, GroupChunks;
    TokenFields(p);
  }

  lemma SealedPrints(p: seq<byte>, link_id: seq<byte>, matches: string)
    requires |p| >= TOKEN_OVERHEAD
    ensures var mid := SealedMid(p, link_id, matches);
      |mid| == 6 && FirstAt(mid, EncryptedField, 2) && mid[2].value == "yes" && Quiet(mid)
      && Prints(mid, Carried("yes"), [3, 4, 5], GroupChunks(p)) && Flatten(GroupChunks(p)) == p
  {
    hide *;
    var mid := SealedMid(p, link_id, matches);
    SealedFields(p, link_id, matches);
    TokenFlat(p);
    CarriedNames();
    QuietNames(mid);
    ThirdFirst(mid);
    PrintsRun(mid, 3, Carried("yes"), GroupChunks(p), [3, 4, 5]);
  }

  /** The one rejection a linkdata packet prints after its header: nothing it was carried in follows. */
  lemma LinkDataShort(b: seq<Blob>, h: Header, link_id: seq<byte>, matches: string)
    requires |b| == 3
    ensures Exact(LinkData, b, Before(LinkData, b) + PrintHeader(h) + About(link_id, matches, "yes")
                  + PrintFault(ShortPayload(|h.payload|, TOKEN_OVERHEAD)))
  {
    var fault := PrintFault(ShortPayload(|h.payload|, TOKEN_OVERHEAD));
    ShortShape(|h.payload|);
    hide *;
    LinkDataBefore(b);
    var f := Before(LinkData, b) + PrintHeader(h) + About(link_id, matches, "yes") + fault;
    AboutNames(link_id, matches, "yes");
    QuietHeader(h);
    RejectedFault(f, 16);
    EncryptedShown(b, h, About(link_id, matches, "yes"), fault);
    IvMissing(Before(LinkData, b), h, About(link_id, matches, "yes"), fault);
    LacksLookup(f, IvField);
    CarriedMissing(f);
    RebuildStops(LinkData, f);
    ExactRejected(LinkData, b, f);
  }

  lemma ShortShape(n: nat)
    ensures var f := PrintFault(ShortPayload(n, TOKEN_OVERHEAD));
      |f| == 3 && f[0] == F(InvalidField, "short-payload") && f[1].name == PayloadLengthField
      && f[2].name == MinimumLengthField
  {
    hide Dec;
  }

  lemma RejectedFault(f: seq<Field>, i: nat)
    requires i < |f| && f[i] == F(InvalidField, "short-payload")
    ensures Rejected(f)
  {
  }

  lemma AboutNames(link_id: seq<byte>, matches: string, e: string)
    ensures var f := About(link_id, matches, e);
      |f| == 3 && f[0].name == LinkIdField && f[1].name == LinkIdMatchField && f[2] == F(EncryptedField, e)
      && FirstAt(f, EncryptedField, 2)
  {
    hide FieldText;
  }

  lemma IvMissing(before: seq<Field>, h: Header, about: seq<Field>, fault: seq<Field>)
    requires |before| == 2 && before[0].name == LinkRequestField && before[1].name == ResponderPrivateField
    requires |about| == 3 && about[0].name == LinkIdField && about[1].name == LinkIdMatchField
    requires about[2].name == EncryptedField
    requires |fault| == 3 && fault[0].name == InvalidField && fault[1].name == PayloadLengthField
    requires fault[2].name == MinimumLengthField
    ensures Lacks(before + PrintHeader(h) + about + fault, IvField)
  {
    hide *;
    NotInHeader();
    HeaderLacks(h, IvField);
    TwoLack(before, IvField);
    ThreeLack(about, IvField);
    ThreeLack(fault, IvField);
    LacksJoin(before, PrintHeader(h), IvField);
    LacksJoin(before + PrintHeader(h), about, IvField);
    LacksJoin(before + PrintHeader(h) + about, fault, IvField);
  }

  lemma ThreeLack(f: seq<Field>, name: Name)
    requires |f| == 3 && f[0].name != name && f[1].name != name && f[2].name != name
    ensures Lacks(f, name)
  {
  }

  lemma LacksJoin(f: seq<Field>, g: seq<Field>, name: Name)
    requires Lacks(f, name) && Lacks(g, name)
    ensures Lacks(f + g, name)
  {
  }

  lemma CarriedMissing(f: seq<Field>)
    requires Lookup(f, EncryptedField) == Some("yes") && Lookup(f, IvField) == None
    ensures LinkDataLines(f) == None
  {
    hide Lookup, PutHeader;
    assert forall o :: PutField(o, f, IvField) == None;
  }

  // ---- what a link packet says once opened

  lemma RestQuiet(x: Crypto, h: Header, link_id: seq<byte>, shared: Option<seq<byte>>)
    ensures Quiet(LinkDataRest(x, h, link_id, shared)) && |LinkDataRest(x, h, link_id, shared)| <= 17
  {
    hide PrintKeys, PrintPlaintext, PrintOpened, OpenToken, Quiet;
    var derived := if shared == None then [] else x.derive(shared.value, link_id);
    var key := if shared == None then None else Some(derived);
    var plain := OpenToken(x, key, h.payload).1;
    var said := if plain == None then [] else PrintOpened(x, h.context, link_id, plain.value);
    KeysQuiet(shared, derived);
    PlaintextQuiet(x, key, h.payload);
    QuietNothing();
    if plain != None {
      OpenedQuiet(x, h.context, link_id, plain.value);
    }
    QuietJoin(PrintKeys(shared, derived), PrintPlaintext(x, key, h.payload));
    QuietJoin(PrintKeys(shared, derived) + PrintPlaintext(x, key, h.payload), said);
  }

  lemma OpenedQuiet(x: Crypto, context: byte, link_id: seq<byte>, p: seq<byte>)
    ensures Quiet(PrintOpened(x, context, link_id, p)) && |PrintOpened(x, context, link_id, p)| <= 11
  {
    hide PrintResource, ShortPlaintext, NamedReadings, Quiet, FieldText, Dec, Decode.Identity, YesNo;
    ShortPlaintextQuiet(1);
    ShortPlaintextQuiet(6);
    if context == 0x0e {
      if |p| >= 6 {
        var f := PrintOpened(x, context, link_id, p);
        QuietFour(f[0], f[1], f[2], f[3]);
        assert f == [f[0], f[1], f[2], f[3]];
      }
    } else if context == 0x09 {
      if |p| >= 1 {
        NamedQuiet([RequestTimeField, RequestPathHashField, RequestDataField],
                   Advert.ReadArrayBody([Advert.DoubleKind, Advert.BinKind, Advert.BinKind], p));
      }
    } else if context == 0x0a {
      if |p| >= 1 {
        NamedQuiet([RequestIdField, ResponseDataField], Advert.ReadArrayBody([Advert.BinKind, Advert.BinKind], p));
      }
    } else if context == 0xfb {
      IdentifyQuiet(x, link_id, p);
    } else {
      ResourceQuiet(context, p);
    }
  }

  lemma ShortPlaintextQuiet(need: nat)
    ensures Quiet(ShortPlaintext(need)) && |ShortPlaintext(need)| == 2
  {
    hide Dec;
  }

  lemma NamedQuiet(names: seq<Name>, rs: seq<Advert.Reading>)
    requires |names| == |rs| && InvalidField !in names
    ensures Quiet(NamedReadings(names, rs)) && |NamedReadings(names, rs)| == |names|
  {
    hide *;
    QuietNames(NamedReadings(names, rs));
  }

  lemma IdentifyQuiet(x: Crypto, link_id: seq<byte>, p: seq<byte>)
    ensures Quiet(PrintOpened(x, 0xfb, link_id, p)) && |PrintOpened(x, 0xfb, link_id, p)| <= 4
  {
    hide PrintResource, ShortPlaintext, NamedReadings, FieldText, Dec, Decode.Identity, YesNo;
  }

  lemma ResourceQuiet(context: byte, p: seq<byte>)
    ensures Quiet(PrintResource(context, p)) && |PrintResource(context, p)| <= 11
  {
    hide ShortPlaintext, NamedReadings, Quiet, FieldText, YesNo;
    QuietNothing();
    if context == 0x02 {
      NamedQuiet(ADVERT_NAMES, Advert.Advertisement(p));
    } else if context == 0x03 {
      ShortPlaintextQuiet(1);
      ShortPlaintextQuiet(33);
      ShortPlaintextQuiet(37);
      if |p| >= 1 && |p| >= (if p[0] == 0xff then 37 else 33) {
        var f := PrintResource(context, p);
        QuietFour(f[0], f[1], f[2], f[3]);
        assert f == [f[0], f[1], f[2], f[3]];
      }
    } else if context == 0x04 {
      ShortPlaintextQuiet(33);
      if |p| >= 33 {
        var body := Advert.ReadArrayBody([Advert.UintKind, Advert.BinKind], p[32..]);
        NamedQuiet([SegmentIndexField, HashmapField], body);
        QuietTwo(F(ResourceHashField, FieldText(p[..32])), F(TagField, ""));
        QuietJoin([F(ResourceHashField, FieldText(p[..32]))], NamedReadings([SegmentIndexField, HashmapField], body));
      }
    } else {
      QuietTwo(F(ResourceHashField, FieldText(p)), F(TagField, ""));
    }
  }

  // ---- every kind

  /** The encode class, for every kind that has one and every line it can read: the encoder run on the printed
      fields gives back every line byte for byte, or stops, and it stops exactly when the decoder rejected the
      packet or a destination has more than 35 aspects. */
  lemma EncodeClass(k: Kind, x: Crypto, b: seq<Blob>, f: seq<Field>)
    requires |b| == Blobs(k) && forall i :: 0 <= i < |b| ==> Readable(b[i])
    requires Decoder(k, x, b) == Printed(f)
    ensures Rebuild(k, f) ==
      if Rejected(f) || (k == Destination && Dots(Raw(b[0])) > 35) then None else Some(Lines(b))
  {
    hide Rejected, Rebuild, Lines, Readable, Dots, Raw, DumpIdentity, DumpKeyset, DumpDestination, DumpAnnounce,
      DumpPlain, DumpPathRequest, DumpEncrypted, DumpGroup, DumpLinkRequest, DumpLinkProof, DumpLinkData, DumpProof,
      DumpResourceProof;
    match k
    case Identity => IdentityReturns(x, b, f);
    case Keyset => KeysetReturns(x, b, f);
    case Destination =>
      DestinationReturns(x, b, f);
      DestinationQuiet(x, b, f);
    case Announce => AnnounceReturns(x, b, f);
    case Plain => PlainReturns(x, b, f);
    case PathRequest => PathRequestReturns(x, b, f);
    case Encrypted => EncryptedReturns(x, b, f);
    case Group => GroupReturns(x, b, f);
    case LinkRequest => LinkRequestReturns(x, b, f);
    case LinkProof => LinkProofReturns(x, b, f);
    case LinkData => LinkDataReturns(x, b, f);
    case Proof => ProofReturns(x, b, f);
    case ResourceProof => ResourceProofReturns(x, b, f);
  }

  lemma DestinationQuiet(x: Crypto, b: seq<Blob>, f: seq<Field>)
    requires |b| == 2 && DumpDestination(x, b) == Printed(f)
    ensures !Rejected(f)
  {
    hide FieldText, BlobText, Raw, Components, Dots, IsRejection;
    var parts := Components(Raw(b[0]), true);
    forall j | 0 <= j < |f| ensures f[j].name != InvalidField {
      if 1 <= j <= |parts| {
        assert f[j] == parts[j - 1];
      }
    }
  }
}
