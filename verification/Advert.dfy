/** print_resource: array bodies read in order, and the advertisement read by key. */
module Advert {
  import opened Arith
  import opened Wrappers
  import opened BigEndian
  import opened Msgpack
  import opened Cursor

  /** A printed field: what was read, or that it was never reached. An empty string prints as a dash too. */
  datatype Reading = Unread | Number(n: nat) | Octets(s: seq<byte>)

  datatype Kind = UintKind | BinKind | DoubleKind

  function OctetsOf(p: Option<seq<byte>>): Reading {
    match p
    case None => Octets([])
    case Some(s) => Octets(s)
  }

  /** mp_field_uint, mp_field_bin and mp_field_double: the value when the read succeeded. */
  function ReadField(kind: Kind, c: Cur): (Cur, Reading) {
    match kind
    case UintKind => var (d, v) := Uint(c); (d, if d.bad then Unread else Number(v))
    case BinKind => var (d, p) := Bin(c); (d, if d.bad then Unread else OctetsOf(p))
    case DoubleKind => var (d, p) := Double(c); (d, if d.bad then Unread else OctetsOf(p))
  }

  // ---- arrays: request, response and hashmap update

  function ReadFields(kinds: seq<Kind>, c: Cur): (r: seq<Reading>)
    ensures |r| == |kinds|
  {
    if kinds == [] then []
    else
      var (d, v) := ReadField(kinds[0], c);
      [v] + ReadFields(kinds[1..], d)
  }

  /** A short array of exactly the expected length, or nothing. */
  function ReadArrayBody(kinds: seq<Kind>, s: seq<byte>): (r: seq<Reading>)
    ensures |r| == |kinds|
  {
    var (c, n) := ArrayHead(Cur(s, false));
    ReadFields(kinds, if n != |kinds| then Bad(c) else c)
  }

  /** The cursor after n values. */
  function SkipN(c: Cur, n: nat): Cur
    decreases n
  {
    if n == 0 then c else SkipN(Skip(c), n - 1)
  }

  lemma FieldsStep(kinds: seq<Kind>, c: Cur)
    requires kinds != []
    ensures ReadFields(kinds, c) == [ReadField(kinds[0], c).1] + ReadFields(kinds[1..], ReadField(kinds[0], c).0)
  {
    hide ReadField;
  }

  /** One typed read: bad exactly when nothing is printed, and otherwise the cursor has skipped the value. */
  lemma FieldSkips(kind: Kind, c: Cur)
    ensures var (d, v) := ReadField(kind, c); (v == Unread <==> d.bad) && (!d.bad ==> d == Skip(c))
  {
    TypedReadsSkip(c);
    hide Uint, Bin, Double, Skip;
  }

  lemma SkipNStep(c: Cur, i: nat)
    ensures SkipN(c, 0) == c && SkipN(c, i + 1) == SkipN(Skip(c), i)
  {
    hide Skip;
  }

  /** The fields of an array are a run of values read in turn, then dashes to the end: none is skipped and
      none is read after a failure. */
  lemma {:induction false} RunThenDashes(kinds: seq<Kind>, c: Cur) returns (k: nat)
    ensures k <= |kinds|
    ensures forall i :: 0 <= i < |kinds| ==> (ReadFields(kinds, c)[i] == Unread <==> k <= i)
    ensures forall i :: 0 <= i < k ==> ReadFields(kinds, c)[i] == ReadField(kinds[i], SkipN(c, i)).1
    ensures k < |kinds| ==> ReadField(kinds[k], SkipN(c, k)).0.bad
  {
    hide *;
    if kinds == [] {
      k := 0;
    } else {
      var d, v := ReadField(kinds[0], c).0, ReadField(kinds[0], c).1;
      FieldsStep(kinds, c);
      FieldSkips(kinds[0], c);
      SkipNStep(c, 0);
      if d.bad {
        AllUnread(kinds[1..], d);
        k := 0;
      } else {
        var tail := RunThenDashes(kinds[1..], d);
        k := tail + 1;
        SkipNStep(c, tail);
        forall i | 0 < i < k ensures ReadFields(kinds, c)[i] == ReadField(kinds[i], SkipN(c, i)).1 {
          assert ReadFields(kinds, c)[i] == ReadFields(kinds[1..], d)[i - 1];
          SkipNStep(c, i - 1);
        }
      }
    }
  }

  lemma {:induction false} AllUnread(kinds: seq<Kind>, c: Cur)
    requires c.bad
    ensures forall i :: 0 <= i < |kinds| ==> ReadFields(kinds, c)[i] == Unread
  {
    if kinds != [] {
      BadIsSticky(c);
      AllUnread(kinds[1..], c);
    }
  }

  method PrintField(m: Mp, kind: Kind) returns (v: Reading)
    requires m.Valid()
    modifies m
    ensures m.Valid() && (m.Now(), v) == ReadField(kind, old(m.Now()))
  {
    match kind {
      case UintKind =>
        var n := m.ReadUint();
        v := if m.bad then Unread else Number(n);
      case BinKind =>
        var p := m.ReadBin();
        v := if m.bad then Unread else OctetsOf(p);
      case DoubleKind =>
        var p := m.ReadDouble();
        v := if m.bad then Unread else OctetsOf(p);
    }
  }

  /** The array bodies of a request, a response and a hashmap update. */
  method PrintArray(kinds: seq<Kind>, s: seq<byte>) returns (r: seq<Reading>)
    ensures r == ReadArrayBody(kinds, s)
  {
    var m := new Mp(s);
    var n := m.ReadArray();
    if n != |kinds| {
      m.bad := true;
    }
    ghost var c := m.Now();
    r := [];
    for i := 0 to |kinds|
      invariant m.Valid() && fresh(m)
      invariant r + ReadFields(kinds[i..], m.Now()) == ReadFields(kinds, c)
    {
      assert kinds[i..][1..] == kinds[i + 1..];
      ghost var before := r;
      var v := PrintField(m, kinds[i]);
      r := r + [v];
      assert r + ReadFields(kinds[i + 1..], m.Now()) == before + ([v] + ReadFields(kinds[i + 1..], m.Now()));
    }
    assert r + [] == r;
  }

  // ---- the advertisement

  function KindOf(j: nat): Kind {
    if j in {0, 1, 2, 6, 7, 9} then UintKind else BinKind
  }

  /** The place of a key among the eleven names t d n h r o i l q f m, in the printed order, or -1. */
  function Slot(key: byte): int {
    if key == 0x74 then 0 else if key == 0x64 then 1 else if key == 0x6e then 2
    else if key == 0x68 then 3 else if key == 0x72 then 4 else if key == 0x6f then 5
    else if key == 0x69 then 6 else if key == 0x6c then 7 else if key == 0x71 then 8
    else if key == 0x66 then 9 else if key == 0x6d then 10 else -1
  }

  type Table = t: seq<Cur> | |t| == 11 witness seq(11, _ => Cur([], true))

  function Nothing(): Table {
    seq(11, _ => Cur([], true))
  }

  function Store(table: Table, key: byte, c: Cur): Table {
    if Slot(key) >= 0 then table[Slot(key) := Cur(c.rest, false)] else table
  }

  function Repeats(table: Table, key: byte): bool {
    Slot(key) >= 0 && !table[Slot(key)].bad
  }

  /** What the loop over the pairs carries: the cursor, where each value starts, and whether a name came twice. */
  datatype Located = Located(c: Cur, table: Table, twice: bool)

  /** One pair. */
  function Locate(l: Located): Located {
    var (c1, key) := Key(l.c);
    Located(Skip(c1), Store(l.table, key, c1), l.twice || Repeats(l.table, key))
  }

  function Scan(l: Located, pairs: nat): Located
    decreases pairs
  {
    if pairs == 0 || l.c.bad then l else Scan(Locate(l), pairs - 1)
  }

  function FieldsFrom(table: Table, nothing: bool): (r: seq<Reading>)
    ensures |r| == 11
  {
    seq(11, j requires 0 <= j < 11 => ReadField(KindOf(j), if nothing then Bad(table[j]) else table[j]).1)
  }

  /** The eleven fields of an advertisement's plaintext. */
  function Advertisement(s: seq<byte>): (r: seq<Reading>)
    ensures |r| == 11
  {
    var (c, pairs) := MapHead(Cur(s, false));
    var l := Scan(Located(c, Nothing(), false), pairs);
    FieldsFrom(l.table, l.twice || l.c.bad)
  }

  const DASHES: seq<Reading> := seq(11, _ => Unread)

  lemma NothingReadsAsDashes(table: Table)
    ensures FieldsFrom(table, true) == DASHES
  {
    forall j | 0 <= j < 11 ensures FieldsFrom(table, true)[j] == Unread {
      BadIsSticky(Bad(table[j]));
    }
  }

  // ---- what the fields of a complete map are

  /** The name a key is, when it is a one-byte string. */
  function KeyOf(w: Wire): byte {
    if w.Leaf? && w.h == 0xa1 && |w.body| == 1 then w.body[0] else 0
  }

  /** The values under the j-th name, in the order of the pairs. */
  function Values(ws: seq<Wire>, j: nat): seq<Wire> {
    if |ws| < 2 then []
    else (if Slot(KeyOf(ws[0])) == j then [ws[1]] else []) + Values(ws[2..], j)
  }

  /** What one value reads as under a name of the given kind. */
  function WireField(kind: Kind, w: Wire): Reading {
    match w
    case Node(_, _, _) => Unread
    case Leaf(h, body) =>
      match kind
      case UintKind => if h < 0x80 then Number(h) else if h in {0xcc, 0xcd, 0xce} then Number(BeVal(body)) else Unread
      case BinKind => if h == 0xc0 then Octets([]) else if h in {0xc4, 0xc5} then Octets(body) else Unread
      case DoubleKind => if h == 0xcb then Octets(body) else Unread
  }

  ghost predicate SomeTwice(ws: seq<Wire>) {
    exists j: nat :: j < 11 && |Values(ws, j)| >= 2
  }

  function MapField(ws: seq<Wire>, j: nat): Reading {
    if Values(ws, j) == [] then Unread else WireField(KindOf(j), Values(ws, j)[0])
  }

  /** The fields of a map: a dash for a missing or wrongly typed value, eleven dashes for a repeated name. */
  ghost function MapFields(ws: seq<Wire>): (r: seq<Reading>)
    ensures |r| == 11
  {
    if SomeTwice(ws) then DASHES else seq(11, j requires 0 <= j < 11 => MapField(ws, j))
  }

  lemma LeafEncoding(w: Wire)
    requires Wf(w) && w.Leaf?
    ensures Encode(w) == [w.h] + BeBytes(|w.body| - ClassOf(w.h).extra, ClassOf(w.h).width) + w.body
  {
  }

  lemma KeyExact(w: Wire, rest: seq<byte>)
    requires Wf(w)
    ensures Key(Cur(Encode(w) + rest, false)) == (Cur(rest, false), KeyOf(w))
  {
    var c := Cur(Encode(w) + rest, false);
    TypedReadsSkip(c);
    SkipComplete(w, rest);
    TypedHeads();
    EncodeHead(w);
    hide ClassOf, Skip, SkipHead, BeVal;
    if w.h == 0xa1 {
      assert w.Leaf? && |w.body| == 1;
      LeafEncoding(w);
      assert Encode(w) + rest == [0xa1] + (w.body + rest);
      HeadExact(0xa1, w.body + rest);
      TakeExact(Cur(w.body + rest, false), w.body, rest);
    }
  }

  lemma EncodeHead(w: Wire)
    requires Wf(w)
    ensures |Encode(w)| > 0 && Encode(w)[0] == w.h
  {
  }

  lemma LeafExact(w: Wire, rest: seq<byte>, width: nat, extra: nat)
    requires Wf(w) && w.Leaf? && ClassOf(w.h) == Bytes(width, extra)
    ensures Head(Cur(Encode(w) + rest, false))
         == (Cur(BeBytes(|w.body| - extra, width) + (w.body + rest), false), w.h)
    ensures |w.body| >= extra && BeVal(BeBytes(|w.body| - extra, width)) == |w.body| - extra
  {
    hide BeVal, BeBytes;
    var l := BeBytes(|w.body| - extra, width);
    LeafEncoding(w);
    assert Encode(w) + rest == [w.h] + (l + (w.body + rest));
    HeadExact(w.h, l + (w.body + rest));
    BeValBytes(|w.body| - extra, width);
  }

  /** A typed read of an encoded value depends on the value alone. */
  lemma FieldExact(kind: Kind, w: Wire, rest: seq<byte>)
    requires Wf(w)
    ensures ReadField(kind, Cur(Encode(w) + rest, false)).1 == WireField(kind, w)
  {
    TypedHeads();
    EncodeHead(w);
    var c := Cur(Encode(w) + rest, false);
    assert c.rest[0] == w.h;
    match kind
    case UintKind => UintExact(w, rest);
    case BinKind => BinExact(w, rest);
    case DoubleKind => DoubleExact(w, rest);
  }

  lemma NoNodeHead(w: Wire)
    requires Wf(w) && w.Node?
    ensures w.h >= 0x80 && w.h !in {0xcc, 0xcd, 0xce, 0xc0, 0xc4, 0xc5, 0xcb}
  {
  }

  lemma UintExact(w: Wire, rest: seq<byte>)
    requires Wf(w)
    ensures ReadField(UintKind, Cur(Encode(w) + rest, false)).1 == WireField(UintKind, w)
  {
    TypedHeads();
    EncodeHead(w);
    var c := Cur(Encode(w) + rest, false);
    assert Head(c).1 == w.h;
    if w.Node? {
      NoNodeHead(w);
    } else if w.h in {0xcc, 0xcd, 0xce} {
      var n := if w.h == 0xcc then 1 else if w.h == 0xcd then 2 else 4;
      FixedExact(w, rest, n);
    }
    hide ClassOf, BeVal;
  }

  /** A value of fixed width: its body follows its head. */
  lemma FixedExact(w: Wire, rest: seq<byte>, n: nat)
    requires Wf(w) && w.Leaf? && ClassOf(w.h) == Bytes(0, n)
    ensures |w.body| == n && Head(Cur(Encode(w) + rest, false)) == (Cur(w.body + rest, false), w.h)
    ensures Take(Cur(w.body + rest, false), n) == (Cur(rest, false), Some(w.body))
  {
    hide ClassOf;
    LeafExact(w, rest, 0, n);
    assert Pow(256, 0) == 1;
    assert [] + (w.body + rest) == w.body + rest;
    TakeExact(Cur(w.body + rest, false), w.body, rest);
  }

  lemma BinExact(w: Wire, rest: seq<byte>)
    requires Wf(w)
    ensures ReadField(BinKind, Cur(Encode(w) + rest, false)).1 == WireField(BinKind, w)
  {
    TypedHeads();
    EncodeHead(w);
    var c := Cur(Encode(w) + rest, false);
    assert Head(c).1 == w.h;
    if w.Node? {
      NoNodeHead(w);
    } else if w.h in {0xc4, 0xc5} {
      var width := if w.h == 0xc4 then 1 else 2;
      LeafExact(w, rest, width, 0);
      var l := BeBytes(|w.body|, width);
      TakeExact(Cur(l + (w.body + rest), false), l, w.body + rest);
      TakeExact(Cur(w.body + rest, false), w.body, rest);
    }
    hide ClassOf, BeVal, BeBytes;
  }

  lemma DoubleExact(w: Wire, rest: seq<byte>)
    requires Wf(w)
    ensures ReadField(DoubleKind, Cur(Encode(w) + rest, false)).1 == WireField(DoubleKind, w)
  {
    TypedHeads();
    EncodeHead(w);
    var c := Cur(Encode(w) + rest, false);
    assert Head(c).1 == w.h;
    if w.Node? {
      NoNodeHead(w);
    } else if w.h == 0xcb {
      FixedExact(w, rest, 8);
    }
    hide ClassOf;
  }

  // ---- the scan over a complete map

  function FillTable(ws: seq<Wire>, rest: seq<byte>, table: Table): Table {
    if |ws| < 2 then table
    else FillTable(ws[2..], rest, Store(table, KeyOf(ws[0]), Cur(EncodeAll(ws[1..]) + rest, false)))
  }

  function AnyTwice(ws: seq<Wire>, rest: seq<byte>, table: Table): bool {
    |ws| >= 2
    && (Repeats(table, KeyOf(ws[0]))
        || AnyTwice(ws[2..], rest, Store(table, KeyOf(ws[0]), Cur(EncodeAll(ws[1..]) + rest, false))))
  }

  /** The loop's result on complete pairs. */
  function Filled(ws: seq<Wire>, rest: seq<byte>, l: Located): Located {
    Located(Cur(rest, false), FillTable(ws, rest, l.table), l.twice || AnyTwice(ws, rest, l.table))
  }

  lemma {:induction false} ScanComplete(ws: seq<Wire>, n: nat, rest: seq<byte>, l: Located)
    requires |ws| == 2 * n && WfAll(ws) && l.c == Cur(EncodeAll(ws) + rest, false)
    ensures Scan(l, n) == Filled(ws, rest, l)
    decreases n
  {
    hide *;
    if n == 0 {
      ScanNone(ws, rest, l);
    } else {
      FirstPair(ws);
      LocateComplete(ws, rest, l);
      ScanComplete(ws[2..], n - 1, rest, Locate(l));
      ScanUnfold(l, n);
      FilledStep(ws, rest, l);
    }
  }

  lemma ScanNone(ws: seq<Wire>, rest: seq<byte>, l: Located)
    requires ws == [] && l.c == Cur(EncodeAll(ws) + rest, false)
    ensures Scan(l, 0) == Filled(ws, rest, l)
  {
    assert [] + rest == rest;
  }

  lemma FilledStep(ws: seq<Wire>, rest: seq<byte>, l: Located)
    requires |ws| >= 2
    requires Locate(l) == Located(Cur(EncodeAll(ws[2..]) + rest, false),
                                  Store(l.table, KeyOf(ws[0]), Cur(EncodeAll(ws[1..]) + rest, false)),
                                  l.twice || Repeats(l.table, KeyOf(ws[0])))
    ensures Filled(ws, rest, l) == Filled(ws[2..], rest, Locate(l))
  {
    hide Locate, EncodeAll, KeyOf, Store, Repeats;
  }

  lemma LocateComplete(ws: seq<Wire>, rest: seq<byte>, l: Located)
    requires |ws| >= 2 && WfAll(ws) && l.c == Cur(EncodeAll(ws) + rest, false)
    ensures var key, c1 := KeyOf(ws[0]), Cur(EncodeAll(ws[1..]) + rest, false);
      Locate(l) == Located(Cur(EncodeAll(ws[2..]) + rest, false), Store(l.table, key, c1),
                           l.twice || Repeats(l.table, key))
  {
    var c1 := Cur(EncodeAll(ws[1..]) + rest, false);
    assert Locate(l) == Located(Skip(Key(l.c).0), Store(l.table, Key(l.c).1, Key(l.c).0),
                                l.twice || Repeats(l.table, Key(l.c).1));
    hide *;
    FirstPair(ws);
    FirstPairThen(ws, rest);
    KeyExact(ws[0], c1.rest);
    SkipComplete(ws[1], EncodeAll(ws[2..]) + rest);
  }

  /** Where no name comes twice, each slot ends where the name's one value starts, or as it was. */
  lemma {:induction false} TableComplete(ws: seq<Wire>, rest: seq<byte>, table: Table, j: nat)
    requires WfAll(ws) && j < 11
    requires Values(ws, j) == [] || (table[j].bad && |Values(ws, j)| == 1)
    ensures Values(ws, j) == [] ==> FillTable(ws, rest, table)[j] == table[j]
    ensures Values(ws, j) != [] ==> Wf(Values(ws, j)[0])
    ensures Values(ws, j) != [] ==>
      (exists after :: FillTable(ws, rest, table)[j] == Cur(Encode(Values(ws, j)[0]) + after, false))
    decreases |ws|
  {
    if |ws| >= 2 {
      var tail := EncodeAll(ws[2..]) + rest;
      assert ws[1..][0] == ws[1] && ws[1..][1..] == ws[2..];
      assert EncodeAll(ws[1..]) + rest == Encode(ws[1]) + tail;
      hide Encode;
      TableComplete(ws[2..], rest, Store(table, KeyOf(ws[0]), Cur(EncodeAll(ws[1..]) + rest, false)), j);
    }
  }

  /** The loop's twice flag: some name has two values, counting those already in the table. */
  lemma {:induction false} TwiceComplete(ws: seq<Wire>, rest: seq<byte>, table: Table)
    ensures AnyTwice(ws, rest, table)
      <==> exists j: nat :: j < 11 && |Values(ws, j)| + (if table[j].bad then 0 else 1) >= 2 && Values(ws, j) != []
    decreases |ws|
  {
    if |ws| >= 2 {
      var k := Slot(KeyOf(ws[0]));
      var next := Store(table, KeyOf(ws[0]), Cur(EncodeAll(ws[1..]) + rest, false));
      TwiceComplete(ws[2..], rest, next);
      hide EncodeAll, KeyOf, Slot;
      forall j: nat | j < 11
        ensures |Values(ws, j)| == |Values(ws[2..], j)| + (if k == j then 1 else 0)
      {
      }
    }
  }

  /** A map as it is written: a node whose header counts pairs. */
  ghost predicate IsMap(w: Wire) {
    Wf(w) && w.Node? && ClassOf(w.h).paired
  }

  lemma MapHeadExact(w: Wire, rest: seq<byte>)
    requires IsMap(w)
    ensures |w.elems| == 2 * w.n && WfAll(w.elems)
    ensures MapHead(Cur(Encode(w) + rest, false)) == (Cur(EncodeAll(w.elems) + rest, false), w.n)
  {
    var cl, body := ClassOf(w.h), EncodeAll(w.elems) + rest;
    MapClass(w.h);
    NodeCount(w);
    NodeEncoding(w);
    var l := BeBytes(w.n, cl.width);
    assert Encode(w) + rest == [w.h] + (l + body);
    HeadExact(w.h, l + body);
    TakeExact(Cur(l + body, false), l, body);
    hide ClassOf, BeVal, BeBytes;
    assert cl.width == 0 ==> l + body == body;
  }

  lemma MapClass(h: byte)
    requires ClassOf(h).Elements? && ClassOf(h).paired
    ensures (0x80 <= h < 0x90 && ClassOf(h) == Elements(0, h % 16, true)) || (h == 0xde
      && ClassOf(h) == Elements(2, 0, true))
  {
  }

  lemma NodeEncoding(w: Wire)
    requires Wf(w) && w.Node?
    ensures Encode(w) == [w.h] + BeBytes(w.n, ClassOf(w.h).width) + EncodeAll(w.elems)
  {
  }

  /** The fields of a complete map, whatever follows it, are those its key-to-value pairs give. */
  lemma MapFieldsExact(w: Wire, rest: seq<byte>)
    requires IsMap(w)
    ensures Advertisement(Encode(w) + rest) == MapFields(w.elems)
  {
    MapHeadExact(w, rest);
    ScanComplete(w.elems, w.n, rest, Located(Cur(EncodeAll(w.elems) + rest, false), Nothing(), false));
    TwiceComplete(w.elems, rest, Nothing());
    var table := FillTable(w.elems, rest, Nothing());
    if SomeTwice(w.elems) {
      NothingReadsAsDashes(table);
    } else {
      hide ClassOf, Encode, ReadField, WireField, MapHead, Values, FillTable;
      forall j | 0 <= j < 11
        ensures ReadField(KindOf(j), table[j]).1 == MapField(w.elems, j)
      {
        TableComplete(w.elems, rest, Nothing(), j);
        if Values(w.elems, j) == [] {
          UnreadField(KindOf(j), table[j]);
        } else {
          var after :| table[j] == Cur(Encode(Values(w.elems, j)[0]) + after, false);
          FieldExact(KindOf(j), Values(w.elems, j)[0], after);
        }
      }
    }
  }

  lemma UnreadField(kind: Kind, c: Cur)
    requires c.bad
    ensures ReadField(kind, c).1 == Unread
  {
    BadIsSticky(c);
  }

  // ---- what the fields do not depend on

  lemma {:induction false} ValuesAppend(a: seq<Wire>, n: nat, b: seq<Wire>, j: nat)
    requires |a| == 2 * n
    ensures Values(a + b, j) == Values(a, j) + Values(b, j)
    decreases n
  {
    if n == 0 {
      assert a + b == b;
    } else {
      ValuesAppend(a[2..], n - 1, b, j);
      assert (a + b)[2..] == a[2..] + b && (a + b)[0] == a[0] && (a + b)[1] == a[1];
    }
  }

  /** Only what each of the eleven names is bound to matters, and not in which order. */
  lemma OnlyBindingsMatter(a: seq<Wire>, b: seq<Wire>)
    requires forall j: nat :: j < 11 ==> multiset(Values(a, j)) == multiset(Values(b, j))
    ensures MapFields(a) == MapFields(b)
  {
    forall j: nat | j < 11
      ensures |Values(a, j)| == |Values(b, j)|
      ensures |Values(a, j)| <= 1 ==> Values(a, j) == Values(b, j)
    {
      SameBag(Values(a, j), Values(b, j));
    }
    hide Values, WireField;
  }

  lemma SameBag(x: seq<Wire>, y: seq<Wire>)
    requires multiset(x) == multiset(y)
    ensures |x| == |y| && (|x| <= 1 ==> x == y)
  {
    assert |multiset(x)| == |x| && |multiset(y)| == |y|;
    if |x| == 1 {
      assert x[0] in multiset(y);
    }
  }

  /** Two maps whose pairs are each other's in another order print the same fields. */
  lemma OrderDoesNotMatter(a: seq<Wire>, n: nat, x: seq<Wire>, y: seq<Wire>, b: seq<Wire>)
    requires |a| == 2 * n && |x| == |y| == 2
    ensures MapFields(a + (x + (y + b))) == MapFields(a + (y + (x + b)))
  {
    forall j: nat | j < 11
      ensures multiset(Values(a + (x + (y + b)), j)) == multiset(Values(a + (y + (x + b)), j))
    {
      hide Values;
      ValuesAppend(a, n, x + (y + b), j);
      ValuesAppend(x, 1, y + b, j);
      ValuesAppend(y, 1, b, j);
      ValuesAppend(a, n, y + (x + b), j);
      ValuesAppend(y, 1, x + b, j);
      ValuesAppend(x, 1, b, j);
    }
    hide MapFields, Values;
    OnlyBindingsMatter(a + (x + (y + b)), a + (y + (x + b)));
  }

  /** A pair whose key is none of the eleven names, of any nested type, changes no field. */
  lemma ForeignPairIgnored(a: seq<Wire>, n: nat, key: Wire, value: Wire, b: seq<Wire>)
    requires |a| == 2 * n && Slot(KeyOf(key)) < 0
    ensures MapFields(a + ([key, value] + b)) == MapFields(a + b)
  {
    forall j: nat | j < 11
      ensures Values(a + ([key, value] + b), j) == Values(a + b, j)
    {
      ValuesAppend(a, n, [key, value] + b, j);
      ValuesAppend([key, value], 1, b, j);
      ValuesAppend(a, n, b, j);
      assert Values([key, value], j) == Values([key, value][2..], j) == [];
    }
    OnlyBindingsMatter(a + ([key, value] + b), a + b);
  }

  // ---- a map cut short is nothing

  lemma ScanBad(l: Located, pairs: nat)
    requires l.c.bad
    ensures Scan(l, pairs).c.bad
  {
  }

  lemma {:induction false} ScanCut(ws: seq<Wire>, pairs: nat, l: Located)
    requires |ws| == 2 * pairs && WfAll(ws)
    requires l.c.bad || (|l.c.rest| < |EncodeAll(ws)| && l.c == Cur(EncodeAll(ws)[..|l.c.rest|], false))
    ensures Scan(l, pairs).c.bad
    decreases pairs
  {
    hide *;
    if l.c.bad {
      ScanBad(l, pairs);
    } else {
      NonEmpty(ws);
      LocateCut(ws, l);
      ScanCut(ws[2..], pairs - 1, Locate(l));
      ScanUnfold(l, pairs);
    }
  }

  lemma ScanUnfold(l: Located, pairs: nat)
    requires pairs > 0 && !l.c.bad
    ensures Scan(l, pairs) == Scan(Locate(l), pairs - 1)
  {
  }

  lemma LocateCut(ws: seq<Wire>, l: Located)
    requires |ws| >= 2 && WfAll(ws)
    requires |l.c.rest| < |EncodeAll(ws)| && l.c == Cur(EncodeAll(ws)[..|l.c.rest|], false)
    ensures WfAll(ws[2..])
    ensures var c := Locate(l).c;
      c.bad || (|c.rest| < |EncodeAll(ws[2..])| && c == Cur(EncodeAll(ws[2..])[..|c.rest|], false))
  {
    assert Locate(l).c == Skip(Key(l.c).0);
    hide *;
    FirstPair(ws);
    CutPair(ws, |l.c.rest|);
    TypedReadsSkip(l.c);
  }

  /** Two values out of a cut run: the cursor is bad, or it is at a cut of what follows the two. */
  lemma CutPair(ws: seq<Wire>, n: nat)
    requires |ws| >= 2 && WfAll(ws) && n < |EncodeAll(ws)|
    ensures var next := Skip(Skip(Cur(EncodeAll(ws)[..n], false)));
      next.bad || (|next.rest| < |EncodeAll(ws[2..])| && next == Cur(EncodeAll(ws[2..])[..|next.rest|], false))
  {
    CutOne(ws, n);
    var c1 := Skip(Cur(EncodeAll(ws)[..n], false));
    assert ws[1..][1..] == ws[2..];
    if c1.bad {
      BadIsSticky(c1);
    } else {
      CutOne(ws[1..], |c1.rest|);
    }
    hide *;
  }

  lemma CutOne(ws: seq<Wire>, n: nat)
    requires |ws| >= 1 && WfAll(ws) && n < |EncodeAll(ws)|
    ensures var next := Skip(Cur(EncodeAll(ws)[..n], false));
      next.bad || (|next.rest| < |EncodeAll(ws[1..])| && next == Cur(EncodeAll(ws[1..])[..|next.rest|], false))
  {
    var e, tail := Encode(ws[0]), EncodeAll(ws[1..]);
    assert EncodeAll(ws) == e + tail;
    hide EncodeAll, Encode, Skip;
    if n < |e| {
      assert EncodeAll(ws)[..n] == e[..n];
      PrefixUnreadable(ws[0], n);
    } else {
      assert EncodeAll(ws)[..n] == e + tail[..n - |e|];
      SkipComplete(ws[0], tail[..n - |e|]);
    }
  }

  /** An advertisement cut anywhere before its end prints eleven dashes. */
  lemma CutMapIsNothing(w: Wire, n: nat)
    requires IsMap(w) && n < |Encode(w)|
    ensures Advertisement(Encode(w)[..n]) == DASHES
  {
    var c := Cur(Encode(w)[..n], false);
    var (d, pairs) := MapHead(c);
    MapHeadExact(w, []);
    assert Encode(w) + [] == Encode(w) && EncodeAll(w.elems) + [] == EncodeAll(w.elems);
    if !d.bad {
      MapHeadCut(w, n);
      ScanCut(w.elems, w.n, Located(d, Nothing(), false));
    } else {
      ScanBad(Located(d, Nothing(), false), pairs);
    }
    NothingReadsAsDashes(Scan(Located(d, Nothing(), false), pairs).table);
  }

  /** Cutting after the header leaves the header's count and a cut body. */
  lemma MapHeadCut(w: Wire, n: nat)
    requires IsMap(w) && n < |Encode(w)|
    requires !MapHead(Cur(Encode(w)[..n], false)).0.bad
    ensures MapHead(Cur(Encode(w)[..n], false)).1 == w.n
    ensures var d := MapHead(Cur(Encode(w)[..n], false)).0;
      |d.rest| < |EncodeAll(w.elems)| && d.rest == EncodeAll(w.elems)[..|d.rest|]
  {
    MapClass(w.h);
    NodeCount(w);
    NodeEncoding(w);
    var width := ClassOf(w.h).width;
    var l, body := BeBytes(w.n, width), EncodeAll(w.elems);
    var e := Encode(w);
    hide ClassOf, Encode, EncodeAll, BeVal, BeBytes;
    assert e == [w.h] + l + body && e[..n][0] == w.h;
    assert e[..n][1..] == (l + body)[..n - 1];
    assert n - 1 >= width;
    assert (l + body)[..n - 1] == l + body[..n - 1 - width];
    TakeExact(Cur(l + body[..n - 1 - width], false), l, body[..n - 1 - width]);
    assert width == 0 ==> l + body[..n - 1 - width] == body[..n - 1 - width];
  }

  // ---- the program's loop

  ghost predicate InBounds(value: seq<Saved>, data: seq<byte>) {
    |value| == 11 && forall j :: 0 <= j < 11 ==> value[j].p + value[j].left <= |data|
  }

  ghost function TableOf(value: seq<Saved>, data: seq<byte>): Table
    requires InBounds(value, data)
  {
    seq(11, j requires 0 <= j < 11 => value[j].Cursor(data))
  }

  ghost function State(m: Mp, value: array<Saved>, twice: bool): Located
    requires m.Valid() && InBounds(value[..], m.data)
    reads m, value
  {
    Located(m.Now(), TableOf(value[..], m.data), twice)
  }

  /** Each of the eleven keys located first: one pair of the map. */
  method LocatePair(m: Mp, value: array<Saved>, twice: bool) returns (again: bool)
    requires m.Valid() && !m.bad && value.Length == 11 && InBounds(value[..], m.data)
    modifies m, value
    ensures m.Valid() && InBounds(value[..], m.data)
    ensures State(m, value, again) == Locate(old(State(m, value, twice)))
  {
    ghost var table := TableOf(value[..], m.data);
    hide Key, Skip;
    var key := m.ReadKey();
    var at := Slot(key);
    again := twice;
    if at >= 0 {
      assert table[at].bad == value[at].bad;
      if !value[at].bad {
        again := true;
      }
      value[at] := Saved(m.p, m.left, false);
    }
    assert TableOf(value[..], m.data) == Store(table, key, m.Now());
    m.SkipValue();
  }

  /** The loop over the pairs, on the program's state. */
  method LocateAll(m: Mp, value: array<Saved>, pairs: nat) returns (twice: bool)
    requires m.Valid() && value.Length == 11 && InBounds(value[..], m.data)
    modifies m, value
    ensures m.Valid() && InBounds(value[..], m.data)
    ensures State(m, value, twice) == Scan(old(State(m, value, false)), pairs)
  {
    hide *;
    ghost var l := State(m, value, false);
    twice := false;
    var i := 0;
    while i < pairs && !m.bad
      invariant m.Valid() && InBounds(value[..], m.data) && i <= pairs
      invariant Scan(State(m, value, twice), pairs - i) == Scan(l, pairs)
    {
      StateCursor(m, value, twice);
      ScanStep(State(m, value, twice), pairs - i);
      twice := LocatePair(m, value, twice);
      i := i + 1;
    }
    StateCursor(m, value, twice);
    ScanEnd(State(m, value, twice), pairs - i);
  }

  lemma StateCursor(m: Mp, value: array<Saved>, twice: bool)
    requires m.Valid() && InBounds(value[..], m.data)
    ensures State(m, value, twice).c.bad == m.bad
  {
  }

  lemma ScanStep(l: Located, n: nat)
    requires n > 0 && !l.c.bad
    ensures Scan(l, n) == Scan(Locate(l), n - 1)
  {
    hide Locate;
  }

  lemma ScanEnd(l: Located, n: nat)
    requires n == 0 || l.c.bad
    ensures Scan(l, n) == l
  {
    hide Locate;
  }

  /** print_resource on an advertisement. */
  method PrintAdvertisement(s: seq<byte>) returns (r: seq<Reading>)
    ensures r == Advertisement(s)
  {
    var m := new Mp(s);
    var pairs := m.ReadMap();
    var value := new Saved[11](_ => Saved(0, 0, true));
    ghost var c := m.Now();
    assert TableOf(value[..], s) == Nothing();
    ghost var l := State(m, value, false);
    assert Advertisement(s) == FieldsFrom(Scan(l, pairs).table, Scan(l, pairs).twice || Scan(l, pairs).c.bad);
    hide Advertisement, Scan, FieldsFrom, MapHead;
    var twice := LocateAll(m, value, pairs);
    r := PrintTable(value, s, twice || m.bad);
  }

  /** The fields in the corpus's own order; all of them dashes when the map is nothing. */
  method PrintTable(value: array<Saved>, s: seq<byte>, nothing: bool) returns (r: seq<Reading>)
    requires value.Length == 11 && InBounds(value[..], s)
    ensures r == FieldsFrom(TableOf(value[..], s), nothing)
  {
    ghost var table := TableOf(value[..], s);
    r := [];
    for j := 0 to 11
      invariant value[..] == old(value[..])
      invariant |r| == j && forall k :: 0 <= k < j ==> r[k] == FieldsFrom(table, nothing)[k]
    {
      var v := new Mp.Restore(s, if nothing then value[j].(bad := true) else value[j]);
      assert v.Now() == if nothing then Bad(table[j]) else table[j];
      hide ReadField, KindOf;
      var field := PrintField(v, KindOf(j));
      r := r + [field];
    }
  }
}
