/** The generator's own msgpack reader, and its agreement with the decoder's cursor. */
module Readers {
  import opened Arith
  import opened Wrappers
  import opened BigEndian
  import opened Msgpack

  /** What the reader returns. Short: the body ran out inside the value, or it is a map refused. */
  datatype Py =
    | PNone | PBool(b: bool) | PInt(v: int) | PBytes(s: seq<byte>) | PStr(s: seq<byte>)
    | Foreign | Short | PList(es: seq<Py>) | PDict(keys: seq<Py>, values: seq<Py>)

  /** A value and what follows it, or an exception. */
  datatype Out = Got(v: Py, rest: seq<byte>) | Raised

  datatype OutList = GotList(es: seq<Py>, rest: seq<byte>) | ListRaised

  predicate Incomplete(v: Py) {
    v.Short? || (v.PList? && exists i :: 0 <= i < |v.es| && Incomplete(v.es[i]))
  }

  /** Equality of dictionary keys: True and False are the integers 1 and 0. */
  predicate SameKey(k: Py, l: Py) {
    KeyNumber(k) == KeyNumber(l)
  }

  function KeyNumber(k: Py): Py {
    if k.PBool? then PInt(if k.b then 1 else 0) else k
  }

  predicate Hashable(k: Py) {
    !k.PList? && !k.PDict?
  }

  // ---- values that are not containers

  function Doubling(n: nat): nat {
    if n == 0 then 1 else 2 * Doubling(n - 1)
  }

  /** How a head says where its body ends: the number of length bytes, and the body's fixed part. */
  function Shape(kind: byte): Option<(nat, nat)> {
    if kind == 0xc0 || kind < 0x80 || kind >= 0xe0 || kind == 0xc2 || kind == 0xc3 then Some((0, 0))
    else if kind == 0xca || kind == 0xcb then Some((0, if kind == 0xca then 4 else 8))
    else if 0xcc <= kind <= 0xd3 then Some((0, Doubling(kind - (if kind >= 0xd0 then 0xd0 else 0xcc))))
    else if 0xc4 <= kind <= 0xc6 || 0xd9 <= kind <= 0xdb then
      Some((Doubling(kind - (if kind >= 0xd9 then 0xd9 else 0xc4)), 0))
    else if 0xd4 <= kind <= 0xd8 then Some((0, 1 + Doubling(kind - 0xd4)))
    else if 0xc7 <= kind <= 0xc9 then Some((Doubling(kind - 0xc7), 1))
    else if 0xa0 <= kind <= 0xbf then Some((0, kind % 32))
    else None
  }

  predicate IsText(kind: byte) {
    0xa0 <= kind <= 0xbf || 0xd9 <= kind <= 0xdb
  }

  function Signed(s: seq<byte>): int {
    if s != [] && s[0] >= 0x80 then BeVal(s) - Pow(256, |s|) else BeVal(s)
  }

  function Scalar(kind: byte, body: seq<byte>): Py {
    if kind == 0xc0 then PNone
    else if kind < 0x80 then PInt(kind)
    else if kind >= 0xe0 then PInt(kind - 0x100)
    else if kind == 0xc2 || kind == 0xc3 then PBool(kind == 0xc3)
    else if 0xcc <= kind <= 0xcf then PInt(BeVal(body))
    else if 0xd0 <= kind <= 0xd3 then PInt(Signed(body))
    else if IsText(kind) then PStr(body)
    else if 0xd4 <= kind <= 0xd8 || 0xc7 <= kind <= 0xc9 then Foreign
    else PBytes(body)
  }

  /** A scalar read from what follows its head. */
  function ReadScalar(kind: byte, width: nat, fixed: nat, r: seq<byte>, utf8: seq<byte> -> bool): (o: Out)
    ensures o.Got? ==> |o.rest| <= |r|
  {
    if |r| < width then Got(Short, [])
    else
      var at, size := r[width..], fixed + BeVal(r[..width]);
      if |at| < size then Got(Short, [])
      else if IsText(kind) && !utf8(at[..size]) then Raised
      else Got(Scalar(kind, at[..size]), at[size..])
  }

  // ---- containers

  /** msgpack_read: one value off the front of s. */
  function Read(s: seq<byte>, utf8: seq<byte> -> bool): (o: Out)
    ensures o.Got? ==> |o.rest| <= |s|
    decreases |s|, 0, 0
  {
    if s == [] then Got(Short, [])
    else
      var kind, r := s[0], s[1..];
      match Shape(kind)
      case Some((width, fixed)) => ReadScalar(kind, width, fixed, r, utf8)
      case None =>
        if 0x80 <= kind <= 0x9f then ReadContainer(kind, kind % 16, r, utf8)
        else if 0xdc <= kind <= 0xdf then
          var width := if kind == 0xdd || kind == 0xdf then 4 else 2;
          if |r| < width then Got(Short, []) else ReadContainer(kind, BeVal(r[..width]), r[width..], utf8)
        else Raised
  }

  predicate IsList(kind: byte) {
    0x90 <= kind <= 0x9f || kind == 0xdc || kind == 0xdd
  }

  function ReadContainer(kind: byte, count: nat, r: seq<byte>, utf8: seq<byte> -> bool): (o: Out)
    ensures o.Got? ==> |o.rest| <= |r|
    decreases |r|, 2, 0
  {
    if IsList(kind) then
      match ReadList(r, count, utf8)
      case ListRaised => Raised
      case GotList(es, rest) => Got(PList(es), rest)
    else ReadPairs(r, count, [], [], true, utf8)
  }

  function ReadList(s: seq<byte>, n: nat, utf8: seq<byte> -> bool): (o: OutList)
    ensures o.GotList? ==> |o.rest| <= |s|
    decreases |s|, 1, n
  {
    if n == 0 then GotList([], s)
    else
      match Read(s, utf8)
      case Raised => ListRaised
      case Got(v, rest) =>
        match ReadList(rest, n - 1, utf8)
        case ListRaised => ListRaised
        case GotList(es, rest') => GotList([v] + es, rest')
  }

  predicate KeyIn(k: Py, keys: seq<Py>) {
    exists i :: 0 <= i < |keys| && SameKey(k, keys[i])
  }

  function ReadPairs(s: seq<byte>, n: nat, keys: seq<Py>, values: seq<Py>, whole: bool,
                     utf8: seq<byte> -> bool): (o: Out)
    ensures o.Got? ==> |o.rest| <= |s|
    decreases |s|, 1, n
  {
    if n == 0 then Got(if whole then PDict(keys, values) else Short, s)
    else
      match Read(s, utf8)
      case Raised => Raised
      case Got(k, rest) =>
        match Read(rest, utf8)
        case Raised => Raised
        case Got(v, rest') =>
          if !Hashable(k) then Raised
          else ReadPairs(rest', n - 1, keys + [k], values + [v],
                         whole && !Incomplete(k) && !Incomplete(v) && !KeyIn(k, keys), utf8)
  }

  // ---- what an encoding means

  function Evens(vs: seq<Py>): seq<Py> {
    if |vs| < 2 then [] else [vs[0]] + Evens(vs[2..])
  }

  function Odds(vs: seq<Py>): seq<Py> {
    if |vs| < 2 then [] else [vs[1]] + Odds(vs[2..])
  }

  function ValueOf(w: Wire): Py
    decreases w, 0
  {
    match w
    case Leaf(h, body) => Scalar(h, body)
    case Node(h, n, elems) =>
      if IsList(h) then PList(ValuesOf(elems)) else PDict(Evens(ValuesOf(elems)), Odds(ValuesOf(elems)))
  }

  function ValuesOf(ws: seq<Wire>): (vs: seq<Py>)
    ensures |vs| == |ws|
    decreases ws, 1
  {
    if ws == [] then [] else [ValueOf(ws[0])] + ValuesOf(ws[1..])
  }

  /** Keys a dictionary can hold apart: strings and integers, none twice. */
  ghost predicate GoodKeys(keys: seq<Py>) {
    (forall i :: 0 <= i < |keys| ==> keys[i].PStr? || keys[i].PInt?)
    && forall i, j :: 0 <= i < j < |keys| ==> keys[i] != keys[j]
  }

  /** The values the two readers are meant to agree on: text decodes, and maps have distinct string or integer keys. */
  ghost predicate Plain(w: Wire, utf8: seq<byte> -> bool)
    decreases w
  {
    Wf(w) && match w
    case Leaf(h, body) => IsText(h) ==> utf8(body)
    case Node(h, n, elems) =>
      PlainAll(elems, utf8) && (IsList(h) || GoodKeys(Evens(ValuesOf(elems))))
  }

  ghost predicate PlainAll(ws: seq<Wire>, utf8: seq<byte> -> bool)
    decreases ws
  {
    forall i :: 0 <= i < |ws| ==> Plain(ws[i], utf8)
  }

  // ---- the two classifications of a head

  lemma ShapeAgrees(h: byte)
    ensures ClassOf(h).Bytes? ==> Shape(h) == Some((ClassOf(h).width, ClassOf(h).extra))
    ensures ClassOf(h).Elements? ==> Shape(h) == None && (IsList(h) <==> !ClassOf(h).paired)
    ensures ClassOf(h).Elements? ==>
      if 0x80 <= h <= 0x9f then ClassOf(h).width == 0 && ClassOf(h).count == h % 16
      else (h == 0xdc || h == 0xde) && ClassOf(h).width == 2
  {
    assert Doubling(0) == 1 && Doubling(1) == 2 && Doubling(2) == 4 && Doubling(3) == 8 && Doubling(4) == 16;
  }

  /** The container branch of the reader, as one call. */
  lemma ReadNode(h: byte, n: nat, body: seq<byte>, utf8: seq<byte> -> bool)
    requires ClassOf(h).Elements?
    requires if ClassOf(h).width == 0 then n == ClassOf(h).count else n < Pow(256, ClassOf(h).width)
    ensures Read([h] + BeBytes(n, ClassOf(h).width) + body, utf8) == ReadContainer(h, n, body, utf8)
  {
    ShapeAgrees(h);
    var l := BeBytes(n, ClassOf(h).width);
    var s := [h] + l + body;
    assert s[1..] == l + body;
    if ClassOf(h).width == 0 {
      assert l + body == body;
    } else {
      BeValBytes(n, 2);
      assert (l + body)[..2] == l && (l + body)[2..] == body;
    }
    hide ClassOf, Shape, ReadContainer, BeVal, BeBytes;
  }

  lemma ReadHeadOf(h: byte, r: seq<byte>, width: nat, fixed: nat, utf8: seq<byte> -> bool)
    requires Shape(h) == Some((width, fixed))
    ensures Read([h] + r, utf8) == ReadScalar(h, width, fixed, r, utf8)
  {
    assert ([h] + r)[1..] == r;
    hide Shape, ReadScalar;
  }

  lemma ScalarExact(h: byte, fixed: nat, l: seq<byte>, body: seq<byte>, rest: seq<byte>, utf8: seq<byte> -> bool)
    requires fixed + BeVal(l) == |body| && (IsText(h) ==> utf8(body))
    ensures ReadScalar(h, |l|, fixed, l + (body + rest), utf8) == Got(Scalar(h, body), rest)
    ensures !Incomplete(Scalar(h, body))
  {
    assert (l + (body + rest))[..|l|] == l && (l + (body + rest))[|l|..] == body + rest;
    assert (body + rest)[..|body|] == body && (body + rest)[|body|..] == rest;
    hide BeVal;
  }

  lemma ReadLeaf(w: Wire, rest: seq<byte>, utf8: seq<byte> -> bool)
    requires Wf(w) && w.Leaf? && (IsText(w.h) ==> utf8(w.body))
    ensures Read(Encode(w) + rest, utf8) == Got(ValueOf(w), rest) && !Incomplete(ValueOf(w))
  {
    hide *;
    LeafIs(w);
    var cl := ClassOf(w.h);
    var l := BeBytes(|w.body| - cl.extra, cl.width);
    Assoc([w.h], l + w.body, rest);
    Assoc(l, w.body, rest);
    ShapeAgrees(w.h);
    BeValBytes(|w.body| - cl.extra, cl.width);
    ReadHeadOf(w.h, l + (w.body + rest), cl.width, cl.extra, utf8);
    ScalarExact(w.h, cl.extra, l, w.body, rest, utf8);
  }

  // ---- whole encodings

  lemma {:induction false} ReadComplete(w: Wire, rest: seq<byte>, utf8: seq<byte> -> bool)
    requires Plain(w, utf8)
    ensures Read(Encode(w) + rest, utf8) == Got(ValueOf(w), rest) && !Incomplete(ValueOf(w))
    decreases w, 0
  {
    if w.Leaf? {
      ReadLeaf(w, rest, utf8);
    } else {
      ShapeAgrees(w.h);
      assert Encode(w) + rest == [w.h] + BeBytes(w.n, ClassOf(w.h).width) + (EncodeAll(w.elems) + rest);
      ReadNode(w.h, w.n, EncodeAll(w.elems) + rest, utf8);
      if IsList(w.h) {
        ReadListComplete(w.elems, rest, utf8);
        assert w.n == |w.elems|;
      } else {
        assert [] + Evens(ValuesOf(w.elems)) == Evens(ValuesOf(w.elems));
        assert [] + Odds(ValuesOf(w.elems)) == Odds(ValuesOf(w.elems));
        ReadPairsComplete(w.elems, w.n, rest, [], [], utf8);
      }
      hide ClassOf, Shape, BeBytes, Encode, Read;
    }
  }

  lemma {:induction false} ReadListComplete(ws: seq<Wire>, rest: seq<byte>, utf8: seq<byte> -> bool)
    requires PlainAll(ws, utf8)
    ensures ReadList(EncodeAll(ws) + rest, |ws|, utf8) == GotList(ValuesOf(ws), rest)
    ensures forall i :: 0 <= i < |ws| ==> !Incomplete(ValuesOf(ws)[i])
    decreases ws, 1
  {
    if ws == [] {
      assert [] + rest == rest;
    } else {
      assert EncodeAll(ws) + rest == Encode(ws[0]) + (EncodeAll(ws[1..]) + rest);
      ReadComplete(ws[0], EncodeAll(ws[1..]) + rest, utf8);
      ReadListComplete(ws[1..], rest, utf8);
      hide Encode, Plain, ValueOf, Read;
    }
  }

  lemma {:induction false} ReadPairsComplete(ws: seq<Wire>, n: nat, rest: seq<byte>, keys: seq<Py>, values: seq<Py>,
                                             utf8: seq<byte> -> bool)
    requires |ws| == 2 * n && PlainAll(ws, utf8) && GoodKeys(keys + Evens(ValuesOf(ws)))
    ensures ReadPairs(EncodeAll(ws) + rest, n, keys, values, true, utf8)
         == Got(PDict(keys + Evens(ValuesOf(ws)), values + Odds(ValuesOf(ws))), rest)
    decreases ws, 1
  {
    hide *;
    if n == 0 {
      NoPairs(ws, rest, keys, values, utf8);
    } else {
      var k, v := ValueOf(ws[0]), ValueOf(ws[1]);
      var after := EncodeAll(ws[2..]) + rest;
      PlainPair(ws, utf8);
      FirstPairThen(ws, rest);
      ValuesPair(ws, keys, values);
      ReadComplete(ws[0], Encode(ws[1]) + after, utf8);
      ReadComplete(ws[1], after, utf8);
      NewKey(keys, k, Evens(ValuesOf(ws[2..])));
      ReadPairsStep(EncodeAll(ws) + rest, n, keys, values, true, utf8, k, Encode(ws[1]) + after, v, after);
      ReadPairsComplete(ws[2..], n - 1, rest, keys + [k], values + [v], utf8);
    }
  }

  lemma NoPairs(ws: seq<Wire>, rest: seq<byte>, keys: seq<Py>, values: seq<Py>, utf8: seq<byte> -> bool)
    requires ws == []
    ensures ReadPairs(EncodeAll(ws) + rest, 0, keys, values, true, utf8)
         == Got(PDict(keys + Evens(ValuesOf(ws)), values + Odds(ValuesOf(ws))), rest)
  {
    assert [] + rest == rest && keys + [] == keys && values + [] == values;
    assert Evens(ValuesOf(ws)) == [] && Odds(ValuesOf(ws)) == [];
  }

  lemma PlainPair(ws: seq<Wire>, utf8: seq<byte> -> bool)
    requires |ws| >= 2 && PlainAll(ws, utf8)
    ensures Plain(ws[0], utf8) && Plain(ws[1], utf8) && PlainAll(ws[2..], utf8)
  {
  }

  lemma ValuesPair(ws: seq<Wire>, keys: seq<Py>, values: seq<Py>)
    requires |ws| >= 2
    ensures keys + Evens(ValuesOf(ws)) == (keys + [ValueOf(ws[0])]) + Evens(ValuesOf(ws[2..]))
    ensures values + Odds(ValuesOf(ws)) == (values + [ValueOf(ws[1])]) + Odds(ValuesOf(ws[2..]))
  {
    FirstValues(ws);
    EvensOdds(ValuesOf(ws), keys, values);
  }

  lemma FirstValues(ws: seq<Wire>)
    requires |ws| >= 2
    ensures |ValuesOf(ws)| >= 2 && ValuesOf(ws)[0] == ValueOf(ws[0]) && ValuesOf(ws)[1] == ValueOf(ws[1])
    ensures ValuesOf(ws)[2..] == ValuesOf(ws[2..])
  {
    assert ws[1..][0] == ws[1] && ws[1..][1..] == ws[2..];
    assert ValuesOf(ws) == [ValueOf(ws[0])] + ValuesOf(ws[1..]);
    assert ValuesOf(ws[1..]) == [ValueOf(ws[1])] + ValuesOf(ws[2..]);
    hide *;
  }

  lemma EvensOdds(vs: seq<Py>, keys: seq<Py>, values: seq<Py>)
    requires |vs| >= 2
    ensures keys + Evens(vs) == (keys + [vs[0]]) + Evens(vs[2..])
    ensures values + Odds(vs) == (values + [vs[1]]) + Odds(vs[2..])
  {
    assert Evens(vs) == [vs[0]] + Evens(vs[2..]);
    assert Odds(vs) == [vs[1]] + Odds(vs[2..]);
    hide *;
    AssocPy(keys, [vs[0]], Evens(vs[2..]));
    AssocPy(values, [vs[1]], Odds(vs[2..]));
  }

  lemma AssocPy(a: seq<Py>, b: seq<Py>, c: seq<Py>)
    ensures (a + b) + c == a + (b + c)
  {
  }

  lemma ReadPairsStep(s: seq<byte>, n: nat, keys: seq<Py>, values: seq<Py>, whole: bool, utf8: seq<byte> -> bool,
                      k: Py, mid: seq<byte>, v: Py, rest: seq<byte>)
    requires n > 0 && Read(s, utf8) == Got(k, mid) && Read(mid, utf8) == Got(v, rest) && Hashable(k)
    ensures ReadPairs(s, n, keys, values, whole, utf8)
         == ReadPairs(rest, n - 1, keys + [k], values + [v],
                      whole && !Incomplete(k) && !Incomplete(v) && !KeyIn(k, keys), utf8)
  {
    hide Read, Incomplete, KeyIn;
  }

  lemma NewKey(keys: seq<Py>, k: Py, more: seq<Py>)
    requires GoodKeys((keys + [k]) + more)
    ensures Hashable(k) && !KeyIn(k, keys) && (k.PStr? || k.PInt?)
  {
    var all := (keys + [k]) + more;
    assert all[|keys|] == k;
    forall i | 0 <= i < |keys| ensures !SameKey(k, keys[i]) {
      assert all[i] == keys[i];
    }
  }

  // ---- encodings cut short

  /** The reader met the end of the bytes inside the value. */
  predicate RanOut(o: Out) {
    o.Got? && o.rest == [] && Incomplete(o.v)
  }

  lemma ReadNothing(utf8: seq<byte> -> bool)
    ensures Read([], utf8) == Got(Short, [])
  {
  }

  lemma ReadLeafCut(w: Wire, m: nat, utf8: seq<byte> -> bool)
    requires Wf(w) && w.Leaf? && 0 < m < |Encode(w)|
    ensures Read(Encode(w)[..m], utf8) == Got(Short, [])
  {
    hide ClassOf, Shape, BeVal, BeBytes, Encode, Read, Wf;
    LeafIs(w);
    var cl := ClassOf(w.h);
    var l := BeBytes(|w.body| - cl.extra, cl.width);
    var s := Encode(w)[..m];
    var r := (l + w.body)[..m - 1];
    assert s == [w.h] + r;
    ShapeAgrees(w.h);
    BeValBytes(|w.body| - cl.extra, cl.width);
    ReadHeadOf(w.h, r, cl.width, cl.extra, utf8);
    if |r| >= cl.width {
      assert r[..cl.width] == l && |r[cl.width..]| < |w.body|;
    }
  }

  lemma LeafIs(w: Wire)
    requires Wf(w) && w.Leaf?
    ensures ClassOf(w.h).Bytes?
    ensures var cl := ClassOf(w.h); var n := |w.body| - cl.extra;
      0 <= n < Pow(256, cl.width) && Encode(w) == [w.h] + (BeBytes(n, cl.width) + w.body)
    ensures ValueOf(w) == Scalar(w.h, w.body)
  {
    hide ClassOf, BeBytes, Scalar;
  }

  /** A cut encoding of a plain value reads as something incomplete, and nothing is left over. */
  lemma {:induction false} ReadCut(w: Wire, m: nat, utf8: seq<byte> -> bool)
    requires Plain(w, utf8) && m < |Encode(w)|
    ensures RanOut(Read(Encode(w)[..m], utf8))
    decreases w, 0
  {
    if m == 0 {
      ReadNothing(utf8);
    } else if w.Leaf? {
      ReadLeafCut(w, m, utf8);
    } else {
      ReadNodeCut(w, m, utf8);
    }
  }

  lemma {:induction false} ReadNodeCut(w: Wire, m: nat, utf8: seq<byte> -> bool)
    requires Plain(w, utf8) && w.Node? && 0 < m < |Encode(w)|
    ensures RanOut(Read(Encode(w)[..m], utf8))
    decreases w.elems, 2
  {
    ShapeAgrees(w.h);
    var width := ClassOf(w.h).width;
    var l, body := BeBytes(w.n, width), EncodeAll(w.elems);
    assert Encode(w) == [w.h] + l + body;
    var s := Encode(w)[..m];
    assert PlainAll(w.elems, utf8) && (IsList(w.h) || GoodKeys(Evens(ValuesOf(w.elems))));
    assert |w.elems| == if IsList(w.h) then w.n else 2 * w.n;
    if m - 1 < width {
      HeaderCut(w.h, s, utf8);
    } else {
      var p := m - 1 - width;
      assert s == [w.h] + l + body[..p];
      ReadNode(w.h, w.n, body[..p], utf8);
      hide *;
      if IsList(w.h) {
        ReadListCut(w.elems, p, utf8);
        ListIncomplete(w.h, w.n, body[..p], utf8);
      } else {
        PrefixedKeys(Evens(ValuesOf(w.elems)));
        ReadPairsCut(w.elems, w.n, p, [], [], utf8);
        PairsIncomplete(w.h, w.n, body[..p], utf8);
      }
    }
  }

  lemma PrefixedKeys(keys: seq<Py>)
    requires GoodKeys(keys)
    ensures GoodKeys([] + keys)
  {
    assert [] + keys == keys;
  }

  lemma HeaderCut(h: byte, s: seq<byte>, utf8: seq<byte> -> bool)
    requires ClassOf(h).Elements? && 0 < |s| < 1 + ClassOf(h).width && s[0] == h
    ensures RanOut(Read(s, utf8))
  {
    ShapeAgrees(h);
    hide ClassOf, Shape;
  }

  ghost predicate ListRanOut(o: OutList) {
    o.GotList? && o.rest == [] && exists i :: 0 <= i < |o.es| && Incomplete(o.es[i])
  }

  lemma ListIncomplete(h: byte, n: nat, r: seq<byte>, utf8: seq<byte> -> bool)
    requires IsList(h) && ListRanOut(ReadList(r, n, utf8))
    ensures RanOut(ReadContainer(h, n, r, utf8))
  {
  }

  lemma PairsIncomplete(h: byte, n: nat, r: seq<byte>, utf8: seq<byte> -> bool)
    requires !IsList(h) && ReadPairs(r, n, [], [], true, utf8) == Got(Short, [])
    ensures RanOut(ReadContainer(h, n, r, utf8))
  {
  }

  lemma {:induction false} ReadListCut(ws: seq<Wire>, m: nat, utf8: seq<byte> -> bool)
    requires PlainAll(ws, utf8) && m < |EncodeAll(ws)|
    ensures ListRanOut(ReadList(EncodeAll(ws)[..m], |ws|, utf8))
    decreases ws, 1
  {
    hide *;
    NonEmpty(ws);
    EncodeFirst(ws);
    PlainFirst(ws, utf8);
    var e, tail := Encode(ws[0]), EncodeAll(ws[1..]);
    var s := EncodeAll(ws)[..m];
    if m < |e| {
      assert s == e[..m];
      ReadCut(ws[0], m, utf8);
      ListOfNothing(|ws| - 1, utf8);
      ListFirstRanOut(s, |ws|, utf8);
    } else {
      assert s == e + tail[..m - |e|];
      ReadComplete(ws[0], tail[..m - |e|], utf8);
      ReadListCut(ws[1..], m - |e|, utf8);
      ListLaterRanOut(s, |ws|, utf8);
    }
  }

  lemma PlainFirst(ws: seq<Wire>, utf8: seq<byte> -> bool)
    requires |ws| >= 1 && PlainAll(ws, utf8)
    ensures Plain(ws[0], utf8) && PlainAll(ws[1..], utf8)
  {
  }

  lemma {:induction false} ListOfNothing(n: nat, utf8: seq<byte> -> bool)
    ensures ReadList([], n, utf8).GotList? && ReadList([], n, utf8).rest == []
  {
    if n > 0 {
      ListOfNothing(n - 1, utf8);
    }
  }

  lemma ListFirstRanOut(s: seq<byte>, n: nat, utf8: seq<byte> -> bool)
    requires n > 0 && RanOut(Read(s, utf8))
    requires ReadList([], n - 1, utf8).GotList? && ReadList([], n - 1, utf8).rest == []
    ensures ListRanOut(ReadList(s, n, utf8))
  {
    var o := ReadList(s, n, utf8);
    assert o.es[0] == Read(s, utf8).v;
    hide Read;
  }

  lemma ListLaterRanOut(s: seq<byte>, n: nat, utf8: seq<byte> -> bool)
    requires n > 0 && Read(s, utf8).Got? && ListRanOut(ReadList(Read(s, utf8).rest, n - 1, utf8))
    ensures ListRanOut(ReadList(s, n, utf8))
  {
    var t, o := ReadList(Read(s, utf8).rest, n - 1, utf8), ReadList(s, n, utf8);
    var i :| 0 <= i < |t.es| && Incomplete(t.es[i]);
    assert o.es[i + 1] == t.es[i];
    hide Read;
  }

  // ---- maps cut short

  /** Once a map is not whole it stays so, and running out of bytes leaves it Short. */
  lemma {:induction false} PairsOfNothing(n: nat, keys: seq<Py>, values: seq<Py>, utf8: seq<byte> -> bool)
    ensures ReadPairs([], n, keys, values, false, utf8) == Got(Short, [])
    decreases n
  {
    if n > 0 {
      PairsOfNothing(n - 1, keys + [Short], values + [Short], utf8);
    }
  }

  lemma {:induction false} ReadPairsCut(ws: seq<Wire>, n: nat, m: nat, keys: seq<Py>, values: seq<Py>,
                                        utf8: seq<byte> -> bool)
    requires |ws| == 2 * n && PlainAll(ws, utf8) && GoodKeys(keys + Evens(ValuesOf(ws))) && m < |EncodeAll(ws)|
    ensures ReadPairs(EncodeAll(ws)[..m], n, keys, values, true, utf8) == Got(Short, [])
    decreases ws, 1
  {
    hide *;
    NonEmpty(ws);
    PlainPair(ws, utf8);
    EncodePair(ws);
    ValuesPair(ws, keys, values);
    var e0, e1, tail := Encode(ws[0]), Encode(ws[1]), EncodeAll(ws[2..]);
    var s, k, v := EncodeAll(ws)[..m], ValueOf(ws[0]), ValueOf(ws[1]);
    NewKey(keys, k, Evens(ValuesOf(ws[2..])));
    if m < |e0| {
      assert s == e0[..m];
      KeyCut(ws[0], m, utf8);
      ReadNothing(utf8);
      NotWhole(s, n, keys, values, utf8, Short, [], Short);
    } else {
      var r := (e1 + tail)[..m - |e0|];
      assert s == e0 + r;
      ReadComplete(ws[0], r, utf8);
      if |r| < |e1| {
        assert r == e1[..|r|];
        ReadCut(ws[1], |r|, utf8);
        RanOutIs(r, utf8);
        NotWhole(s, n, keys, values, utf8, k, r, Read(r, utf8).v);
      } else {
        var t := tail[..|r| - |e1|];
        assert r == e1 + t;
        ReadComplete(ws[1], t, utf8);
        ReadPairsStep(s, n, keys, values, true, utf8, k, r, v, t);
        ReadPairsCut(ws[2..], n - 1, |t|, keys + [k], values + [v], utf8);
      }
    }
  }

  lemma RanOutIs(r: seq<byte>, utf8: seq<byte> -> bool)
    requires RanOut(Read(r, utf8))
    ensures Read(r, utf8) == Got(Read(r, utf8).v, []) && Incomplete(Read(r, utf8).v)
  {
  }

  /** A pair that ran out, in its key or in its value, leaves the map Short. */
  lemma NotWhole(s: seq<byte>, n: nat, keys: seq<Py>, values: seq<Py>, utf8: seq<byte> -> bool,
                 k: Py, mid: seq<byte>, v: Py)
    requires n > 0 && Read(s, utf8) == Got(k, mid) && Read(mid, utf8) == Got(v, []) && Hashable(k)
    requires Incomplete(k) || Incomplete(v)
    ensures ReadPairs(s, n, keys, values, true, utf8) == Got(Short, [])
  {
    hide *;
    ReadPairsStep(s, n, keys, values, true, utf8, k, mid, v, []);
    PairsOfNothing(n - 1, keys + [k], values + [v], utf8);
  }

  /** A key is a scalar, and a cut scalar reads as Short. */
  lemma KeyCut(w: Wire, m: nat, utf8: seq<byte> -> bool)
    requires Plain(w, utf8) && m < |Encode(w)| && (ValueOf(w).PStr? || ValueOf(w).PInt?)
    ensures Read(Encode(w)[..m], utf8) == Got(Short, []) && Incomplete(Short) && Hashable(Short)
  {
    assert w.Leaf?;
    if m == 0 {
      ReadNothing(utf8);
    } else {
      ReadLeafCut(w, m, utf8);
    }
  }

  // ---- the two readers agree

  /** On every plain value both readers consume exactly the encoding; on every strict prefix both refuse. */
  lemma ReadersAgree(w: Wire, rest: seq<byte>, utf8: seq<byte> -> bool)
    requires Plain(w, utf8)
    ensures Skip(Cur(Encode(w) + rest, false)) == Cur(rest, false)
    ensures Read(Encode(w) + rest, utf8) == Got(ValueOf(w), rest) && !Incomplete(ValueOf(w))
    ensures forall m :: 0 <= m < |Encode(w)| ==>
      Skip(Cur(Encode(w)[..m], false)).bad && RanOut(Read(Encode(w)[..m], utf8))
  {
    PlainIsWf(w, utf8);
    hide *;
    SkipComplete(w, rest);
    ReadComplete(w, rest, utf8);
    forall m | 0 <= m < |Encode(w)|
      ensures Skip(Cur(Encode(w)[..m], false)).bad && RanOut(Read(Encode(w)[..m], utf8))
    {
      PrefixUnreadable(w, m);
      ReadCut(w, m, utf8);
    }
  }

  lemma PlainIsWf(w: Wire, utf8: seq<byte> -> bool)
    requires Plain(w, utf8)
    ensures Wf(w)
  {
  }
}
