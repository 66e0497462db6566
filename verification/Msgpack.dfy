/** The msgpack cursor: what stepping over one value consumes, and which bytes that is. */
module Msgpack {
  import opened Arith
  import opened Wrappers
  import opened BigEndian

  // ---- the cursor as a value

  /** What is left to read, and whether a read has already failed. */
  datatype Cur = Cur(rest: seq<byte>, bad: bool)

  function Head(c: Cur): (Cur, byte) {
    if c.bad || c.rest == [] then (c.(bad := true), 0xc1) else (Cur(c.rest[1..], false), c.rest[0])
  }

  function Take(c: Cur, n: nat): (Cur, Option<seq<byte>>) {
    if c.bad || |c.rest| < n then (c.(bad := true), None) else (Cur(c.rest[n..], false), Some(c.rest[..n]))
  }

  function Be(p: Option<seq<byte>>): nat {
    match p
    case None => 0
    case Some(s) => BeVal(s)
  }

  /** What a head byte announces. Bytes: a body of extra bytes and as many more as the width length bytes
      say. Elements: a count, in the head or in the width bytes, of values or of pairs of values. */
  datatype Class = Bytes(width: nat, extra: nat) | Elements(width: nat, count: nat, paired: bool) | Refused

  function Total(paired: bool, n: nat): nat {
    if paired then 2 * n else n
  }

  function ClassOf(h: byte): Class {
    if h < 0x80 || h >= 0xe0 then Bytes(0, 0)
    else if h == 0xc0 || h == 0xc2 || h == 0xc3 then Bytes(0, 0)
    else if 0xa0 <= h < 0xc0 then Bytes(0, h - 0xa0)
    else if h == 0xcc || h == 0xd0 then Bytes(0, 1)
    else if h == 0xcd || h == 0xd1 then Bytes(0, 2)
    else if h == 0xce || h == 0xd2 || h == 0xca then Bytes(0, 4)
    else if h == 0xcf || h == 0xd3 || h == 0xcb then Bytes(0, 8)
    else if h == 0xc4 || h == 0xd9 then Bytes(1, 0)
    else if h == 0xc5 || h == 0xda then Bytes(2, 0)
    else if 0xd4 <= h <= 0xd8 then Bytes(0, 1 + FixExt(h))
    else if h == 0xc7 then Bytes(1, 1)
    else if h == 0xc8 then Bytes(2, 1)
    else if h < 0x90 then Elements(0, h - 0x80, true)
    else if h < 0xa0 then Elements(0, h - 0x90, false)
    else if h == 0xdc then Elements(2, 0, false)
    else if h == 0xde then Elements(2, 0, true)
    else Refused
  }

  /** The body of a fixext value: a power of two. */
  function FixExt(h: byte): nat {
    if h == 0xd4 then 1 else if h == 0xd5 then 2 else if h == 0xd6 then 4 else if h == 0xd7 then 8 else 16
  }

  /** The cursor after the value whose head h has just been read. */
  function SkipHead(c: Cur, h: byte): (r: Cur)
    ensures |r.rest| <= |c.rest|
    decreases |c.rest|, 1, 0
  {
    match ClassOf(h)
    case Refused => c.(bad := true)
    case Bytes(width, extra) =>
      var (c1, l) := Take(c, width);
      Take(c1, extra + Be(l)).0
    case Elements(width, count, paired) =>
      var (c1, l) := Take(c, width);
      SkipMany(c1, Total(paired, if width == 0 then count else Be(l)))
  }

  /** The cursor after n values. */
  function SkipMany(c: Cur, n: nat): (r: Cur)
    ensures |r.rest| <= |c.rest|
    decreases |c.rest|, 0, n
  {
    if n == 0 || c.bad then c
    else if c.rest == [] then c.(bad := true)
    else
      var (c1, h) := Head(c);
      SkipMany(SkipHead(c1, h), n - 1)
  }

  function Skip(c: Cur): Cur {
    var (c1, h) := Head(c);
    SkipHead(c1, h)
  }

  // ---- the grammar

  /** A value as it is written: the head byte fixes the width class, so encodings are kept apart. */
  datatype Wire = Leaf(h: byte, body: seq<byte>) | Node(h: byte, n: nat, elems: seq<Wire>)

  ghost predicate Wf(w: Wire)
    decreases w
  {
    match w
    case Leaf(h, body) =>
      ClassOf(h).Bytes? && |body| >= ClassOf(h).extra && |body| - ClassOf(h).extra < Pow(256, ClassOf(h).width)
    case Node(h, n, elems) =>
      ClassOf(h).Elements? && WfAll(elems) && |elems| == Total(ClassOf(h).paired, n)
      && (if ClassOf(h).width == 0 then n == ClassOf(h).count else n < Pow(256, ClassOf(h).width))
  }

  ghost predicate WfAll(ws: seq<Wire>)
    decreases ws
  {
    forall i :: 0 <= i < |ws| ==> Wf(ws[i])
  }

  function Encode(w: Wire): seq<byte>
    decreases w, 0
  {
    match w
    case Leaf(h, body) =>
      (match ClassOf(h)
       case Bytes(width, extra) =>
         [h] + BeBytes(if |body| >= extra then |body| - extra else 0, width) + body
       case _ => [h])
    case Node(h, n, elems) =>
      (match ClassOf(h)
       case Elements(width, count, paired) => [h] + BeBytes(n, width) + EncodeAll(elems)
       case _ => [h])
  }

  function EncodeAll(ws: seq<Wire>): seq<byte>
    decreases ws, 1
  {
    if ws == [] then [] else Encode(ws[0]) + EncodeAll(ws[1..])
  }

  // ---- complete: every encoding is stepped over exactly

  lemma TakeExact(c: Cur, s: seq<byte>, rest: seq<byte>)
    requires c == Cur(s + rest, false)
    ensures Take(c, |s|) == (Cur(rest, false), Some(s))
  {
    assert (s + rest)[|s|..] == rest && (s + rest)[..|s|] == s;
  }

  lemma HeadExact(h: byte, s: seq<byte>)
    ensures Head(Cur([h] + s, false)) == (Cur(s, false), h)
  {
    assert ([h] + s)[1..] == s;
  }

  /** The count a node may have is the count its header can say. */
  lemma NodeCount(w: Wire)
    requires Wf(w) && w.Node?
    ensures var cl := ClassOf(w.h);
      cl.Elements? && (if cl.width == 0 then cl.count else BeVal(BeBytes(w.n, cl.width))) == w.n
  {
    hide ClassOf;
    if ClassOf(w.h).width > 0 {
      BeValBytes(w.n, ClassOf(w.h).width);
    }
  }

  /** On an encoding followed by anything, the cursor stops exactly at what follows. */
  lemma {:induction false} SkipComplete(w: Wire, rest: seq<byte>)
    requires Wf(w)
    ensures Skip(Cur(Encode(w) + rest, false)) == Cur(rest, false)
    decreases w, 0
  {
    hide ClassOf, BeVal, BeBytes, Pow;
    match w
    case Leaf(h, body) =>
      var cl := ClassOf(h);
      var l := BeBytes(|body| - cl.extra, cl.width);
      assert Encode(w) + rest == [h] + (l + (body + rest));
      HeadExact(h, l + (body + rest));
      TakeExact(Cur(l + (body + rest), false), l, body + rest);
      BeValBytes(|body| - cl.extra, cl.width);
      TakeExact(Cur(body + rest, false), body, rest);
    case Node(h, n, elems) =>
      var cl := ClassOf(h);
      NodeCount(w);
      var l := BeBytes(n, cl.width);
      assert Encode(w) + rest == [h] + (l + (EncodeAll(elems) + rest));
      HeadExact(h, l + (EncodeAll(elems) + rest));
      TakeExact(Cur(l + (EncodeAll(elems) + rest), false), l, EncodeAll(elems) + rest);
      SkipManyComplete(elems, rest);
  }

  lemma {:induction false} SkipManyComplete(ws: seq<Wire>, rest: seq<byte>)
    requires WfAll(ws)
    ensures SkipMany(Cur(EncodeAll(ws) + rest, false), |ws|) == Cur(rest, false)
    decreases ws, 1
  {
    hide *;
    if ws == [] {
      ManyNone(ws, rest);
    } else {
      ManyFirst(ws, rest);
      SkipComplete(ws[0], EncodeAll(ws[1..]) + rest);
      SkipManyComplete(ws[1..], rest);
    }
  }

  lemma ManyNone(ws: seq<Wire>, rest: seq<byte>)
    requires ws == []
    ensures SkipMany(Cur(EncodeAll(ws) + rest, false), 0) == Cur(rest, false)
  {
    assert [] + rest == rest;
  }

  lemma StartsNonempty(w: Wire)
    ensures Encode(w) != []
  {
    hide ClassOf, BeBytes;
  }

  lemma ManyFirst(ws: seq<Wire>, rest: seq<byte>)
    requires WfAll(ws) && ws != []
    ensures Wf(ws[0]) && WfAll(ws[1..])
    ensures EncodeAll(ws) + rest == Encode(ws[0]) + (EncodeAll(ws[1..]) + rest)
    ensures var c := Cur(EncodeAll(ws) + rest, false); SkipMany(c, |ws|) == SkipMany(Skip(c), |ws| - 1)
  {
    hide *;
    WfFirst(ws);
    EncodeFirst(ws);
    StartsNonempty(ws[0]);
    Assoc(Encode(ws[0]), EncodeAll(ws[1..]), rest);
    ManyStep(Cur(EncodeAll(ws) + rest, false), |ws|);
  }

  lemma EncodeFirst(ws: seq<Wire>)
    requires |ws| >= 1
    ensures EncodeAll(ws) == Encode(ws[0]) + EncodeAll(ws[1..])
  {
  }

  lemma WfFirst(ws: seq<Wire>)
    requires WfAll(ws) && ws != []
    ensures Wf(ws[0]) && WfAll(ws[1..])
  {
    hide Wf;
  }

  lemma ManyStep(c: Cur, n: nat)
    requires n > 0 && !c.bad && c.rest != []
    ensures SkipMany(c, n) == SkipMany(Skip(c), n - 1)
  {
    hide SkipHead;
  }

  // ---- sound: what is stepped over is an encoding

  lemma TakeSound(c: Cur, n: nat)
    requires !Take(c, n).0.bad
    ensures !c.bad && Take(c, n).1.Some? && |Take(c, n).1.value| == n
      && c.rest == Take(c, n).1.value + Take(c, n).0.rest
  {
  }

  /** Whenever skipping ends not bad, the bytes consumed are the encoding of some value. */
  lemma {:induction false} SkipSound(c: Cur) returns (w: Wire)
    requires !Skip(c).bad
    ensures Wf(w) && !c.bad && c.rest == Encode(w) + Skip(c).rest
    decreases |c.rest|, 0
  {
    hide Wf, Encode, SkipHead;
    var (c1, h) := Head(c);
    if c.bad || c.rest == [] {
      BadStays(c1, h);
    }
    assert c.rest == [h] + c1.rest;
    w := SkipHeadSound(c1, h);
    assert [h] + (Encode(w)[1..] + Skip(c).rest) == ([h] + Encode(w)[1..]) + Skip(c).rest;
  }

  lemma {:induction false} BadStays(c: Cur, h: byte)
    requires c.bad
    ensures SkipHead(c, h).bad && forall n :: SkipMany(c, n).bad
  {
  }

  lemma {:induction false} SkipHeadSound(c: Cur, h: byte) returns (w: Wire)
    requires !SkipHead(c, h).bad && !c.bad
    ensures Wf(w) && |Encode(w)| > 0 && Encode(w)[0] == h && c.rest == Encode(w)[1..] + SkipHead(c, h).rest
    decreases |c.rest|, 2
  {
    assert ClassOf(h).Bytes? ==> ClassOf(h).width <= 2;
    assert ClassOf(h).Elements? ==> ClassOf(h).width in {0, 2};
    hide ClassOf, BeVal, BeBytes, Pow;
    var cl := ClassOf(h);
    if cl.Bytes? {
      w := BytesSound(c, h);
    } else {
      var (c1, l) := Take(c, cl.width);
      var n := if cl.width == 0 then cl.count else Be(l);
      var total := Total(cl.paired, n);
      assert SkipHead(c, h) == SkipMany(c1, total);
      ManyStays(c1, total);
      TakeSound(c, cl.width);
      var ws := SkipManySound(c1, total);
      w := Node(h, n, ws);
      NodeSound(w, l.value);
      NodeSplit(c, w, l.value, c1, total);
    }
  }

  lemma ManyStays(c: Cur, n: nat)
    requires !SkipMany(c, n).bad
    ensures !c.bad
  {
  }

  lemma NodeSplit(c: Cur, w: Wire, l: seq<byte>, c1: Cur, n: nat)
    requires w.Node? && Encode(w) == [w.h] + l + EncodeAll(w.elems)
    requires c.rest == l + c1.rest && c1.rest == EncodeAll(w.elems) + SkipMany(c1, n).rest
    ensures Encode(w)[0] == w.h && c.rest == Encode(w)[1..] + SkipMany(c1, n).rest
  {
    hide *;
    var e, r := EncodeAll(w.elems), SkipMany(c1, n).rest;
    assert ([w.h] + l + e)[1..] == l + e;
    assert l + (e + r) == (l + e) + r;
  }

  lemma NodeSound(w: Wire, l: seq<byte>)
    requires w.Node? && ClassOf(w.h).Elements? && WfAll(w.elems) && |l| == ClassOf(w.h).width
    requires w.n == (if ClassOf(w.h).width == 0 then ClassOf(w.h).count else BeVal(l))
    requires |w.elems| == Total(ClassOf(w.h).paired, w.n)
    ensures Wf(w) && Encode(w) == [w.h] + l + EncodeAll(w.elems)
  {
    hide ClassOf, BeVal, BeBytes, Pow;
    BeBytesVal(l);
    BeRange(l);
    assert ClassOf(w.h).width == 0 ==> l == [] == BeBytes(w.n, 0);
  }

  lemma BytesSound(c: Cur, h: byte) returns (w: Wire)
    requires !SkipHead(c, h).bad && !c.bad && ClassOf(h).Bytes?
    ensures Wf(w) && |Encode(w)| > 0 && Encode(w)[0] == h && c.rest == Encode(w)[1..] + SkipHead(c, h).rest
  {
    hide ClassOf, BeVal, BeBytes, Pow;
    var cl := ClassOf(h);
    var (c1, l) := Take(c, cl.width);
    TakeSound(c1, cl.extra + Be(l));
    TakeSound(c, cl.width);
    var body := Take(c1, cl.extra + Be(l)).1.value;
    w := Leaf(h, body);
    BeBytesVal(l.value);
    BeRange(l.value);
    assert Encode(w)[1..] == l.value + body;
  }

  lemma {:induction false} SkipManySound(c: Cur, n: nat) returns (ws: seq<Wire>)
    requires !SkipMany(c, n).bad
    ensures WfAll(ws) && |ws| == n && !c.bad && c.rest == EncodeAll(ws) + SkipMany(c, n).rest
    decreases |c.rest|, 1, n
  {
    hide ClassOf, Encode, SkipHead, Wf;
    if n == 0 {
      ws := [];
    } else {
      var (c1, h) := Head(c);
      var c2 := SkipHead(c1, h);
      if c2.bad {
        BadStays(c2, h);
      }
      var w := SkipHeadSound(c1, h);
      var tail := SkipManySound(c2, n - 1);
      ws := [w] + tail;
      assert c.rest == [h] + c1.rest;
      assert [h] + Encode(w)[1..] == Encode(w);
      assert EncodeAll(ws) == Encode(w) + EncodeAll(tail);
    }
  }

  // ---- no strict prefix reads

  /** A value cut anywhere leaves the cursor bad. */
  lemma PrefixUnreadable(w: Wire, n: nat)
    requires Wf(w) && n < |Encode(w)|
    ensures Skip(Cur(Encode(w)[..n], false)).bad
  {
    hide Encode, Skip, Wf;
    var p, tail := Encode(w)[..n], Encode(w)[n..];
    if !Skip(Cur(p, false)).bad {
      var v := SkipSound(Cur(p, false));
      var rest := Skip(Cur(p, false)).rest;
      assert Encode(v) + (rest + tail) == Encode(w) + [];
      SkipComplete(v, rest + tail);
      SkipComplete(w, []);
    }
  }

  // ---- the first pair of a run of values

  lemma FirstPairThen(ws: seq<Wire>, rest: seq<byte>)
    requires |ws| >= 2
    ensures EncodeAll(ws) + rest == Encode(ws[0]) + (EncodeAll(ws[1..]) + rest)
    ensures EncodeAll(ws[1..]) + rest == Encode(ws[1]) + (EncodeAll(ws[2..]) + rest)
  {
    EncodePair(ws);
    Assoc(Encode(ws[0]), EncodeAll(ws[1..]), rest);
    Assoc(Encode(ws[1]), EncodeAll(ws[2..]), rest);
  }

  lemma Assoc(a: seq<byte>, b: seq<byte>, c: seq<byte>)
    ensures (a + b) + c == a + (b + c)
  {
  }

  lemma EncodePair(ws: seq<Wire>)
    requires |ws| >= 2
    ensures EncodeAll(ws) == Encode(ws[0]) + EncodeAll(ws[1..])
    ensures EncodeAll(ws[1..]) == Encode(ws[1]) + EncodeAll(ws[2..])
  {
    assert ws[1..][0] == ws[1] && ws[1..][1..] == ws[2..];
  }

  lemma FirstPair(ws: seq<Wire>)
    requires |ws| >= 2 && WfAll(ws)
    ensures Wf(ws[0]) && Wf(ws[1]) && WfAll(ws[2..])
  {
  }

  lemma NonEmpty(ws: seq<Wire>)
    requires 0 < |EncodeAll(ws)|
    ensures 0 < |ws|
  {
  }
}
