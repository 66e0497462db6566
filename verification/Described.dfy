/** The advertisement as the generator describes it, and where the decoder says something else. */
module Described {
  import opened Arith
  import opened Wrappers
  import opened Msgpack
  import Cursor
  import opened Advert
  import opened Readers

  /** What a line of an advertisement says. */
  datatype Said = Dash | Decimal(v: int) | Hexed(s: seq<byte>)

  function Bytes(s: seq<byte>): Said {
    if s == [] then Dash else Hexed(s)
  }

  function SaidBy(r: Reading): Said {
    match r
    case Unread => Dash
    case Number(n) => Decimal(n)
    case Octets(s) => Bytes(s)
  }

  /** The names t d n h r o i l q f m. */
  function Letter(j: nat): byte
    requires j < 11
  {
    [0x74, 0x64, 0x6e, 0x68, 0x72, 0x6f, 0x69, 0x6c, 0x71, 0x66, 0x6d][j]
  }

  // ---- describe_resource

  function Get(keys: seq<Py>, values: seq<Py>, k: Py): Option<Py> {
    if keys == [] || values == [] then None
    else if keys[0] == k then Some(values[0])
    else Get(keys[1..], values[1..], k)
  }

  /** num: a number of any width or sign, and a boolean as 1 or 0. */
  function Num(v: Py): Said {
    match v
    case PInt(n) => Decimal(n)
    case PBool(b) => Decimal(if b then 1 else 0)
    case _ => Dash
  }

  /** blob: a binary, and a float, which the reader keeps as its bytes. */
  function Blob(v: Py): Said {
    match v
    case PBytes(s) => Bytes(s)
    case _ => Dash
  }

  /** The j-th field of what was read: of a dictionary by its name, of anything else a dash. */
  function Describe(v: Py, j: nat): Said
    requires j < 11
  {
    match v
    case PDict(keys, values) =>
      (match Get(keys, values, PStr([Letter(j)]))
       case None => Dash
       case Some(x) => if KindOf(j) == UintKind then Num(x) else Blob(x))
    case _ => Dash
  }

  // ---- where the two part

  /** The pair under the j-th name, however its string is written. */
  function Pair(ws: seq<Wire>, j: nat): Option<(Wire, Wire)>
    requires j < 11
  {
    if |ws| < 2 then None
    else if ValueOf(ws[0]) == PStr([Letter(j)]) then Some((ws[0], ws[1]))
    else Pair(ws[2..], j)
  }

  predicate IsNumber(h: byte) {
    h < 0x80 || h >= 0xe0 || h == 0xc2 || h == 0xc3 || 0xcc <= h <= 0xd3
  }

  /** A pair the generator prints and the decoder does not. Under a name in its short form: a boolean, a signed
      number or one of eight bytes where a number belongs, a float where bytes do. Under a name in a longer form:
      whatever the generator prints at all. */
  predicate Parts(key: Wire, x: Wire, number: bool) {
    x.Leaf?
    && if key.h == 0xa1 then
         if number then IsNumber(x.h) && x.h >= 0x80 && x.h !in {0xcc, 0xcd, 0xce} else x.h in {0xca, 0xcb}
       else
         if number then IsNumber(x.h) else x.h in {0xca, 0xcb} || (x.h in {0xc4, 0xc5} && x.body != [])
  }

  // ---- the pair and the two lookups

  lemma {:induction false} GetIsPair(ws: seq<Wire>, n: nat, j: nat)
    requires |ws| == 2 * n && j < 11
    ensures Get(Evens(ValuesOf(ws)), Odds(ValuesOf(ws)), PStr([Letter(j)]))
      == if Pair(ws, j) == None then None else Some(ValueOf(Pair(ws, j).value.1))
  {
    if n > 0 {
      FirstValues(ws);
      GetIsPair(ws[2..], n - 1, j);
      hide ValueOf, ValuesOf, Letter;
    }
  }

  lemma LetterIsSlot(b: byte, j: nat)
    requires j < 11
    ensures Slot(b) == j <==> b == Letter(j)
  {
  }

  /** A key has the j-th name for the decoder exactly when it is that string in its short form. */
  lemma KeyIsName(k: Wire, j: nat)
    requires Wf(k) && j < 11
    ensures Slot(KeyOf(k)) == j <==> ValueOf(k) == PStr([Letter(j)]) && k.h == 0xa1
  {
    LetterIsSlot(KeyOf(k), j);
    LetterIsSlot(0, j);
    assert k.h == 0xa1 ==> ClassOf(k.h) == Msgpack.Bytes(0, 1) && (k.Leaf? ==> |k.body| == 1);
    hide Letter, Slot, ClassOf;
  }

  lemma {:induction false} NoPair(ws: seq<Wire>, n: nat, j: nat)
    requires |ws| == 2 * n && j < 11 && PStr([Letter(j)]) !in Evens(ValuesOf(ws))
    ensures Pair(ws, j) == None
  {
    if n > 0 {
      FirstValues(ws);
      hide ValueOf, ValuesOf, Letter;
      NoPair(ws[2..], n - 1, j);
    }
  }

  /** The decoder's values under a name are the pair's value, when its key is in the short form. */
  lemma {:induction false} ValuesIsPair(ws: seq<Wire>, n: nat, j: nat)
    requires |ws| == 2 * n && j < 11 && WfAll(ws) && GoodKeys(Evens(ValuesOf(ws)))
    ensures Values(ws, j) == match Pair(ws, j)
      case None => []
      case Some((k, x)) => if k.h == 0xa1 then [x] else []
  {
    if n > 0 {
      FirstValues(ws);
      KeyIsName(ws[0], j);
      var keys := Evens(ValuesOf(ws));
      assert keys == [ValueOf(ws[0])] + Evens(ValuesOf(ws[2..]));
      hide ValueOf, ValuesOf, Letter, Slot, KeyOf, Wf;
      TailGood(ValueOf(ws[0]), Evens(ValuesOf(ws[2..])));
      ValuesIsPair(ws[2..], n - 1, j);
      if ValueOf(ws[0]) == PStr([Letter(j)]) {
        NoPair(ws[2..], n - 1, j);
      }
    }
  }

  lemma TailGood(k: Py, keys: seq<Py>)
    requires GoodKeys([k] + keys)
    ensures GoodKeys(keys) && k !in keys
  {
    var all := [k] + keys;
    forall i | 0 <= i < |keys| ensures keys[i] == all[i + 1] && keys[i] != k {
      assert all[0] == k;
    }
  }

  // ---- the agreement

  /** One value under one name. */
  lemma ValueSaid(key: Wire, x: Wire, number: bool)
    requires Wf(x)
    ensures var c := if key.h == 0xa1 then SaidBy(WireField(if number then UintKind else BinKind, x)) else Dash;
      var g := if number then Num(ValueOf(x)) else Blob(ValueOf(x));
      if Parts(key, x, number) then c == Dash && g != Dash else c == g
  {
    if x.Leaf? {
      LeafKinds(x);
    } else {
      assert !ValueOf(x).PInt? && !ValueOf(x).PBool? && !ValueOf(x).PBytes?;
    }
  }

  /** Heads of bytes: the two binaries a packet can hold and the two floats, whose bodies are never empty. */
  lemma LeafKinds(x: Wire)
    requires Wf(x) && x.Leaf?
    ensures ValueOf(x).PBytes? <==> x.h in {0xca, 0xcb, 0xc4, 0xc5}
    ensures x.h in {0xca, 0xcb} ==> x.body != []
  {
  }

  /** The decoder and the generator print the same j-th field of every plain value, unless it is a map whose pair
      under that name is one of those above: then the generator prints it and the decoder a dash. */
  lemma FieldsAgree(w: Wire, utf8: seq<byte> -> bool, j: nat)
    requires Plain(w, utf8) && j < 11
    ensures var c, g := SaidBy(Advertisement(Encode(w))[j]), Describe(ValueOf(w), j);
      if IsMap(w) && Pair(w.elems, j).Some?
         && Parts(Pair(w.elems, j).value.0, Pair(w.elems, j).value.1, KindOf(j) == UintKind)
      then c == Dash && g != Dash
      else c == g
  {
    PlainIsWf(w, utf8);
    if IsMap(w) {
      MapSaid(w, utf8, j);
    } else {
      NotAMap(w);
      hide Advertisement;
    }
  }

  /** What is no map has no fields. */
  lemma NotAMap(w: Wire)
    requires Wf(w) && !IsMap(w)
    ensures Advertisement(Encode(w)) == DASHES && !ValueOf(w).PDict?
  {
    EncodeHead(w);
    NoMapHead(w);
    var (c, pairs) := Cursor.MapHead(Cur(Encode(w), false));
    hide Encode, ClassOf;
    NothingReadsAsDashes(Scan(Located(c, Nothing(), false), pairs).table);
  }

  lemma NoMapHead(w: Wire)
    requires Wf(w) && !IsMap(w)
    ensures !(0x80 <= w.h < 0x90) && w.h != 0xde && !ValueOf(w).PDict?
  {
    if w.Node? {
      ShapeAgrees(w.h);
    }
  }

  lemma NoneTwice(ws: seq<Wire>, n: nat)
    requires |ws| == 2 * n && WfAll(ws) && GoodKeys(Evens(ValuesOf(ws)))
    ensures !SomeTwice(ws)
  {
    hide Values, Pair, WfAll, GoodKeys;
    forall i: nat | i < 11 ensures |Values(ws, i)| <= 1 {
      ValuesIsPair(ws, n, i);
    }
  }

  /** A map through both readers. */
  lemma MapSaid(w: Wire, utf8: seq<byte> -> bool, j: nat)
    requires Plain(w, utf8) && IsMap(w) && j < 11
    ensures var c, g, p := SaidBy(Advertisement(Encode(w))[j]), Describe(ValueOf(w), j), Pair(w.elems, j);
      if p.Some? && Parts(p.value.0, p.value.1, KindOf(j) == UintKind) then c == Dash && g != Dash else c == g
  {
    var ws, p := w.elems, Pair(w.elems, j);
    MapParts(w, utf8);
    MapFieldsExact(w, []);
    assert Encode(w) + [] == Encode(w);
    hide Encode, Advertisement, WireField, ClassOf, Parts, Num, Blob, Letter, ValueOf, ValuesOf, Wf, Pair, Values,
      GoodKeys, WfAll;
    NoneTwice(ws, w.n);
    ValuesIsPair(ws, w.n, j);
    GetIsPair(ws, w.n, j);
    assert Advertisement(Encode(w))[j] == MapField(ws, j);
    if p.Some? {
      PairWf(ws, w.n, j);
      ValueSaid(p.value.0, p.value.1, KindOf(j) == UintKind);
    }
  }

  lemma MapParts(w: Wire, utf8: seq<byte> -> bool)
    requires Plain(w, utf8) && IsMap(w)
    ensures |w.elems| == 2 * w.n && WfAll(w.elems) && GoodKeys(Evens(ValuesOf(w.elems)))
    ensures ValueOf(w) == PDict(Evens(ValuesOf(w.elems)), Odds(ValuesOf(w.elems)))
  {
    ShapeAgrees(w.h);
    hide ClassOf, Shape;
  }

  lemma {:induction false} PairWf(ws: seq<Wire>, n: nat, j: nat)
    requires |ws| == 2 * n && WfAll(ws) && j < 11 && Pair(ws, j).Some?
    ensures Wf(Pair(ws, j).value.1)
  {
    if ValueOf(ws[0]) != PStr([Letter(j)]) {
      hide ValueOf, Letter, Wf;
      PairWf(ws[2..], n - 1, j);
    }
  }
}
