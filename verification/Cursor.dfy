/** struct mp: the cursor as the program updates it, and the typed reads. */
module Cursor {
  import opened Arith
  import opened Wrappers
  import opened BigEndian
  import opened Msgpack

  // ---- typed reads as functions of the cursor

  function Bad(c: Cur): Cur {
    c.(bad := true)
  }

  function Uint(c: Cur): (Cur, nat) {
    var (c1, h) := Head(c);
    if h < 0x80 then (c1, h)
    else if h == 0xcc then (var (c2, p) := Take(c1, 1); (c2, Be(p)))
    else if h == 0xcd then (var (c2, p) := Take(c1, 2); (c2, Be(p)))
    else if h == 0xce then (var (c2, p) := Take(c1, 4); (c2, Be(p)))
    else (Bad(c1), 0)
  }

  /** A byte string, or nil as None. */
  function Bin(c: Cur): (Cur, Option<seq<byte>>) {
    var (c1, h) := Head(c);
    if h == 0xc0 then (c1, None)
    else if h == 0xc4 then (var (c2, l) := Take(c1, 1); Take(c2, Be(l)))
    else if h == 0xc5 then (var (c2, l) := Take(c1, 2); Take(c2, Be(l)))
    else (Bad(c1), None)
  }

  function Double(c: Cur): (Cur, Option<seq<byte>>) {
    var (c1, h) := Head(c);
    Take(if h != 0xcb then Bad(c1) else c1, 8)
  }

  /** An array head: its count when the head byte is one of the short arrays. */
  function ArrayHead(c: Cur): (Cur, nat) {
    var (c1, h) := Head(c);
    (if 0x90 <= h < 0xa0 then c1 else Bad(c1), h % 16)
  }

  /** A map head: its number of pairs. */
  function MapHead(c: Cur): (Cur, nat) {
    var (c1, h) := Head(c);
    if 0x80 <= h < 0x90 then (c1, h % 16)
    else if h == 0xde then (var (c2, p) := Take(c1, 2); (c2, Be(p)))
    else (Bad(c1), 0)
  }

  /** A map key: the byte of a one-byte string, or 0 for every other key. */
  function Key(c: Cur): (Cur, byte) {
    var (c1, h) := Head(c);
    if h != 0xa1 then (SkipHead(c1, h), 0)
    else
      var (c2, p) := Take(c1, 1);
      (c2, if p.Some? then p.value[0] else 0)
  }

  lemma TakeZero(c: Cur)
    ensures Take(c, 0).0 == c && Be(Take(c, 0).1) == 0
  {
  }

  /** The classes of the heads the typed reads accept. */
  lemma TypedHeads()
    ensures forall h: byte :: h < 0x80 ==> ClassOf(h) == Bytes(0, 0)
    ensures ClassOf(0xcc) == Bytes(0, 1) && ClassOf(0xcd) == Bytes(0, 2) && ClassOf(0xce) == Bytes(0, 4)
    ensures ClassOf(0xc0) == Bytes(0, 0) && ClassOf(0xc4) == Bytes(1, 0) && ClassOf(0xc5) == Bytes(2, 0)
    ensures ClassOf(0xcb) == Bytes(0, 8) && ClassOf(0xa1) == Bytes(0, 1)
  {
  }

  /** A value of fixed width is skipped by taking its body. */
  lemma FixedSkips(c: Cur, h: byte, n: nat)
    requires ClassOf(h) == Bytes(0, n)
    ensures SkipHead(c, h) == Take(c, n).0
  {
    TakeZero(c);
  }

  /** A typed read that succeeds leaves the cursor where skipping the value would. */
  lemma TypedReadsSkip(c: Cur)
    ensures !Uint(c).0.bad ==> Uint(c).0 == Skip(c)
    ensures !Bin(c).0.bad ==> Bin(c).0 == Skip(c)
    ensures !Double(c).0.bad ==> Double(c).0 == Skip(c)
    ensures Key(c).0 == Skip(c)
  {
    UintSkips(c);
    BinSkips(c);
    DoubleAndKeySkip(c);
  }

  lemma UintSkips(c: Cur)
    ensures !Uint(c).0.bad ==> Uint(c).0 == Skip(c)
  {
    var (c1, h) := Head(c);
    TypedHeads();
    TakeZero(c1);
    hide ClassOf, Be, SkipHead;
    if h < 0x80 {
      FixedSkips(c1, h, 0);
    } else if h in {0xcc, 0xcd, 0xce} {
      FixedSkips(c1, h, if h == 0xcc then 1 else if h == 0xcd then 2 else 4);
    }
  }

  lemma BinSkips(c: Cur)
    ensures !Bin(c).0.bad ==> Bin(c).0 == Skip(c)
  {
    var (c1, h) := Head(c);
    TypedHeads();
    TakeZero(c1);
    hide ClassOf, Be;
    if h == 0xc0 {
      FixedSkips(c1, h, 0);
    }
  }

  lemma DoubleAndKeySkip(c: Cur)
    ensures !Double(c).0.bad ==> Double(c).0 == Skip(c)
    ensures Key(c).0 == Skip(c)
  {
    var (c1, h) := Head(c);
    TypedHeads();
    hide ClassOf, Be, SkipHead;
    if h == 0xcb {
      FixedSkips(c1, h, 8);
    } else if h == 0xa1 {
      FixedSkips(c1, h, 1);
    }
  }

  /** Bad is sticky: no read clears it, and none moves a bad cursor. */
  lemma BadIsSticky(c: Cur)
    requires c.bad
    ensures Uint(c).0 == c && Bin(c) == (c, None) && Double(c) == (c, None)
    ensures Skip(c) == c && Key(c) == (c, 0) && MapHead(c) == (c, 0) && ArrayHead(c).0 == c
  {
    TakeZero(c);
  }

  // ---- struct mp

  /** The fields of a struct mp assigned to another. */
  datatype Saved = Saved(p: nat, left: nat, bad: bool) {
    function Cursor(data: seq<byte>): Cur
      requires p + left <= |data|
    {
      Cur(data[p..p + left], bad)
    }
  }

  lemma ScalarSkips(c: Cur, h: byte)
    requires ClassOf(h).Bytes?
    ensures var t := Take(c, ClassOf(h).width); SkipHead(c, h) == Take(t.0, ClassOf(h).extra + Be(t.1)).0
  {
    hide ClassOf, Take, Be;
  }

  class Mp {
    const data: seq<byte>
    var p: nat
    var left: nat
    var bad: bool

    ghost predicate Valid()
      reads this
    {
      p + left <= |data|
    }

    ghost function Now(): Cur
      requires Valid()
      reads this
    {
      Cur(data[p..p + left], bad)
    }

    constructor (data: seq<byte>)
      ensures Valid() && this.data == data && Now() == Cur(data, false)
    {
      this.data := data;
      p, left, bad := 0, |data|, false;
    }

    /** A copy of the struct over the same bytes. */
    constructor Restore(data: seq<byte>, s: Saved)
      requires s.p + s.left <= |data|
      ensures Valid() && Now() == s.Cursor(data)
    {
      this.data := data;
      p, left, bad := s.p, s.left, s.bad;
    }

    method ReadHead() returns (h: byte)
      requires Valid()
      modifies this
      ensures Valid() && (Now(), h) == Head(old(Now()))
    {
      if bad || left == 0 {
        bad := true;
        return 0xc1;
      }
      left := left - 1;
      p := p + 1;
      h := data[p - 1];
    }

    method TakeBytes(n: nat) returns (at: Option<seq<byte>>)
      requires Valid()
      modifies this
      ensures Valid() && (Now(), at) == Take(old(Now()), n)
    {
      if bad || left < n {
        bad := true;
        return None;
      }
      at := Some(data[p..p + n]);
      assert data[p..p + left] == at.value + data[p + n..p + left];
      p := p + n;
      left := left - n;
    }

    /** mp_be(mp_take(m, n), n). */
    method TakeNumber(n: nat) returns (v: nat)
      requires Valid()
      modifies this
      ensures Valid() && Now() == Take(old(Now()), n).0 && v == Be(Take(old(Now()), n).1)
    {
      var at := TakeBytes(n);
      if at == None {
        return 0;
      }
      v := 0;
      for i := 0 to |at.value|
        invariant v == BeVal(at.value[..i])
      {
        assert at.value[..i + 1][..i] == at.value[..i];
        v := 256 * v + at.value[i];
      }
      assert at.value[..|at.value|] == at.value;
    }

    /** The first half of mp_skip_head: every value that is not a container. */
    method SkipScalar(h: byte) returns (done: bool)
      requires Valid()
      modifies this
      ensures Valid() && (done <==> ClassOf(h).Bytes?)
      ensures Now() == if done then SkipHead(old(Now()), h) else old(Now())
    {
      hide BeVal, SkipHead, Take, Be;
      TakeZero(Now());
      if ClassOf(h).Bytes? { ScalarSkips(Now(), h); }
      if h < 0x80 || h >= 0xe0 { return true; }
      if h == 0xc0 || h == 0xc2 || h == 0xc3 { return true; }
      if 0xa0 <= h < 0xc0 { var _ := TakeBytes(h % 32); return true; }
      if h == 0xcc || h == 0xd0 { var _ := TakeBytes(1); return true; }
      if h == 0xcd || h == 0xd1 { var _ := TakeBytes(2); return true; }
      if h == 0xce || h == 0xd2 || h == 0xca { var _ := TakeBytes(4); return true; }
      if h == 0xcf || h == 0xd3 || h == 0xcb { var _ := TakeBytes(8); return true; }
      if h == 0xc4 || h == 0xd9 { var n := TakeNumber(1); var _ := TakeBytes(n); return true; }
      if h == 0xc5 || h == 0xda { var n := TakeNumber(2); var _ := TakeBytes(n); return true; }
      if 0xd4 <= h <= 0xd8 { var _ := TakeBytes(1 + FixExt(h)); return true; }
      if h == 0xc7 { var n := TakeNumber(1); var _ := TakeBytes(1 + n); return true; }
      if h == 0xc8 { var n := TakeNumber(2); var _ := TakeBytes(1 + n); return true; }
      return false;
    }

    /** The second half: how many values a container header announces; 0 and a bad cursor for no container. */
    method ReadCount(h: byte) returns (n: nat)
      requires Valid() && !ClassOf(h).Bytes?
      modifies this
      ensures Valid() && left <= old(left)
      ensures SkipHead(old(Now()), h) == SkipMany(Now(), n)
      ensures h == 0xc1 ==> n == 0
    {
      ghost var c := Now();
      TakeZero(c);
      ContainerSkips(c, h);
      hide ClassOf, Be, SkipHead, SkipMany, Take;
      if 0x90 <= h < 0xa0 {
        n := h % 16;
      } else if 0x80 <= h < 0x90 {
        n := 2 * (h % 16);
      } else if h == 0xdc {
        n := TakeNumber(2);
      } else if h == 0xde {
        n := TakeNumber(2);
        n := 2 * n;
      } else {
        bad := true;
        n := 0;
      }
    }

    /** mp_skip_head: step over the value whose head h has been read. */
    method SkipValueHead(h: byte)
      requires Valid()
      modifies this
      ensures Valid() && left <= old(left)
      ensures Now() == SkipHead(old(Now()), h)
      decreases left, if h == 0xc1 then 0 else 1
    {
      hide ClassOf, Take, SkipHead;
      var done := SkipScalar(h);
      if done {
        LeftShrinks(old(Now()), h);
        return;
      }
      var n := ReadCount(h);
      ghost var c, m := Now(), n;
      while n > 0 && !bad
        invariant Valid() && left <= old(left)
        invariant h == 0xc1 ==> n == 0
        invariant SkipMany(Now(), n) == SkipMany(c, m)
      {
        ghost var before := Now();
        SkipManyUnfold(before, n);
        var head := ReadHead();
        SkipValueHead(head);
        n := n - 1;
      }
    }

    /** mp_skip: step over one value. */
    method SkipValue()
      requires Valid()
      modifies this
      ensures Valid() && left <= old(left)
      ensures Now() == Skip(old(Now()))
    {
      var h := ReadHead();
      SkipValueHead(h);
    }

    /** mp_key. */
    method ReadKey() returns (key: byte)
      requires Valid()
      modifies this
      ensures Valid() && (Now(), key) == Key(old(Now()))
    {
      hide SkipHead;
      var h := ReadHead();
      if h != 0xa1 {
        SkipValueHead(h);
        return 0;
      }
      var at := TakeBytes(1);
      key := if at.Some? then at.value[0] else 0;
    }

    /** mp_map. */
    method ReadMap() returns (pairs: nat)
      requires Valid()
      modifies this
      ensures Valid() && (Now(), pairs) == MapHead(old(Now()))
    {
      hide BeVal;
      var h := ReadHead();
      if 0x80 <= h < 0x90 { return h % 16; }
      if h == 0xde {
        pairs := TakeNumber(2);
        return;
      }
      bad := true;
      return 0;
    }

    /** mp_array. */
    method ReadArray() returns (n: nat)
      requires Valid()
      modifies this
      ensures Valid() && (Now(), n) == ArrayHead(old(Now()))
    {
      var h := ReadHead();
      if !(0x90 <= h < 0xa0) {
        bad := true;
      }
      return h % 16;
    }

    /** mp_uint. */
    method ReadUint() returns (v: nat)
      requires Valid()
      modifies this
      ensures Valid() && (Now(), v) == Uint(old(Now()))
    {
      hide BeVal;
      var h := ReadHead();
      if h < 0x80 { return h; }
      if h == 0xcc { v := TakeNumber(1); return; }
      if h == 0xcd { v := TakeNumber(2); return; }
      if h == 0xce { v := TakeNumber(4); return; }
      bad := true;
      return 0;
    }

    /** mp_bin. */
    method ReadBin() returns (at: Option<seq<byte>>)
      requires Valid()
      modifies this
      ensures Valid() && (Now(), at) == Bin(old(Now()))
    {
      hide BeVal;
      var h := ReadHead();
      if h == 0xc0 { return None; }
      if h == 0xc4 { var n := TakeNumber(1); at := TakeBytes(n); return; }
      if h == 0xc5 { var n := TakeNumber(2); at := TakeBytes(n); return; }
      bad := true;
      return None;
    }

    /** mp_double. */
    method ReadDouble() returns (at: Option<seq<byte>>)
      requires Valid()
      modifies this
      ensures Valid() && (Now(), at) == Double(old(Now()))
    {
      var h := ReadHead();
      if h != 0xcb {
        bad := true;
      }
      at := TakeBytes(8);
    }
  }

  lemma ContainerSkips(c: Cur, h: byte)
    requires !ClassOf(h).Bytes?
    ensures |Take(c, 2).0.rest| <= |c.rest| && (forall d :: SkipMany(d, 0) == d)
    ensures SkipHead(c, h) ==
      if 0x90 <= h < 0xa0 then SkipMany(c, h % 16)
      else if 0x80 <= h < 0x90 then SkipMany(c, 2 * (h % 16))
      else if h == 0xdc then SkipMany(Take(c, 2).0, Be(Take(c, 2).1))
      else if h == 0xde then SkipMany(Take(c, 2).0, 2 * Be(Take(c, 2).1))
      else Bad(c)
  {
    TakeZero(c);
    assert ClassOf(h) == if 0x90 <= h < 0xa0 then Elements(0, h % 16, false)
      else if 0x80 <= h < 0x90 then Elements(0, h % 16, true) else if h == 0xdc then Elements(2, 0, false)
        else if h == 0xde then Elements(2, 0, true) else Refused;
    hide ClassOf, Be, SkipMany;
  }

  lemma LeftShrinks(c: Cur, h: byte)
    ensures |SkipHead(c, h).rest| <= |c.rest|
  {
  }

  /** One turn of the loop over a container's elements, the head read at the end of the bytes included. */
  lemma SkipManyUnfold(c: Cur, n: nat)
    requires n > 0 && !c.bad
    ensures var (c1, h) := Head(c);
      SkipMany(c, n) == SkipMany(SkipHead(c1, h), n - 1)
      && (c.rest == [] ==> h == 0xc1 && c1.rest == []) && (c.rest != [] ==> |c1.rest| < |c.rest|)
  {
    if c.rest == [] {
      assert ClassOf(0xc1) == Refused;
    }
  }
}
