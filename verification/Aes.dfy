/** AES: the cipher of FIPS 197, its inverse as the program computes it, CBC and the padding. */
module Aes {
  import opened Gf256
  import opened SBox
  import opened Wrappers

  type State = s: seq<bv8> | |s| == 16 witness seq(16, _ => 0)

  // ---- sections 5.1 and 5.3: the four transformations and their inverses

  function SubBytes(s: State): State {
    seq(16, i requires 0 <= i < 16 => Sub(s[i]))
  }

  function InvSubBytes(s: State): State {
    seq(16, i requires 0 <= i < 16 => InvSub(s[i]))
  }

  /** Row r of column c is byte 4c + r; row r is rotated left by r columns. */
  function Left(i: nat): (j: nat)
    ensures i < 16 ==> j < 16
  {
    i % 4 + 4 * ((i / 4 + i % 4) % 4)
  }

  function Right(i: nat): (j: nat)
    ensures i < 16 ==> j < 16
  {
    i % 4 + 4 * ((i / 4 + 4 - i % 4) % 4)
  }

  function ShiftRows(s: State): State {
    seq(16, i requires 0 <= i < 16 => s[Left(i)])
  }

  function InvShiftRows(s: State): State {
    seq(16, i requires 0 <= i < 16 => s[Right(i)])
  }

  function AddKey(s: State, k: State): State {
    seq(16, i requires 0 <= i < 16 => Add(s[i], k[i]))
  }

  function Sum(a: bv8, b: bv8, c: bv8, d: bv8): bv8 {
    Add(Add(Add(a, b), c), d)
  }

  function Mixed(a: bv8, b: bv8, c: bv8, d: bv8): bv8 {
    Sum(Mul(a, 2), Mul(b, 3), c, d)
  }

  function Unmixed(a: bv8, b: bv8, c: bv8, d: bv8): bv8 {
    Sum(Mul(a, 0x0e), Mul(b, 0x0b), Mul(c, 0x0d), Mul(d, 0x09))
  }

  /** The four bytes of i's column, i's own first and the others below it, the top one after the bottom one. */
  function At(i: nat, k: nat): (j: nat)
    ensures i < 16 ==> j < 16
  {
    i / 4 * 4 + (i % 4 + k) % 4
  }

  function MixColumns(s: State): State {
    seq(16, i requires 0 <= i < 16 => Mixed(s[At(i, 0)], s[At(i, 1)], s[At(i, 2)], s[At(i, 3)]))
  }

  function InvMixColumns(s: State): State {
    seq(16, i requires 0 <= i < 16 => Unmixed(s[At(i, 0)], s[At(i, 1)], s[At(i, 2)], s[At(i, 3)]))
  }

  // ---- each inverse undoes its transformation

  lemma SubBytesBack(s: State)
    ensures InvSubBytes(SubBytes(s)) == s
  {
    hide Sub, InvSub;
    forall i | 0 <= i < 16 ensures InvSubBytes(SubBytes(s))[i] == s[i] {
      SubBack(s[i]);
    }
  }

  lemma RightBack(i: nat)
    requires i < 16
    ensures Left(Right(i)) == i
  {
    var c, r := i / 4, i % 4;
    var d := (c + 4 - r) % 4;
    assert (r + 4 * d) % 4 == r && (r + 4 * d) / 4 == d;
    assert (d + r) % 4 == c;
  }

  lemma ShiftRowsBack(s: State)
    ensures InvShiftRows(ShiftRows(s)) == s
  {
    hide Left, Right;
    forall i | 0 <= i < 16 ensures InvShiftRows(ShiftRows(s))[i] == s[i] {
      RightBack(i);
    }
  }

  lemma AddKeyTwice(s: State, k: State)
    ensures AddKey(AddKey(s, k), k) == s
  {
    hide Add;
    forall i | 0 <= i < 16 ensures AddKey(AddKey(s, k), k)[i] == s[i] {
      AddLaws(s[i], k[i], 0);
    }
  }

  lemma Constants(x: bv8)
    ensures Mul(x, 2) == Xtime(x) && Mul(x, 3) == Add(x, Xtime(x))
  {
    hide Xtime, Add, MulFrom;
    var x1 := Xtime(x); var x2 := Xtime(x1);
    MulNothing(x1, 1);
    MulNothing(x2, 2);
    Unfold(x, 2, 0);
    Unfold(x, 3, 0);
    Unfold(x1, 1, 1);
    AddLaws(x1, 0, 0);
    assert Mul(x, 2) == MulFrom(x, 2, 0) && Mul(x, 3) == MulFrom(x, 3, 0);
  }

  lemma {:induction false} MulNothing(x: bv8, i: nat)
    requires i <= 8
    ensures MulFrom(x, 0, i) == 0
    decreases 8 - i
  {
    hide Xtime, Add;
    AddLaws(0, 0, 0);
    if i < 8 {
      MulNothing(Xtime(x), i + 1);
    }
  }

  lemma Unfold(x: bv8, y: bv8, i: nat)
    requires i < 8
    ensures MulFrom(x, y, i) == Add(if y & 1 == 1 then x else 0, MulFrom(Xtime(x), y >> 1, i + 1))
  {
  }

  /** Products with the four coefficients of the inverse matrix. */
  lemma InvConstants(x: bv8)
    ensures var x1 := Xtime(x); var x2 := Xtime(x1); var x3 := Xtime(x2);
      Mul(x, 0x09) == Add(x, x3) && Mul(x, 0x0b) == Add(x, Add(x1, x3)) && Mul(x, 0x0d) == Add(x, Add(x2, x3))
      && Mul(x, 0x0e) == Add(x1, Add(x2, x3))
  {
    hide Xtime, Add, MulFrom;
    var x1 := Xtime(x); var x2 := Xtime(x1); var x3 := Xtime(x2);
    MulNothing(Xtime(x3), 4);
    Unfold(x3, 1, 3);
    Unfold(x2, 2, 2);
    Unfold(x2, 3, 2);
    Unfold(x1, 4, 1);
    Unfold(x1, 5, 1);
    Unfold(x1, 6, 1);
    Unfold(x1, 7, 1);
    Unfold(x, 0x09, 0);
    Unfold(x, 0x0b, 0);
    Unfold(x, 0x0d, 0);
    Unfold(x, 0x0e, 0);
    AddLaws(x3, 0, 0);
    AddLaws(Add(x1, x3), 0, 0);
    AddLaws(Add(x2, x3), 0, 0);
    AddLaws(Add(x1, Add(x2, x3)), 0, 0);
  }

  // ---- section 5.3.3: the inverse matrix undoes the matrix

  lemma SumAdd(a: bv8, b: bv8, c: bv8, d: bv8, e: bv8, f: bv8, g: bv8, h: bv8)
    ensures Add(Sum(a, b, c, d), Sum(e, f, g, h)) == Sum(Add(a, e), Add(b, f), Add(c, g), Add(d, h))
  {
    hide Add;
    AddFour(Add(Add(a, b), c), d, Add(Add(e, f), g), h);
    AddFour(Add(a, b), c, Add(e, f), g);
    AddFour(a, b, e, f);
  }

  lemma SumTurn(a: bv8, b: bv8, c: bv8, d: bv8)
    ensures Sum(b, c, d, a) == Sum(a, b, c, d)
  {
    hide Add;
    AddLaws(Add(Add(b, c), d), a, 0);
    AddLaws(a, Add(b, c), d);
    AddLaws(a, b, c);
  }

  lemma MulSum(a: bv8, b: bv8, c: bv8, d: bv8, k: bv8)
    ensures Mul(Sum(a, b, c, d), k) == Sum(Mul(a, k), Mul(b, k), Mul(c, k), Mul(d, k))
  {
    hide Add, Mul;
    MulLinear(Add(Add(a, b), c), d, k);
    MulLinear(Add(a, b), c, k);
    MulLinear(a, b, k);
  }

  lemma CancelOwn(a: bv8)
    ensures Sum(Mul(Mul(a, 2), 0x0e), Mul(a, 0x0b), Mul(a, 0x0d), Mul(Mul(a, 3), 0x09)) == a
  {
    hide Mul, Xtime, Add;
    var a1 := Xtime(a); var a2 := Xtime(a1); var a3 := Xtime(a2); var a4 := Xtime(a3);
    Constants(a);
    InvConstants(a);
    InvConstants(a1);
    MulLinear(a, a1, 0x09);
    CancelOwnBits(a, a1, a2, a3, a4);
  }

  lemma CancelOwnBits(a: bv8, a1: bv8, a2: bv8, a3: bv8, a4: bv8)
    ensures Sum(Add(a2, Add(a3, a4)), Add(a, Add(a1, a3)), Add(a, Add(a2, a3)), Add(Add(a, a3), Add(a1, a4))) == a
  {
  }

  lemma CancelNext(b: bv8)
    ensures Sum(Mul(Mul(b, 3), 0x0e), Mul(Mul(b, 2), 0x0b), Mul(b, 0x0d), Mul(b, 0x09)) == 0
  {
    hide Mul, Xtime, Add;
    var b1 := Xtime(b); var b2 := Xtime(b1); var b3 := Xtime(b2); var b4 := Xtime(b3);
    Constants(b);
    InvConstants(b);
    InvConstants(b1);
    MulLinear(b, b1, 0x0e);
    CancelNextBits(b, b1, b2, b3, b4);
  }

  lemma CancelNextBits(b: bv8, b1: bv8, b2: bv8, b3: bv8, b4: bv8)
    ensures Sum(Add(Add(b1, Add(b2, b3)), Add(b2, Add(b3, b4))), Add(b1, Add(b2, b4)), Add(b, Add(b2, b3)), Add(b,
      b3)) == 0
  {
    assert Add(Add(b1, Add(b2, b3)), Add(b2, Add(b3, b4))) == Add(b1, b4);
    hide Add;
    OneTwice(b1, b4, b2);
    OneTwice(b, b3, b2);
    AddLaws(b2, Add(b, Add(b2, b3)), Add(b, b3));
    AddLaws(b2, b2, 0);
  }

  lemma OneTwice(a: bv8, b: bv8, c: bv8)
    ensures Add(Add(a, b), Add(a, Add(c, b))) == c && Add(Add(a, Add(c, b)), Add(a, b)) == c
  {
  }

  lemma CancelAcross(c: bv8)
    ensures Sum(Mul(c, 0x0e), Mul(Mul(c, 3), 0x0b), Mul(Mul(c, 2), 0x0d), Mul(c, 0x09)) == 0
  {
    hide Mul, Xtime, Add;
    var c1 := Xtime(c); var c2 := Xtime(c1); var c3 := Xtime(c2); var c4 := Xtime(c3);
    Constants(c);
    InvConstants(c);
    InvConstants(c1);
    MulLinear(c, c1, 0x0b);
    CancelAcrossBits(c, c1, c2, c3, c4);
  }

  lemma CancelAcrossBits(c: bv8, c1: bv8, c2: bv8, c3: bv8, c4: bv8)
    ensures Sum(Add(c1, Add(c2, c3)), Add(Add(c, Add(c1, c3)), Add(c1, Add(c2, c4))), Add(c1, Add(c3, c4)), Add(c,
      c3)) == 0
  {
    assert Add(Add(c1, Add(c2, c3)), Add(c1, Add(c3, c4))) == Add(c2, c4);
    hide Add;
    var w1, w3, w4 := Add(c1, Add(c2, c3)), Add(c1, Add(c3, c4)), Add(c, c3);
    var w2 := Add(Add(c, Add(c1, c3)), Add(c1, Add(c2, c4)));
    AddLaws(Add(w1, w2), w3, w4);
    AddFour(w1, w2, w3, w4);
    InnerTwice(c, c3, c1, c2, c4);
    AddLaws(c1, c3, 0);
    AddLaws(w4, Add(c2, c4), 0);
    AddLaws(Add(c2, c4), w4, 0);
    AddLaws(Add(c2, c4), 0, 0);
  }

  lemma InnerTwice(a: bv8, b: bv8, c: bv8, d: bv8, e: bv8)
    ensures Add(Add(a, Add(b, c)), Add(c, Add(d, e))) == Add(Add(a, b), Add(d, e))
  {
  }

  lemma CancelLast(d: bv8)
    ensures Sum(Mul(d, 0x0e), Mul(d, 0x0b), Mul(Mul(d, 3), 0x0d), Mul(Mul(d, 2), 0x09)) == 0
  {
    hide Mul, Xtime, Add;
    var d1 := Xtime(d); var d2 := Xtime(d1); var d3 := Xtime(d2); var d4 := Xtime(d3);
    Constants(d);
    InvConstants(d);
    InvConstants(d1);
    MulLinear(d, d1, 0x0d);
    CancelLastBits(d, d1, d2, d3, d4);
  }

  lemma CancelLastBits(d: bv8, d1: bv8, d2: bv8, d3: bv8, d4: bv8)
    ensures Sum(Add(d1, Add(d2, d3)), Add(d, Add(d1, d3)), Add(Add(d, Add(d2, d3)), Add(d1, Add(d3, d4))), Add(d1,
      d4)) == 0
  {
    hide Add;
    var v1, v2, v4 := Add(d1, Add(d2, d3)), Add(d, Add(d1, d3)), Add(d1, d4);
    var v3 := Add(Add(d, Add(d2, d3)), Add(d1, Add(d3, d4)));
    AddLaws(Add(v1, v2), v3, v4);
    AddLaws(d1, d3, d4);
    AddLaws(d3, d1, d4);
    InnerTwice(d, d2, d3, d1, d4);
    EndsMeet(d1, d2, d3, d);
    AddLaws(Add(d, d2), v4, 0);
    AddLaws(Add(d, d2), 0, 0);
  }

  lemma EndsMeet(a: bv8, b: bv8, c: bv8, d: bv8)
    ensures Add(Add(a, Add(b, c)), Add(d, Add(a, c))) == Add(d, b)
  {
  }

  lemma SumOnly(a: bv8)
    ensures Sum(a, 0, 0, 0) == a
  {
  }

  lemma Transpose(a0: bv8, b0: bv8, c0: bv8, d0: bv8, a1: bv8, b1: bv8, c1: bv8, d1: bv8,
                  a2: bv8, b2: bv8, c2: bv8, d2: bv8, a3: bv8, b3: bv8, c3: bv8, d3: bv8)
    ensures Sum(Sum(a0, b0, c0, d0), Sum(b1, c1, d1, a1), Sum(c2, d2, a2, b2), Sum(d3, a3, b3, c3))
         == Sum(Sum(a0, a1, a2, a3), Sum(b0, b1, b2, b3), Sum(c0, c1, c2, c3), Sum(d0, d1, d2, d3))
  {
    hide Add, Sum;
    SumTurn(a1, b1, c1, d1);
    SumTurn(b2, c2, d2, a2);
    SumTurn(a2, b2, c2, d2);
    SumTurn(d3, a3, b3, c3);
    var p, q, r, s := Sum(a0, b0, c0, d0), Sum(a1, b1, c1, d1), Sum(a2, b2, c2, d2), Sum(a3, b3, c3, d3);
    SumMeans(p, q, r, s);
    SumAdd(a0, b0, c0, d0, a1, b1, c1, d1);
    SumAdd(Add(a0, a1), Add(b0, b1), Add(c0, c1), Add(d0, d1), a2, b2, c2, d2);
    SumAdd(Add(Add(a0, a1), a2), Add(Add(b0, b1), b2), Add(Add(c0, c1), c2), Add(Add(d0, d1), d2), a3, b3, c3, d3);
    SumMeans(a0, a1, a2, a3);
    SumMeans(b0, b1, b2, b3);
    SumMeans(c0, c1, c2, c3);
    SumMeans(d0, d1, d2, d3);
  }

  lemma SumMeans(a: bv8, b: bv8, c: bv8, d: bv8)
    ensures Sum(a, b, c, d) == Add(Add(Add(a, b), c), d)
  {
    hide Add;
  }

  lemma AtIs(i: nat, k: nat)
    ensures At(i, k) == 4 * (i / 4) + (i % 4 + k) % 4
  {
  }

  lemma PlaceIs(c: nat, j: nat)
    requires j < 4
    ensures (4 * c + j) / 4 == c && (4 * c + j) % 4 == j
  {
  }

  lemma AtAt(i: nat, k: nat, m: nat)
    requires i < 16 && k < 4 && m < 4
    ensures At(At(i, k), m) == At(i, (k + m) % 4)
  {
    hide *;
    AtIs(i, k);
    var c, r := i / 4, i % 4;
    var j := (r + k) % 4;
    PlaceIs(c, j);
    AtIs(4 * c + j, m);
    AtIs(i, (k + m) % 4);
    TurnTwice(r, k, m);
  }

  lemma TurnTwice(r: nat, k: nat, m: nat)
    ensures ((r + k) % 4 + m) % 4 == (r + (k + m) % 4) % 4
  {
  }

  lemma AtNone(i: nat)
    ensures At(i, 0) == i
  {
  }

  lemma MixAt(s: State, i: nat, k: nat)
    requires i < 16 && k < 4
    ensures MixColumns(s)[At(i, k)]
      == Mixed(s[At(i, k)], s[At(i, (k + 1) % 4)], s[At(i, (k + 2) % 4)], s[At(i, (k + 3) % 4)])
  {
    hide Mixed, At;
    AtAt(i, k, 1);
    AtAt(i, k, 2);
    AtAt(i, k, 3);
    AtNone(At(i, k));
  }

  /** One byte of a column through the matrix and its inverse. */
  lemma ColumnBack(s: State, i: nat)
    requires i < 16
    ensures InvMixColumns(MixColumns(s))[i] == s[i]
  {
    hide Mul, Add, Sum, At, MixColumns;
    AtNone(i);
    var a, b, c, d := s[At(i, 0)], s[At(i, 1)], s[At(i, 2)], s[At(i, 3)];
    MixAt(s, i, 0);
    MixAt(s, i, 1);
    MixAt(s, i, 2);
    MixAt(s, i, 3);
    MulSum(Mul(a, 2), Mul(b, 3), c, d, 0x0e);
    MulSum(Mul(b, 2), Mul(c, 3), d, a, 0x0b);
    MulSum(Mul(c, 2), Mul(d, 3), a, b, 0x0d);
    MulSum(Mul(d, 2), Mul(a, 3), b, c, 0x09);
    Transpose(Mul(Mul(a, 2), 0x0e), Mul(Mul(b, 3), 0x0e), Mul(c, 0x0e), Mul(d, 0x0e),
              Mul(a, 0x0b), Mul(Mul(b, 2), 0x0b), Mul(Mul(c, 3), 0x0b), Mul(d, 0x0b),
              Mul(a, 0x0d), Mul(b, 0x0d), Mul(Mul(c, 2), 0x0d), Mul(Mul(d, 3), 0x0d),
              Mul(Mul(a, 3), 0x09), Mul(b, 0x09), Mul(c, 0x09), Mul(Mul(d, 2), 0x09));
    CancelOwn(a);
    CancelNext(b);
    CancelAcross(c);
    CancelLast(d);
    SumOnly(a);
  }

  lemma MixColumnsBack(s: State)
    ensures InvMixColumns(MixColumns(s)) == s
  {
    hide MixColumns;
    forall i | 0 <= i < 16 ensures InvMixColumns(MixColumns(s))[i] == s[i] {
      ColumnBack(s, i);
    }
  }

  // ---- section 5.2: the key schedule

  type Word = s: seq<bv8> | |s| == 4 witness [0, 0, 0, 0]

  function SubWord(w: Word): Word {
    [Sub(w[0]), Sub(w[1]), Sub(w[2]), Sub(w[3])]
  }

  function RotWord(w: Word): Word {
    [w[1], w[2], w[3], w[0]]
  }

  function AddWord(v: Word, w: Word): Word {
    [Add(v[0], w[0]), Add(v[1], w[1]), Add(v[2], w[2]), Add(v[3], w[3])]
  }

  /** x to the power i - 1, in the field. */
  function Rcon(i: nat): bv8
    requires i >= 1
  {
    if i == 1 then 1 else Xtime(Rcon(i - 1))
  }

  predicate KeyLength(key: seq<bv8>, nk: nat) {
    |key| == 4 * nk && (nk == 4 || nk == 8)
  }

  function Scheduled(prev: Word, nk: nat, i: nat): Word
    requires 0 < nk <= i
  {
    if i % nk == 0 then
      QuotientPositive(i, nk);
      AddWord(SubWord(RotWord(prev)), [Rcon(i / nk), 0, 0, 0])
    else if nk > 6 && i % nk == 4 then SubWord(prev)
    else prev
  }

  lemma QuotientPositive(i: nat, nk: nat)
    requires 0 < nk <= i
    ensures i / nk >= 1
  {
  }

  function KeyWord(key: seq<bv8>, nk: nat, i: nat): Word
    requires KeyLength(key, nk)
  {
    if i < nk then key[4 * i..4 * i + 4]
    else AddWord(KeyWord(key, nk, i - nk), Scheduled(KeyWord(key, nk, i - 1), nk, i))
  }

  function RoundKey(key: seq<bv8>, nk: nat, r: nat): State
    requires KeyLength(key, nk)
  {
    KeyWord(key, nk, 4 * r) + KeyWord(key, nk, 4 * r + 1) + KeyWord(key, nk, 4 * r + 2) + KeyWord(key, nk, 4 * r + 3)
  }

  /** The nk + 7 round keys. */
  function RoundKeys(key: seq<bv8>, nk: nat): (ks: seq<State>)
    requires KeyLength(key, nk)
    ensures |ks| == nk + 7
  {
    seq(nk + 7, r requires 0 <= r < nk + 7 => RoundKey(key, nk, r))
  }

  /** The table of round constants, its first entry never used. */
  const RCON: seq<bv8> := [0x8d, 0x01, 0x02, 0x04, 0x08, 0x10, 0x20, 0x40, 0x80, 0x1b, 0x36]

  lemma RconTable(i: nat)
    requires 1 <= i <= 10
    ensures |RCON| == 11 && RCON[i] == Rcon(i)
  {
    assert Rcon(1) == 0x01 && Rcon(2) == 0x02 && Rcon(3) == 0x04 && Rcon(4) == 0x08 && Rcon(5) == 0x10;
    assert Rcon(6) == 0x20 && Rcon(7) == 0x40 && Rcon(8) == 0x80 && Rcon(9) == 0x1b && Rcon(10) == 0x36;
  }

  /** One word of expand_key, from the word before it. */
  method NextTemp(rk: array<bv8>, i: nat, nk: nat) returns (t: Word)
    requires (nk == 4 || nk == 8) && nk <= i < 4 * (nk + 7) && rk.Length == 240
    ensures t == Scheduled(rk[4 * i - 4..4 * i], nk, i)
  {
    hide Sub, Rcon;
    var t0, t1, t2, t3 := rk[4 * i - 4], rk[4 * i - 3], rk[4 * i - 2], rk[4 * i - 1];
    assert rk[4 * i - 4..4 * i] == [t0, t1, t2, t3];
    if i % nk == 0 {
      QuotientPositive(i, nk);
      ConstantIndex(i, nk);
      RconTable(i / nk);
      ZeroAdd(t2, t3, t0);
      return [Add(Sub(t1), RCON[i / nk]), Sub(t2), Sub(t3), Sub(t0)];
    } else if nk > 6 && i % nk == 4 {
      return [Sub(t0), Sub(t1), Sub(t2), Sub(t3)];
    } else {
      return [t0, t1, t2, t3];
    }
  }

  lemma ConstantIndex(i: nat, nk: nat)
    requires (nk == 4 || nk == 8) && nk <= i < 4 * (nk + 7)
    ensures 1 <= i / nk <= 10
  {
  }

  lemma ZeroAdd(a: bv8, b: bv8, c: bv8)
    ensures Add(Sub(a), 0) == Sub(a) && Add(Sub(b), 0) == Sub(b) && Add(Sub(c), 0) == Sub(c)
  {
    hide Sub;
    AddLaws(Sub(a), 0, 0);
    AddLaws(Sub(b), 0, 0);
    AddLaws(Sub(c), 0, 0);
  }

  lemma KeyWordGiven(key: seq<bv8>, nk: nat, i: nat)
    requires KeyLength(key, nk) && i < nk
    ensures 4 * i + 4 <= |key| && KeyWord(key, nk, i) == key[4 * i..4 * i + 4]
  {
  }

  lemma KeyWordNext(key: seq<bv8>, nk: nat, i: nat)
    requires KeyLength(key, nk) && nk <= i
    ensures KeyWord(key, nk, i) == AddWord(KeyWord(key, nk, i - nk), Scheduled(KeyWord(key, nk, i - 1), nk, i))
  {
    hide AddWord, Scheduled;
  }

  ghost predicate Expanded(key: seq<bv8>, nk: nat, rk: seq<bv8>, i: nat)
    requires KeyLength(key, nk)
  {
    |rk| == 240 && i <= 60 && forall j :: 0 <= j < i ==> rk[4 * j..4 * j + 4] == KeyWord(key, nk, j)
  }

  /** expand_key. */
  method ExpandKey(key: seq<bv8>, nk: nat, rk: array<bv8>)
    requires KeyLength(key, nk) && rk.Length == 240
    modifies rk
    ensures Expanded(key, nk, rk[..], 4 * (nk + 7))
  {
    hide KeyWord, AddWord, Scheduled;
    for j := 0 to 4 * nk
      invariant rk[..j] == key[..j]
    {
      rk[j] := key[j];
    }
    forall j | 0 <= j < nk ensures rk[..][4 * j..4 * j + 4] == KeyWord(key, nk, j) {
      KeyWordGiven(key, nk, j);
      assert rk[..][4 * j..4 * j + 4] == rk[..4 * nk][4 * j..4 * j + 4];
    }
    for i := nk to 4 * (nk + 7)
      invariant Expanded(key, nk, rk[..], i)
    {
      ghost var was := rk[..];
      var t := NextTemp(rk, i, nk);
      assert rk[4 * i - 4..4 * i] == was[4 * (i - 1)..4 * (i - 1) + 4];
      KeyWordNext(key, nk, i);
      StoreWord(rk, i, nk, t);
      assert was[4 * (i - nk)..4 * (i - nk) + 4] == KeyWord(key, nk, i - nk);
      OthersKept(key, nk, was, rk[..], i);
    }
  }

  method StoreWord(rk: array<bv8>, i: nat, nk: nat, t: Word)
    requires 0 < nk <= i < 60 && rk.Length == 240
    modifies rk
    ensures rk[..4 * i] == old(rk[..4 * i])
    ensures rk[4 * i..4 * i + 4] == AddWord(old(rk[4 * (i - nk)..4 * (i - nk) + 4]), t)
  {
    hide Add;
    for j := 0 to 4
      invariant rk[..4 * i] == old(rk[..4 * i])
      invariant forall m :: 0 <= m < j ==> rk[4 * i + m] == Add(old(rk[4 * (i - nk) + m]), t[m])
    {
      assert rk[..4 * i][4 * (i - nk) + j] == rk[4 * (i - nk) + j];
      rk[i * 4 + j] := Add(rk[(i - nk) * 4 + j], t[j]);
    }
  }

  lemma OthersKept(key: seq<bv8>, nk: nat, was: seq<bv8>, rk: seq<bv8>, i: nat)
    requires KeyLength(key, nk) && i < 60 && |rk| == 240
    requires Expanded(key, nk, was, i) && rk[..4 * i] == was[..4 * i] && rk[4 * i..4 * i + 4] == KeyWord(key, nk, i)
    ensures Expanded(key, nk, rk, i + 1)
  {
    hide KeyWord;
    forall j | 0 <= j < i + 1 ensures rk[4 * j..4 * j + 4] == KeyWord(key, nk, j) {
      if j < i {
        assert rk[4 * j..4 * j + 4] == rk[..4 * i][4 * j..4 * j + 4];
        assert was[4 * j..4 * j + 4] == was[..4 * i][4 * j..4 * j + 4];
      }
    }
  }

  // ---- sections 5.1 and 5.3: the cipher and its inverse

  /** The state after the first round key and r full rounds. */
  function Rounds(ks: seq<State>, s: State, r: nat): State
    requires r < |ks|
  {
    if r == 0 then AddKey(s, ks[0]) else AddKey(MixColumns(ShiftRows(SubBytes(Rounds(ks, s, r - 1)))), ks[r])
  }

  function Cipher(ks: seq<State>, s: State): State
    requires |ks| >= 2
  {
    AddKey(ShiftRows(SubBytes(Rounds(ks, s, |ks| - 2))), ks[|ks| - 1])
  }

  /** The rounds of the inverse cipher from the r-th down. */
  function InvRounds(ks: seq<State>, s: State, r: nat): State
    requires r < |ks|
    decreases r
  {
    var t := AddKey(InvSubBytes(InvShiftRows(s)), ks[r]);
    if r == 0 then t else InvRounds(ks, InvMixColumns(t), r - 1)
  }

  function InvCipher(ks: seq<State>, c: State): State
    requires |ks| >= 2
  {
    InvRounds(ks, AddKey(c, ks[|ks| - 1]), |ks| - 2)
  }

  lemma {:induction false} RoundsBack(ks: seq<State>, s: State, r: nat)
    requires r < |ks|
    ensures InvRounds(ks, ShiftRows(SubBytes(Rounds(ks, s, r))), r) == s
    decreases r
  {
    hide SubBytes, InvSubBytes, ShiftRows, InvShiftRows, MixColumns, InvMixColumns, AddKey;
    var x := Rounds(ks, s, r);
    ShiftRowsBack(SubBytes(x));
    SubBytesBack(x);
    if r == 0 {
      AddKeyTwice(s, ks[0]);
    } else {
      var y := ShiftRows(SubBytes(Rounds(ks, s, r - 1)));
      AddKeyTwice(MixColumns(y), ks[r]);
      MixColumnsBack(y);
      RoundsBack(ks, s, r - 1);
    }
  }

  /** The inverse cipher undoes the cipher, whatever the round keys. */
  lemma CipherBack(ks: seq<State>, s: State)
    requires |ks| >= 2
    ensures InvCipher(ks, Cipher(ks, s)) == s
  {
    hide Rounds, InvRounds, AddKey, ShiftRows, SubBytes;
    AddKeyTwice(ShiftRows(SubBytes(Rounds(ks, s, |ks| - 2))), ks[|ks| - 1]);
    RoundsBack(ks, s, |ks| - 2);
  }

  // ---- the program: one block, in place

  method AddRoundKey(s: array<bv8>, rk: array<bv8>, round: nat)
    requires s.Length == 16 && rk.Length == 240 && round < 15 && s != rk
    modifies s
    ensures s[..] == AddKey(old(s[..]), rk[16 * round..16 * round + 16])
  {
    hide Add;
    for i := 0 to 16
      invariant forall j :: 0 <= j < i ==> s[j] == Add(old(s[j]), rk[16 * round + j])
      invariant forall j :: i <= j < 16 ==> s[j] == old(s[j])
    {
      s[i] := Add(s[i], rk[round * 16 + i]);
    }
  }

  method UnsubBytes(s: array<bv8>)
    requires s.Length == 16
    modifies s
    ensures s[..] == InvSubBytes(old(s[..]))
  {
    hide InvSub;
    for i := 0 to 16
      invariant forall j :: 0 <= j < i ==> s[j] == InvSub(old(s[j]))
      invariant forall j :: i <= j < 16 ==> s[j] == old(s[j])
    {
      s[i] := InvSub(s[i]);
    }
  }

  lemma Shifted(s: State)
    ensures InvShiftRows(s) ==
      [s[0], s[13], s[10], s[7], s[4], s[1], s[14], s[11], s[8], s[5], s[2], s[15], s[12], s[9], s[6], s[3]]
  {
  }

  /** The three lower rows rotated by exchanging bytes. */
  method UnshiftRows(s: array<bv8>)
    requires s.Length == 16
    modifies s
    ensures s[..] == InvShiftRows(old(s[..]))
  {
    hide InvShiftRows;
    ghost var was: State := s[..];
    Shifted(was);
    UnshiftSecond(s);
    UnshiftThird(s);
    UnshiftFourth(s);
    assert s[..] == InvShiftRows(was);
  }

  method UnshiftSecond(s: array<bv8>)
    requires s.Length == 16
    modifies s
    ensures s[1] == old(s[13]) && s[5] == old(s[1]) && s[9] == old(s[5]) && s[13] == old(s[9])
    ensures forall i :: 0 <= i < 16 && i != 1 && i != 5 && i != 9 && i != 13 ==> s[i] == old(s[i])
  {
    var t := s[13];
    s[13] := s[9];
    s[9] := s[5];
    s[5] := s[1];
    s[1] := t;
  }

  method UnshiftThird(s: array<bv8>)
    requires s.Length == 16
    modifies s
    ensures s[2] == old(s[10]) && s[6] == old(s[14]) && s[10] == old(s[2]) && s[14] == old(s[6])
    ensures forall i :: 0 <= i < 16 && i != 2 && i != 6 && i != 10 && i != 14 ==> s[i] == old(s[i])
  {
    var t := s[2];
    s[2] := s[10];
    s[10] := t;
    t := s[6];
    s[6] := s[14];
    s[14] := t;
  }

  method UnshiftFourth(s: array<bv8>)
    requires s.Length == 16
    modifies s
    ensures s[3] == old(s[7]) && s[7] == old(s[11]) && s[11] == old(s[15]) && s[15] == old(s[3])
    ensures forall i :: 0 <= i < 16 && i != 3 && i != 7 && i != 11 && i != 15 ==> s[i] == old(s[i])
  {
    var t := s[3];
    s[3] := s[7];
    s[7] := s[11];
    s[11] := s[15];
    s[15] := t;
  }

  /** One column times the inverse matrix. */
  method UnmixColumn(s: array<bv8>, c: nat)
    requires s.Length == 16 && c < 4
    modifies s
    ensures forall i :: 0 <= i < 4 * c || 4 * c + 4 <= i < 16 ==> s[i] == old(s[i])
    ensures s[4 * c] == InvMixColumns(old(s[..]))[4 * c] && s[4 * c + 1] == InvMixColumns(old(s[..]))[4 * c + 1]
    ensures s[4 * c + 2] == InvMixColumns(old(s[..]))[4 * c + 2] && s[4 * c + 3] == InvMixColumns(old(s[..]))[4 * c + 3]
  {
    hide Mul, Add, Sum, InvMixColumns, Unmixed;
    var a, b, d, e := s[c * 4], s[c * 4 + 1], s[c * 4 + 2], s[c * 4 + 3];
    var p := Product(a, 0x0e, b, 0x0b, d, 0x0d, e, 0x09);
    var q := Product(a, 0x09, b, 0x0e, d, 0x0b, e, 0x0d);
    var r := Product(a, 0x0d, b, 0x09, d, 0x0e, e, 0x0b);
    var t := Product(a, 0x0b, b, 0x0d, d, 0x09, e, 0x0e);
    UnmixedTurned(a, b, d, e);
    ColumnAt(s[..], c);
    s[c * 4], s[c * 4 + 1], s[c * 4 + 2], s[c * 4 + 3] := p, q, r, t;
  }

  lemma UnmixedTurned(a: bv8, b: bv8, d: bv8, e: bv8)
    ensures Unmixed(a, b, d, e) == Sum(Mul(a, 0x0e), Mul(b, 0x0b), Mul(d, 0x0d), Mul(e, 0x09))
    ensures Unmixed(b, d, e, a) == Sum(Mul(a, 0x09), Mul(b, 0x0e), Mul(d, 0x0b), Mul(e, 0x0d))
    ensures Unmixed(d, e, a, b) == Sum(Mul(a, 0x0d), Mul(b, 0x09), Mul(d, 0x0e), Mul(e, 0x0b))
    ensures Unmixed(e, a, b, d) == Sum(Mul(a, 0x0b), Mul(b, 0x0d), Mul(d, 0x09), Mul(e, 0x0e))
  {
    hide Mul, Sum;
    SumTurn(Mul(a, 0x09), Mul(b, 0x0e), Mul(d, 0x0b), Mul(e, 0x0d));
    SumTurn(Mul(b, 0x09), Mul(d, 0x0e), Mul(e, 0x0b), Mul(a, 0x0d));
    SumTurn(Mul(a, 0x0d), Mul(b, 0x09), Mul(d, 0x0e), Mul(e, 0x0b));
    SumTurn(Mul(e, 0x0e), Mul(a, 0x0b), Mul(b, 0x0d), Mul(d, 0x09));
  }

  method Product(a: bv8, k: bv8, b: bv8, l: bv8, d: bv8, m: bv8, e: bv8, n: bv8) returns (r: bv8)
    ensures r == Sum(Mul(a, k), Mul(b, l), Mul(d, m), Mul(e, n))
  {
    var w := Multiply(a, k);
    var x := Multiply(b, l);
    var y := Multiply(d, m);
    var z := Multiply(e, n);
    return Sum(w, x, y, z);
  }

  lemma ColumnAt(s: State, c: nat)
    requires c < 4
    ensures var a, b, d, e := s[4 * c], s[4 * c + 1], s[4 * c + 2], s[4 * c + 3]; var m := InvMixColumns(s);
      m[4 * c] == Unmixed(a, b, d, e) && m[4 * c + 1] == Unmixed(b, d, e, a)
      && m[4 * c + 2] == Unmixed(d, e, a, b) && m[4 * c + 3] == Unmixed(e, a, b, d)
  {
    hide Unmixed, InvMixColumns, At;
    ColumnIndex(c);
    InvMixAt(s, 4 * c);
    InvMixAt(s, 4 * c + 1);
    InvMixAt(s, 4 * c + 2);
    InvMixAt(s, 4 * c + 3);
  }

  lemma InvMixAt(s: State, i: nat)
    requires i < 16
    ensures InvMixColumns(s)[i] == Unmixed(s[At(i, 0)], s[At(i, 1)], s[At(i, 2)], s[At(i, 3)])
  {
    hide Unmixed, At;
  }

  lemma ColumnIndex(c: nat)
    ensures At(4 * c, 0) == 4 * c && At(4 * c, 1) == 4 * c + 1 && At(4 * c, 2) == 4 * c + 2 && At(4 * c, 3) == 4 * c + 3
    ensures At(4 * c + 1, 0) == 4 * c + 1 && At(4 * c + 1, 1) == 4 * c + 2 && At(4 * c + 1, 2) == 4 * c + 3
    ensures At(4 * c + 1, 3) == 4 * c && At(4 * c + 2, 0) == 4 * c + 2 && At(4 * c + 2, 1) == 4 * c + 3
    ensures At(4 * c + 2, 2) == 4 * c && At(4 * c + 2, 3) == 4 * c + 1
    ensures At(4 * c + 3, 0) == 4 * c + 3 && At(4 * c + 3, 1) == 4 * c && At(4 * c + 3, 2) == 4 * c + 1
    ensures At(4 * c + 3, 3) == 4 * c + 2
  {
    assert (4 * c) / 4 == c && (4 * c) % 4 == 0;
    assert (4 * c + 1) / 4 == c && (4 * c + 1) % 4 == 1;
    assert (4 * c + 2) / 4 == c && (4 * c + 2) % 4 == 2;
    assert (4 * c + 3) / 4 == c && (4 * c + 3) % 4 == 3;
  }

  method UnmixColumns(s: array<bv8>)
    requires s.Length == 16
    modifies s
    ensures s[..] == InvMixColumns(old(s[..]))
  {
    hide InvMixColumns;
    ghost var was: State := s[..];
    for c := 0 to 4
      invariant forall i :: 4 * c <= i < 16 ==> s[i] == was[i]
      invariant forall i :: 0 <= i < 4 * c ==> s[i] == InvMixColumns(was)[i]
    {
      SameColumn(s[..], was, c);
      UnmixColumn(s, c);
    }
    assert s[..] == InvMixColumns(was);
  }

  lemma SameColumn(s: State, t: State, c: nat)
    requires c < 4 && forall i :: 4 * c <= i < 16 ==> s[i] == t[i]
    ensures var m, n := InvMixColumns(s), InvMixColumns(t);
      m[4 * c] == n[4 * c] && m[4 * c + 1] == n[4 * c + 1] && m[4 * c + 2] == n[4 * c + 2]
        && m[4 * c + 3] == n[4 * c + 3]
  {
    hide Unmixed, InvMixColumns;
    ColumnAt(s, c);
    ColumnAt(t, c);
  }

  ghost predicate Keyed(ks: seq<State>, rk: seq<bv8>) {
    |rk| == 240 && 2 <= |ks| <= 15 && forall r :: 0 <= r < |ks| ==> rk[16 * r..16 * r + 16] == ks[r]
  }

  /** decrypt_block. */
  method DecryptBlock(rk: array<bv8>, nr: nat, s: array<bv8>, ghost ks: seq<State>)
    requires rk.Length == 240 && s.Length == 16 && s != rk && |ks| == nr + 1 && Keyed(ks, rk[..])
    modifies s
    ensures s[..] == InvCipher(ks, old(s[..]))
  {
    hide InvRounds, InvMixColumns, AddKey, InvSubBytes, InvShiftRows;
    ghost var keys := rk[..];
    assert keys[16 * nr..16 * nr + 16] == rk[16 * nr..16 * nr + 16];
    AddRoundKey(s, rk, nr);
    var round := nr - 1;
    while round > 0
      invariant 0 <= round < nr && rk[..] == keys
      invariant InvRounds(ks, s[..], round) == InvCipher(ks, old(s[..]))
      decreases round
    {
      InvRoundsStep(ks, s[..], round);
      assert keys[16 * round..16 * round + 16] == rk[16 * round..16 * round + 16];
      UnshiftRows(s);
      UnsubBytes(s);
      AddRoundKey(s, rk, round);
      UnmixColumns(s);
      round := round - 1;
    }
    InvRoundsEnd(ks, s[..]);
    assert keys[0..16] == rk[0..16];
    UnshiftRows(s);
    UnsubBytes(s);
    AddRoundKey(s, rk, 0);
  }

  lemma InvRoundsStep(ks: seq<State>, s: State, r: nat)
    requires 0 < r < |ks|
    ensures InvRounds(ks, s, r) == InvRounds(ks, InvMixColumns(AddKey(InvSubBytes(InvShiftRows(s)), ks[r])), r - 1)
  {
    hide InvMixColumns, AddKey, InvSubBytes, InvShiftRows;
  }

  lemma InvRoundsEnd(ks: seq<State>, s: State)
    requires |ks| > 0
    ensures InvRounds(ks, s, 0) == AddKey(InvSubBytes(InvShiftRows(s)), ks[0])
  {
    hide InvMixColumns, AddKey, InvSubBytes, InvShiftRows;
  }

  // ---- section 6.2 of SP 800-38A: chaining

  function CbcEncrypt(ks: seq<State>, iv: State, p: seq<bv8>): (c: seq<bv8>)
    requires |ks| >= 2
    ensures |c| == |p| - |p| % 16
    decreases |p|
  {
    if |p| < 16 then []
    else
      var block := Cipher(ks, AddKey(p[..16], iv));
      block + CbcEncrypt(ks, block, p[16..])
  }

  function CbcDecrypt(ks: seq<State>, iv: State, c: seq<bv8>): (p: seq<bv8>)
    requires |ks| >= 2
    ensures |p| == |c| - |c| % 16
    decreases |c|
  {
    if |c| < 16 then [] else AddKey(InvCipher(ks, c[..16]), iv) + CbcDecrypt(ks, c[..16], c[16..])
  }

  /** Decryption undoes encryption, for every whole number of blocks. */
  lemma {:induction false} CbcBack(ks: seq<State>, iv: State, p: seq<bv8>)
    requires |ks| >= 2 && |p| % 16 == 0
    ensures CbcDecrypt(ks, iv, CbcEncrypt(ks, iv, p)) == p
    decreases |p|
  {
    hide Cipher, InvCipher, AddKey;
    if |p| >= 16 {
      var first := AddKey(p[..16], iv);
      var block := Cipher(ks, first);
      var rest := CbcEncrypt(ks, block, p[16..]);
      CbcBack(ks, block, p[16..]);
      CipherBack(ks, first);
      AddKeyTwice(p[..16], iv);
      DecryptFirst(ks, iv, block, rest);
      assert p == p[..16] + p[16..];
    }
  }

  lemma DecryptFirst(ks: seq<State>, iv: State, block: State, rest: seq<bv8>)
    requires |ks| >= 2
    ensures CbcDecrypt(ks, iv, block + rest) == AddKey(InvCipher(ks, block), iv) + CbcDecrypt(ks, block, rest)
  {
    hide InvCipher, AddKey;
    assert (block + rest)[..16] == block && (block + rest)[16..] == rest;
  }

  lemma DecryptStep(ks: seq<State>, iv: State, c: seq<bv8>, off: nat)
    requires |ks| >= 2 && off + 16 <= |c|
    ensures CbcDecrypt(ks, iv, c[off..])
      == AddKey(InvCipher(ks, c[off..off + 16]), iv) + CbcDecrypt(ks, c[off..off + 16], c[off + 16..])
  {
    hide InvCipher, AddKey;
    assert c[off..] == c[off..off + 16] + c[off + 16..];
    DecryptFirst(ks, iv, c[off..off + 16], c[off + 16..]);
  }

  lemma KeysPlaced(key: seq<bv8>, nk: nat, rk: seq<bv8>)
    requires KeyLength(key, nk) && Expanded(key, nk, rk, 4 * (nk + 7))
    ensures Keyed(RoundKeys(key, nk), rk)
  {
    hide KeyWord;
    forall r | 0 <= r < nk + 7 ensures rk[16 * r..16 * r + 16] == RoundKey(key, nk, r) {
      KeyPlaced(key, nk, rk, r);
    }
    hide RoundKey;
  }

  lemma KeyPlaced(key: seq<bv8>, nk: nat, rk: seq<bv8>, r: nat)
    requires KeyLength(key, nk) && Expanded(key, nk, rk, 4 * (nk + 7)) && r < nk + 7
    ensures rk[16 * r..16 * r + 16] == RoundKey(key, nk, r)
  {
    hide KeyWord;
    var a, b, c, d := 4 * r, 4 * r + 1, 4 * r + 2, 4 * r + 3;
    assert rk[4 * a..4 * a + 4] == KeyWord(key, nk, a) && rk[4 * b..4 * b + 4] == KeyWord(key, nk, b);
    assert rk[4 * c..4 * c + 4] == KeyWord(key, nk, c) && rk[4 * d..4 * d + 4] == KeyWord(key, nk, d);
    assert rk[16 * r..16 * r + 16] == rk[4 * a..4 * a + 4] + rk[4 * b..4 * b + 4] + rk[4 * c..4 * c + 4] + rk[4 * d..4 * d + 4];
  }

  method CopyBlock(from: seq<bv8>, to: array<bv8>)
    requires |from| == 16 && to.Length == 16
    modifies to
    ensures to[..] == from
  {
    for i := 0 to 16
      invariant to[..i] == from[..i]
    {
      to[i] := from[i];
    }
    assert to[..16] == to[..] && from[..16] == from;
  }

  method Unchain(block: array<bv8>, chain: array<bv8>, out: array<bv8>, off: nat)
    requires block.Length == 16 && chain.Length == 16 && off + 16 <= out.Length && out != block && out != chain
    modifies out
    ensures out[..off + 16] == old(out[..off]) + AddKey(block[..], chain[..])
  {
    hide Add;
    for i := 0 to 16
      invariant out[..off] == old(out[..off])
      invariant forall j :: 0 <= j < i ==> out[off + j] == Add(block[j], chain[j])
    {
      out[off + i] := Add(block[i], chain[i]);
    }
    assert out[off..off + 16] == AddKey(block[..], chain[..]);
    assert out[..off + 16] == out[..off] + out[off..off + 16];
  }

  /** aes_cbc_decrypt: false where the program returns an error. */
  method CbcDecryptInto(key: seq<bv8>, iv: State, c: seq<bv8>, out: array<bv8>) returns (ok: bool)
    requires out.Length >= |c|
    modifies out
    ensures ok <==> |c| > 0 && |c| % 16 == 0 && (|key| == 16 || |key| == 32)
    ensures ok ==> out[..|c|] == CbcDecrypt(RoundKeys(key, |key| / 4), iv, c)
  {
    if |c| == 0 || |c| % 16 != 0 {
      return false;
    }
    if |key| != 16 && |key| != 32 {
      return false;
    }
    hide RoundKeys, CbcDecrypt, Expanded, Keyed;
    var nk := |key| / 4;
    var rk := new bv8[240];
    ExpandKey(key, nk, rk);
    KeysPlaced(key, nk, rk[..]);
    DecryptBlocks(rk, nk + 6, iv, c, out, RoundKeys(key, nk));
    return true;
  }

  /** The chaining loop. */
  method DecryptBlocks(rk: array<bv8>, nr: nat, iv: State, c: seq<bv8>, out: array<bv8>, ghost ks: seq<State>)
    requires rk.Length == 240 && 0 < nr && |ks| == nr + 1 && Keyed(ks, rk[..])
    requires out.Length >= |c| && |c| % 16 == 0 && out != rk
    modifies out
    ensures out[..|c|] == CbcDecrypt(ks, iv, c)
  {
    hide InvCipher, AddKey, CbcDecrypt, Keyed;
    ghost var keys := rk[..];
    var chain, block := new bv8[16], new bv8[16];
    CopyBlock(iv, chain);
    var off := 0;
    assert c[0..] == c;
    while off < |c|
      invariant off <= |c| && off % 16 == 0 && rk[..] == keys
      invariant out[..off] + CbcDecrypt(ks, chain[..], c[off..]) == CbcDecrypt(ks, iv, c)
    {
      ghost var front, last: State := out[..off], chain[..];
      DecryptStep(ks, last, c, off);
      CopyBlock(c[off..off + 16], block);
      DecryptBlock(rk, nr, block, ks);
      Unchain(block, chain, out, off);
      CopyBlock(c[off..off + 16], chain);
      off := off + 16;
    }
    DecryptEnd(ks, chain[..], c[off..]);
  }

  lemma DecryptEnd(ks: seq<State>, iv: State, c: seq<bv8>)
    requires |ks| >= 2 && |c| < 16
    ensures CbcDecrypt(ks, iv, c) == []
  {
  }

  // ---- the padding

  /** n bytes of value n, n from 1 to 16, up to the next multiple of 16: section 6.3 of RFC 5652. */
  function Pad(m: seq<bv8>): (p: seq<bv8>)
    ensures |p| % 16 == 0 && |p| > 0
  {
    var n := 16 - |m| % 16;
    m + seq(n, _ => n as bv8)
  }

  /** pkcs7_unpad: the length left, or nothing where the program returns an error. It asks only that the last byte
      is at most 16. */
  function Unpad(p: seq<bv8>): (r: Option<nat>)
    ensures r.Some? ==> r.value <= |p|
    ensures r.Some? <==> |p| > 0 && |p| % 16 == 0 && p[|p| - 1] <= 16
  {
    if |p| == 0 || |p| % 16 != 0 then None
    else if p[|p| - 1] > 16 then None
    else
      SixteenFits(p[|p| - 1]);
      Some(|p| - p[|p| - 1] as nat)
  }

  lemma SixteenFits(n: bv8)
    requires n <= 16
    ensures n as nat <= 16
  {
  }

  lemma PadLast(n: nat)
    requires 1 <= n <= 16
    ensures n as bv8 <= 16 && (n as bv8) as nat == n
  {
  }

  lemma UnpadPad(m: seq<bv8>)
    ensures Unpad(Pad(m)) == Some(|m|) && Pad(m)[..|m|] == m
  {
    var n := 16 - |m| % 16;
    PadLast(n);
    var p := Pad(m);
    assert p[|p| - 1] == n as bv8;
  }

  /** Every plaintext of any length comes back from its padded, chained and enciphered form. */
  lemma PlaintextBack(key: seq<bv8>, iv: State, m: seq<bv8>)
    requires |key| == 16 || |key| == 32
    ensures var ks := RoundKeys(key, |key| / 4); var c := CbcEncrypt(ks, iv, Pad(m)); var p := CbcDecrypt(ks, iv, c);
      |c| > 0 && |c| % 16 == 0 && Unpad(p) == Some(|m|) && |m| <= |p| && p[..|m|] == m
  {
    hide RoundKeys, CbcEncrypt, CbcDecrypt, Pad, Unpad;
    CbcBack(RoundKeys(key, |key| / 4), iv, Pad(m));
    UnpadPad(m);
  }

  /** The bytes that are somebody's padded plaintext: the ones pkcs7_unpad takes whose last byte is not 0 and stands
      in all the places it says. Everything else that is taken was never padded. */
  lemma PaddedExactly(p: seq<bv8>)
    ensures (exists m :: Pad(m) == p) <==>
      Unpad(p).Some? && p[|p| - 1] != 0 && forall i :: Unpad(p).value <= i < |p| ==> p[i] == p[|p| - 1]
  {
    hide Pad, Unpad;
    if m :| Pad(m) == p {
      UnpadPad(m);
      PadTail(m);
    }
    if Unpad(p).Some? && p[|p| - 1] != 0 && forall i :: Unpad(p).value <= i < |p| ==> p[i] == p[|p| - 1] {
      PadOfFront(p);
    }
  }

  lemma PadTail(m: seq<bv8>)
    ensures |Pad(m)| > |m| && Pad(m)[|Pad(m)| - 1] != 0
    ensures forall i :: |m| <= i < |Pad(m)| ==> Pad(m)[i] == Pad(m)[|Pad(m)| - 1]
  {
    var n := 16 - |m| % 16;
    PadLast(n);
    assert (0 as bv8) as nat == 0;
    assert forall i :: |m| <= i < |Pad(m)| ==> Pad(m)[i] == n as bv8;
  }

  lemma PadOfFront(p: seq<bv8>)
    requires Unpad(p).Some? && p[|p| - 1] != 0
    requires forall i :: Unpad(p).value <= i < |p| ==> p[i] == p[|p| - 1]
    ensures Pad(p[..Unpad(p).value]) == p
  {
    var last := p[|p| - 1];
    SixteenFits(last);
    var n, m := last as nat, p[..Unpad(p).value];
    assert last as nat > 0;
    PadCount(|m|, n);
    PadLast(n);
  }

  lemma PadCount(m: nat, n: nat)
    requires 1 <= n <= 16 && (m + n) % 16 == 0
    ensures 16 - m % 16 == n
  {
  }

  /** The family the check misses altogether: whole blocks that end in a zero byte are taken whole. */
  lemma ZeroIsTaken(p: seq<bv8>)
    requires |p| > 0 && |p| % 16 == 0 && p[|p| - 1] == 0
    ensures Unpad(p) == Some(|p|) && forall m :: Pad(m) != p
  {
    hide Pad;
    assert (0 as bv8) as nat == 0;
    PaddedExactly(p);
  }
}
