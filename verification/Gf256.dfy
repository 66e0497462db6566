/** The field of 256 elements and the substitution table, sections 4 and 5.1.1 of FIPS 197. */
module Gf256 {

  // ---- section 4.1: addition

  function Add(a: bv8, b: bv8): bv8 {
    a ^ b
  }

  lemma AddLaws(a: bv8, b: bv8, c: bv8)
    ensures Add(Add(a, b), c) == Add(a, Add(b, c)) && Add(a, b) == Add(b, a)
    ensures Add(a, 0) == a && Add(0, a) == a && Add(a, a) == 0 && Add(Add(a, b), b) == a
  {
  }

  // ---- section 4.2: multiplication

  /** Multiplication by x. */
  function Xtime(x: bv8): bv8 {
    Add(x << 1, ((x >> 7) & 1) * 0x1b)
  }

  function MulFrom(x: bv8, y: bv8, i: nat): bv8
    requires i <= 8
    decreases 8 - i
  {
    if i == 8 then 0 else Add(if y & 1 == 1 then x else 0, MulFrom(Xtime(x), y >> 1, i + 1))
  }

  function Mul(x: bv8, y: bv8): bv8 {
    MulFrom(x, y, 0)
  }

  lemma MulStep(r: bv8, x: bv8, y: bv8, i: nat)
    requires i < 8
    ensures Add(if y & 1 == 1 then Add(r, x) else r, MulFrom(Xtime(x), y >> 1, i + 1)) == Add(r, MulFrom(x, y, i))
  {
    hide Add, Xtime;
    AddLaws(r, x, MulFrom(Xtime(x), y >> 1, i + 1));
    AddLaws(MulFrom(Xtime(x), y >> 1, i + 1), 0, 0);
  }

  /** mul: double and add. */
  method Multiply(x: bv8, y: bv8) returns (r: bv8)
    ensures r == Mul(x, y)
  {
    hide Add, Xtime, MulFrom;
    var a, b := x, y;
    r := 0;
    AddLaws(MulFrom(x, y, 0), 0, 0);
    for i := 0 to 8
      invariant Add(r, MulFrom(a, b, i)) == Mul(x, y)
    {
      MulStep(r, a, b, i);
      if b & 1 == 1 {
        r := Add(r, a);
      }
      a := Xtime(a);
      b := b >> 1;
    }
    MulEnd(a, b);
    AddLaws(r, 0, 0);
  }

  lemma MulEnd(x: bv8, y: bv8)
    ensures MulFrom(x, y, 8) == 0
  {
  }

  // ---- that multiplication is multiplication of polynomials modulo x^8 + x^4 + x^3 + x + 1

  function Add16(p: bv16, q: bv16): bv16 {
    p ^ q
  }

  /** x to the i-th power, times a polynomial. */
  function Shl(x: bv8, i: nat): bv16
    requires i < 8
  {
    (x as bv16) << i
  }

  function Wide(x: bv8): bv16 {
    x as bv16
  }

  /** The product of two polynomials over the field of two elements. */
  function ProductFrom(x: bv8, y: bv8, i: nat): bv16
    requires i <= 8
    decreases 8 - i
  {
    if i == 8 then 0 else Add16(if y & 1 == 1 then Shl(x, i) else 0, ProductFrom(x, y >> 1, i + 1))
  }

  function Reduce(p: bv16, top: bv16, m: bv16): bv16 {
    if p & top == 0 then p else Add16(p, m)
  }

  /** The remainder by x^8 + x^4 + x^3 + x + 1, whose multiples cancel the top bits one after another. */
  function Remainder(p: bv16): bv16 {
    Reduce(Reduce(Reduce(Reduce(Reduce(Reduce(Reduce(p, 0x4000, 0x46c0), 0x2000, 0x2360), 0x1000, 0x11b0), 0x0800, 0x08d8),
      0x0400, 0x046c), 0x0200, 0x0236), 0x0100, 0x011b)
  }

  lemma NeitherTop(p: bv16, q: bv16, t: bv16)
    requires p & t == 0 && q & t == 0
    ensures Add16(p, q) & t == 0
  {
  }

  lemma BothTop(p: bv16, q: bv16, t: bv16)
    requires p & t == t && q & t == t
    ensures Add16(p, q) & t == 0
  {
  }

  lemma OneTop(p: bv16, q: bv16, t: bv16)
    requires p & t == t && q & t == 0
    ensures Add16(p, q) & t == t
  {
  }

  lemma Add16Laws(p: bv16, q: bv16, m: bv16)
    ensures Add16(Add16(p, q), m) == Add16(p, Add16(q, m)) && Add16(p, q) == Add16(q, p)
    ensures Add16(p, p) == 0 && Add16(p, 0) == p
  {
  }

  lemma Add16Past(p: bv16, q: bv16, m: bv16)
    ensures Add16(p, q) == Add16(q, p) && Add16(Add16(p, m), q) == Add16(Add16(p, q), m)
  {
    hide Add16;
    Add16Laws(p, m, q);
    Add16Laws(p, q, m);
    Add16Laws(m, q, p);
  }

  lemma Add16Twice(p: bv16, q: bv16, m: bv16)
    ensures Add16(Add16(p, m), Add16(q, m)) == Add16(p, q)
  {
    hide Add16;
    Add16Past(p, Add16(q, m), m);
    Add16Laws(p, Add16(q, m), m);
    Add16Laws(q, m, m);
    Add16Laws(m, m, m);
    Add16Laws(q, 0, 0);
  }

  lemma ReduceLinear(p: bv16, q: bv16, t: bv16, m: bv16)
    requires t != 0 && (p & t == 0 || p & t == t) && (q & t == 0 || q & t == t)
    ensures Reduce(Add16(p, q), t, m) == Add16(Reduce(p, t, m), Reduce(q, t, m))
  {
    hide Add16;
    Add16Past(p, q, m);
    Add16Past(q, p, m);
    Add16Twice(p, q, m);
    if p & t == 0 {
      if q & t == 0 {
        NeitherTop(p, q, t);
      } else {
        OneTop(q, p, t);
        Add16Past(p, Add16(q, m), 0);
      }
    } else if q & t == 0 {
      OneTop(p, q, t);
    } else {
      BothTop(p, q, t);
    }
  }

  lemma OneBit(p: bv16)
    ensures p & 0x4000 == 0 || p & 0x4000 == 0x4000
    ensures p & 0x2000 == 0 || p & 0x2000 == 0x2000
    ensures p & 0x1000 == 0 || p & 0x1000 == 0x1000
    ensures p & 0x0800 == 0 || p & 0x0800 == 0x0800
    ensures p & 0x0400 == 0 || p & 0x0400 == 0x0400
    ensures p & 0x0200 == 0 || p & 0x0200 == 0x0200
    ensures p & 0x0100 == 0 || p & 0x0100 == 0x0100
  {
  }

  predicate TopBit(t: bv16) {
    t == 0x4000 || t == 0x2000 || t == 0x1000 || t == 0x0800 || t == 0x0400 || t == 0x0200 || t == 0x0100
  }

  lemma LinearAt(p: bv16, q: bv16, t: bv16, m: bv16)
    requires TopBit(t)
    ensures Reduce(Add16(p, q), t, m) == Add16(Reduce(p, t, m), Reduce(q, t, m))
  {
    hide Reduce, Add16;
    OneBit(p);
    OneBit(q);
    ReduceLinear(p, q, t, m);
  }

  lemma RemainderLinear(p: bv16, q: bv16)
    ensures Remainder(Add16(p, q)) == Add16(Remainder(p), Remainder(q))
  {
    assert TopBit(0x4000) && TopBit(0x2000) && TopBit(0x1000) && TopBit(0x0800) && TopBit(0x0400) && TopBit(0x0200);
    assert TopBit(0x0100);
    hide Reduce, Add16, TopBit;
    var p0, q0 := p, q;
    LinearAt(p0, q0, 0x4000, 0x46c0);
    var p1, q1 := Reduce(p0, 0x4000, 0x46c0), Reduce(q0, 0x4000, 0x46c0);
    LinearAt(p1, q1, 0x2000, 0x2360);
    var p2, q2 := Reduce(p1, 0x2000, 0x2360), Reduce(q1, 0x2000, 0x2360);
    LinearAt(p2, q2, 0x1000, 0x11b0);
    var p3, q3 := Reduce(p2, 0x1000, 0x11b0), Reduce(q2, 0x1000, 0x11b0);
    LinearAt(p3, q3, 0x0800, 0x08d8);
    var p4, q4 := Reduce(p3, 0x0800, 0x08d8), Reduce(q3, 0x0800, 0x08d8);
    LinearAt(p4, q4, 0x0400, 0x046c);
    var p5, q5 := Reduce(p4, 0x0400, 0x046c), Reduce(q4, 0x0400, 0x046c);
    LinearAt(p5, q5, 0x0200, 0x0236);
    var p6, q6 := Reduce(p5, 0x0200, 0x0236), Reduce(q5, 0x0200, 0x0236);
    LinearAt(p6, q6, 0x0100, 0x011b);
  }

  function Times(x: bv8, i: nat): bv8 {
    if i == 0 then x else Xtime(Times(x, i - 1))
  }

  lemma RemainderZero()
    ensures Remainder(0) == 0
  {
  }

  /** One doubling more: what is shifted out at the top comes back as a multiple of the modulus. */
  lemma ShlStep(x: bv8, i: nat)
    requires i < 7
    ensures Shl(x, i + 1) == Add16(Shl(Xtime(x), i), if x & 0x80 == 0 then 0 else (0x11b as bv16) << i)
  {
    if i == 0 {
    } else if i == 1 {
    } else if i == 2 {
    } else if i == 3 {
    } else if i == 4 {
    } else if i == 5 {
    } else {
    }
  }

  lemma ModulusVanishes(i: nat)
    requires i < 7
    ensures Remainder((0x11b as bv16) << i) == 0
  {
    if i == 0 {
    } else if i == 1 {
    } else if i == 2 {
    } else if i == 3 {
    } else if i == 4 {
    } else if i == 5 {
    } else {
    }
  }

  lemma ShlZero(x: bv8)
    ensures Remainder(Shl(x, 0)) == Wide(x)
  {
  }

  lemma {:induction false} ShiftIsTimes(x: bv8, i: nat)
    requires i < 8
    ensures Remainder(Shl(x, i)) == Wide(Times(x, i))
    decreases i
  {
    hide Remainder, Xtime, Times, Shl, Wide, Add16;
    TimesStart(x);
    if i == 0 {
      ShlZero(x);
    } else {
      ShiftIsTimes(Xtime(x), i - 1);
      ShlStep(x, i - 1);
      ModulusVanishes(i - 1);
      RemainderZero();
      RemainderLinear(Shl(Xtime(x), i - 1), if x & 0x80 == 0 then 0 else (0x11b as bv16) << (i - 1));
      Add16Zero(Remainder(Shl(Xtime(x), i - 1)));
      TimesXtime(x, i - 1);
    }
  }

  lemma Add16Zero(p: bv16)
    ensures Add16(p, 0) == p
  {
  }

  lemma {:induction false} TimesXtime(x: bv8, i: nat)
    ensures Times(Xtime(x), i) == Times(x, i + 1)
  {
    hide Xtime;
    if i > 0 {
      TimesXtime(x, i - 1);
    } else {
      TimesStart(x);
      TimesStep(x, 0);
    }
  }

  lemma TimesStart(x: bv8)
    ensures Times(x, 0) == x
  {
  }

  lemma TimesStep(x: bv8, i: nat)
    ensures Times(x, i + 1) == Xtime(Times(x, i))
  {
  }

  lemma {:induction false} MulFromIsField(x: bv8, y: bv8, i: nat)
    requires i <= 8
    ensures Wide(MulFrom(Times(x, i), y, i)) == Remainder(ProductFrom(x, y, i))
    decreases 8 - i
  {
    hide Remainder, Xtime, Add, Add16, MulFrom, ProductFrom, Times, Shl, Wide;
    RemainderZero();
    Widen(0, 0);
    if i == 8 {
      FromEnd(x, y);
    } else {
      MulFromIsField(x, y >> 1, i + 1);
      var head, rest := (if y & 1 == 1 then Shl(x, i) else 0), ProductFrom(x, y >> 1, i + 1);
      RemainderLinear(head, rest);
      ShiftIsTimes(x, i);
      TimesStep(x, i);
      MulUnfold(Times(x, i), y, i);
      ProductUnfold(x, y, i);
      Widen(if y & 1 == 1 then Times(x, i) else 0, MulFrom(Times(x, i + 1), y >> 1, i + 1));
    }
  }

  lemma FromEnd(x: bv8, y: bv8)
    ensures MulFrom(Times(x, 8), y, 8) == 0 && ProductFrom(x, y, 8) == 0
  {
  }

  lemma MulUnfold(x: bv8, y: bv8, i: nat)
    requires i < 8
    ensures MulFrom(x, y, i) == Add(if y & 1 == 1 then x else 0, MulFrom(Xtime(x), y >> 1, i + 1))
  {
  }

  lemma ProductUnfold(x: bv8, y: bv8, i: nat)
    requires i < 8
    ensures ProductFrom(x, y, i) == Add16(if y & 1 == 1 then Shl(x, i) else 0, ProductFrom(x, y >> 1, i + 1))
  {
  }

  lemma Widen(a: bv8, b: bv8)
    ensures Wide(Add(a, b)) == Add16(Wide(a), Wide(b)) && Wide(0) == 0
  {
  }

  /** The program's double and add is the field's multiplication. */
  lemma MulIsField(x: bv8, y: bv8)
    ensures Wide(Mul(x, y)) == Remainder(ProductFrom(x, y, 0))
  {
    hide Remainder, Xtime, MulFrom, ProductFrom, Wide;
    assert Times(x, 0) == x;
    MulFromIsField(x, y, 0);
  }

  lemma XtimeLinear(x: bv8, z: bv8)
    ensures Xtime(Add(x, z)) == Add(Xtime(x), Xtime(z))
  {
  }

  lemma {:induction false} MulFromLinear(x: bv8, z: bv8, y: bv8, i: nat)
    requires i <= 8
    ensures MulFrom(Add(x, z), y, i) == Add(MulFrom(x, y, i), MulFrom(z, y, i))
    decreases 8 - i
  {
    hide Xtime, Add;
    AddLaws(0, 0, 0);
    if i < 8 {
      XtimeLinear(x, z);
      MulFromLinear(Xtime(x), Xtime(z), y >> 1, i + 1);
      AddFour(x, z, MulFrom(Xtime(x), y >> 1, i + 1), MulFrom(Xtime(z), y >> 1, i + 1));
      AddLaws(MulFrom(Xtime(x), y >> 1, i + 1), 0, 0);
      AddLaws(MulFrom(Xtime(z), y >> 1, i + 1), 0, 0);
      AddLaws(Add(MulFrom(Xtime(x), y >> 1, i + 1), MulFrom(Xtime(z), y >> 1, i + 1)), 0, 0);
    }
  }

  lemma AddFour(a: bv8, b: bv8, c: bv8, d: bv8)
    ensures Add(Add(a, b), Add(c, d)) == Add(Add(a, c), Add(b, d))
  {
    hide Add;
    AddLaws(a, b, Add(c, d));
    AddLaws(b, c, d);
    AddLaws(c, b, d);
    AddLaws(a, c, Add(b, d));
  }

  lemma MulLinear(x: bv8, z: bv8, y: bv8)
    ensures Mul(Add(x, z), y) == Add(Mul(x, y), Mul(z, y))
  {
    MulFromLinear(x, z, y, 0);
  }
}
