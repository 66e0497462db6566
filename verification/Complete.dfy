/** The addition formulas are complete: the sum of two points of the curve is a point again, never a quotient by
    zero. That 2^255 - 19 is prime and that d is no square modulo it are hypotheses. */
module Complete {
  import opened Arith
  import opened Field
  import opened X25519
  import opened Groups
  import opened Ed25519
  import opened Curve
  import opened Points

  ghost predicate NonSquare() {
    forall x {:trigger FMul(x, x)} :: FMul(x, x) != CURVE_D
  }

  /** Extended coordinates that stand for a point. */
  ghost predicate IsPoint(c: Coords) {
    OnCurve(c) && !Cong(c.Z, 0)
  }

  // ---- the product of four coordinates, times d, is neither 1 nor -1

  /** What stands between d u^2 and w^2, as a combination of the four equations it follows from. */
  lemma SquareIdentity(x1: int, y1: int, x2: int, y2: int, r: int, d: int)
    ensures var m, n := x1 * y1, x2 * y2; var e := d * (m * n); var u, w := m * (r * x2 + y2), r * x1 + e * y1;
      d * (u * u) - w * w == (r * r + 1) * (d * (m * m) * (x2 * x2) - x1 * x1)
        + (y2 * y2 - x2 * x2 - (1 + d * (n * n))) * (d * (m * m))
        - (y1 * y1 - x1 * x1 - (1 + d * (m * m))) + (e * e - 1) * (1 - y1 * y1)
  {
    var m, n := x1 * y1, x2 * y2;
    var e, dm, dn, q := d * (m * n), d * (m * m), d * (n * n), r * x2 + y2;
    SquareProduct(m, q);
    SquareProduct(m, n);
    SumSquare(r, x2, 1, y2);
    SumSquare(r, x1, e, y1);
    Spread(dm, (r * r) * (x2 * x2), r * n, y2 * y2);
    Foil(r * r, 1, dm * (x2 * x2), -(x1 * x1));
    Foil(e * e, -1, 1, -(y1 * y1));
    Spread3(dm, y2 * y2, x2 * x2, 1 + dn);
    Orders(d, m, n, r, x2 * x2, q);
  }

  lemma Orders(d: int, m: int, n: int, r: int, s: int, q: int)
    ensures d * ((m * m) * (q * q)) == d * (m * m) * (q * q)
    ensures d * (m * m) * (r * n) == r * (d * (m * n) * m)
    ensures d * (m * m) * ((r * r) * s) == (r * r) * (d * (m * m) * s)
    ensures d * (m * m) * (d * (n * n)) == d * (m * n) * (d * (m * n))
  {
  }

  lemma SumSquare(a: int, x: int, b: int, y: int)
    ensures (a * x + b * y) * (a * x + b * y) == (a * a) * (x * x) + 2 * (a * (b * (x * y))) + (b * b) * (y * y)
  {
    Foil(a * x, b * y, a * x, b * y);
    SquareProduct(a, x);
    SquareProduct(b, y);
    assert a * x * (b * y) == a * (b * (x * y));
  }

  lemma Spread(k: int, a: int, b: int, c: int)
    ensures k * (a + 2 * b + c) == k * a + 2 * (k * b) + k * c
  {
  }

  lemma Spread3(k: int, a: int, b: int, c: int)
    ensures (a - b - c) * k == k * a - k * b - k * c
  {
  }

  /** A combination of multiples of p is one. */
  lemma Combination(a: int, f: int, b: int, g: int, h: int, c: int, k: int)
    requires Cong(f, 0) && Cong(g, 0) && Cong(h, 0) && Cong(k, 0)
    ensures Cong(f * a + g * b - h + k * c, 0)
  {
    hide *;
    CongScale(a, f, 0);
    CongScale(b, g, 0);
    CongScale(c, k, 0);
    CongAdd(a * f, b * g, 0, 0);
    CongAdd(a * f + b * g, h, 0, 0);
    CongAdd(a * f + b * g - h, c * k, 0, 0);
  }

  /** A fraction whose square is d: if e^2 = 1 then d u^2 = w^2. */
  lemma SquareOfFraction(x1: int, y1: int, x2: int, y2: int, r: int)
    requires Satisfies(x1, y1) && Satisfies(x2, y2) && Cong(r * r, -1)
    requires var e := CURVE_D * (x1 * y1 * (x2 * y2)); Cong(e * e, 1)
    ensures var e := CURVE_D * (x1 * y1 * (x2 * y2)); var u, w := x1 * y1 * (r * x2 + y2), r * x1 + e * y1;
      Cong(CURVE_D * (u * u), w * w)
  {
    var m, n := x1 * y1, x2 * y2;
    var e := CURVE_D * (m * n);
    var f, g, h := r * r + 1, y2 * y2 - x2 * x2 - (1 + CURVE_D * (n * n)), y1 * y1 - x1 * x1 - (1 + CURVE_D * (m * m));
    SatisfiesMeans(x1, y1);
    SatisfiesMeans(x2, y2);
    CongDifference(r * r, -1);
    CongDifference(y2 * y2 - x2 * x2, 1 + CURVE_D * (n * n));
    CongDifference(y1 * y1 - x1 * x1, 1 + CURVE_D * (m * m));
    CongDifference(e * e, 1);
    assert r * r - -1 == f && e * e - 1 == e * e - 1;
    hide *;
    Combination(CURVE_D * (m * m) * (x2 * x2) - x1 * x1, f, CURVE_D * (m * m), g, h, 1 - y1 * y1, e * e - 1);
    SquareIdentity(x1, y1, x2, y2, r, CURVE_D);
    var u, w := m * (r * x2 + y2), r * x1 + e * y1;
    CongDifference(CURVE_D * (u * u), w * w);
  }

  /** No square but zero is d times a square. */
  lemma OnlyZero(u: int, w: int)
    requires PrimeField() && NonSquare() && Cong(CURVE_D * (u * u), w * w)
    ensures Cong(u, 0)
  {
    assert P - 2 >= 0;
    hide *;
    if !Cong(u, 0) {
      var i := FPow(u, P - 2);
      Inverse(u);
      CongMul(u * i, u * i, 1, 1);
      CongScale(CURVE_D, (u * i) * (u * i), 1 * 1);
      CongSelf(i * i);
      CongMul(CURVE_D * (u * u), i * i, w * w, i * i);
      SquareProduct(u, i);
      SquareProduct(w, i);
      assert CURVE_D * (u * u) * (i * i) == CURVE_D * ((u * i) * (u * i));
      CongTrans((w * i) * (w * i), CURVE_D * (u * u) * (i * i), CURVE_D * (1 * 1)) by {
        CongTrans(CURVE_D * (u * u) * (i * i), (w * i) * (w * i), (w * i) * (w * i)) by { CongSelf((w * i) * (w * i)); }
      }
      NotD(w * i);
    }
  }

  lemma DReduced()
    ensures CURVE_D % P == CURVE_D
  {
    PIs();
    DIs();
    hide Pow;
  }

  lemma NotD(x: int)
    requires NonSquare()
    ensures !Cong(x * x, CURVE_D * (1 * 1))
  {
    DReduced();
    assert FMul(x, x) != CURVE_D;
    hide CURVE_D, P;
  }

  /** Of r x + y and -r x + y one is not zero, when y is not. */
  lemma BothZero(r: int, x: int, y: int)
    requires PrimeField() && Cong(r * x + y, 0) && Cong(-r * x + y, 0)
    ensures Cong(y, 0)
  {
    hide *;
    CongAdd(r * x + y, -r * x + y, 0, 0);
    assert r * x + y + (-r * x + y) == 2 * y;
    TwoIsNotZero();
    NoDivisors(2, y);
  }

  /** Two points of the curve never have d x1 y1 x2 y2 = 1 or -1. */
  lemma NeverUnit(x1: int, y1: int, x2: int, y2: int)
    requires PrimeField() && NonSquare() && Satisfies(x1, y1) && Satisfies(x2, y2)
    ensures var e := CURVE_D * (x1 * y1 * (x2 * y2)); !Cong(e * e, 1)
  {
    hide *;
    var m, n := x1 * y1, x2 * y2;
    var e := CURVE_D * (m * n);
    if Cong(e * e, 1) {
      RootIsI();
      SquareOfFraction(x1, y1, x2, y2, ROOT);
      SquareOfFraction(x1, y1, x2, y2, -ROOT);
      OnlyZero(m * (ROOT * x2 + y2), ROOT * x1 + e * y1);
      OnlyZero(m * (-ROOT * x2 + y2), -ROOT * x1 + e * y1);
      if Cong(m, 0) {
        ZeroUnit(m, n);
      } else {
        NoDivisors(m, ROOT * x2 + y2);
        NoDivisors(m, -ROOT * x2 + y2);
        BothZero(ROOT, x2, y2);
        CongScale(x2, y2, 0);
        ZeroUnit(n, m);
      }
    }
  }

  lemma RootIsI()
    ensures Cong(ROOT * ROOT, -1) && Cong(-ROOT * -ROOT, -1)
  {
    RootSquared();
    MinusOne();
    assert -ROOT * -ROOT == ROOT * ROOT;
    hide ROOT;
    CongResidue(ROOT * ROOT, ROOT * ROOT);
    assert FMul(ROOT, ROOT) == ROOT * ROOT % P;
  }

  lemma ZeroUnit(m: int, n: int)
    requires Cong(m, 0)
    ensures var e := CURVE_D * (m * n); !Cong(e * e, 1)
    ensures var e := CURVE_D * (n * m); !Cong(e * e, 1)
  {
    hide *;
    CongScale(n, m, 0);
    CongScale(CURVE_D, n * m, 0);
    assert n * m == m * n;
    var e := CURVE_D * (m * n);
    CongMul(e, e, 0, 0);
    ZeroIsNotOne(e * e);
  }

  lemma ZeroIsNotOne(x: int)
    requires Cong(x, 0)
    ensures !Cong(x, 1)
  {
  }

  // ---- sums of points are points

  lemma UnitSquare(u: int, v: int, w: int, e: int)
    requires Cong(u * u, v * v) && Cong(u * w, 1) && Cong(v * w, e)
    ensures Cong(e * e, 1)
  {
    hide *;
    CongMul(u * w, u * w, 1, 1);
    CongMul(v * w, v * w, e, e);
    CongSelf(w * w);
    CongMul(u * u, w * w, v * v, w * w);
    SquareProduct(u, w);
    SquareProduct(v, w);
    CongTrans(e * e, v * w * (v * w), u * w * (u * w)) by {
      Flip(v * w * (v * w), e * e);
      Flip(u * w * (u * w), v * w * (v * w));
    }
    CongTrans(e * e, u * w * (u * w), 1 * 1);
  }

  /** The denominators of the sum do not vanish. */
  lemma SumNotZero(a: Coords, b: Coords)
    requires PrimeField() && NonSquare() && IsPoint(a) && IsPoint(b)
    ensures !Cong(Add(a, b).Z, 0)
  {
    assert P - 2 >= 0;
    hide *;
    PointIs(a);
    PointIs(b);
    var i, j := FPow(a.Z, P - 2), FPow(b.Z, P - 2);
    Inverse(a.Z);
    Inverse(b.Z);
    ScaledCurve(a, i);
    ScaledIs(a, i);
    UnitCurve(Scaled(a, i));
    ScaledCurve(b, j);
    ScaledIs(b, j);
    UnitCurve(Scaled(b, j));
    var x1, y1, x2, y2 := a.X * i, a.Y * i, b.X * j, b.Y * j;
    NeverUnit(x1, y1, x2, y2);
    var u, v, e := a.Z * b.Z, CURVE_D * (a.T * b.T), CURVE_D * (x1 * y1 * (x2 * y2));
    Exchange(a.Z, b.Z, i, j);
    CongMul(a.Z * i, b.Z * j, 1, 1);
    Exchange(a.T, b.T, i, j);
    CongMul(a.T * i, b.T * j, x1 * y1, x2 * y2);
    CongScale(CURVE_D, a.T * i * (b.T * j), x1 * y1 * (x2 * y2));
    assert v * (i * j) == CURVE_D * (a.T * b.T * (i * j)) by { Grouped(CURVE_D, a.T * b.T, i * j); }
    if Cong(Add(a, b).Z, 0) {
      AddCong(a, b);
      CongTrans(0, Add(a, b).Z, (2 * u - 2 * v) * (2 * u + 2 * v)) by { Flip(Add(a, b).Z, 0); }
      SquaresMeet(u, v);
      UnitSquare(u, v, i * j, e);
    }
  }

  lemma PointIs(c: Coords)
    ensures IsPoint(c) <==> OnCurve(c) && !Cong(c.Z, 0)
  {
    hide OnCurve, Cong;
  }

  lemma Exchange(x: int, y: int, i: int, j: int)
    ensures x * y * (i * j) == x * i * (y * j)
  {
  }

  lemma Grouped(x: int, y: int, z: int)
    ensures x * y * z == x * (y * z)
  {
  }

  lemma SquaresMeet(u: int, v: int)
    requires PrimeField() && Cong((2 * u - 2 * v) * (2 * u + 2 * v), 0)
    ensures Cong(u * u, v * v)
  {
    hide *;
    NoDivisors(2 * u - 2 * v, 2 * u + 2 * v);
    assert 2 * u - 2 * v == 2 * (u - v) && 2 * u + 2 * v == 2 * (u - -v);
    TwoIsNotZero();
    if Cong(2 * (u - v), 0) {
      NoDivisors(2, u - v);
    } else {
      NoDivisors(2, u - -v);
    }
    CongDifference(u, v);
    CongDifference(u, -v);
    if Cong(u, v) {
      CongMul(u, u, v, v);
    } else {
      CongMul(u, u, -v, -v);
      MinusSquare(v);
    }
  }

  /** The sum of two points of the curve, equal or not, is a point of the curve. */
  lemma SumIsPoint(a: Coords, b: Coords)
    requires PrimeField() && NonSquare() && IsPoint(a) && IsPoint(b)
    ensures IsPoint(Add(a, b))
  {
    hide *;
    PointIs(a);
    PointIs(b);
    PointIs(Add(a, b));
    AddOnCurve(a, b);
    SumNotZero(a, b);
  }

  // ---- the neutral element and inverses

  /** Coordinates with X = 0 and Y = Z stand for (0, 1). */
  lemma NeutralAffine(c: Coords)
    requires PrimeField() && !Cong(c.Z, 0) && Cong(c.X, 0) && Cong(c.Y, c.Z)
    ensures ToAffine(c) == Affine(0, 1)
  {
    var i := FPow(c.Z, P - 2);
    assert ToAffine(c) == Affine(FMul(c.X, i), FMul(c.Y, i));
    hide *;
    Inverse(c.Z);
    CongSelf(i);
    CongMul(c.X, i, 0, i);
    CongMul(c.Y, i, c.Z, i);
    CongTrans(c.Y * i, c.Z * i, 1);
    Products(c.X, i, c.Y);
  }

  lemma Products(x: int, i: int, y: int)
    requires Cong(x * i, 0 * i) && Cong(y * i, 1)
    ensures FMul(x, i) == 0 && FMul(y, i) == 1
  {
    PIs();
    assert 0 * i == 0;
  }

  /** The coordinates of a point are its affine coordinates times Z. */
  lemma Homogeneous(c: Coords)
    requires PrimeField() && IsPoint(c)
    ensures var a := ToAffine(c);
      Satisfies(a.x, a.y) && Cong(c.X, a.x * c.Z) && Cong(c.Y, a.y * c.Z) && Cong(c.T, a.x * a.y * c.Z)
      && 0 <= a.x < P && 0 <= a.y < P
  {
    var i, a := FPow(c.Z, P - 2), ToAffine(c);
    assert a == Affine(FMul(c.X, i), FMul(c.Y, i));
    PointIs(c);
    ToAffineOnCurve(c);
    AffineIs(a);
    hide *;
    Inverse(c.Z);
    ScaledCurve(c, i);
    ScaledIs(c, i);
    UnitCurve(Scaled(c, i));
    CongSelf(c.X);
    CongSelf(c.Y);
    CongSelf(i);
    CongField(c.X, i, c.X, i);
    CongField(c.Y, i, c.Y, i);
    CongMul(a.x, a.y, c.X * i, c.Y * i);
    CongTrans(c.T * i, c.X * i * (c.Y * i), a.x * a.y) by { Flip(a.x * a.y, c.X * i * (c.Y * i)); }
    Multiplied(c.X, i, c.Z, a.x) by { Flip(a.x, c.X * i); }
    Multiplied(c.Y, i, c.Z, a.y) by { Flip(a.y, c.Y * i); }
    Multiplied(c.T, i, c.Z, a.x * a.y);
  }

  lemma Multiplied(x: int, i: int, z: int, a: int)
    requires Cong(z * i, 1) && Cong(x * i, a)
    ensures Cong(x, a * z)
  {
    hide *;
    CongSelf(z);
    CongSelf(x);
    CongMul(x * i, z, a, z);
    CongMul(z * i, x, 1, x);
    assert x * i * z == z * i * x && 1 * x == x;
    Flip(z * i * x, x);
    CongTrans(x, z * i * x, a * z);
  }

  lemma OppositeIs(a: Affine)
    ensures Opposite(a) == Coords(FSub(0, a.x), a.y, 1, FMul(FSub(0, a.x), a.y))
  {
    hide FSub, FMul;
  }

  /** The negation of a point is a point, and their sum is neutral. */
  lemma OppositeSum(c: Coords)
    requires PrimeField() && NonSquare() && IsPoint(c)
    ensures var o := Opposite(ToAffine(c)); IsPoint(o) && ToAffine(Add(o, c)) == Affine(0, 1)
  {
    hide *;
    var a := ToAffine(c);
    var o := Opposite(a);
    OppositeIs(a);
    Homogeneous(c);
    Negated(a.x);
    CongSelf(a.y);
    CongField(o.X, a.y, -a.x, a.y);
    TurnSign(a.x, a.y, -a.x);
    NegationIsPoint(a.x, a.y, o);
    SumIsPoint(o, c);
    PointIs(Add(o, c));
    OppositeTerms(a.x, a.y, o, c);
    NeutralAffine(Add(o, c));
  }

  lemma NegationIsPoint(x: int, y: int, o: Coords)
    requires Satisfies(x, y) && Cong(o.X, -x) && o.Y == y && o.Z == 1 && Cong(o.T, -(x * y))
    ensures IsPoint(o)
  {
    hide *;
    var n := Coords(-x, y, 1, -(x * y));
    SatisfiesMeans(x, y);
    CurveMeans(n);
    MinusSquare(x);
    MinusSquare(x * y);
    TurnSign(x, y, -x);
    CongSelf(y);
    CongSelf(1);
    CongSelf(-(x * y));
    SameCurve(o, n);
    UnitIsPoint(o);
  }

  lemma MinusSquare(x: int)
    ensures -x * -x == x * x
  {
  }

  lemma UnitIsPoint(o: Coords)
    requires OnCurve(o) && o.Z == 1
    ensures IsPoint(o)
  {
    assert !Cong(1, 0);
    hide Cong, OnCurve;
  }

  lemma TurnSign(x: int, y: int, a: int)
    ensures y * -x == -(x * y) && y * a == a * y
  {
  }

  /** The sum's X vanishes, and its Y is its Z. */
  lemma OppositeTerms(x: int, y: int, o: Coords, c: Coords)
    requires Satisfies(x, y) && Cong(o.X, -x) && o.Y == y && o.Z == 1 && Cong(o.T, -(x * y))
    requires Cong(c.X, x * c.Z) && Cong(c.Y, y * c.Z) && Cong(c.T, x * y * c.Z)
    ensures Cong(Add(o, c).X, 0) && Cong(Add(o, c).Y, Add(o, c).Z)
  {
    var m, z := x * y, c.Z;
    hide *;
    SatisfiesMeans(x, y);
    var A, B := (o.Y - o.X) * (c.Y - c.X), (o.Y + o.X) * (c.Y + c.X);
    var C, D := 2 * (CURVE_D * (o.T * c.T)), 2 * (o.Z * c.Z);
    var h := z * (y * y - x * x);
    CongSelf(y);
    CongAdd(y, o.X, y, -x);
    CongAdd(c.Y, c.X, y * z, x * z);
    CongMul(o.Y - o.X, c.Y - c.X, y - -x, y * z - x * z);
    CongMul(o.Y + o.X, c.Y + c.X, y + -x, y * z + x * z);
    Halves(x, y, z);
    CongAdd(B, A, h, h);
    CongMul(o.T, c.T, -m, m * z);
    CongScale(CURVE_D, o.T * c.T, -m * (m * z));
    CongScale(2, CURVE_D * (o.T * c.T), CURVE_D * (-m * (m * z)));
    CongSelf(D);
    CongAdd(D, C, D, 2 * (CURVE_D * (-m * (m * z))));
    CongScale(2 * z, y * y - x * x, 1 + CURVE_D * (m * m));
    Doubled(m, z, CURVE_D, y * y - x * x);
    CongTrans(B + A, 2 * z * (y * y - x * x), 2 * z * (1 + CURVE_D * (m * m)));
    Flip(D - C, 2 * z * (1 + CURVE_D * (m * m)));
    CongTrans(B + A, 2 * z * (1 + CURVE_D * (m * m)), D - C);
    AddCong(o, c);
    CongSelf(D - C);
    CongSelf(D + C);
    CongMul(B - A, D - C, 0, D - C);
    CongTrans(Add(o, c).X, (B - A) * (D - C), 0 * (D - C));
    CongMul(D - C, D + C, B + A, D + C) by { Flip(B + A, D - C); }
    SameSum(Add(o, c), D + C, B + A, D - C);
  }

  lemma Halves(x: int, y: int, z: int)
    ensures (y - -x) * (y * z - x * z) == z * (y * y - x * x) && (y + -x) * (y * z + x * z) == z * (y * y - x * x)
  {
    assert y * z - x * z == (y - x) * z && y * z + x * z == (y + x) * z;
    assert (y + x) * (y - x) == y * y - x * x by { Foil(y, x, y, -x); }
    Grouped(y + x, y - x, z);
    Grouped(y - x, y + x, z);
  }

  lemma Doubled(m: int, z: int, d: int, h: int)
    ensures 2 * (1 * z) - 2 * (d * (-m * (m * z))) == 2 * z * (1 + d * (m * m))
    ensures z * h + z * h == 2 * z * h
  {
    assert -m * (m * z) == -(m * m * z);
    assert d * (m * m * z) == z * (d * (m * m));
    assert d * -(m * m * z) == -(d * (m * m * z));
    assert 2 * z * (1 + d * (m * m)) == 2 * z + 2 * (z * (d * (m * m)));
  }

  lemma SameSum(r: Coords, g: int, h: int, f: int)
    requires Cong(r.Y, g * h) && Cong(r.Z, f * g) && Cong(f * g, h * g)
    ensures Cong(r.Y, r.Z)
  {
  }

  lemma IdentityIsPoint()
    requires PrimeField()
    ensures IsPoint(IDENTITY) && ToAffine(IDENTITY) == Affine(0, 1)
  {
    hide *;
    IdentityIs();
    CurveMeans(IDENTITY);
    CongSelf(0);
    CongSelf(1);
    UnitIsPoint(IDENTITY);
    PointIs(IDENTITY);
    NeutralAffine(IDENTITY);
  }

  lemma BaseIsPoint()
    ensures IsPoint(B)
  {
    BaseOnCurve();
    assert B.Z == 1;
    hide *;
    UnitIsPoint(B);
  }
}
