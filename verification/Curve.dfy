/** The addition of section 5.1.4 of RFC 8032 never leaves the curve. */
module Curve {
  import opened Arith
  import opened Field
  import opened X25519
  import opened Groups
  import opened Ed25519

  predicate Cong(x: int, y: int) {
    x % P == y % P
  }

  lemma CongMul(x: int, y: int, u: int, v: int)
    requires Cong(x, u) && Cong(y, v)
    ensures Cong(x * y, u * v)
  {
    ModMul(x, y, P);
    ModMul(u, v, P);
  }

  lemma CongAdd(x: int, y: int, u: int, v: int)
    requires Cong(x, u) && Cong(y, v)
    ensures Cong(x + y, u + v) && Cong(x - y, u - v)
  {
    ModAdd(x, y, P);
    ModAdd(u, v, P);
    ModSub(x, y, P);
    ModSub(u, v, P);
  }

  /** The sides of the two equations of extended coordinates: -X^2 + Y^2 = Z^2 + d T^2, and X Y = Z T. */
  function Left(c: Coords, i: nat): int {
    if i == 0 then c.Y * c.Y - c.X * c.X else c.X * c.Y
  }

  function Right(c: Coords, i: nat): int {
    if i == 0 then c.Z * c.Z + CURVE_D * (c.T * c.T) else c.Z * c.T
  }

  /** The curve of section 5.1, modulo p. */
  ghost predicate OnCurve(c: Coords) {
    forall i {:trigger Left(c, i)} :: 0 <= i < 2 ==> Cong(Left(c, i), Right(c, i))
  }

  /** The curve in affine terms, on numbers that need not be reduced. */
  ghost predicate Satisfies(x: int, y: int) {
    OnCurve(Coords(x, y, 1, x * y))
  }

  lemma CurveMeans(c: Coords)
    ensures OnCurve(c) <==>
      Cong(c.Y * c.Y - c.X * c.X, c.Z * c.Z + CURVE_D * (c.T * c.T)) && Cong(c.X * c.Y, c.Z * c.T)
  {
    hide Cong, CURVE_D;
    assert Left(c, 0) == c.Y * c.Y - c.X * c.X && Left(c, 1) == c.X * c.Y;
  }

  lemma SatisfiesMeans(x: int, y: int)
    ensures Satisfies(x, y) <==> Cong(y * y - x * x, 1 + CURVE_D * ((x * y) * (x * y)))
  {
    CurveMeans(Coords(x, y, 1, x * y));
    hide OnCurve, CURVE_D;
  }

  // ---- the polynomial identity

  lemma Foil(a: int, b: int, c: int, e: int)
    ensures (a + b) * (c + e) == a * c + a * e + b * c + b * e
  {
  }

  lemma TimesSquare(m: int, x: int, y: int)
    ensures m * ((x + y) * (x + y)) == m * (x * x) + 2 * (m * (x * y)) + m * (y * y)
  {
    Foil(x, y, x, y);
    assert x * y == y * x;
  }

  lemma Core(z1: int, t1: int, z2: int, t2: int, d: int)
    ensures (z1 * t2 + t1 * z2) * (z1 * z2 + d * d * (t1 * t2)) + 4 * (d * (z1 * t1 * (z2 * t2)))
         == z2 * t2 * ((z1 + d * t1) * (z1 + d * t1)) + z1 * t1 * ((z2 + d * t2) * (z2 + d * t2))
  {
    Foil(z1 * t2, t1 * z2, z1 * z2, d * d * (t1 * t2));
    TimesSquare(z2 * t2, z1, d * t1);
    TimesSquare(z1 * t1, z2, d * t2);
    Monomial1(z1, t2, z2);
    Monomial1(z2, t1, z1);
    Monomial2(z1, t2, t1, d);
    Monomial2(z2, t1, t2, d);
    Monomial3(z2, t2, z1, t1, d);
    Monomial3(z1, t1, z2, t2, d);
  }

  lemma Monomial1(p: int, q: int, r: int)
    ensures p * q * (p * r) == r * q * (p * p)
  {
  }

  lemma Monomial2(p: int, q: int, r: int, d: int)
    ensures p * q * (d * d * (r * q)) == p * r * (d * q * (d * q))
  {
  }

  lemma Monomial3(p: int, q: int, r: int, s: int, d: int)
    ensures p * q * (r * (d * s)) == d * (r * s * (p * q))
  {
  }

  /** What the curve equation of a sum comes to, in S = D^2 + C^2, W = D C, U = A^2 + B^2 and V = A B. */
  function Defect(S: int, W: int, U: int, V: int, d: int): int {
    S * S - 4 * (W * W) + d * (U * U) - 4 * (d * (V * V)) - 4 * (V * S) - 4 * (W * U)
  }

  function Quartic(z: int, t: int, d: int): int {
    (z + d * t) * (z + d * t) + 4 * (z * t)
  }

  /** Up to the curve equations of the two summands the defect is a multiple of al^2 - Q1 Q2. */
  lemma DefectFactors(z1: int, t1: int, z2: int, t2: int, m: int, al: int, d: int)
    requires m * m == z1 * t1 * (z2 * t2)
    ensures Defect(4 * (z1 * z2 + d * d * (t1 * t2)), 4 * (d * m), 2 * al + 8 * m, (z1 + d * t1) * (z2 + d * t2), d)
         == 4 * (d * (al * al - Quartic(z1, t1, d) * Quartic(z2, t2, d)))
  {
    var s, r, v := z1 * z2 + d * d * (t1 * t2), z1 * t2 + t1 * z2, (z1 + d * t1) * (z2 + d * t2);
    var a, b := (z1 + d * t1) * (z1 + d * t1), (z2 + d * t2) * (z2 + d * t2);
    Core(z1, t1, z2, t2, d);
    VIsSum(z1, t1, z2, t2, d);
    Foil(a, 4 * (z1 * t1), b, 4 * (z2 * t2));
    SquareProduct(z1 + d * t1, z2 + d * t2);
    var q := a * b + 4 * (z2 * t2 * a) + 4 * (z1 * t1 * b) + 16 * (m * m);
    assert Quartic(z1, t1, d) * Quartic(z2, t2, d) == q;
    hide *;
    assert q == v * v + 4 * (r * s + 4 * (d * (m * m))) + 16 * (m * m);
    DefectCollect(s, r, m, al, v, d);
  }

  lemma VIsSum(z1: int, t1: int, z2: int, t2: int, d: int)
    ensures (z1 + d * t1) * (z2 + d * t2) == (z1 * z2 + d * d * (t1 * t2)) + d * (z1 * t2 + t1 * z2)
  {
    Foil(z1, d * t1, z2, d * t2);
    assert d * t1 * (d * t2) == d * d * (t1 * t2);
    assert z1 * (d * t2) == d * (z1 * t2) && d * t1 * z2 == d * (t1 * z2);
  }

  lemma SquareProduct(x: int, y: int)
    ensures (x * x) * (y * y) == (x * y) * (x * y)
  {
  }

  lemma DefectCollect(s: int, r: int, m: int, al: int, v: int, d: int)
    requires v == s + d * r
    ensures Defect(4 * s, 4 * (d * m), 2 * al + 8 * m, v, d)
         == 4 * (d * (al * al - (v * v + 4 * (r * s + 4 * (d * (m * m))) + 16 * (m * m))))
  {
    assert v * (4 * s) == 4 * (s * s) + 4 * (d * (r * s));
    assert (4 * (d * m)) * (4 * (d * m)) == 16 * (d * (d * (m * m)));
    assert (2 * al + 8 * m) * (2 * al + 8 * m) == 4 * (al * al) + 32 * (al * m) + 64 * (m * m);
    assert (4 * (d * m)) * (2 * al + 8 * m) == 8 * (d * (al * m)) + 32 * (d * (m * m));
  }

  /** The curve equation of the sum, over the integers, is exactly the defect. */
  lemma SumDefect(A: int, B: int, C: int, D: int, d: int)
    ensures var E, F, G, H := B - A, D - C, D + C, B + A;
      (F * G) * (F * G) + d * ((E * H) * (E * H)) - ((G * H) * (G * H) - (E * F) * (E * F))
        == Defect(D * D + C * C, D * C, A * A + B * B, A * B, d)
  {
    var E, F, G, H := B - A, D - C, D + C, B + A;
    var S, W, U, V := D * D + C * C, D * C, A * A + B * B, A * B;
    DifferenceOfSquares(D, C);
    DifferenceOfSquares(B, A);
    CrossSquares(A, B, C, D);
    assert (F * G) * (F * G) == S * S - 4 * (W * W);
    assert (E * H) * (E * H) == U * U - 4 * (V * V);
    assert d * (U * U - 4 * (V * V)) == d * (U * U) - 4 * (d * (V * V));
  }

  lemma DifferenceOfSquares(x: int, y: int)
    ensures (x - y) * (x + y) == x * x - y * y
    ensures ((x - y) * (x + y)) * ((x - y) * (x + y)) == (x * x + y * y) * (x * x + y * y) - 4 * ((x * y) * (x * y))
  {
    SquareProduct(x, y);
    var a, b := x * x, y * y;
    assert (a - b) * (a - b) == (a + b) * (a + b) - 4 * (a * b);
  }

  lemma CrossSquares(A: int, B: int, C: int, D: int)
    ensures ((D + C) * (B + A)) * ((D + C) * (B + A)) - ((B - A) * (D - C)) * ((B - A) * (D - C))
         == 4 * ((A * B) * (D * D + C * C)) + 4 * ((D * C) * (A * A + B * B))
  {
    var x, y := D * A + C * B, D * B + C * A;
    Foil(D, C, B, A);
    Foil(B, -A, D, -C);
    assert (D + C) * (B + A) == y + x;
    assert (B - A) * (D - C) == y - x;
    assert (y + x) * (y + x) - (y - x) * (y - x) == 4 * (x * y);
    Foil(D * A, C * B, D * B, C * A);
    Mul4(D, A, B);
    Mul4(C, B, A);
    Swap4(D, A, C);
    Swap4(C, B, D);
    Distribute(D * D, C * C, A * B);
    Distribute(A * A, B * B, D * C);
  }

  lemma Mul4(x: int, a: int, b: int)
    ensures (x * a) * (x * b) == (x * x) * (a * b)
  {
  }

  lemma Swap4(x: int, a: int, y: int)
    ensures (x * a) * (y * a) == (a * a) * (x * y)
  {
  }

  lemma ProductAB(x1: int, y1: int, x2: int, y2: int)
    ensures ((y1 - x1) * (y2 - x2)) * ((y1 + x1) * (y2 + x2)) == (y1 * y1 - x1 * x1) * (y2 * y2 - x2 * x2)
  {
    Swap22(y1 - x1, y2 - x2, y1 + x1, y2 + x2);
    DifferenceOfSquares(y1, x1);
    DifferenceOfSquares(y2, x2);
  }

  lemma Swap22(a: int, b: int, c: int, e: int)
    ensures (a * b) * (c * e) == (a * c) * (b * e)
  {
  }

  lemma SquaresAB(x1: int, y1: int, x2: int, y2: int)
    ensures var A, B := (y1 - x1) * (y2 - x2), (y1 + x1) * (y2 + x2);
      A * A + B * B == 2 * ((x1 * x1 + y1 * y1) * (x2 * x2 + y2 * y2)) + 8 * ((x1 * y1) * (x2 * y2))
  {
    SquareProduct(y1 - x1, y2 - x2);
    SquareProduct(y1 + x1, y2 + x2);
    var a1, k1, a2, k2 := x1 * x1 + y1 * y1, x1 * y1, x2 * x2 + y2 * y2, x2 * y2;
    assert (y1 - x1) * (y1 - x1) == a1 - 2 * k1 && (y2 - x2) * (y2 - x2) == a2 - 2 * k2;
    assert (y1 + x1) * (y1 + x1) == a1 + 2 * k1 && (y2 + x2) * (y2 + x2) == a2 + 2 * k2;
    Foil(a1, 2 * k1, a2, 2 * k2);
    Foil(a1, -2 * k1, a2, -2 * k2);
  }

  // ---- modulo p

  /** The square of X^2 + Y^2 at a point of the curve. */
  lemma SquareSum(c: Coords)
    requires OnCurve(c)
    ensures Cong((c.X * c.X + c.Y * c.Y) * (c.X * c.X + c.Y * c.Y), Quartic(c.Z * c.Z, c.T * c.T, CURVE_D))
  {
    CurveMeans(c);
    var h, k := c.Y * c.Y - c.X * c.X, c.X * c.Y;
    var g, l := c.Z * c.Z + CURVE_D * (c.T * c.T), c.Z * c.T;
    SquareProduct(c.X, c.Y);
    SquareProduct(c.Z, c.T);
    var a, b := c.X * c.X, c.Y * c.Y;
    assert (a + b) * (a + b) == (b - a) * (b - a) + 4 * (a * b);
    hide Cong;
    CongMul(h, h, g, g);
    CongMul(k, k, l, l);
    CongScale(4, k * k, l * l);
    CongAdd(h * h, 4 * (k * k), g * g, 4 * (l * l));
  }

  lemma CongScale(k: int, x: int, y: int)
    requires Cong(x, y)
    ensures Cong(k * x, k * y)
  {
    ModMul(k, x, P);
    ModMul(k, y, P);
  }

  /** The defect depends on U and V only modulo p. */
  lemma DefectCong(S: int, W: int, U: int, V: int, U2: int, V2: int, d: int)
    requires Cong(U, U2) && Cong(V, V2)
    ensures Cong(Defect(S, W, U, V, d), Defect(S, W, U2, V2, d))
  {
    var x, y := d * (U * U) - 4 * (d * (V * V)), 4 * (V * S) + 4 * (W * U);
    var x2, y2 := d * (U2 * U2) - 4 * (d * (V2 * V2)), 4 * (V2 * S) + 4 * (W * U2);
    assert Defect(S, W, U, V, d) == (S * S - 4 * (W * W)) + (x - y);
    assert Defect(S, W, U2, V2, d) == (S * S - 4 * (W * W)) + (x2 - y2);
    assert Cong(S * S - 4 * (W * W), S * S - 4 * (W * W));
    assert V * S == S * V && V2 * S == S * V2;
    hide *;
    CongMul(U, U, U2, U2);
    CongMul(V, V, V2, V2);
    CongScale(d, U * U, U2 * U2);
    CongScale(d, V * V, V2 * V2);
    CongScale(4, d * (V * V), d * (V2 * V2));
    CongScale(S, V, V2);
    CongScale(W, U, U2);
    CongScale(4, S * V, S * V2);
    CongScale(4, W * U, W * U2);
    CongAdd(d * (U * U), 4 * (d * (V * V)), d * (U2 * U2), 4 * (d * (V2 * V2)));
    CongAdd(4 * (S * V), 4 * (W * U), 4 * (S * V2), 4 * (W * U2));
    CongAdd(x, y, x2, y2);
    CongAdd(S * S - 4 * (W * W), x - y, S * S - 4 * (W * W), x2 - y2);
  }

  /** The defect vanishes modulo p when both summands are on the curve. */
  lemma DefectVanishes(p: Coords, q: Coords)
    requires OnCurve(p) && OnCurve(q)
    ensures var A, B := (p.Y - p.X) * (q.Y - q.X), (p.Y + p.X) * (q.Y + q.X);
      var C, D := 2 * (CURVE_D * (p.T * q.T)), 2 * (p.Z * q.Z);
      Cong(Defect(D * D + C * C, D * C, A * A + B * B, A * B, CURVE_D), 0)
  {
    var d, A, B := CURVE_D, (p.Y - p.X) * (q.Y - q.X), (p.Y + p.X) * (q.Y + q.X);
    var C, D := 2 * (CURVE_D * (p.T * q.T)), 2 * (p.Z * q.Z);
    var z1, t1, z2, t2 := p.Z * p.Z, p.T * p.T, q.Z * q.Z, q.T * q.T;
    var m, k := (p.Z * p.T) * (q.Z * q.T), (p.X * p.Y) * (q.X * q.Y);
    var a1, a2 := p.X * p.X + p.Y * p.Y, q.X * q.X + q.Y * q.Y;
    var al := a1 * a2;
    ExactInts(p.Z, p.T, q.Z, q.T, d);
    ProductAB(p.X, p.Y, q.X, q.Y);
    SquaresAB(p.X, p.Y, q.X, q.Y);
    DefectFactors(z1, t1, z2, t2, m, al, d);
    SquareSum(p);
    SquareSum(q);
    SquareProduct(a1, a2);
    var v, v0 := (z1 + d * t1) * (z2 + d * t2), (p.Y * p.Y - p.X * p.X) * (q.Y * q.Y - q.X * q.X);
    var qq := Quartic(z1, t1, d) * Quartic(z2, t2, d);
    CurveMeans(p);
    CurveMeans(q);
    assert Cong(2 * al, 2 * al) && Cong(qq, qq) && Cong(4 * (d * (qq - qq)), 0);
    assert Cong(p.Y * p.Y - p.X * p.X, z1 + d * t1) && Cong(q.Y * q.Y - q.X * q.X, z2 + d * t2);
    assert Cong(p.X * p.Y, p.Z * p.T) && Cong(q.X * q.Y, q.Z * q.T);
    hide *;
    CongMul(p.Y * p.Y - p.X * p.X, q.Y * q.Y - q.X * q.X, z1 + d * t1, z2 + d * t2);
    CongMul(p.X * p.Y, q.X * q.Y, p.Z * p.T, q.Z * q.T);
    CongScale(8, k, m);
    CongAdd(2 * al, 8 * k, 2 * al, 8 * m);
    DefectCong(D * D + C * C, D * C, 2 * al + 8 * k, v0, 2 * al + 8 * m, v, d);
    CongMul(a1 * a1, a2 * a2, Quartic(z1, t1, d), Quartic(z2, t2, d));
    CongAdd(al * al, qq, qq, qq);
    CongScale(d, al * al - qq, qq - qq);
    CongScale(4, d * (al * al - qq), d * (qq - qq));
    CongChain(Defect(D * D + C * C, D * C, A * A + B * B, A * B, d), 4 * (d * (al * al - qq)), 4 * (d * (qq - qq)), 0);
  }

  lemma CongChain(x: int, y: int, z: int, w: int)
    requires Cong(x, y) && Cong(y, z) && Cong(z, w)
    ensures Cong(x, w)
  {
  }

  lemma ExactInts(z: int, t: int, y: int, u: int, d: int)
    ensures var C, D := 2 * (d * (t * u)), 2 * (z * y);
      D * D + C * C == 4 * (z * z * (y * y) + d * d * (t * t * (u * u)))
      && D * C == 4 * (d * ((z * t) * (y * u)))
    ensures ((z * t) * (y * u)) * ((z * t) * (y * u)) == z * z * (t * t) * (y * y * (u * u))
  {
    SquareProduct(z, y);
    SquareProduct(t, u);
    SquareProduct(d, t * u);
    Swap22(z, y, t, u);
    SquareProduct(z * t, y * u);
    SquareProduct(z, t);
    SquareProduct(y, u);
    var a, b := z * y, t * u;
    assert (2 * a) * (2 * a) == 4 * (a * a) && (2 * (d * b)) * (2 * (d * b)) == 4 * ((d * b) * (d * b));
    assert (2 * a) * (2 * (d * b)) == 4 * (d * (a * b));
  }

  /** The field operations are the integer operations modulo p. */
  lemma CongField(x: int, y: int, u: int, v: int)
    requires Cong(x, u) && Cong(y, v)
    ensures Cong(FMul(x, y), u * v) && Cong(FAdd(x, y), u + v) && Cong(FSub(x, y), u - v)
  {
    CongMul(x, y, u, v);
    CongAdd(x, y, u, v);
    assert FMul(x, y) == (x * y) % P && FAdd(x, y) == (x + y) % P && FSub(x, y) == (x - y) % P;
    hide *;
    CongResidue(x * y, u * v);
    CongResidue(x + y, u + v);
    CongResidue(x - y, u - v);
  }

  lemma CongResidue(x: int, u: int)
    requires Cong(x, u)
    ensures Cong(x % P, u)
  {
    PIs();
  }

  lemma CongSelf(x: int)
    ensures Cong(x, x)
  {
  }

  lemma CongTrans(x: int, y: int, z: int)
    requires Cong(x, y) && Cong(y, z)
    ensures Cong(x, z) && Cong(z, x)
  {
  }

  lemma CongSelves(p: Coords)
    ensures Cong(p.X, p.X) && Cong(p.Y, p.Y) && Cong(p.Z, p.Z) && Cong(p.T, p.T)
  {
  }

  lemma TermOrder(s: int, t: int, d: int)
    ensures s * 2 * d * t == 2 * (d * (s * t)) && s * 2 * t == 2 * (s * t)
  {
    assert s * 2 * d * t == 2 * (s * d * t);
    assert s * d * t == d * (s * t);
  }

  lemma AddIs(p: Coords, q: Coords)
    ensures var a, b := FMul(FSub(p.Y, p.X), FSub(q.Y, q.X)), FMul(FAdd(p.Y, p.X), FAdd(q.Y, q.X));
      var c, e := FMul(FMul(FMul(p.T, 2), CURVE_D), q.T), FMul(FMul(p.Z, 2), q.Z);
      Add(p, q) == Coords(FMul(FSub(b, a), FSub(e, c)), FMul(FAdd(e, c), FAdd(b, a)),
                          FMul(FSub(e, c), FAdd(e, c)), FMul(FSub(b, a), FAdd(b, a)))
  {
    hide FSub, FAdd;
    FMulComm(FAdd(FMul(FMul(p.Z, 2), q.Z), FMul(FMul(FMul(p.T, 2), CURVE_D), q.T)),
             FAdd(FMul(FAdd(p.Y, p.X), FAdd(q.Y, q.X)), FMul(FSub(p.Y, p.X), FSub(q.Y, q.X))));
    hide FMul;
  }

  /** The residues the addition returns, over the integers. */
  lemma AddCong(p: Coords, q: Coords)
    ensures var A, B := (p.Y - p.X) * (q.Y - q.X), (p.Y + p.X) * (q.Y + q.X);
      var C, D := 2 * (CURVE_D * (p.T * q.T)), 2 * (p.Z * q.Z);
      var r := Add(p, q);
      Cong(r.X, (B - A) * (D - C)) && Cong(r.Y, (D + C) * (B + A))
      && Cong(r.Z, (D - C) * (D + C)) && Cong(r.T, (B - A) * (B + A))
  {
    hide *;
    var A, B := (p.Y - p.X) * (q.Y - q.X), (p.Y + p.X) * (q.Y + q.X);
    var C, D := 2 * (CURVE_D * (p.T * q.T)), 2 * (p.Z * q.Z);
    var a, b := FMul(FSub(p.Y, p.X), FSub(q.Y, q.X)), FMul(FAdd(p.Y, p.X), FAdd(q.Y, q.X));
    var c, e := FMul(FMul(FMul(p.T, 2), CURVE_D), q.T), FMul(FMul(p.Z, 2), q.Z);
    AddIs(p, q);
    CongSelves(p);
    CongSelves(q);
    CongSelf(2);
    CongSelf(CURVE_D);
    TermOrder(p.T, q.T, CURVE_D);
    TermOrder(p.Z, q.Z, 1);
    CongField(p.Y, p.X, p.Y, p.X);
    CongField(q.Y, q.X, q.Y, q.X);
    CongField(FSub(p.Y, p.X), FSub(q.Y, q.X), p.Y - p.X, q.Y - q.X);
    CongField(FAdd(p.Y, p.X), FAdd(q.Y, q.X), p.Y + p.X, q.Y + q.X);
    CongField(p.T, 2, p.T, 2);
    CongField(FMul(p.T, 2), CURVE_D, p.T * 2, CURVE_D);
    CongField(FMul(FMul(p.T, 2), CURVE_D), q.T, p.T * 2 * CURVE_D, q.T);
    CongField(p.Z, 2, p.Z, 2);
    CongField(FMul(p.Z, 2), q.Z, p.Z * 2, q.Z);
    CongField(b, a, B, A);
    CongField(e, c, D, C);
    CongField(FSub(b, a), FSub(e, c), B - A, D - C);
    CongField(FAdd(e, c), FAdd(b, a), D + C, B + A);
    CongField(FSub(e, c), FAdd(e, c), D - C, D + C);
    CongField(FSub(b, a), FAdd(b, a), B - A, B + A);
  }

  /** The addition formulas keep every pair of curve points on the curve, doubling included. */
  lemma AddOnCurve(p: Coords, q: Coords)
    requires OnCurve(p) && OnCurve(q)
    ensures OnCurve(Add(p, q))
  {
    hide *;
    var A, B := (p.Y - p.X) * (q.Y - q.X), (p.Y + p.X) * (q.Y + q.X);
    var C, D := 2 * (CURVE_D * (p.T * q.T)), 2 * (p.Z * q.Z);
    var X, Y, Z, T := (B - A) * (D - C), (D + C) * (B + A), (D - C) * (D + C), (B - A) * (B + A);
    var r := Add(p, q);
    DefectVanishes(p, q);
    SumDefect(A, B, C, D, CURVE_D);
    AddCong(p, q);
    Swap22(B - A, D - C, D + C, B + A);
    Swap22(D - C, D + C, B - A, B + A);
    assert X * Y == ((B - A) * (D + C)) * ((D - C) * (B + A)) && Z * T == ((D - C) * (B - A)) * ((D + C) * (B + A));
    var c, defect := Coords(X, Y, Z, T), Defect(D * D + C * C, D * C, A * A + B * B, A * B, CURVE_D);
    CurveMeans(c);
    CongSelf(X * Y);
    CongSelf(Y * Y - X * X);
    CongAdd(Y * Y - X * X, defect, Y * Y - X * X, 0);
    CongTrans(Z * Z + CURVE_D * (T * T), Y * Y - X * X, Y * Y - X * X);
    SameCurve(r, c);
  }

  /** Coordinates that agree modulo p are on the curve together. */
  lemma SameCurve(r: Coords, c: Coords)
    requires Cong(r.X, c.X) && Cong(r.Y, c.Y) && Cong(r.Z, c.Z) && Cong(r.T, c.T) && OnCurve(c)
    ensures OnCurve(r)
  {
    hide *;
    CurveMeans(r);
    CurveMeans(c);
    CongMul(r.X, r.X, c.X, c.X);
    CongMul(r.Y, r.Y, c.Y, c.Y);
    CongMul(r.Z, r.Z, c.Z, c.Z);
    CongMul(r.T, r.T, c.T, c.T);
    CongMul(r.X, r.Y, c.X, c.Y);
    CongMul(r.Z, r.T, c.Z, c.T);
    CongScale(CURVE_D, r.T * r.T, c.T * c.T);
    CongAdd(r.Y * r.Y, r.X * r.X, c.Y * c.Y, c.X * c.X);
    CongAdd(r.Z * r.Z, CURVE_D * (r.T * r.T), c.Z * c.Z, CURVE_D * (c.T * c.T));
    CongEnds(r.Y * r.Y - r.X * r.X, c.Y * c.Y - c.X * c.X, c.Z * c.Z + CURVE_D * (c.T * c.T),
             r.Z * r.Z + CURVE_D * (r.T * r.T));
    CongEnds(r.X * r.Y, c.X * c.Y, c.Z * c.T, r.Z * r.T);
  }

  lemma CongEnds(x: int, y: int, z: int, w: int)
    requires Cong(x, y) && Cong(y, z) && Cong(w, z)
    ensures Cong(x, w)
  {
  }

  /** Every point the ladder passes through is on the curve when its base is. */
  lemma {:induction false} RungsOnCurve(base: Coords, n: int, i: nat)
    requires OnCurve(base) && i <= 256
    ensures OnCurve(Rungs(base, n, i).0) && OnCurve(Rungs(base, n, i).1)
    decreases 256 - i
  {
    if i < 256 {
      RungsOnCurve(base, n, i + 1);
      RungsUnfold(base, n, i);
      var r := Rungs(base, n, i + 1);
      AddOnCurve(r.0, r.0);
      AddOnCurve(r.0, r.1);
      AddOnCurve(r.1, r.0);
      AddOnCurve(r.1, r.1);
    }
  }

  /** The base point of section 5.1, with T = X Y and Z = 1. */
  const B: Coords := Coords(0x216936d3cd6e53fec0a4e231fdd6dc5c692cc7609525a7b2c9562d608f25d51a,
                            0x6666666666666666666666666666666666666666666666666666666666666658, 1,
                            0x67875f0fd78b766566ea4e8e64abe37d20f09f80775152f56dde8ab3a5b7dda3)

  lemma BaseOnCurve()
    ensures OnCurve(B) && FMul(5, B.Y) == 4 && B.T == FMul(B.X, B.Y)
  {
    BaseEquation();
    BaseProducts();
    assert B.Z == 1;
    hide OnCurve, Cong, FMul;
    var q := -0x1ad3797b917a39f9f486efcccc509de6f48e0949f42c6e9c900b1570700e3bb93a7cea0e60a67e5c8423bcf9129dc7be6f6ddce18dd0e710b9fb776c353930e0;
    var x, y, t := B.X, B.Y, B.T;
    CongMultiple(y * y - x * x, 1 * 1 + CURVE_D * (t * t), q);
    CongMultiple(x * y, 1 * t, 0x1aba92430abea9989a1d81c197df16b05423d2b3aa848628a111bde6d8eb10e1);
    CurveMeans(B);
    MulMultiple(5, y, 4, 4);
    MulMultiple(x, y, t, 0x1aba92430abea9989a1d81c197df16b05423d2b3aa848628a111bde6d8eb10e1);
  }

  lemma BaseEquation()
    ensures B.Y * B.Y - B.X * B.X == 1 * 1 + CURVE_D * (B.T * B.T) + -0x1ad3797b917a39f9f486efcccc509de6f48e0949f42c6e9c900b1570700e3bb93a7cea0e60a67e5c8423bcf9129dc7be6f6ddce18dd0e710b9fb776c353930e0 * P
  {
    PIs();
    DIs();
  }

  lemma BaseProducts()
    ensures B.X * B.Y == B.T + 0x1aba92430abea9989a1d81c197df16b05423d2b3aa848628a111bde6d8eb10e1 * P && 5 * B.Y == 4 + 4 * P && 0 <= B.T < P
  {
    PIs();
  }

  lemma CongMultiple(x: int, y: int, q: int)
    requires x == y + q * P
    ensures Cong(x, y)
  {
    ModShift(y, q, P);
  }

  lemma MulMultiple(x: int, y: int, r: int, q: int)
    requires x * y == r + q * P && 0 <= r < P
    ensures FMul(x, y) == r
  {
    ModUnique(x * y, q, r, P);
  }

  /** The limb constants X and Y are the base point's coordinates. */
  lemma BaseLimbX()
    ensures Fe(BX) == B.X
  {
    hide Pow, Val, P, TWO255, CURVE_D, Fe;
    ValWritten(BX);
    FeIs(BX, B.X);
  }

  lemma BaseLimbY()
    ensures Fe(BY) == B.Y
  {
    hide Pow, Val, P, TWO255, CURVE_D, Fe;
    ValWritten(BY);
    FeIs(BY, B.Y);
  }

  lemma BaseSmall()
    ensures Small(BX) && Operand(BX) && Small(BY) && Operand(BY)
  {
  }

  lemma BIs()
    ensures B == Coords(B.X, B.Y, 1, B.T)
  {
  }

  lemma ReducedIsSmall(s: seq<int>)
    requires Reduced(s)
    ensures Small(s)
  {
  }

  /** q of scalarbase: the base point in limbs. */
  method BasePoint() returns (q: Point)
    ensures fresh({q.x, q.y, q.z, q.t}) && Shape(q) && AllSmall(q) && Of(q) == B
  {
    BaseLimbX();
    BaseLimbY();
    BaseOnCurve();
    BaseSmall();
    hide Fe, Small, Reduced, Operand, OnCurve, FMul, BX, BY, B;
    BIs();
    var x := Constant(BX);
    var y := Constant(BY);
    var z := Constant([1, 0, 0, 0, 0, 0, 0, 0, 0, 0, 0, 0, 0, 0, 0, 0]);
    var t := Zeros();
    BitLimbs(z[..], 1);
    M(t, x, y);
    ReducedIsSmall(t[..]);
    q := Point(x, y, z, t);
  }

  /** scalarbase: the multiple of the base point, a point of the curve. */
  method ScalarBase(p: Point, s: seq<byte>)
    requires Shape(p) && |s| == 32
    modifies p.x, p.y, p.z, p.t
    ensures AllSmall(p) && OnCurve(Of(p))
    ensures Of(p) == Rungs(B, LeVal(s), 0).0
  {
    BaseOnCurve();
    RungsOnCurve(B, LeVal(s), 0);
    hide *;
    var q := BasePoint();
    ScalarMultPoint(p, q, s);
  }
}
