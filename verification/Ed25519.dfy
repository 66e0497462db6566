/** Edwards points in extended coordinates: RFC 8032, section 5.1.4, and the limb program for it. */
module Ed25519 {
  import opened Arith
  import opened Field
  import opened X25519
  import opened Groups

  /** Extended homogeneous coordinates, as residues modulo p. */
  datatype Coords = Coords(X: int, Y: int, Z: int, T: int)

  const D: seq<i64> := [0x78a3, 0x1359, 0x4dca, 0x75eb, 0xd8ab, 0x4141, 0x0a4d, 0x0070,
                        0xe898, 0x7779, 0x4079, 0x8cc7, 0xfe73, 0x2b6f, 0x6cee, 0x5203]
  const D2: seq<i64> := [0xf159, 0x26b2, 0x9b94, 0xebd6, 0xb156, 0x8283, 0x149a, 0x00e0,
                         0xd130, 0xeef3, 0x80f2, 0x198e, 0xfce7, 0x56df, 0xd9dc, 0x2406]
  const BX: seq<i64> := [0xd51a, 0x8f25, 0x2d60, 0xc956, 0xa7b2, 0x9525, 0xc760, 0x692c,
                         0xdc5c, 0xfdd6, 0xe231, 0xc0a4, 0x53fe, 0xcd6e, 0x36d3, 0x2169]
  const BY: seq<i64> := [0x6658, 0x6666, 0x6666, 0x6666, 0x6666, 0x6666, 0x6666, 0x6666,
                         0x6666, 0x6666, 0x6666, 0x6666, 0x6666, 0x6666, 0x6666, 0x6666]

  /** The curve constant d of RFC 8032, section 5.1: -121665/121666. */
  const CURVE_D: int := 0x52036cee2b6ffe738cc740797779e898 * Pow(2, 128) + 0x00700a4d4141d8ab75eb4dca135978a3

  /** Both limb constants encode what their names say: 121666 d = -121665, and D2 is 2d. */
  lemma Constants()
    ensures Fe(D) == CURVE_D && (121666 * CURVE_D + 121665) % P == 0
    ensures Fe(D2) == FMul(2, CURVE_D)
  {
    LimbsD();
    LimbsD2();
    RatioD();
  }

  lemma DIs()
    ensures CURVE_D == 0x52036cee2b6ffe738cc740797779e89800700a4d4141d8ab75eb4dca135978a3
  {
    PowerIs();
    hide Pow;
  }

  lemma LimbsD()
    ensures Fe(D) == CURVE_D
  {
    DIs();
    ValWritten(D);
    hide Pow, Val, P, TWO255, CURVE_D, Fe;
    FeIs(D, CURVE_D);
  }

  lemma LimbsD2()
    ensures Fe(D2) == FMul(2, CURVE_D)
  {
    PIs();
    DIs();
    ValWritten(D2);
    var v := 2 * CURVE_D - P;
    hide Pow, Val, P, TWO255, CURVE_D, Fe;
    FeIs(D2, v);
    ModUnique(2 * CURVE_D, 1, v, P);
  }

  lemma RatioD()
    ensures (121666 * CURVE_D + 121665) % P == 0
  {
    PIs();
    DIs();
    assert 121666 * CURVE_D + 121665 == 77955 * P;
  }

  /** The value of sixteen limbs with the weights written out. */
  lemma ValWritten(s: seq<int>)
    requires |s| == 16
    ensures Value(s)
         == s[0] + s[1] * 0x1_0000 + s[2] * 0x1_0000_0000 + s[3] * 0x1_0000_0000_0000
           + s[4] * 0x1_0000_0000_0000_0000 + s[5] * 0x1_0000_0000_0000_0000_0000 + s[6] * 0x1_0000_0000_0000_0000_0000_0000 + s[7] * 0x1_0000_0000_0000_0000_0000_0000_0000
           + s[8] * 0x1_0000_0000_0000_0000_0000_0000_0000_0000 + s[9] * 0x1_0000_0000_0000_0000_0000_0000_0000_0000_0000 + s[10] * 0x1_0000_0000_0000_0000_0000_0000_0000_0000_0000_0000 + s[11] * 0x1_0000_0000_0000_0000_0000_0000_0000_0000_0000_0000_0000
           + s[12] * 0x1_0000_0000_0000_0000_0000_0000_0000_0000_0000_0000_0000_0000 + s[13] * 0x1_0000_0000_0000_0000_0000_0000_0000_0000_0000_0000_0000_0000_0000 + s[14] * 0x1_0000_0000_0000_0000_0000_0000_0000_0000_0000_0000_0000_0000_0000_0000 + s[15] * 0x1_0000_0000_0000_0000_0000_0000_0000_0000_0000_0000_0000_0000_0000_0000_0000
  {
    assert Pow(65536, 1) == 0x1_0000;
    assert Pow(65536, 2) == 0x1_0000_0000;
    assert Pow(65536, 3) == 0x1_0000_0000_0000;
    assert Pow(65536, 4) == 0x1_0000_0000_0000_0000;
    assert Pow(65536, 5) == 0x1_0000_0000_0000_0000_0000;
    assert Pow(65536, 6) == 0x1_0000_0000_0000_0000_0000_0000;
    assert Pow(65536, 7) == 0x1_0000_0000_0000_0000_0000_0000_0000;
    assert Pow(65536, 8) == 0x1_0000_0000_0000_0000_0000_0000_0000_0000;
    assert Pow(65536, 9) == 0x1_0000_0000_0000_0000_0000_0000_0000_0000_0000;
    assert Pow(65536, 10) == 0x1_0000_0000_0000_0000_0000_0000_0000_0000_0000_0000;
    assert Pow(65536, 11) == 0x1_0000_0000_0000_0000_0000_0000_0000_0000_0000_0000_0000;
    assert Pow(65536, 12) == 0x1_0000_0000_0000_0000_0000_0000_0000_0000_0000_0000_0000_0000;
    assert Pow(65536, 13) == 0x1_0000_0000_0000_0000_0000_0000_0000_0000_0000_0000_0000_0000_0000;
    assert Pow(65536, 14) == 0x1_0000_0000_0000_0000_0000_0000_0000_0000_0000_0000_0000_0000_0000_0000;
    assert Pow(65536, 15) == 0x1_0000_0000_0000_0000_0000_0000_0000_0000_0000_0000_0000_0000_0000_0000_0000;
    assert Pow(65536, 0) == 1;
    assert Val(65536, s, 1) == Val(65536, s, 0) + s[0] * 1;
    assert Val(65536, s, 2) == Val(65536, s, 1) + s[1] * 0x1_0000;
    assert Val(65536, s, 3) == Val(65536, s, 2) + s[2] * 0x1_0000_0000;
    assert Val(65536, s, 4) == Val(65536, s, 3) + s[3] * 0x1_0000_0000_0000;
    assert Val(65536, s, 5) == Val(65536, s, 4) + s[4] * 0x1_0000_0000_0000_0000;
    assert Val(65536, s, 6) == Val(65536, s, 5) + s[5] * 0x1_0000_0000_0000_0000_0000;
    assert Val(65536, s, 7) == Val(65536, s, 6) + s[6] * 0x1_0000_0000_0000_0000_0000_0000;
    assert Val(65536, s, 8) == Val(65536, s, 7) + s[7] * 0x1_0000_0000_0000_0000_0000_0000_0000;
    assert Val(65536, s, 9) == Val(65536, s, 8) + s[8] * 0x1_0000_0000_0000_0000_0000_0000_0000_0000;
    assert Val(65536, s, 10) == Val(65536, s, 9) + s[9] * 0x1_0000_0000_0000_0000_0000_0000_0000_0000_0000;
    assert Val(65536, s, 11) == Val(65536, s, 10) + s[10] * 0x1_0000_0000_0000_0000_0000_0000_0000_0000_0000_0000;
    assert Val(65536, s, 12) == Val(65536, s, 11) + s[11] * 0x1_0000_0000_0000_0000_0000_0000_0000_0000_0000_0000_0000;
    assert Val(65536, s, 13) == Val(65536, s, 12) + s[12] * 0x1_0000_0000_0000_0000_0000_0000_0000_0000_0000_0000_0000_0000;
    assert Val(65536, s, 14) == Val(65536, s, 13) + s[13] * 0x1_0000_0000_0000_0000_0000_0000_0000_0000_0000_0000_0000_0000_0000;
    assert Val(65536, s, 15) == Val(65536, s, 14) + s[14] * 0x1_0000_0000_0000_0000_0000_0000_0000_0000_0000_0000_0000_0000_0000_0000;
    assert Val(65536, s, 16) == Val(65536, s, 15) + s[15] * 0x1_0000_0000_0000_0000_0000_0000_0000_0000_0000_0000_0000_0000_0000_0000_0000;
  }

  // ---- RFC 8032, section 5.1.4

  function Add(p: Coords, q: Coords): Coords {
    var A := FMul(FSub(p.Y, p.X), FSub(q.Y, q.X));
    var B := FMul(FAdd(p.Y, p.X), FAdd(q.Y, q.X));
    var C := FMul(FMul(FMul(p.T, 2), CURVE_D), q.T);
    var D := FMul(FMul(p.Z, 2), q.Z);
    var E := FSub(B, A);
    var F := FSub(D, C);
    var G := FAdd(D, C);
    var H := FAdd(B, A);
    Coords(FMul(E, F), FMul(G, H), FMul(F, G), FMul(E, H))
  }

  /** The product coordinate is kept consistent whatever the inputs: X Y = Z T. */
  lemma AddKeepsT(p: Coords, q: Coords)
    ensures FMul(Add(p, q).X, Add(p, q).Y) == FMul(Add(p, q).Z, Add(p, q).T)
  {
    var A := FMul(FSub(p.Y, p.X), FSub(q.Y, q.X));
    var B := FMul(FAdd(p.Y, p.X), FAdd(q.Y, q.X));
    var C := FMul(FMul(FMul(p.T, 2), CURVE_D), q.T);
    var D := FMul(FMul(p.Z, 2), q.Z);
    FMulCross(FSub(B, A), FSub(D, C), FAdd(D, C), FAdd(B, A));
  }

  /** C and D as the limb program multiplies them out. */
  lemma TermC(t1: int, t2: int)
    ensures FMul(FMul(t1, t2), FMul(2, CURVE_D)) == FMul(FMul(FMul(t1, 2), CURVE_D), t2)
  {
    FMulProducts(t1, t2, 2, CURVE_D);
    FMulAssoc(t1, 2, CURVE_D);
    FMulResidue(t1 * 2 * CURVE_D, t2);
    assert (t1 * t2) * (2 * CURVE_D) == (t1 * 2 * CURVE_D) * t2;
  }

  lemma TermD(z1: int, z2: int, d: int)
    requires d == FMul(z1, z2)
    ensures FAdd(d, d) == FMul(FMul(z1, 2), z2)
  {
    FMulResidue(z1 * 2, z2);
    ModAdd(z1 * z2, z1 * z2, P);
    assert z1 * z2 + z1 * z2 == (z1 * 2) * z2;
  }

  // ---- points held in limbs

  /** gf p[4]: the four coordinates' limb arrays. */
  datatype Point = Point(x: array<i64>, y: array<i64>, z: array<i64>, t: array<i64>)

  ghost predicate Shape(p: Point) {
    p.x.Length == p.y.Length == p.z.Length == p.t.Length == 16
    && p.x != p.y && p.x != p.z && p.x != p.t && p.y != p.z && p.y != p.t && p.z != p.t
  }

  ghost predicate Apart(p: Point, q: Point) {
    {p.x, p.y, p.z, p.t} !! {q.x, q.y, q.z, q.t}
  }

  ghost function Of(p: Point): Coords
    requires Shape(p)
    reads p.x, p.y, p.z, p.t
  {
    Coords(Fe(p.x[..]), Fe(p.y[..]), Fe(p.z[..]), Fe(p.t[..]))
  }

  ghost predicate AllReduced(p: Point)
    requires Shape(p)
    reads p.x, p.y, p.z, p.t
  {
    Reduced(p.x[..]) && Reduced(p.y[..]) && Reduced(p.z[..]) && Reduced(p.t[..])
  }

  ghost predicate AllSmall(p: Point)
    requires Shape(p)
    reads p.x, p.y, p.z, p.t
  {
    Small(p.x[..]) && Small(p.y[..]) && Small(p.z[..]) && Small(p.t[..])
  }

  method Constant(s: seq<i64>) returns (a: array<i64>)
    requires |s| == 16
    ensures fresh(a) && a.Length == 16 && a[..] == s
  {
    a := new i64[16](i requires 0 <= i < 16 => s[i]);
  }

  method Zeros() returns (a: array<i64>)
    ensures fresh(a) && a.Length == 16 && forall i :: 0 <= i < 16 ==> a[i] == 0
  {
    a := new i64[16](_ => 0);
  }

  /** The factors A and B of an addition. */
  method SumAndDifference(p: Point, q: Point) returns (a: array<i64>, b: array<i64>)
    requires Shape(p) && Shape(q) && AllSmall(p) && AllSmall(q)
    ensures fresh(a) && fresh(b) && a != b && a.Length == b.Length == 16
    ensures Reduced(a[..]) && Reduced(b[..])
    ensures Fe(a[..]) == FMul(FSub(Of(p).Y, Of(p).X), FSub(Of(q).Y, Of(q).X))
    ensures Fe(b[..]) == FMul(FAdd(Of(p).X, Of(p).Y), FAdd(Of(q).X, Of(q).Y))
  {
    var t := Zeros();
    a := Zeros();
    b := Zeros();
    Z(a, p.y, p.x);
    Z(t, q.y, q.x);
    M(a, a, t);
    A(b, p.x, p.y);
    A(t, q.x, q.y);
    M(b, b, t);
  }

  /** The factors C and D of an addition. */
  method ProductTerms(p: Point, q: Point) returns (c: array<i64>, d: array<i64>)
    requires Shape(p) && Shape(q) && AllSmall(p) && AllSmall(q)
    ensures fresh(c) && fresh(d) && c != d && c.Length == d.Length == 16
    ensures Reduced(c[..]) && Small(d[..])
    ensures Fe(c[..]) == FMul(FMul(FMul(Of(p).T, 2), CURVE_D), Of(q).T)
    ensures Fe(d[..]) == FMul(FMul(Of(p).Z, 2), Of(q).Z)
  {
    hide FMul, FAdd, CURVE_D, P, Fe;
    Constants();
    TermC(Of(p).T, Of(q).T);
    TermD(Of(p).Z, Of(q).Z, FMul(Of(p).Z, Of(q).Z));
    var d2 := Constant(D2);
    c := Zeros();
    d := Zeros();
    M(c, p.t, q.t);
    M(c, c, d2);
    M(d, p.z, q.z);
    A(d, d, d);
  }

  /** E, F, G and H, and the four products that are the sum's coordinates. */
  method Combine(p: Point, a: array<i64>, b: array<i64>, c: array<i64>, d: array<i64>)
    requires Shape(p) && a.Length == b.Length == c.Length == d.Length == 16
    requires Reduced(a[..]) && Reduced(b[..]) && Reduced(c[..]) && Small(d[..])
    requires {a, b, c, d} !! {p.x, p.y, p.z, p.t}
    modifies p.x, p.y, p.z, p.t
    ensures AllReduced(p)
    ensures Of(p) == Products(FSub(Fe(b[..]), Fe(a[..])), FSub(Fe(d[..]), Fe(c[..])),
                              FAdd(Fe(d[..]), Fe(c[..])), FAdd(Fe(b[..]), Fe(a[..])))
  {
    hide Fe, FMul, FAdd, FSub;
    var e, f, g, h := Zeros4();
    Z(e, b, a);
    Z(f, d, c);
    A(g, d, c);
    A(h, b, a);
    FMulComm(Fe(g[..]), Fe(h[..]));
    FMulComm(Fe(f[..]), Fe(g[..]));
    M(p.x, e, f);
    M(p.y, h, g);
    M(p.z, g, f);
    M(p.t, e, h);
  }

  function Products(E: int, F: int, G: int, H: int): Coords {
    Coords(FMul(E, F), FMul(G, H), FMul(F, G), FMul(E, H))
  }

  method Zeros4() returns (e: array<i64>, f: array<i64>, g: array<i64>, h: array<i64>)
    ensures fresh(e) && fresh(f) && fresh(g) && fresh(h)
    ensures e.Length == f.Length == g.Length == h.Length == 16
    ensures e != f && e != g && e != h && f != g && f != h && g != h
  {
    e, f, g, h := new i64[16](_ => 0), new i64[16](_ => 0), new i64[16](_ => 0), new i64[16](_ => 0);
  }

  /** The limb program's addition: p := p + q by the RFC's formulas; q may be p. */
  method AddTo(p: Point, q: Point)
    requires Shape(p) && Shape(q) && AllSmall(p) && AllSmall(q)
    requires p == q || Apart(p, q)
    modifies p.x, p.y, p.z, p.t
    ensures AllReduced(p)
    ensures Of(p) == Add(old(Of(p)), old(Of(q)))
  {
    hide Fe, Small, Reduced, Add, FMul, FAdd, FSub, Products;
    AddByTerms(Of(p), Of(q));
    var a, b := SumAndDifference(p, q);
    var c, d := ProductTerms(p, q);
    Combine(p, a, b, c, d);
  }

  lemma AddByTerms(p: Coords, q: Coords)
    ensures var A, B := FMul(FSub(p.Y, p.X), FSub(q.Y, q.X)), FMul(FAdd(p.X, p.Y), FAdd(q.X, q.Y));
      var C, D := FMul(FMul(FMul(p.T, 2), CURVE_D), q.T), FMul(FMul(p.Z, 2), q.Z);
      Add(p, q) == Products(FSub(B, A), FSub(D, C), FAdd(D, C), FAdd(B, A))
  {
    assert FAdd(p.X, p.Y) == FAdd(p.Y, p.X) && FAdd(q.X, q.Y) == FAdd(q.Y, q.X);
    hide FMul, FAdd, FSub;
  }

  // ---- the scalar multiplication ladder

  const IDENTITY: Coords := Coords(0, 1, 1, 0)

  method CSwapPoints(p: Point, q: Point, b: int)
    requires Shape(p) && Shape(q) && Apart(p, q) && 0 <= b <= 1
    modifies p.x, p.y, p.z, p.t, q.x, q.y, q.z, q.t
    ensures Of(p) == (if b == 1 then old(Of(q)) else old(Of(p)))
    ensures Of(q) == (if b == 1 then old(Of(p)) else old(Of(q)))
    ensures old(AllSmall(p)) && old(AllSmall(q)) ==> AllSmall(p) && AllSmall(q)
    ensures old(AllReduced(p)) && old(AllReduced(q)) ==> AllReduced(p) && AllReduced(q)
  {
    Sel(p.x, q.x, b);
    Sel(p.y, q.y, b);
    Sel(p.z, q.z, b);
    Sel(p.t, q.t, b);
  }

  /** One pass of the ladder: swap, add, double, swap back. */
  method Pass(p: Point, q: Point, b: int)
    requires Shape(p) && Shape(q) && Apart(p, q) && 0 <= b <= 1 && AllSmall(p) && AllSmall(q)
    modifies p.x, p.y, p.z, p.t, q.x, q.y, q.z, q.t
    ensures AllReduced(p) && AllReduced(q) && AllSmall(p) && AllSmall(q)
    ensures Of(p) == if b == 1 then Add(old(Of(p)), old(Of(q))) else Add(old(Of(p)), old(Of(p)))
    ensures Of(q) == if b == 1 then Add(old(Of(q)), old(Of(q))) else Add(old(Of(q)), old(Of(p)))
  {
    CSwapPoints(p, q, b);
    AddTo(q, p);
    AddTo(p, p);
    CSwapPoints(p, q, b);
  }

  lemma IdentityIs()
    ensures IDENTITY == Coords(0, 1, 1, 0)
  {
  }

  method SetIdentity(p: Point)
    requires Shape(p)
    modifies p.x, p.y, p.z, p.t
    ensures Of(p) == IDENTITY && AllSmall(p)
  {
    hide Fe, Small, IDENTITY;
    var zero := Zeros();
    var one := Constant([1, 0, 0, 0, 0, 0, 0, 0, 0, 0, 0, 0, 0, 0, 0, 0]);
    BitLimbs(zero[..], 0);
    BitLimbs(one[..], 1);
    IdentityIs();
    Copy(p.x, zero);
    Copy(p.y, one);
    Copy(p.z, one);
    Copy(p.t, zero);
  }

  /** The ladder's pair of points after bits 255 down to i. */
  function Rungs(base: Coords, n: int, i: nat): (Coords, Coords)
    requires i <= 256
  {
    Run(Add, IDENTITY, base, n, i)
  }

  lemma RungsUnfold(base: Coords, n: int, i: nat)
    requires i < 256
    ensures var r := Rungs(base, n, i + 1);
      Rungs(base, n, i) == if Bit(n, i) == 1 then (Add(r.0, r.1), Add(r.1, r.1)) else (Add(r.0, r.0), Add(r.1, r.0))
  {
  }

  lemma RungsStart(base: Coords, n: int)
    ensures Rungs(base, n, 256) == (IDENTITY, base)
  {
  }

  /** scalarmult: the ladder over all 256 bits of s, on limbs. */
  method ScalarMultPoint(p: Point, q: Point, s: seq<byte>)
    requires Shape(p) && Shape(q) && Apart(p, q) && AllSmall(q) && |s| == 32
    modifies p.x, p.y, p.z, p.t, q.x, q.y, q.z, q.t
    ensures AllSmall(p) && AllSmall(q)
    ensures (Of(p), Of(q)) == Rungs(old(Of(q)), LeVal(s), 0)
  {
    hide Rungs, LeVal, Fe, Small;
    ghost var base, n := Of(q), LeVal(s);
    SetIdentity(p);
    RungsStart(base, n);
    hide *;
    var i := 255;
    while i >= 0
      invariant -1 <= i <= 255
      invariant AllSmall(p) && AllSmall(q)
      invariant (Of(p), Of(q)) == Rungs(base, n, i + 1)
    {
      BitOfBytes(s, i);
      var b := (s[i / 8] / Pow(2, i % 8)) % 2;
      RungsUnfold(base, n, i);
      Pass(p, q, b);
      i := i - 1;
    }
  }

  /** An abstract group the coordinates stand for: phi reads a point off coordinates that are good. */
  ghost predicate Represents<G(!new)>(phi: Coords -> G, good: Coords -> bool, op: (G, G) -> G, zero: G) {
    Commutative(op, zero) && good(IDENTITY) && phi(IDENTITY) == zero
    && forall a, b :: good(a) && good(b) ==> good(Add(a, b)) && phi(Add(a, b)) == op(phi(a), phi(b))
  }

  lemma {:induction false} RunRepresents<G(!new)>(phi: Coords -> G, good: Coords -> bool, op: (G, G) -> G, zero: G,
                                                  base: Coords, n: int, i: nat)
    requires Represents(phi, good, op, zero) && good(base) && i <= 256
    ensures var (p, q) := Rungs(base, n, i);
      good(p) && good(q) && (phi(p), phi(q)) == Run(op, zero, phi(base), n, i)
    decreases 256 - i
  {
    if i < 256 {
      RunRepresents(phi, good, op, zero, base, n, i + 1);
      var (p, q) := Rungs(base, n, i + 1);
      assert good(Add(p, q)) && good(Add(q, q)) && good(Add(p, p)) && good(Add(q, p));
    }
  }

  /** Whatever group the coordinates stand for, the ladder ends at [n]base and stays at (p, p + base). */
  lemma LadderMultiplies<G(!new)>(phi: Coords -> G, good: Coords -> bool, op: (G, G) -> G, zero: G,
                                  base: Coords, s: seq<byte>, i: nat)
    requires Represents(phi, good, op, zero) && good(base) && |s| == 32 && i <= 256
    ensures LeVal(s) >= 0
    ensures phi(Rungs(base, LeVal(s), 0).0) == Times(op, zero, phi(base), LeVal(s))
    ensures var (p, q) := Rungs(base, LeVal(s), i); phi(q) == op(phi(p), phi(base))
  {
    LeValRange(s);
    PowBytes(32);
    assert Pow(2, 0) == 1 && Commutative(op, zero);
    hide *;
    RunRepresents(phi, good, op, zero, base, LeVal(s), 0);
    RunRepresents(phi, good, op, zero, base, LeVal(s), i);
    RunMultiplies(op, zero, phi(base), LeVal(s), 0);
    RunMultiplies(op, zero, phi(base), LeVal(s), i);
  }
}
