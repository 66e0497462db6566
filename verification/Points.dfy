/** Points as 32 bytes: section 5.1.2 and 5.1.3 of RFC 8032, and the limb programs for both directions. */
module Points {
  import opened Arith
  import opened Bits
  import opened Field
  import opened Wrappers
  import opened Ed25519
  import opened X25519
  import opened Curve

  // ---- comparing and taking parities by packing

  lemma LowByte(s: seq<byte>)
    requires |s| == 32
    ensures LeVal(s) % 2 == s[0] % 2
  {
    ValCons(256, s[0], s[1..], 31);
    assert s == [s[0]] + s[1..];
    Even(s[0], Val(256, s[1..], 31));
  }

  lemma Even(a: int, v: int)
    ensures (a + 256 * v) % 2 == a % 2
  {
  }

  /** par25519. */
  method Parity(a: array<i64>) returns (b: byte)
    requires a.Length == 16 && Within(a[..], -LIMIT, LIMIT)
    ensures b == Fe(a[..]) % 2
  {
    var d := new byte[32];
    Pack(d, a);
    LowByte(d[..]);
    return d[0] % 2;
  }

  lemma PackedEqual(x: int, y: int)
    requires 0 <= x < P && 0 <= y < P
    ensures LeBytes(x, 32) == LeBytes(y, 32) <==> x == y
  {
    hide LeBytes, LeVal;
    PBelow();
    LeValLeBytes(x, 32);
    LeValLeBytes(y, 32);
  }

  lemma PBelow()
    ensures P < TWO255 && 2 * TWO255 == Pow(256, 32)
  {
    PIs();
    assert Pow(256, 2) == 0x1_0000;
    PowAdd(256, 2, 2);
    PowAdd(256, 4, 4);
    PowAdd(256, 8, 8);
    PowAdd(256, 16, 16);
  }

  /** neq25519: the canonical bytes differ exactly when the field elements do. */
  method Differ(a: array<i64>, b: array<i64>) returns (neq: bool)
    requires a.Length == b.Length == 16 && Within(a[..], -LIMIT, LIMIT) && Within(b[..], -LIMIT, LIMIT)
    ensures neq <==> Fe(a[..]) != Fe(b[..])
  {
    hide Fe, LeVal, LeBytes, Within;
    var c, d := new byte[32], new byte[32];
    ghost var sa, sb := a[..], b[..];
    Pack(c, a);
    Pack(d, b);
    assert a[..] == sa && b[..] == sb;
    FeBelow(sa);
    FeBelow(sb);
    PackedEqual(Fe(sa), Fe(sb));
    neq := VerifyBytes(c[..], d[..]);
  }

  /** crypto_verify_32: every byte is compared, whatever the first difference. */
  method VerifyBytes(x: seq<byte>, y: seq<byte>) returns (differ: bool)
    requires |x| == |y|
    ensures differ <==> x != y
  {
    differ := false;
    for i := 0 to |x|
      invariant differ <==> x[..i] != y[..i]
    {
      assert x[..i + 1] == x[..i] + [x[i]] && y[..i + 1] == y[..i] + [y[i]];
      differ := differ || x[i] != y[i];
    }
    assert x[..|x|] == x && y[..|y|] == y;
  }

  // ---- packing

  /** The affine point that extended coordinates stand for. */
  datatype Affine = Affine(x: int, y: int)

  function ToAffine(c: Coords): Affine {
    var zi := FPow(c.Z, P - 2);
    Affine(FMul(c.X, zi), FMul(c.Y, zi))
  }

  /** Section 5.1.2: y in little-endian order, with the low bit of x as the top bit. */
  function EncodePoint(a: Affine): (s: seq<byte>)
    ensures |s| == 32
  {
    LeBytes(if a.x % 2 == 1 then a.y + TWO255 else a.y, 32)
  }

  lemma XorTop(v: byte, b: byte)
    requires v < 128 && b < 2
    ensures Xor(v, 128 * b) == v + 128 * b
  {
    assert Pow(2, 7) == 128;
    XorSplit(0, v, b, 0, 7);
    XorComm(0, b);
    XorZero(b);
    XorZero(v);
  }

  lemma TopOfPacked(s: seq<byte>, b: byte)
    requires |s| == 32 && LeVal(s) < TWO255 && b < 2
    ensures s[31] < 128 && s[31 := s[31] + 128 * b] == LeBytes(LeVal(s) + (if b == 1 then TWO255 else 0), 32)
  {
    hide *;
    PBelow();
    LastByte(s);
    var w := Pow(256, 31);
    ValRange(256, s, 31);
    if s[31] >= 128 {
      MulOrder(128, s[31], s[31], w);
    }
    var t := s[31 := s[31] + 128 * b];
    LastByte(t);
    ValSame(256, s, t, 31);
    Distribute(s[31], 128 * b, w);
    LeBytesLeVal(t);
  }

  lemma LastByte(s: seq<byte>)
    requires |s| == 32
    ensures LeVal(s) == Val(256, s, 31) + s[31] * Pow(256, 31) && Pow(256, 32) == 256 * Pow(256, 31)
  {
  }

  /** pack. */
  method PackPoint(r: array<byte>, p: Point)
    requires Shape(p) && AllSmall(p) && r.Length == 32
    modifies r
    ensures r[..] == EncodePoint(ToAffine(Of(p)))
  {
    hide LeVal, LeBytes, Xor, Fe, FMul, FPow, Pow;
    var tx := Zeros();
    var ty := Zeros();
    var zi := Zeros();
    ghost var c := Of(p);
    Inv25519(zi, p.z);
    M(tx, p.x, zi);
    M(ty, p.y, zi);
    Pack(r, ty);
    var b := Parity(tx);
    TopOfPacked(r[..], b);
    XorTop(r[31], b);
    ghost var s := r[..];
    r[31] := Xor(r[31], 128 * b);
    assert r[..] == s[31 := s[31] + 128 * b];
  }

  // ---- unpacking, with the sign turned

  /** A square root of -1. */
  const I: seq<i64> := [0xa0b0, 0x4a0e, 0x1b27, 0xc4ee, 0xe478, 0xad2f, 0x1806, 0x2f43,
                        0xd7a7, 0x3dfb, 0x0099, 0x2b4d, 0xdf0b, 0x4fc1, 0x2480, 0x2b83]

  const ROOT: int := 0x2b8324804fc1df0b2b4d00993dfbd7a72f431806ad2fe478c4ee1b274a0ea0b0

  lemma RootOfMinusOne()
    ensures Fe(I) == ROOT && FMul(ROOT, ROOT) == P - 1
  {
    RootLimbs();
    RootSquared();
  }

  lemma RootLimbs()
    ensures Fe(I) == ROOT
  {
    PIs();
    ValWritten(I);
  }

  lemma RootSquared()
    ensures FMul(ROOT, ROOT) == P - 1
  {
    PIs();
  }

  /** u and v of section 5.1.3: x^2 = u / v. */
  function Num(y: int): int {
    FSub(FMul(y, y), 1)
  }

  function Den(y: int): int {
    FAdd(1, FMul(FMul(y, y), CURVE_D))
  }

  /** The candidate u v^3 (u v^7)^((p-5)/8). */
  function Guess(u: int, v: int): int {
    var v2 := FMul(v, v);
    var v6 := FMul(FMul(v2, v2), v2);
    var t := FPow(FMul(FMul(v6, u), v), (P - 5) / 8);
    FMul(FMul(FMul(FMul(t, u), v), v), v)
  }

  /** The candidate, or its product with a root of -1 when the candidate misses. */
  function Root(u: int, v: int): int {
    var x := Guess(u, v);
    if FMul(FMul(x, x), v) == u then x else FMul(x, ROOT)
  }

  /** unpackneg: the negation of the point a string encodes, or None. */
  function UnpackNeg(p: seq<byte>): Option<Coords>
    requires |p| == 32
  {
    var y := (LeVal(p) % TWO255) % P;
    var x := Root(Num(y), Den(y));
    if FMul(FMul(x, x), Den(y)) != Num(y) then None
    else
      var n := if x % 2 == p[31] / 128 then FSub(0, x) else x;
      Some(Coords(n, y, 1, FMul(n, y)))
  }

  method Fraction(y: array<i64>, one: array<i64>) returns (num: array<i64>, den: array<i64>)
    requires y.Length == one.Length == 16 && Small(y[..]) && Reduced(one[..]) && Fe(one[..]) == 1
    ensures fresh(num) && fresh(den) && num.Length == den.Length == 16 && num != den
    ensures Small(num[..]) && Small(den[..])
    ensures Fe(num[..]) == Num(Fe(y[..])) && Fe(den[..]) == Den(Fe(y[..]))
  {
    Constants();
    num := Zeros();
    den := Zeros();
    var d := Constant(D);
    S(num, y);
    M(den, num, d);
    Z(num, num, one);
    A(den, one, den);
  }

  method Candidate(num: array<i64>, den: array<i64>) returns (x: array<i64>)
    requires num.Length == den.Length == 16 && Small(num[..]) && Small(den[..])
    ensures fresh(x) && x.Length == 16 && Reduced(x[..]) && Fe(x[..]) == Guess(Fe(num[..]), Fe(den[..]))
  {
    hide Fe, FMul, FPow, Pow;
    var den2 := Zeros();
    var den4 := Zeros();
    var den6 := Zeros();
    var t := Zeros();
    x := Zeros();
    S(den2, den);
    S(den4, den2);
    M(den6, den4, den2);
    M(t, den6, num);
    M(t, t, den);
    Pow2523(t, t);
    M(t, t, num);
    M(t, t, den);
    M(t, t, den);
    M(x, t, den);
  }

  /** Whether x^2 den is num. */
  method Misses(x: array<i64>, num: array<i64>, den: array<i64>) returns (neq: bool)
    requires x.Length == num.Length == den.Length == 16 && Small(num[..]) && Small(den[..]) && Reduced(x[..])
    ensures neq <==> FMul(FMul(Fe(x[..]), Fe(x[..])), Fe(den[..])) != Fe(num[..])
  {
    var chk := Zeros();
    S(chk, x);
    M(chk, chk, den);
    neq := Differ(chk, num);
  }

  method SquareRoot(num: array<i64>, den: array<i64>) returns (x: array<i64>, ok: bool)
    requires num.Length == den.Length == 16 && Small(num[..]) && Small(den[..])
    ensures fresh(x) && x.Length == 16 && Reduced(x[..]) && Fe(x[..]) == Root(Fe(num[..]), Fe(den[..]))
    ensures ok <==> FMul(FMul(Fe(x[..]), Fe(x[..])), Fe(den[..])) == Fe(num[..])
  {
    hide Guess, Reduced, Small, FMul, Fe;
    ghost var u, v := Fe(num[..]), Fe(den[..]);
    x := Candidate(num, den);
    var miss := Misses(x, num, den);
    if miss {
      RootOfMinusOne();
      var i := Constant(I);
      IReduced();
      ReducedOperand(x[..]);
      ReducedOperand(i[..]);
      M(x, x, i);
    }
    miss := Misses(x, num, den);
    ok := !miss;
  }

  lemma ReducedOperand(s: seq<int>)
    requires Reduced(s)
    ensures Operand(s) && Small(s)
  {
  }

  lemma IReduced()
    ensures Reduced(I)
  {
  }

  /** The sign turned when the parity is the one asked for: the negation of what was encoded. */
  method TurnSign(x: array<i64>, bit: int)
    requires x.Length == 16 && Reduced(x[..])
    modifies x
    ensures Small(x[..]) && Fe(x[..]) == (if old(Fe(x[..])) % 2 == bit then FSub(0, old(Fe(x[..]))) else old(Fe(x[..])))
  {
    hide Fe, FSub;
    ReducedOperand(x[..]);
    var b := Parity(x);
    if b == bit {
      var zero := Zeros();
      BitLimbs(zero[..], 0);
      ReducedOperand(zero[..]);
      Z(x, zero, x);
    }
  }

  method UnpackPoint(r: Point, p: seq<byte>) returns (ok: bool)
    requires Shape(r) && |p| == 32
    modifies r.x, r.y, r.z, r.t
    ensures ok <==> UnpackNeg(p).Some?
    ensures ok ==> AllSmall(r) && Of(r) == UnpackNeg(p).value
  {
    hide Root, Num, Den, Fe, Small, Reduced, Operand, FMul, LeVal;
    var one := Constant([1, 0, 0, 0, 0, 0, 0, 0, 0, 0, 0, 0, 0, 0, 0, 0]);
    BitLimbs(one[..], 1);
    ReducedOperand(one[..]);
    Copy(r.z, one);
    Unpack(r.y, p);
    DigitsSmall(r.y[..]);
    ghost var y := Fe(r.y[..]);
    assert y == (LeVal(p) % TWO255) % P;
    var num, den := Fraction(r.y, r.z);
    var x, found := SquareRoot(num, den);
    if !found {
      return false;
    }
    TurnSign(x, p[31] / 128);
    Copy(r.x, x);
    SmallOperand(r.x[..]);
    SmallOperand(r.y[..]);
    M(r.t, r.x, r.y);
    ReducedOperand(r.t[..]);
    return true;
  }

  lemma DigitsSmall(s: seq<int>)
    requires Digits16(s)
    ensures Small(s) && Fe(s) == Value(s) % P
  {
  }

  lemma SmallOperand(s: seq<int>)
    requires Small(s)
    ensures Operand(s)
  {
  }

  // ---- what is unpacked is on the curve

  /** Being on the curve, as a fraction for x^2 and as the curve's equation. */
  lemma FractionIsCurve(n: int, y: int)
    ensures Cong(n * n * (1 + CURVE_D * (y * y)), y * y - 1)
      <==> Satisfies(n, y)
  {
    var a, b := n * n * (1 + CURVE_D * (y * y)), y * y - 1;
    var e, f := y * y - n * n, 1 + CURVE_D * ((n * y) * (n * y));
    FractionTerms(n, y, CURVE_D);
    assert a - b == f - e;
    hide *;
    SatisfiesMeans(n, y);
    CongDifference(a, b);
    CongDifference(e, f);
    CongDifference(f, e);
  }

  lemma FractionTerms(n: int, y: int, d: int)
    ensures n * n * (1 + d * (y * y)) == n * n + d * ((n * y) * (n * y))
  {
    assert (n * y) * (n * y) == n * n * (y * y);
    assert n * n * (d * (y * y)) == d * (n * n * (y * y));
  }

  lemma CongDifference(x: int, y: int)
    ensures Cong(x, y) <==> Cong(x - y, 0)
    ensures Cong(x, y) <==> Cong(y, x)
  {
    ModSub(x, y, P);
    Residue(x % P - y % P);
  }

  lemma Residue(d: int)
    requires 0 < d + P && d < P
    ensures d % P == 0 <==> d == 0
  {
    PIs();
  }

  lemma NumDen(y: int)
    ensures Cong(Num(y), y * y - 1) && Cong(Den(y), 1 + CURVE_D * (y * y))
    ensures 0 <= Num(y) < P && 0 <= Den(y) < P
  {
    CongSelf(y);
    CongSelf(1);
    CongSelf(CURVE_D);
    assert Num(y) == FSub(FMul(y, y), 1) && Den(y) == FAdd(1, FMul(FMul(y, y), CURVE_D));
    hide *;
    ResidueRange(y);
    CongField(y, y, y, y);
    CongField(FMul(y, y), 1, y * y, 1);
    CongField(FMul(y, y), CURVE_D, y * y, CURVE_D);
    CongField(1, FMul(FMul(y, y), CURVE_D), 1, y * y * CURVE_D);
    assert y * y * CURVE_D == CURVE_D * (y * y);
  }

  lemma ResidueRange(y: int)
    ensures 0 <= Num(y) < P && 0 <= Den(y) < P
  {
  }

  lemma CongEqual(x: int, y: int)
    requires 0 <= x < P && 0 <= y < P
    ensures Cong(x, y) <==> x == y
  {
    PIs();
  }

  /** x^2 den = num is the curve's equation. */
  lemma MatchIsCurve(n: int, y: int)
    ensures FMul(FMul(n, n), Den(y)) == Num(y) <==> Satisfies(n, y)
  {
    hide *;
    NumDen(y);
    FractionIsCurve(n, y);
    CongSelf(n);
    CongField(n, n, n, n);
    CongField(FMul(n, n), Den(y), n * n, 1 + CURVE_D * (y * y));
    MatchCong(FMul(FMul(n, n), Den(y)), Num(y), n * n * (1 + CURVE_D * (y * y)), y * y - 1);
    FMulRange(FMul(n, n), Den(y));
    CongEqual(FMul(FMul(n, n), Den(y)), Num(y));
  }

  lemma MatchCong(a: int, b: int, x: int, y: int)
    requires Cong(a, x) && Cong(b, y)
    ensures Cong(a, b) <==> Cong(x, y)
  {
  }

  lemma FMulRange(x: int, y: int)
    ensures 0 <= FMul(x, y) < P
  {
  }

  lemma Negated(x: int)
    requires 0 <= x < P
    ensures FSub(0, x) == (if x == 0 then 0 else P - x)
    ensures x != 0 ==> FSub(0, x) % 2 != x % 2
    ensures 0 <= FSub(0, x) < P && Cong(FSub(0, x) * FSub(0, x), x * x) && Cong(FSub(0, x), -x)
  {
    PIs();
    var n := FSub(0, x);
    assert Cong(n, -x);
    CongMul(n, n, -x, -x);
    assert (-x) * (-x) == x * x;
  }

  lemma RootRange(u: int, v: int)
    ensures 0 <= Root(u, v) < P
  {
    hide FPow;
  }

  /** Whatever unpacks is on the curve, has the y the string spells, and an x of the other parity than its top bit. */
  lemma UnpackSound(p: seq<byte>)
    requires |p| == 32 && UnpackNeg(p).Some?
    ensures var q := UnpackNeg(p).value;
      OnCurve(q) && q.Z == 1 && q.Y == (LeVal(p) % TWO255) % P && 0 <= q.X < P
      && (q.X == 0 || q.X % 2 != p[31] / 128)
  {
    assert p[31] / 128 == 0 || p[31] / 128 == 1;
    hide Root, Num, Den, FMul, FSub, Cong, LeVal;
    var y := (LeVal(p) % TWO255) % P;
    var x := Root(Num(y), Den(y));
    RootRange(Num(y), Den(y));
    Negated(x);
    var n := if x % 2 == p[31] / 128 then FSub(0, x) else x;
    MatchSame(x, n, y);
    MatchIsCurve(n, y);
    CoordsOnCurve(n, y);
  }

  lemma MatchSame(x: int, n: int, y: int)
    requires n == x || (Cong(n * n, x * x))
    ensures FMul(FMul(n, n), Den(y)) == FMul(FMul(x, x), Den(y))
  {
    hide Den;
  }

  lemma CoordsOnCurve(n: int, y: int)
    requires Satisfies(n, y)
    ensures OnCurve(Coords(n, y, 1, FMul(n, y)))
  {
    hide *;
    SatisfiesIs(n, y);
    CongSelf(n);
    CongSelf(y);
    CongSelf(1);
    CongField(n, y, n, y);
    SameCurve(Coords(n, y, 1, FMul(n, y)), Coords(n, y, 1, n * y));
  }

  // ---- every point of the curve unpacks, given that p is prime

  /** What follows from p being prime: no zero divisors, and Fermat's theorem. */
  ghost predicate PrimeField() {
    (forall x, y {:trigger FMul(x, y)} :: FMul(x, y) == 0 ==> x % P == 0 || y % P == 0)
    && (forall x {:trigger FPow(x, P - 1)} :: x % P != 0 ==> FPow(x, P - 1) == 1)
  }

  lemma NoDivisors(x: int, y: int)
    requires PrimeField() && Cong(x * y, 0)
    ensures Cong(x, 0) || Cong(y, 0)
  {
    assert FMul(x, y) == 0;
  }

  lemma Fermat(x: int)
    requires PrimeField() && !Cong(x, 0)
    ensures Cong(Pow(x, P - 1), 1)
  {
    hide Pow;
    assert FPow(x, P - 1) == 1;
  }

  lemma {:induction false} PowCong(x: int, y: int, n: nat)
    requires Cong(x, y)
    ensures Cong(Pow(x, n), Pow(y, n))
  {
    if n > 0 {
      PowCong(x, y, n - 1);
      CongMul(x, Pow(x, n - 1), y, Pow(y, n - 1));
    }
  }

  lemma {:induction false} PowSquare(a: int, k: nat)
    ensures Pow(a * a, k) == Pow(a, 2 * k)
  {
    if k > 0 {
      PowSquare(a, k - 1);
      assert Pow(a, 2 * k) == a * Pow(a, 2 * k - 1) && Pow(a, 2 * k - 1) == a * Pow(a, 2 * k - 2);
      assert a * (a * Pow(a, 2 * k - 2)) == a * a * Pow(a, 2 * k - 2);
    }
  }

  /** Two numbers with one square are equal or opposite. */
  lemma SameSquare(x: int, y: int)
    requires PrimeField() && Cong(x * x, y * y)
    ensures Cong(x, y) || Cong(x, -y)
  {
    hide *;
    CongDifference(x * x, y * y);
    assert x * x - y * y == (x - y) * (x + y);
    NoDivisors(x - y, x + y);
    CongDifference(x, y);
    CongDifference(x, -y);
    assert x - (-y) == x + y;
  }

  /** The exponent of the candidate, from its definition. */
  const K: nat := (P - 5) / 8

  lemma Exponent()
    ensures 2 * (2 * K + 1) + 2 * (2 * K + 1) == P - 1
  {
    PIs();
    assert (P - 5) % 8 == 0;
  }

  function Wide(u: int, v: int): int {
    v * v * (v * v) * (v * v) * u * v
  }

  lemma GuessCong(u: int, v: int)
    ensures Cong(Guess(u, v), Pow(Wide(u, v), K) * u * v * v * v)
  {
    var v2 := FMul(v, v);
    var v4 := FMul(v2, v2);
    var v6 := FMul(v4, v2);
    var b := FMul(FMul(v6, u), v);
    var t := FPow(b, K);
    assert (var v2 := FMul(v, v); var v4 := FMul(v2, v2); var v6 := FMul(v4, v2); var t := FPow(FMul(FMul(v6, u), v),
      K); Guess(u, v) == FMul(FMul(FMul(FMul(t, u), v), v), v));
    hide *;
    CongSelf(u);
    CongSelf(v);
    CongField(v, v, v, v);
    CongField(v2, v2, v * v, v * v);
    CongField(v4, v2, v * v * (v * v), v * v);
    CongField(v6, u, v * v * (v * v) * (v * v), u);
    CongField(FMul(v6, u), v, v * v * (v * v) * (v * v) * u, v);
    WideIs(u, v);
    PowCong(b, Wide(u, v), K);
    FPowCong(b, K);
    CongTrans(t, Pow(b, K), Pow(Wide(u, v), K));
    CongField(t, u, Pow(Wide(u, v), K), u);
    CongField(FMul(t, u), v, Pow(Wide(u, v), K) * u, v);
    CongField(FMul(FMul(t, u), v), v, Pow(Wide(u, v), K) * u * v, v);
    CongField(FMul(FMul(FMul(t, u), v), v), v, Pow(Wide(u, v), K) * u * v * v, v);
  }

  lemma WideIs(u: int, v: int)
    ensures Wide(u, v) == v * v * (v * v) * (v * v) * u * v
  {
  }

  lemma FPowCong(x: int, n: nat)
    ensures Cong(FPow(x, n), Pow(x, n))
  {
    hide Pow;
  }

  /** With u = x^2 v and a = x v^4, the base of the power is a^2 and the candidate is x times an odd power of a. */
  lemma GuessIsPower(u: int, v: int, x: int)
    requires Cong(u, x * x * v)
    ensures var a := x * (v * v * (v * v)); Cong(Guess(u, v), Pow(a, 2 * K + 1) * x)
  {
    hide *;
    var a := x * (v * v * (v * v));
    GuessCong(u, v);
    CongSelf(v);
    CongSelf(v * v * (v * v) * (v * v));
    CongMul(v * v * (v * v) * (v * v), u, v * v * (v * v) * (v * v), x * x * v);
    CongMul(v * v * (v * v) * (v * v) * u, v, v * v * (v * v) * (v * v) * (x * x * v), v);
    WideIs(u, v);
    WideSquare(x, v);
    PowCong(Wide(u, v), a * a, K);
    PowSquare(a, K);
    CongMul(Pow(Wide(u, v), K), u, Pow(a, 2 * K), x * x * v);
    CongMul(Pow(Wide(u, v), K) * u, v, Pow(a, 2 * K) * (x * x * v), v);
    CongMul(Pow(Wide(u, v), K) * u * v, v, Pow(a, 2 * K) * (x * x * v) * v, v);
    CongMul(Pow(Wide(u, v), K) * u * v * v, v, Pow(a, 2 * K) * (x * x * v) * v * v, v);
    PowNext(a, 2 * K);
    OddPower(Pow(a, 2 * K), x, v);
    CongTrans(Guess(u, v), Pow(Wide(u, v), K) * u * v * v * v, Pow(a, 2 * K) * (x * x * v) * v * v * v);
  }

  lemma PowNext(a: int, n: nat)
    ensures Pow(a, n + 1) == a * Pow(a, n)
  {
  }

  lemma WideSquare(x: int, v: int)
    ensures v * v * (v * v) * (v * v) * (x * x * v) * v == (x * (v * v * (v * v))) * (x * (v * v * (v * v)))
  {
    var w := v * v * (v * v);
    assert w * (v * v) * (x * x * v) * v == w * ((v * v) * (x * x * (v * v))) by {
      assert (x * x * v) * v == x * x * (v * v);
      assert w * (v * v) * (x * x * v) * v == w * (v * v) * ((x * x * v) * v);
    }
    assert (v * v) * (x * x * (v * v)) == x * x * w;
    assert w * (x * x * w) == (x * w) * (x * w);
  }

  lemma OddPower(q: int, x: int, v: int)
    ensures q * (x * x * v) * v * v * v == x * (v * v * (v * v)) * q * x
  {
    var w := v * v * (v * v);
    assert (x * x * v) * v * v * v == x * x * w;
    assert q * (x * x * v) * v * v * v == q * ((x * x * v) * v * v * v);
    assert q * (x * x * w) == x * w * q * x;
  }

  lemma NonzeroProduct(x: int, y: int)
    requires PrimeField() && !Cong(x, 0) && !Cong(y, 0)
    ensures !Cong(x * y, 0)
  {
    hide *;
    if Cong(x * y, 0) {
      NoDivisors(x, y);
    }
  }

  /** Euler: the half power of a nonzero number is one or minus one. */
  lemma HalfPower(a: int)
    requires PrimeField() && !Cong(a, 0)
    ensures var e := Pow(a, 2 * (2 * K + 1)); Cong(e, 1) || Cong(e, -1)
  {
    Exponent();
    hide *;
    var h := 2 * (2 * K + 1);
    PowAdd(a, h, h);
    Fermat(a);
    assert 1 * 1 == 1;
    SameSquare(Pow(a, h), 1);
  }

  lemma GuessSquare(g: int, a: int, x: int, s: int)
    requires Cong(g, Pow(a, 2 * K + 1) * x) && Cong(Pow(a, 2 * (2 * K + 1)), s)
    ensures Cong(g * g, s * (x * x))
  {
    hide *;
    var q := Pow(a, 2 * K + 1);
    CongMul(g, g, q * x, q * x);
    PowAdd(a, 2 * K + 1, 2 * K + 1);
    assert 2 * K + 1 + (2 * K + 1) == 2 * (2 * K + 1);
    assert (q * x) * (q * x) == (q * q) * (x * x);
    CongSelf(x * x);
    CongMul(q * q, x * x, s, x * x);
    CongTrans(g * g, (q * x) * (q * x), s * (x * x));
  }

  /** r^2 v is u when r^2 is x^2. */
  lemma MatchFrom(r: int, u: int, v: int, x: int)
    requires Cong(r * r, x * x) && Cong(u, x * x * v) && 0 <= u < P
    ensures FMul(FMul(r, r), v) == u
  {
    hide *;
    CongSelf(r);
    CongSelf(v);
    CongField(r, r, r, r);
    CongField(FMul(r, r), v, r * r, v);
    CongMul(r * r, v, x * x, v);
    CongTrans(FMul(FMul(r, r), v), r * r * v, x * x * v);
    CongTrans(u, x * x * v, x * x * v);
    CongTrans(FMul(FMul(r, r), v), x * x * v, u);
    FMulRange(FMul(r, r), v);
    CongEqual(FMul(FMul(r, r), v), u);
  }

  lemma OppositeMisses(g: int, u: int, v: int, x: int)
    requires PrimeField() && Cong(g * g, -1 * (x * x)) && Cong(u, x * x * v) && !Cong(u, 0)
    ensures FMul(FMul(g, g), v) != u
  {
    TwoIsNotZero();
    hide *;
    if FMul(FMul(g, g), v) == u {
      CongSelf(g);
      CongSelf(v);
      CongField(g, g, g, g);
      CongField(FMul(g, g), v, g * g, v);
      CongMul(g * g, v, -1 * (x * x), v);
      assert -1 * (x * x) * v == -(x * x * v);
      CongTrans(u, g * g * v, -(x * x * v));
      CongAdd(u, u, x * x * v, -(x * x * v));
      assert u + u == 2 * u && x * x * v + -(x * x * v) == 0;
      NoDivisors(2, u);
    }
  }

  lemma TwoIsNotZero()
    ensures !Cong(2, 0)
  {
  }

  lemma TurnedSquare(g: int, x: int)
    requires Cong(g * g, -1 * (x * x))
    ensures var r := FMul(g, ROOT); Cong(r * r, x * x)
  {
    RootOfMinusOne();
    MinusOne();
    hide *;
    var r := FMul(g, ROOT);
    CongSelf(g);
    CongSelf(ROOT);
    CongField(g, ROOT, g, ROOT);
    CongField(ROOT, ROOT, ROOT, ROOT);
    CongMul(r, r, g * ROOT, g * ROOT);
    assert (g * ROOT) * (g * ROOT) == (g * g) * (ROOT * ROOT);
    CongTrans(-1, P - 1, ROOT * ROOT);
    CongTrans(ROOT * ROOT, -1, -1);
    CongMul(g * g, ROOT * ROOT, -1 * (x * x), -1);
    assert -1 * (x * x) * -1 == x * x;
    CongTrans(r * r, (g * g) * (ROOT * ROOT), x * x);
  }

  lemma MinusOne()
    ensures Cong(-1, P - 1) && Cong(P - 1, -1) && (forall x, y :: Cong(x, y) ==> Cong(y, x))
  {
    PIs();
  }

  lemma RootEither(r: int, x: int)
    requires PrimeField() && 0 <= r < P && 0 <= x < P && Cong(r * r, x * x)
    ensures r == x || r == FSub(0, x)
  {
    hide PrimeField, Cong, FSub;
    SameSquare(r, x);
    Negated(x);
    CongEqual(r, x);
    if Cong(r, -x) {
      CongMinus(r, x);
    }
  }

  lemma CongMinus(r: int, x: int)
    requires 0 <= r < P && Cong(r, -x)
    ensures r == FSub(0, x)
  {
    PIs();
  }

  /** The root that is found for u = x^2 v is x or its opposite, and it is found to match. */
  lemma RootIs(u: int, v: int, x: int)
    requires PrimeField() && 0 <= x < P && 0 <= u < P && !Cong(v, 0) && Cong(u, x * x * v)
    ensures var r := Root(u, v); FMul(FMul(r, r), v) == u && (r == x || r == FSub(0, x))
  {
    assert (var g := Guess(u, v); Root(u, v) == if FMul(FMul(g, g), v) == u then g else FMul(g, ROOT));
    hide PrimeField, Root, Guess, Cong, FMul, FSub, Pow;
    var a, g := x * (v * v * (v * v)), Guess(u, v);
    GuessIsPower(u, v, x);
    RootRange(u, v);
    if x == 0 {
      CongZero(g, Pow(a, 2 * K + 1) * x);
      MatchFrom(g, u, v, x);
      RootEither(g, x);
    } else {
      NotZero(x);
      NonzeroProduct(v, v);
      NonzeroProduct(v * v, v * v);
      NonzeroProduct(x, v * v * (v * v));
      NonzeroProduct(x, x);
      NonzeroProduct(x * x, v);
      HalfPower(a);
      if Cong(Pow(a, 2 * (2 * K + 1)), 1) {
        GuessSquare(g, a, x, 1);
        MatchFrom(g, u, v, x);
        RootEither(g, x);
      } else {
        GuessSquare(g, a, x, -1);
        StaysNonzero(u, x * x * v);
        OppositeMisses(g, u, v, x);
        TurnedSquare(g, x);
        MatchFrom(FMul(g, ROOT), u, v, x);
        RootEither(FMul(g, ROOT), x);
      }
    }
  }

  lemma StaysNonzero(u: int, w: int)
    requires Cong(u, w) && !Cong(w, 0)
    ensures !Cong(u, 0)
  {
  }

  lemma NotZero(x: int)
    requires 0 < x < P
    ensures !Cong(x, 0)
  {
    PIs();
  }

  lemma CongZero(g: int, w: int)
    requires Cong(g, w) && w == 0
    ensures Cong(g * g, 0 * 0)
  {
    CongMul(g, g, 0, 0);
  }

  /** The bytes of an affine point, read back. */
  lemma EncodeReads(a: Affine)
    requires 0 <= a.x < P && 0 <= a.y < P
    ensures |EncodePoint(a)| == 32 && (LeVal(EncodePoint(a)) % TWO255) % P == a.y && EncodePoint(a)[31] / 128 == a.x % 2
  {
    PIs();
    hide LeVal, LeBytes;
    var v := if a.x % 2 == 1 then a.y + TWO255 else a.y;
    var s := LeBytes(v, 32);
    PBelow();
    LeValLeBytes(v, 32);
    assert v % TWO255 == a.y;
    TopBit7(s);
  }

  lemma TopBit7(s: seq<byte>)
    requires |s| == 32
    ensures s[31] / 128 == (if LeVal(s) >= TWO255 then 1 else 0)
  {
    PBelow();
    var w := Pow(256, 31);
    assert Pow(256, 32) == 256 * w;
    hide Pow;
    ValRange(256, s, 31);
    assert LeVal(s) == Val(256, s, 31) + s[31] * w;
    if s[31] >= 128 {
      MulOrder(128, s[31], s[31], w);
    } else {
      MulOrder(s[31], s[31], 127, w);
    }
  }

  /** An affine point of the curve, over the integers modulo p. */
  ghost predicate AffineOnCurve(a: Affine) {
    0 <= a.x < P && 0 <= a.y < P && Satisfies(a.x, a.y)
  }

  /** The denominator vanishes nowhere on the curve: that would take d = -1. */
  lemma DenNonzero(x: int, y: int)
    requires Satisfies(x, y)
    ensures !Cong(1 + CURVE_D * (y * y), 0)
  {
    var v := 1 + CURVE_D * (y * y);
    DIsNotMinusOne();
    hide *;
    FractionIsCurve(x, y);
    if Cong(v, 0) {
      CongSelf(x * x);
      CongMul(x * x, v, x * x, 0);
      CongTrans(y * y - 1, x * x * v, 0) by { Flip(x * x * v, y * y - 1); }
      CongSelf(1);
      CongAdd(y * y - 1, 1, 0, 1);
      CongSelf(CURVE_D);
      CongMul(CURVE_D, y * y, CURVE_D, 1);
      CongAdd(1, CURVE_D * (y * y), 1, CURVE_D * 1);
      CongTrans(v, 1 + CURVE_D * 1, 1 + CURVE_D);
      Flip(v, 1 + CURVE_D);
      CongTrans(1 + CURVE_D, v, 0);
    }
  }

  lemma Flip(x: int, y: int)
    requires Cong(x, y)
    ensures Cong(y, x)
  {
  }

  lemma DIsNotMinusOne()
    ensures !Cong(1 + CURVE_D, 0)
  {
    PIs();
    DIs();
  }

  /** Decompressing what was compressed gives the negation, for every affine point of the curve. */
  lemma UnpackEncode(a: Affine)
    requires PrimeField() && AffineOnCurve(a)
    ensures |EncodePoint(a)| == 32
    ensures UnpackNeg(EncodePoint(a)) == Some(Coords(FSub(0, a.x), a.y, 1, FMul(FSub(0, a.x), a.y)))
  {
    var x, y, p := a.x, a.y, EncodePoint(a);
    var u, v := Num(y), Den(y);
    hide PrimeField, Cong, Root, FMul, FSub, Num, Den, EncodePoint, LeVal;
    EncodeReads(a);
    ResidueRange(y);
    FractionRoot(x, y);
    RootIs(u, v, x);
    Negated(x);
    Negated(FSub(0, x));
    var r := Root(u, v);
    assert r % 2 == x % 2 ==> r == x;
  }

  /** x^2 is the fraction that unpacking takes the root of. */
  lemma FractionRoot(x: int, y: int)
    requires Satisfies(x, y)
    ensures Cong(Num(y), x * x * Den(y)) && !Cong(Den(y), 0)
  {
    hide *;
    var u, v := Num(y), Den(y);
    NumDen(y);
    FractionIsCurve(x, y);
    DenNonzero(x, y);
    StaysNonzero(v, 1 + CURVE_D * (y * y));
    CongSelf(x * x);
    CongMul(x * x, v, x * x, 1 + CURVE_D * (y * y));
    CongTrans(x * x * v, x * x * (1 + CURVE_D * (y * y)), y * y - 1);
    Flip(x * x * v, y * y - 1);
    CongTrans(u, y * y - 1, x * x * v);
  }

  // ---- from extended coordinates to the affine plane

  lemma Inverse(z: int)
    requires PrimeField() && !Cong(z, 0)
    ensures Cong(z * FPow(z, P - 2), 1)
  {
    Fermat(z);
    FPowCong(z, P - 2);
    assert Pow(z, P - 1) == z * Pow(z, P - 2);
    hide *;
    CongSelf(z);
    CongMul(z, FPow(z, P - 2), z, Pow(z, P - 2));
    CongTrans(z * FPow(z, P - 2), z * Pow(z, P - 2), 1);
  }

  function Scaled(c: Coords, i: int): Coords {
    Coords(c.X * i, c.Y * i, c.Z * i, c.T * i)
  }

  lemma ScaledIs(c: Coords, i: int)
    ensures Scaled(c, i) == Coords(c.X * i, c.Y * i, c.Z * i, c.T * i)
  {
  }

  /** The equations are homogeneous. */
  lemma ScaledCurve(c: Coords, i: int)
    requires OnCurve(c)
    ensures OnCurve(Scaled(c, i))
  {
    hide OnCurve, Cong, CURVE_D;
    CurveMeans(c);
    CurveMeans(Scaled(c, i));
    CongSelf(i * i);
    CongMul(c.Y * c.Y - c.X * c.X, i * i, c.Z * c.Z + CURVE_D * (c.T * c.T), i * i);
    ScaleTerms(c.X, c.Y, c.Z, c.T, i, CURVE_D);
    CongMul(c.X * c.Y, i * i, c.Z * c.T, i * i);
    Swap22(c.X, c.Y, i, i);
    Swap22(c.Z, c.T, i, i);
  }

  /** With Z = 1 they are the affine equation. */
  lemma UnitCurve(c: Coords)
    requires OnCurve(c) && Cong(c.Z, 1)
    ensures Satisfies(c.X, c.Y) && Cong(c.T, c.X * c.Y)
  {
    hide *;
    CurveMeans(c);
    SatisfiesMeans(c.X, c.Y);
    var z, t, w := c.Z, c.T, c.X * c.Y;
    CongSelf(t);
    CongMul(z, t, 1, t);
    CongTrans(w, z * t, 1 * t);
    CongMul(t, t, w, w);
    CongScale(CURVE_D, t * t, w * w);
    CongMul(z, z, 1, 1);
    CongAdd(z * z, CURVE_D * (t * t), 1, CURVE_D * (w * w));
    CongTrans(c.Y * c.Y - c.X * c.X, z * z + CURVE_D * (t * t), 1 + CURVE_D * (w * w));
  }

  lemma ScaleTerms(X: int, Y: int, Z: int, T: int, i: int, d: int)
    ensures (Y * Y - X * X) * (i * i) == (Y * i) * (Y * i) - (X * i) * (X * i)
    ensures (Z * Z + d * (T * T)) * (i * i) == (Z * i) * (Z * i) + d * ((T * i) * (T * i))
  {
    SquareProduct(X, i);
    SquareProduct(Y, i);
    SquareProduct(Z, i);
    SquareProduct(T, i);
    assert (d * (T * T)) * (i * i) == d * ((T * T) * (i * i));
    Distribute(Z * Z, d * (T * T), i * i);
    Distribute(Y * Y, X * X, i * i);
  }

  /** The affine point of coordinates on the curve is on the curve. */
  lemma ToAffineOnCurve(c: Coords)
    requires PrimeField() && OnCurve(c) && !Cong(c.Z, 0)
    ensures AffineOnCurve(ToAffine(c))
  {
    var i, a := FPow(c.Z, P - 2), ToAffine(c);
    assert a.x == FMul(c.X, i) && a.y == FMul(c.Y, i);
    AffineIs(a);
    hide *;
    Inverse(c.Z);
    ScaledCurve(c, i);
    ScaledIs(c, i);
    UnitCurve(Scaled(c, i));
    CongSelf(c.X);
    CongSelf(c.Y);
    CongSelf(i);
    CongField(c.X, i, c.X, i);
    CongField(c.Y, i, c.Y, i);
    FMulRange(c.X, i);
    FMulRange(c.Y, i);
    SameEquation(a.x, a.y, c.X * i, c.Y * i);
  }

  lemma AffineIs(a: Affine)
    ensures AffineOnCurve(a) <==>
      0 <= a.x < P && 0 <= a.y < P && Satisfies(a.x, a.y)
  {
    hide Satisfies;
  }

  lemma SameEquation(x: int, y: int, u: int, v: int)
    requires Cong(x, u) && Cong(y, v) && Satisfies(u, v)
    ensures Satisfies(x, y)
  {
    hide *;
    CongMul(x, y, u, v);
    CongSelf(1);
    SatisfiesIs(x, y);
    SatisfiesIs(u, v);
    SameCurve(Coords(x, y, 1, x * y), Coords(u, v, 1, u * v));
  }

  lemma SatisfiesIs(x: int, y: int)
    ensures Satisfies(x, y) <==> OnCurve(Coords(x, y, 1, x * y))
  {
    hide OnCurve;
  }

  /** The negation of an affine point, as unpackneg writes it. */
  function Opposite(a: Affine): Coords {
    Coords(FSub(0, a.x), a.y, 1, FMul(FSub(0, a.x), a.y))
  }
}
