/** Signatures: section 5.1 of RFC 8032, the program for it, and that what is signed opens. */
module Signature {
  import opened Arith
  import opened Wrappers
  import opened Field
  import opened X25519
  import opened Groups
  import opened Ed25519
  import opened Curve
  import opened Points
  import opened Complete
  import ScalarL
  import Sha512

  // ---- sections 5.1.5 to 5.1.7

  /** The multiple of a point that 32 little-endian bytes name. */
  function Multiple(c: Coords, s: seq<byte>): Coords
    requires |s| == 32
  {
    Rungs(c, LeVal(s), 0).0
  }

  function PointBytes(c: Coords): (s: seq<byte>)
    ensures |s| == 32
  {
    EncodePoint(ToAffine(c))
  }

  /** The secret scalar and the prefix a seed hashes to. */
  function Secret(seed: seq<byte>): (s: seq<byte>)
    ensures |s| == 32
  {
    DecodeScalar(Sha512.Hash(seed)[..32])
  }

  function PublicKey(seed: seq<byte>): (s: seq<byte>)
    ensures |s| == 32
  {
    PointBytes(Multiple(B, Secret(seed)))
  }

  /** A hash as a scalar: 32 bytes of its residue modulo L. */
  function HashScalar(m: seq<byte>): (s: seq<byte>)
    ensures |s| == 32 && LeVal(s) == LeVal(Sha512.Hash(m)) % ScalarL.L
  {
    var v := LeVal(Sha512.Hash(m)) % ScalarL.L;
    ScalarFits(v);
    LeBytes(v, 32)
  }

  lemma ScalarFits(v: int)
    requires 0 <= v < ScalarL.L
    ensures |LeBytes(v, 32)| == 32 && LeVal(LeBytes(v, 32)) == v
  {
    hide LeBytes, LeVal, Pow;
    ScalarL.TwoL();
    LeValLeBytes(v, 32);
  }

  /** Section 5.1.6, over a 64-byte key that holds the seed and the public key. */
  function Sign(sk: seq<byte>, m: seq<byte>): seq<byte>
    requires |sk| == 64
  {
    var r := HashScalar(Sha512.Hash(sk[..32])[32..] + m);
    var point := PointBytes(Multiple(B, r));
    var k := HashScalar(point + sk[32..] + m);
    point + Response(r, k, Secret(sk[..32])) + m
  }

  /** S = (r + k s) mod L. */
  function Response(r: seq<byte>, k: seq<byte>, s: seq<byte>): (b: seq<byte>)
    ensures |b| == 32 && LeVal(b) == (LeVal(r) + LeVal(k) * LeVal(s)) % ScalarL.L
  {
    var v := (LeVal(r) + LeVal(k) * LeVal(s)) % ScalarL.L;
    ScalarFits(v);
    LeBytes(v, 32)
  }

  /** Section 5.1.7 as the program has it: R against [S]B - [k]A, by their encodings. */
  function Open(sm: seq<byte>, pk: seq<byte>): Option<seq<byte>>
    requires |pk| == 32
  {
    if |sm| < 64 then None
    else
      match UnpackNeg(pk)
      case None => None
      case Some(q) => Accepted(q, sm, pk)
  }

  function Accepted(q: Coords, sm: seq<byte>, pk: seq<byte>): Option<seq<byte>>
    requires |sm| >= 64 && |pk| == 32
  {
    var k := HashScalar(sm[..32] + pk + sm[64..]);
    if sm[..32] == PointBytes(Add(Multiple(q, k), Multiple(B, sm[32..64]))) then Some(sm[64..]) else None
  }

  // ---- the program

  method HashOf(m: seq<byte>) returns (h: array<byte>)
    requires |m| < 0x1_0000_0000_0000_0000
    ensures fresh(h) && h.Length == 64 && h[..] == Sha512.Hash(m)
  {
    h := new byte[64];
    Sha512.HashInto(h, m);
  }

  /** The hash of a seed, its first half turned into a scalar in place. */
  method Clamped(seed: seq<byte>) returns (d: array<byte>)
    requires |seed| == 32
    ensures fresh(d) && d.Length == 64
    ensures d[..32] == Secret(seed) && d[32..] == Sha512.Hash(seed)[32..]
  {
    hide *;
    d := HashOf(seed);
    ghost var h := d[..];
    d[0] := d[0] - d[0] % 8;
    d[31] := d[31] % 128;
    d[31] := d[31] % 64 + 64;
    SmallerMask(h[31]);
    DecodeIs(h[..32]);
    SecretIs(seed);
    assert d[..32] == h[..32][0 := h[0] - h[0] % 8][31 := h[31] % 64 + 64];
    assert d[32..] == h[32..];
  }

  lemma SecretIs(seed: seq<byte>)
    ensures Secret(seed) == DecodeScalar(Sha512.Hash(seed)[..32])
  {
    hide DecodeScalar, Sha512.Hash;
  }

  lemma DecodeIs(n: seq<byte>)
    requires |n| == 32
    ensures DecodeScalar(n) == n[0 := n[0] - n[0] % 8][31 := n[31] % 64 + 64]
  {
  }

  lemma SmallerMask(x: byte)
    ensures x % 128 % 64 == x % 64
  {
  }

  method NewPoint() returns (p: Point)
    ensures fresh({p.x, p.y, p.z, p.t}) && Shape(p)
  {
    var x := Zeros();
    var y := Zeros();
    var z := Zeros();
    var t := Zeros();
    p := Point(x, y, z, t);
  }

  /** scalarbase and pack. */
  method PackMultiple(s: seq<byte>) returns (r: array<byte>)
    requires |s| == 32
    ensures fresh(r) && r.Length == 32 && r[..] == PointBytes(Multiple(B, s))
  {
    hide EncodePoint, ToAffine, Rungs, OnCurve;
    var p := NewPoint();
    r := new byte[32];
    ScalarBase(p, s);
    PackPoint(r, p);
  }

  /** crypto_sign_keypair, the seed given. */
  method KeyPair(seed: seq<byte>) returns (pk: array<byte>, sk: seq<byte>)
    requires |seed| == 32
    ensures fresh(pk) && pk.Length == 32 && pk[..] == PublicKey(seed) && sk == seed + PublicKey(seed)
  {
    hide PointBytes, Multiple, Secret;
    var d := Clamped(seed);
    pk := PackMultiple(d[..32]);
    sk := seed + pk[..];
  }

  /** crypto_hash and reduce. */
  method ReducedHash(m: seq<byte>) returns (s: seq<byte>)
    requires |m| < 0x1_0000_0000_0000_0000
    ensures s == HashScalar(m)
  {
    hide LeVal, LeBytes;
    var r := HashOf(m);
    ScalarL.Reduce(r);
    s := r[..32];
    LeBytesLeVal(s);
    LeBytesLeVal(HashScalar(m));
  }

  /** crypto_sign. */
  method SignInto(m: seq<byte>, sk: seq<byte>) returns (sm: seq<byte>)
    requires |sk| == 64 && |m| + 64 < 0x1_0000_0000_0000_0000
    ensures sm == Sign(sk, m)
  {
    hide *;
    var d := Clamped(sk[..32]);
    var r := ReducedHash(d[32..] + m);
    var point := PackMultiple(r);
    var h := ReducedHash(point[..] + sk[32..] + m);
    var s := new byte[32];
    ScalarL.SignScalar(s, r, h, d[..32]);
    ResponseIs(s[..], r, h, d[..32]);
    SignIs(sk, m, d[32..], r, point[..], h, s[..]);
    sm := point[..] + s[..] + m;
  }

  lemma SignIs(sk: seq<byte>, m: seq<byte>, prefix: seq<byte>, r: seq<byte>, point: seq<byte>, k: seq<byte>,
               s: seq<byte>)
    requires |sk| == 64 && prefix == Sha512.Hash(sk[..32])[32..] && r == HashScalar(prefix + m)
    requires point == PointBytes(Multiple(B, r)) && k == HashScalar(point + sk[32..] + m)
    requires s == Response(r, k, Secret(sk[..32]))
    ensures Sign(sk, m) == point + s + m
  {
    hide HashScalar, PointBytes, Multiple, Secret, Response, Sha512.Hash;
  }

  lemma ResponseIs(b: seq<byte>, r: seq<byte>, k: seq<byte>, s: seq<byte>)
    requires |b| == 32 && LeVal(b) == (LeVal(r) + LeVal(k) * LeVal(s)) % ScalarL.L
    ensures b == Response(r, k, s)
  {
    hide LeVal, LeBytes;
    LeBytesLeVal(b);
    LeBytesLeVal(Response(r, k, s));
  }

  /** crypto_sign_open. */
  method OpenInto(sm: seq<byte>, pk: seq<byte>) returns (m: Option<seq<byte>>)
    requires |pk| == 32 && |sm| < 0x1_0000_0000_0000_0000
    ensures m == Open(sm, pk)
  {
    hide *;
    OpenIs(sm, pk);
    if |sm| < 64 {
      return None;
    }
    var q := NewPoint();
    var ok := UnpackPoint(q, pk);
    if !ok {
      return None;
    }
    ghost var c := Of(q);
    var h := ReducedHash(sm[..32] + pk + sm[64..]);
    var t := PackDifference(q, h, sm[32..64], c);
    AcceptedIs(c, sm, pk, h);
    var differ := VerifyBytes(sm[..32], t[..]);
    return if differ then None else Some(sm[64..]);
  }

  lemma OpenIs(sm: seq<byte>, pk: seq<byte>)
    requires |pk| == 32
    ensures |sm| < 64 || UnpackNeg(pk) == None ==> Open(sm, pk) == None
    ensures |sm| >= 64 && UnpackNeg(pk).Some? ==> Open(sm, pk) == Accepted(UnpackNeg(pk).value, sm, pk)
  {
    hide UnpackNeg, Accepted;
  }

  lemma AcceptedIs(q: Coords, sm: seq<byte>, pk: seq<byte>, k: seq<byte>)
    requires |sm| >= 64 && |pk| == |k| == 32 && k == HashScalar(sm[..32] + pk + sm[64..])
    ensures var same := sm[..32] == PointBytes(Add(Multiple(q, k), Multiple(B, sm[32..64])));
      Accepted(q, sm, pk) == if same then Some(sm[64..]) else None
  {
    hide HashScalar, PointBytes, Add, Multiple;
  }

  /** scalarmult, scalarbase, add and pack. */
  method PackDifference(q: Point, k: seq<byte>, s: seq<byte>, ghost c: Coords) returns (t: array<byte>)
    requires Shape(q) && AllSmall(q) && Of(q) == c && |k| == |s| == 32
    modifies q.x, q.y, q.z, q.t
    ensures fresh(t) && t.Length == 32 && t[..] == PointBytes(Add(Multiple(c, k), Multiple(B, s)))
  {
    hide EncodePoint, ToAffine, Rungs, OnCurve, Add, AllSmall, Of;
    var p := NewPoint();
    t := new byte[32];
    ScalarMultPoint(p, q, k);
    ScalarBase(q, s);
    AddTo(p, q);
    ReducedSmall(p);
    PackPoint(t, p);
  }

  lemma ReducedSmall(p: Point)
    requires Shape(p) && AllReduced(p)
    ensures AllSmall(p)
  {
  }

  // ---- what is signed opens

  /** The curve's affine points as a group under a law that the addition of coordinates computes. That the law is
      associative, that the base point has order L, and that d is no square modulo the prime p are hypotheses. */
  ghost predicate CurveGroup(op: (Affine, Affine) -> Affine) {
    PrimeField() && NonSquare() && Commutative(op, ORIGIN)
    && (forall a, b :: IsPoint(a) && IsPoint(b) ==> ToAffine(Add(a, b)) == op(ToAffine(a), ToAffine(b)))
    && OrderIs(op, ORIGIN, ToAffine(B), ScalarL.L)
  }

  const ORIGIN := Affine(0, 1)

  lemma {:induction false} TimesTimes<G(!new)>(op: (G, G) -> G, zero: G, g: G, m: nat, n: nat)
    requires Commutative(op, zero)
    ensures m * n >= 0 && Times(op, zero, Times(op, zero, g, m), n) == Times(op, zero, g, m * n)
    decreases n
  {
    if n > 0 {
      TimesTimes(op, zero, g, m, n - 1);
      TimesAdd(op, zero, g, m, m * (n - 1));
      assert m + m * (n - 1) == m * n;
    } else {
      assert m * n == 0;
    }
  }

  lemma {:induction false} TimesZero<G(!new)>(op: (G, G) -> G, zero: G, n: nat)
    requires Commutative(op, zero)
    ensures Times(op, zero, zero, n) == zero
  {
    if n > 0 {
      TimesZero(op, zero, n - 1);
    }
  }

  /** Multiples of an element whose order divides l depend on the factor modulo l only. */
  lemma TimesModulo<G(!new)>(op: (G, G) -> G, zero: G, g: G, l: nat, n: nat)
    requires Commutative(op, zero) && l > 0 && Times(op, zero, g, l) == zero
    ensures n % l >= 0 && Times(op, zero, g, n % l) == Times(op, zero, g, n)
  {
    hide *;
    var q, r := n / l, n % l;
    Division(n, l);
    TimesTimes(op, zero, g, l, q);
    TimesZero(op, zero, q);
    TimesAdd(op, zero, g, l * q, r);
    ZeroLeft(op, zero, Times(op, zero, g, r));
  }

  lemma Division(n: nat, l: nat)
    requires l > 0
    ensures n / l >= 0 && n % l >= 0 && l * (n / l) >= 0 && l * (n / l) + n % l == n
  {
  }

  lemma ZeroLeft<G(!new)>(op: (G, G) -> G, zero: G, a: G)
    requires Commutative(op, zero)
    ensures op(zero, a) == a && op(a, zero) == a
  {
    assert op(a, zero) == op(zero, a);
  }

  /** Multiples of an inverse cancel multiples of the element. */
  lemma {:induction false} TimesInverse<G(!new)>(op: (G, G) -> G, zero: G, a: G, b: G, n: nat)
    requires Commutative(op, zero) && op(a, b) == zero
    ensures op(Times(op, zero, a, n), Times(op, zero, b, n)) == zero
  {
    hide Commutative;
    ZeroLeft(op, zero, zero);
    if n > 0 {
      TimesInverse(op, zero, a, b, n - 1);
      var x, y := Times(op, zero, a, n - 1), Times(op, zero, b, n - 1);
      Interchange(op, zero, a, x, b, y);
    }
  }

  lemma Interchange<G(!new)>(op: (G, G) -> G, zero: G, a: G, x: G, b: G, y: G)
    requires Commutative(op, zero)
    ensures op(op(a, x), op(b, y)) == op(op(a, b), op(x, y))
  {
    assert op(op(a, x), op(b, y)) == op(a, op(x, op(b, y)));
    assert op(x, op(b, y)) == op(op(x, b), y) && op(x, b) == op(b, x);
    assert op(op(b, x), y) == op(b, op(x, y));
    assert op(a, op(b, op(x, y))) == op(op(a, b), op(x, y));
  }

  lemma Factors(k: nat, s: nat)
    ensures k * s >= 0 && s * k == k * s
  {
  }

  lemma SumCancels<G(!new)>(op: (G, G) -> G, zero: G, b: G, c: G, m: nat, r: nat, n: nat)
    requires Commutative(op, zero) && n == r + m && op(c, Times(op, zero, b, m)) == zero
    ensures op(c, Times(op, zero, b, n)) == Times(op, zero, b, r)
  {
    hide *;
    TimesAdd(op, zero, b, m, r);
    Regroup(op, zero, c, Times(op, zero, b, m), Times(op, zero, b, r));
  }

  lemma Regroup<G(!new)>(op: (G, G) -> G, zero: G, n: G, m: G, r: G)
    requires Commutative(op, zero) && op(n, m) == zero
    ensures op(n, op(m, r)) == r
  {
    assert op(n, op(m, r)) == op(op(n, m), r);
  }

  /** The order of g is exactly l: its multiples vanish at the multiples of l and nowhere else. */
  ghost predicate OrderIs<G(!new)>(op: (G, G) -> G, zero: G, g: G, l: nat) {
    l > 0 && forall n: nat :: Times(op, zero, g, n) == zero <==> n % l == 0
  }

  /** Multiples of an element of order l agree exactly when the factors agree modulo l. */
  lemma TimesAgree<G(!new)>(op: (G, G) -> G, zero: G, g: G, l: nat, m: nat, n: nat)
    requires Commutative(op, zero) && OrderIs(op, zero, g, l)
    ensures Times(op, zero, g, m) == Times(op, zero, g, n) <==> m % l == n % l
  {
    hide Commutative, Times;
    TimesModulo(op, zero, g, l, m);
    TimesModulo(op, zero, g, l, n);
    var c := l - n % l;
    if Times(op, zero, g, m) == Times(op, zero, g, n) {
      TimesAdd(op, zero, g, m, c);
      TimesAdd(op, zero, g, n, c);
      Complement(m, n, l);
    }
  }

  lemma Complement(m: nat, n: nat, l: nat)
    requires l > 0
    ensures var c := l - n % l; c >= 0 && (n + c) % l == 0 && ((m + c) % l == 0 ==> m % l == n % l)
  {
    var c := l - n % l;
    Division(n, l);
    Division(m, l);
    Division(m + c, l);
    ModUnique(n + c, n / l + 1, 0, l);
    if (m + c) % l == 0 {
      ModUnique(m, (m + c) / l - 1, n % l, l);
    }
  }

  /** The equation of section 5.1.7: where A = [s]B and R = [r]B, [z]B - [k]A is R exactly when z = r + k s mod l. */
  lemma SignatureEquation<G(!new)>(op: (G, G) -> G, zero: G, b: G, neg: G, l: nat, r: nat, k: nat, s: nat, z: nat)
    requires Commutative(op, zero) && OrderIs(op, zero, b, l)
    requires op(neg, Times(op, zero, b, s)) == zero
    ensures r + k * s >= 0
    ensures op(Times(op, zero, neg, k), Times(op, zero, b, z)) == Times(op, zero, b, r) <==> z % l == (r + k * s) % l
  {
    hide *;
    Factors(k, s);
    var nk, n := Times(op, zero, neg, k), r + k * s;
    TimesTimes(op, zero, b, s, k);
    TimesInverse(op, zero, neg, Times(op, zero, b, s), k);
    SumCancels(op, zero, b, nk, k * s, r, n);
    Cancel(op, zero, nk, Times(op, zero, b, k * s), Times(op, zero, b, z), Times(op, zero, b, n));
    TimesAgree(op, zero, b, l, z, n);
  }

  lemma Cancel<G(!new)>(op: (G, G) -> G, zero: G, c: G, d: G, x: G, y: G)
    requires Commutative(op, zero) && op(c, d) == zero
    ensures op(c, x) == op(c, y) <==> x == y
  {
    if op(c, x) == op(c, y) {
      assert op(op(d, c), x) == op(d, op(c, x)) && op(op(d, c), y) == op(d, op(c, y)) && op(d, c) == zero;
    }
  }

  lemma GroupRepresents(op: (Affine, Affine) -> Affine)
    requires CurveGroup(op)
    ensures Represents(ToAffine, c => IsPoint(c), op, ORIGIN)
  {
    IdentityIsPoint();
    hide IsPoint, ToAffine, Add, Commutative, NonSquare, PrimeField, OrderIs, IDENTITY;
    forall a, b | IsPoint(a) && IsPoint(b) ensures IsPoint(Add(a, b)) {
      SumIsPoint(a, b);
    }
  }

  lemma MultipleMultiplies(op: (Affine, Affine) -> Affine, c: Coords, s: seq<byte>)
    requires CurveGroup(op) && IsPoint(c) && |s| == 32
    ensures LeVal(s) >= 0 && IsPoint(Multiple(c, s))
    ensures ToAffine(Multiple(c, s)) == Times(op, ORIGIN, ToAffine(c), LeVal(s))
  {
    assert Multiple(c, s) == Rungs(c, LeVal(s), 0).0;
    hide *;
    LeValRange(s);
    GroupRepresents(op);
    LadderMultiplies(ToAffine, c => IsPoint(c), op, ORIGIN, c, s, 0);
    RunRepresents(ToAffine, c => IsPoint(c), op, ORIGIN, c, LeVal(s), 0);
  }

  lemma GroupMeans(op: (Affine, Affine) -> Affine, a: Coords, b: Coords)
    requires CurveGroup(op) && IsPoint(a) && IsPoint(b)
    ensures PrimeField() && NonSquare() && Commutative(op, ORIGIN) && OrderIs(op, ORIGIN, ToAffine(B), ScalarL.L)
    ensures ToAffine(Add(a, b)) == op(ToAffine(a), ToAffine(b))
  {
    hide ToAffine, IsPoint, Add, PrimeField, NonSquare, OrderIs, Commutative;
  }

  /** A point's bytes unpack to its negation, so no other point has the same bytes. */
  lemma KeyUnpacks(a: Coords)
    requires PrimeField() && IsPoint(a)
    ensures UnpackNeg(PointBytes(a)) == Some(Opposite(ToAffine(a)))
  {
    PointBytesIs(a);
    OppositeIs(ToAffine(a));
    hide *;
    PointIs(a);
    ToAffineOnCurve(a);
    UnpackEncode(ToAffine(a));
  }

  lemma PointBytesIs(c: Coords)
    ensures PointBytes(c) == EncodePoint(ToAffine(c))
  {
    hide EncodePoint, ToAffine;
  }

  lemma BytesDiffer(a: Coords, b: Coords)
    requires PrimeField() && IsPoint(a) && IsPoint(b)
    ensures PointBytes(a) == PointBytes(b) <==> ToAffine(a) == ToAffine(b)
  {
    PointBytesIs(a);
    PointBytesIs(b);
    hide *;
    if PointBytes(a) == PointBytes(b) {
      KeyUnpacks(a);
      KeyUnpacks(b);
      Homogeneous(a);
      Homogeneous(b);
      OppositesDiffer(ToAffine(a), ToAffine(b));
    }
  }

  lemma OppositesDiffer(a: Affine, b: Affine)
    requires 0 <= a.x < P && 0 <= b.x < P && Opposite(a) == Opposite(b)
    ensures a == b
  {
    Negated(a.x);
    Negated(b.x);
    hide FSub, FMul, Cong;
  }

  /** What verification computes from any scalar: the point that was signed with exactly when the scalar has the
      residue of r + k s. */
  lemma VerifiedPoint(op: (Affine, Affine) -> Affine, r: seq<byte>, k: seq<byte>, s: seq<byte>, z: seq<byte>)
    requires CurveGroup(op) && |r| == |k| == |s| == |z| == 32
    ensures var q, nonce := Opposite(ToAffine(Multiple(B, s))), Multiple(B, r);
      var d := Add(Multiple(q, k), Multiple(B, z));
      IsPoint(d) && IsPoint(nonce)
      && (ToAffine(d) == ToAffine(nonce) <==> LeVal(z) % ScalarL.L == (LeVal(r) + LeVal(k) * LeVal(s)) % ScalarL.L)
  {
    hide *;
    BaseIsPoint();
    GroupMeans(op, B, B);
    MultipleMultiplies(op, B, s);
    MultipleMultiplies(op, B, r);
    MultipleMultiplies(op, B, z);
    var a := Multiple(B, s);
    OppositeSum(a);
    var q := Opposite(ToAffine(a));
    MultipleMultiplies(op, q, k);
    GroupMeans(op, q, a);
    GroupMeans(op, Multiple(q, k), Multiple(B, z));
    SumIsPoint(Multiple(q, k), Multiple(B, z));
    OriginIs();
    SignatureEquation(op, ORIGIN, ToAffine(B), ToAffine(q), ScalarL.L, LeVal(r), LeVal(k), LeVal(s), LeVal(z));
  }

  lemma OriginIs()
    ensures ORIGIN == Affine(0, 1) && ScalarL.L > 0
  {
  }

  lemma ResponseMeans(r: seq<byte>, k: seq<byte>, s: seq<byte>)
    ensures |Response(r, k, s)| == 32 && LeVal(Response(r, k, s)) == (LeVal(r) + LeVal(k) * LeVal(s)) % ScalarL.L
    ensures 0 <= LeVal(Response(r, k, s)) < ScalarL.L
    ensures LeVal(Response(r, k, s)) % ScalarL.L == (LeVal(r) + LeVal(k) * LeVal(s)) % ScalarL.L
  {
    hide LeVal;
  }

  /** The three parts of a signed message: R, and what its S answers to. */
  function Nonce(seed: seq<byte>, m: seq<byte>): (r: seq<byte>)
    ensures |r| == 32
  {
    HashScalar(Sha512.Hash(seed)[32..] + m)
  }

  function Challenge(seed: seq<byte>, m: seq<byte>): (k: seq<byte>)
    ensures |k| == 32
  {
    HashScalar(PointBytes(Multiple(B, Nonce(seed, m))) + PublicKey(seed) + m)
  }

  lemma SignParts(seed: seq<byte>, m: seq<byte>)
    requires |seed| == 32
    ensures Sign(seed + PublicKey(seed), m) ==
      PointBytes(Multiple(B, Nonce(seed, m))) + Response(Nonce(seed, m), Challenge(seed, m), Secret(seed)) + m
  {
    hide HashScalar, PointBytes, Multiple, Secret, Response, Sha512.Hash, PublicKey;
    var pk := PublicKey(seed);
    assert (seed + pk)[..32] == seed && (seed + pk)[32..] == pk;
  }

  lemma ChallengeIs(seed: seq<byte>, m: seq<byte>)
    ensures Challenge(seed, m) == HashScalar(PointBytes(Multiple(B, Nonce(seed, m))) + PublicKey(seed) + m)
  {
    hide HashScalar, PointBytes, Multiple, Nonce, PublicKey;
  }

  /** Whatever 32 bytes stand behind an honest R, the library opens them exactly when they encode the residue of
      r + k s. */
  lemma OpenExactly(op: (Affine, Affine) -> Affine, seed: seq<byte>, m: seq<byte>, z: seq<byte>)
    requires CurveGroup(op) && |z| == 32
    ensures var point := PointBytes(Multiple(B, Nonce(seed, m)));
      var n := LeVal(Nonce(seed, m)) + LeVal(Challenge(seed, m)) * LeVal(Secret(seed));
      Open(point + z + m, PublicKey(seed)) == if LeVal(z) % ScalarL.L == n % ScalarL.L then Some(m) else None
  {
    hide *;
    var r, k, s := Nonce(seed, m), Challenge(seed, m), Secret(seed);
    var a := Multiple(B, s);
    BaseIsPoint();
    GroupMeans(op, B, B);
    MultipleMultiplies(op, B, s);
    PublicKeyIs(seed);
    KeyUnpacks(a);
    ChallengeIs(seed, m);
    VerifiedPoint(op, r, k, s, z);
    BytesDiffer(Add(Multiple(Opposite(ToAffine(a)), k), Multiple(B, z)), Multiple(B, r));
    OpenDecides(PointBytes(Multiple(B, r)), z, m, PublicKey(seed), Opposite(ToAffine(a)), k);
  }

  /** crypto_sign_open undoes crypto_sign: every signed message opens under the key of its seed, to the message. */
  lemma OpenSign(op: (Affine, Affine) -> Affine, seed: seq<byte>, m: seq<byte>)
    requires CurveGroup(op) && |seed| == 32
    ensures Open(Sign(seed + PublicKey(seed), m), PublicKey(seed)) == Some(m)
  {
    hide *;
    SignParts(seed, m);
    ResponseMeans(Nonce(seed, m), Challenge(seed, m), Secret(seed));
    OpenExactly(op, seed, m, Response(Nonce(seed, m), Challenge(seed, m), Secret(seed)));
  }

  // ---- verification as the program has it: canonical scalars only

  /** ed25519_verify. */
  predicate Verify(pk: seq<byte>, sig: seq<byte>, m: seq<byte>)
    requires |pk| == 32 && |sig| == 64
  {
    LeVal(sig[32..]) < ScalarL.L && Open(sig + m, pk).Some?
  }

  method VerifyInto(pk: seq<byte>, sig: seq<byte>, m: seq<byte>) returns (ok: bool)
    requires |pk| == 32 && |sig| == 64 && |m| + 64 < 0x1_0000_0000_0000_0000
    ensures ok == Verify(pk, sig, m)
  {
    hide Open, LeVal;
    ok := ScalarL.ScalarCanonical(sig[32..]);
    if ok {
      var message := OpenInto(sig + m, pk);
      ok := message.Some?;
    }
  }

  /** Every signature that is written verifies. */
  lemma VerifySigned(op: (Affine, Affine) -> Affine, seed: seq<byte>, m: seq<byte>)
    requires CurveGroup(op) && |seed| == 32
    ensures |Sign(seed + PublicKey(seed), m)| == 64 + |m|
    ensures Verify(PublicKey(seed), Sign(seed + PublicKey(seed), m)[..64], m)
  {
    hide *;
    var r, s := PointBytes(Multiple(B, Nonce(seed, m))), Response(Nonce(seed, m), Challenge(seed, m), Secret(seed));
    SignParts(seed, m);
    ResponseMeans(Nonce(seed, m), Challenge(seed, m), Secret(seed));
    OpenSign(op, seed, m);
    assert (r + s + m)[..64] == r + s && (r + s)[32..] == s;
    VerifyIs(PublicKey(seed), r + s, m);
  }

  lemma VerifyIs(pk: seq<byte>, sig: seq<byte>, m: seq<byte>)
    requires |pk| == 32 && |sig| == 64
    ensures Verify(pk, sig, m) <==> LeVal(sig[32..]) < ScalarL.L && Open(sig + m, pk).Some?
  {
    hide LeVal, Open;
  }

  /** Verification accepts one scalar behind an honest R and no other: the one that was written. */
  lemma VerifyExactly(op: (Affine, Affine) -> Affine, seed: seq<byte>, m: seq<byte>, z: seq<byte>)
    requires CurveGroup(op) && |seed| == |z| == 32
    ensures var point := PointBytes(Multiple(B, Nonce(seed, m)));
      Verify(PublicKey(seed), point + z, m) <==> point + z + m == Sign(seed + PublicKey(seed), m)
  {
    hide *;
    var r, s := PointBytes(Multiple(B, Nonce(seed, m))), Response(Nonce(seed, m), Challenge(seed, m), Secret(seed));
    SignParts(seed, m);
    ResponseMeans(Nonce(seed, m), Challenge(seed, m), Secret(seed));
    OpenExactly(op, seed, m, z);
    assert (r + z)[32..] == z;
    VerifyIs(PublicKey(seed), r + z, m);
    ScalarBytes(z, s);
    if r + z + m == r + s + m {
      assert z == (r + z + m)[32..64] == (r + s + m)[32..64] == s;
    }
  }

  lemma ScalarBytes(z: seq<byte>, s: seq<byte>)
    requires |z| == |s| == 32 && 0 <= LeVal(s) < ScalarL.L
    ensures z == s <==> LeVal(z) < ScalarL.L && LeVal(z) % ScalarL.L == LeVal(s) % ScalarL.L
  {
    LeValRange(z);
    LeBytesLeVal(z);
    LeBytesLeVal(s);
    hide LeVal, LeBytes;
  }

  /** The library alone takes a second scalar: S + L for S opens to the same message, and verification refuses it. */
  lemma SecondSignature(op: (Affine, Affine) -> Affine, seed: seq<byte>, m: seq<byte>)
    requires CurveGroup(op) && |seed| == 32
    ensures var r := PointBytes(Multiple(B, Nonce(seed, m)));
      var s := Response(Nonce(seed, m), Challenge(seed, m), Secret(seed));
      Sign(seed + PublicKey(seed), m) == r + s + m && LeVal(s) < ScalarL.L
      && Open(r + ScalarL.NonCanonical(s) + m, PublicKey(seed)) == Some(m)
      && !Verify(PublicKey(seed), r + ScalarL.NonCanonical(s), m)
  {
    hide *;
    var r, s := PointBytes(Multiple(B, Nonce(seed, m))), Response(Nonce(seed, m), Challenge(seed, m), Secret(seed));
    SignParts(seed, m);
    ResponseMeans(Nonce(seed, m), Challenge(seed, m), Secret(seed));
    ScalarL.NonCanonicalRefused(s);
    OpenExactly(op, seed, m, ScalarL.NonCanonical(s));
    var z := ScalarL.NonCanonical(s);
    assert (r + z)[32..] == z;
    VerifyIs(PublicKey(seed), r + z, m);
  }

  lemma PublicKeyIs(seed: seq<byte>)
    ensures PublicKey(seed) == PointBytes(Multiple(B, Secret(seed)))
  {
    hide PointBytes, Multiple, Secret;
  }

  lemma OpenDecides(point: seq<byte>, s: seq<byte>, m: seq<byte>, pk: seq<byte>, q: Coords, k: seq<byte>)
    requires |point| == |s| == |pk| == |k| == 32 && UnpackNeg(pk) == Some(q) && k == HashScalar(point + pk + m)
    ensures var same := point == PointBytes(Add(Multiple(q, k), Multiple(B, s)));
      Open(point + s + m, pk) == if same then Some(m) else None
  {
    hide *;
    var sm := point + s + m;
    assert sm[..32] == point && sm[32..64] == s && sm[64..] == m;
    OpenIs(sm, pk);
    AcceptedIs(q, sm, pk, k);
  }
}
