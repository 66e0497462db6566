/** Arithmetic modulo 2^255 - 19 on sixteen signed limbs in radix 2^16. */
module Field {
  import opened Arith
  import opened Bits

  type Modulus = m: int | m > 2 witness 3

  const P: Modulus := (PowerIs(); Pow(2, 255) - 19)

  lemma PowerIs()
    ensures Pow(2, 255) == 0x8000000000000000000000000000000000000000000000000000000000000000
    ensures Pow(2, 252) == 0x1000000000000000000000000000000000000000000000000000000000000000
    ensures Pow(2, 128) == 0x1_0000_0000_0000_0000_0000_0000_0000_0000
  {
    assert Pow(2, 7) == 0x80;
    hide *;
    PowAdd(2, 7, 7);
    PowAdd(2, 14, 14);
    PowAdd(2, 28, 28);
    PowAdd(2, 56, 7);
    assert Pow(2, 63) == 0x80000000_00000000;
    PowAdd(2, 63, 63);
    assert Pow(2, 126) == 0x40000000_00000000_00000000_00000000;
    PowAdd(2, 126, 126);
    PowsOfTwoTop();
  }

  lemma PowsOfTwoTop()
    ensures Pow(2, 255) == 8 * Pow(2, 252) && Pow(2, 128) == 4 * Pow(2, 126)
  {
    hide P, TWO255;
    assert Pow(2, 255) == 2 * Pow(2, 254) && Pow(2, 254) == 2 * Pow(2, 253) && Pow(2, 253) == 2 * Pow(2, 252);
    assert Pow(2, 128) == 2 * Pow(2, 127) && Pow(2, 127) == 2 * Pow(2, 126);
  }

  lemma PIs()
    ensures P == 0x7fffffffffffffffffffffffffffffffffffffffffffffffffffffffffffffed
  {
    PowerIs();
    hide Pow;
  }

  const TWO255: int := P + 19

  const LIMIT: int := 0x4000_0000_0000_0000

  /** The integer that sixteen limbs stand for. */
  function Value(s: seq<int>): int
    requires |s| == 16
  {
    Val(65536, s, 16)
  }

  /** The field element that sixteen limbs stand for. */
  function Fe(s: seq<int>): int
    requires |s| == 16
  {
    Value(s) % P
  }

  lemma FeIs(s: seq<int>, v: int)
    requires |s| == 16 && Value(s) == v
    requires 0 <= v < 0x7fffffffffffffffffffffffffffffffffffffffffffffffffffffffffffffed
    ensures Fe(s) == v
  {
    PIs();
    assert Fe(s) == v % P;
    hide *;
    ModUnique(v, 0, v, P);
  }

  function FAdd(x: int, y: int): int { (x + y) % P }
  function FSub(x: int, y: int): int { (x - y) % P }
  function FMul(x: int, y: int): int { (x * y) % P }

  ghost predicate Within(s: seq<int>, lo: int, hi: int) {
    forall i :: 0 <= i < |s| ==> lo <= s[i] <= hi
  }

  /** What every multiplication leaves behind. */
  ghost predicate Reduced(s: seq<int>) {
    |s| == 16 && Within(s, -38, 65573)
  }

  // ---- carrying

  /** The carry that leaves the lowest n limbs. */
  function Carry(s: seq<int>, n: nat): int
    requires n <= |s|
  {
    if n == 0 then 0 else (s[n - 1] + Carry(s, n - 1)) / 65536
  }

  /** What carrying leaves of limb i, before the top carry comes back. */
  function Low(s: seq<int>, i: nat): int
    requires i < |s|
  {
    (s[i] + Carry(s, i)) % 65536
  }

  /** Every limb brought into [0, 2^16); the carry out of the top comes back 38-fold at the bottom. */
  function Carried(s: seq<int>): (r: seq<int>)
    requires |s| == 16
    ensures |r| == 16
  {
    seq(16, i requires 0 <= i < 16 => Low(s, i) + (if i == 0 then 38 * Carry(s, 16) else 0))
  }

  lemma {:induction false} CarryBound(s: seq<int>, n: nat, m: int)
    requires n <= |s| && 0 <= m
    requires Within(s, -65535 * m, 65535 * m)
    ensures -m <= Carry(s, n) <= m
  {
    if n > 0 {
      CarryBound(s, n - 1, m);
    }
  }

  lemma CarryIs(s: seq<int>)
    requires |s| == 16
    ensures Carry(s, 0) == 0
  {
  }

  lemma CarryNext(s: seq<int>, i: nat)
    requires i < |s|
    ensures Carry(s, i + 1) == (s[i] + Carry(s, i)) / 65536 && Low(s, i) == (s[i] + Carry(s, i)) % 65536
    ensures 0 <= Low(s, i) < 65536
  {
  }

  lemma CarriedFrom(s: seq<int>, r: seq<int>)
    requires |s| == |r| == 16 && r[0] == Low(s, 0) + 38 * Carry(s, 16)
    requires forall k :: 1 <= k < 16 ==> r[k] == Low(s, k)
    ensures r == Carried(s)
  {
    hide Low, Carry;
  }

  lemma CarryStep(x: int)
    ensures (x + 65536) / 65536 - 1 == x / 65536
    ensures x + 65536 - (x + 65536) / 65536 * 65536 == x % 65536
  {
  }

  method Car(o: array<i64>)
    requires o.Length == 16 && Within(o[..], -LIMIT, LIMIT)
    modifies o
    ensures o[..] == Carried(old(o[..]))
  {
    hide Carry, Low, Carried;
    ghost var s: seq<int> := o[..];
    CarryIs(s);
    CarryNext(s, 0);
    for i := 0 to 16
      invariant forall k :: i < k < 16 ==> o[k] == s[k]
      invariant i < 16 ==> o[i] == s[i] + Carry(s, i)
      invariant i < 16 ==> forall k :: 0 <= k < i ==> o[k] == Low(s, k)
      invariant i == 16 ==> o[..] == Carried(s)
    {
      CarryBound(s, i, 0x4001_0000_0000);
      CarryBound(s, i + 1, 0x4001_0000_0000);
      CarryStep(s[i] + Carry(s, i));
      CarryNext(s, i);
      assert -LIMIT <= s[i] <= LIMIT;
      o[i] := o[i] + 65536;
      var c: i64 := o[i] / 65536;
      assert c - 1 == Carry(s, i + 1);
      var k := if i < 15 then i + 1 else 0;
      var fold: i64 := if i == 15 then 37 * (c - 1) else 0;
      o[k] := o[k] + (c - 1 + fold);
      var back: i64 := c * 65536;
      o[i] := o[i] - back;
      if i == 15 {
        CarriedFrom(s, o[..]);
      }
    }
  }

  lemma {:induction false} CarryValue(s: seq<int>, r: seq<int>, n: nat)
    requires n <= |s| && n <= |r|
    requires forall i :: 0 <= i < n ==> r[i] == Low(s, i)
    ensures Val(65536, s, n) == Val(65536, r, n) + Carry(s, n) * Pow(65536, n)
  {
    if n > 0 {
      CarryValue(s, r, n - 1);
      var x, w := s[n - 1] + Carry(s, n - 1), Pow(65536, n - 1);
      Distribute(s[n - 1], Carry(s, n - 1), w);
      Distribute((x / 65536) * 65536, x % 65536, w);
    }
  }

  lemma Pow256()
    ensures Pow(65536, 16) == 2 * P + 38
  {
    PIs();
    assert Pow(65536, 4) == 0x1_0000_0000_0000_0000;
    PowAdd(65536, 4, 4);
    PowAdd(65536, 8, 8);
  }

  lemma CarriedValue(s: seq<int>)
    requires |s| == 16
    ensures Value(Carried(s)) == Value(s) - Carry(s, 16) * Pow(65536, 16) + 38 * Carry(s, 16)
  {
    var r := Carried(s);
    var t := r[0 := Low(s, 0)];
    CarryValue(s, t, 16);
    ValUpdate(65536, t, r, 16, 0);
    assert Pow(65536, 0) == 1;
  }

  /** One carry pass changes the integer by a multiple of p and so keeps the field element. */
  lemma CarriedKeepsFe(s: seq<int>)
    requires |s| == 16
    ensures Value(Carried(s)) == Value(s) + (-2 * Carry(s, 16)) * P
    ensures Fe(Carried(s)) == Fe(s)
  {
    hide Carried, Carry, Value, P, Pow;
    CarriedValue(s);
    FoldTop(Carry(s, 16));
    ModShift(Value(s), -2 * Carry(s, 16), P);
  }

  lemma FoldTop(c: int)
    ensures c * Pow(65536, 16) == 2 * c * P + 38 * c
  {
    Pow256();
  }

  // ---- what successive carry passes do to the limbs

  /** After one pass: the bottom limb alone can lie outside [0, 2^16). */
  ghost predicate Once(s: seq<int>) {
    |s| == 16 && -0x10_0000_0000_0000 <= s[0] <= 0x10_0000_0000_0000
    && forall i :: 1 <= i < 16 ==> 0 <= s[i] < 65536
  }

  /** After two passes: the bottom limb is at most 38 outside [0, 2^16). */
  ghost predicate Twice(s: seq<int>) {
    Once(s) && -38 <= s[0] < 65536 + 38
  }

  /** After three passes: every limb is a 16-bit digit. */
  ghost predicate Digits16(s: seq<int>) {
    |s| == 16 && forall i :: 0 <= i < 16 ==> 0 <= s[i] < 65536
  }

  lemma CarriedOnce(s: seq<int>)
    requires |s| == 16 && Within(s, -LIMIT, LIMIT)
    ensures Once(Carried(s))
  {
    CarryBound(s, 16, 0x4001_0000_0000);
  }

  lemma {:induction false} CarryOnce(s: seq<int>, n: nat)
    requires Once(s) && 1 <= n <= 16
    ensures -0x11_0000_0000 <= Carry(s, n) <= 0x11_0000_0000
    ensures n >= 2 ==> -0x11_0001 <= Carry(s, n) <= 0x11_0001
    ensures n >= 3 ==> -18 <= Carry(s, n) <= 18
    ensures n >= 4 ==> -1 <= Carry(s, n) <= 1
  {
    if n > 1 {
      CarryOnce(s, n - 1);
      assert 0 <= s[n - 1] < 65536;
    } else {
      assert Carry(s, 0) == 0;
    }
  }

  lemma CarriedTwice(s: seq<int>)
    requires Once(s)
    ensures Twice(Carried(s)) && Reduced(Carried(s))
  {
    CarryOnce(s, 16);
  }

  /** A carry out of nearly carried limbs has the sign of the bottom limb's overflow. */
  lemma {:induction false} CarryTwice(s: seq<int>, n: nat)
    requires Twice(s) && 1 <= n <= 16
    ensures s[0] < 0 ==> -1 <= Carry(s, n) <= 0
    ensures 0 <= s[0] < 65536 ==> Carry(s, n) == 0
    ensures s[0] >= 65536 ==> 0 <= Carry(s, n) <= 1
  {
    if n > 1 {
      CarryTwice(s, n - 1);
      assert 0 <= s[n - 1] < 65536;
    } else {
      assert Carry(s, 0) == 0;
    }
  }

  lemma CarriedThrice(s: seq<int>)
    requires Twice(s)
    ensures Digits16(Carried(s))
  {
    CarryTwice(s, 16);
    assert Carry(s, 0) == 0;
  }

  // ---- multiplication

  const MAXIN: int := 0x400_0000

  /** Limbs that may be multiplied: magnitude at most 2^26. */
  ghost predicate Operand(s: seq<int>) {
    |s| == 16 && Within(s, -MAXIN, MAXIN)
  }

  /** Limbs that may be added or subtracted: magnitude at most 2^24. */
  ghost predicate Small(s: seq<int>) {
    |s| == 16 && Within(s, -0x100_0000, 0x100_0000)
  }

  const MAXPROD: int := 0x10_0000_0000_0000

  lemma ProductBound(x: int, y: int)
    requires -MAXIN <= x <= MAXIN && -MAXIN <= y <= MAXIN
    ensures -MAXPROD <= x * y <= MAXPROD
  {
    if y >= 0 {
      MulOrder(-MAXIN, x, MAXIN, y);
    } else {
      MulOrder(-MAXIN, x, MAXIN, -y);
    }
  }

  lemma ProductRow(a: seq<int>, b: seq<int>, i: nat)
    requires i < 16 && |a| == |b| == 16
    ensures Val(65536, a, i) * Value(b) + a[i] * Pow(65536, i) * Val(65536, b, 16)
         == Val(65536, a, i + 1) * Value(b)
  {
    Distribute(Val(65536, a, i), a[i] * Pow(65536, i), Value(b));
  }

  /** The schoolbook product of sixteen by sixteen limbs. */
  method Product(a: array<i64>, b: array<i64>) returns (t: array<i64>)
    requires a.Length == b.Length == 16
    requires Operand(a[..]) && Operand(b[..])
    ensures fresh(t) && t.Length == 31
    ensures Val(65536, t[..], 31) == Value(a[..]) * Value(b[..])
    ensures Within(t[..], -16 * MAXPROD, 16 * MAXPROD)
  {
    t := new i64[31](_ => 0);
    ghost var sa: seq<int>, sb: seq<int> := a[..], b[..];
    ZeroValue(t[..], 31);
    for i := 0 to 16
      invariant a[..] == sa && b[..] == sb
      invariant Val(65536, t[..], 31) == Val(65536, sa, i) * Value(sb)
      invariant Within(t[..], -i * MAXPROD, i * MAXPROD)
    {
      for j := 0 to 16
        invariant a[..] == sa && b[..] == sb
        invariant Val(65536, t[..], 31)
               == Val(65536, sa, i) * Value(sb) + sa[i] * Pow(65536, i) * Val(65536, sb, j)
        invariant forall k :: 0 <= k < 31 ==> -(i + 1) * MAXPROD <= t[k] <= (i + 1) * MAXPROD
        invariant forall k :: i + j <= k < 31 ==> -i * MAXPROD <= t[k] <= i * MAXPROD
      {
        ProductBound(sa[i], sb[j]);
        ghost var before: seq<int> := t[..];
        var product: i64 := a[i] * b[j];
        t[i + j] := t[i + j] + product;
        ConvolutionStep(65536, sa, sb, before, t[..], 31, i, j);
      }
      ProductRow(sa, sb, i);
    }
  }

  lemma {:induction false} ZeroValue(s: seq<int>, n: nat)
    requires n <= |s| && forall i :: 0 <= i < n ==> s[i] == 0
    ensures Val(65536, s, n) == 0
  {
    if n > 0 {
      ZeroValue(s, n - 1);
    }
  }

  lemma {:induction false} FoldSum(t: seq<int>, r: seq<int>, n: nat)
    requires |t| == 31 && |r| == 16 && n <= 15
    requires forall k :: 0 <= k < 15 ==> r[k] == t[k] + 38 * t[k + 16]
    ensures Val(65536, r, n) == Val(65536, t, n) + 38 * Val(65536, t[16..], n)
  {
    if n > 0 {
      FoldSum(t, r, n - 1);
      assert t[16..][n - 1] == t[n + 15];
      var w := Pow(65536, n - 1);
      Distribute(t[n - 1], 38 * t[n + 15], w);
      assert 38 * t[n + 15] * w == 38 * (t[n + 15] * w);
    }
  }

  /** Folding the upper limbs back 38-fold keeps the field element. */
  lemma FoldKeepsFe(t: seq<int>, r: seq<int>)
    requires |t| == 31 && |r| == 16 && r[15] == t[15]
    requires forall k :: 0 <= k < 15 ==> r[k] == t[k] + 38 * t[k + 16]
    ensures Fe(r) == Val(65536, t, 31) % P
  {
    var hi := Val(65536, t[16..], 15);
    FoldSum(t, r, 15);
    FoldValue(t, r);
    var v, x := Val(65536, t, 31), Value(r);
    assert Fe(r) == x % P;
    hide *;
    ModShift(x, 2 * hi, P);
  }

  lemma FoldValue(t: seq<int>, r: seq<int>)
    requires |t| == 31 && |r| == 16 && r[15] == t[15]
    requires Val(65536, r, 15) == Val(65536, t, 15) + 38 * Val(65536, t[16..], 15)
    ensures Val(65536, t, 31) == Value(r) + 2 * Val(65536, t[16..], 15) * P
  {
    var hi := Val(65536, t[16..], 15);
    ValSplit(65536, t, 16, 15);
    assert Val(65536, t, 16) == Val(65536, t, 15) + t[15] * Pow(65536, 15);
    assert Value(r) == Val(65536, r, 15) + r[15] * Pow(65536, 15);
    assert Value(r) == Val(65536, t, 16) + 38 * hi;
    FoldTop(hi);
    var w := Pow(65536, 16);
    hide *;
    assert w * hi == hi * w;
  }

  /** Fe of the integer product is the product in the field. */
  lemma FeProduct(a: seq<int>, b: seq<int>)
    requires |a| == |b| == 16
    ensures (Value(a) * Value(b)) % P == FMul(Fe(a), Fe(b))
  {
    var x, y := Value(a), Value(b);
    assert Fe(a) == x % P && Fe(b) == y % P;
    assert FMul(x % P, y % P) == ((x % P) * (y % P)) % P;
    hide *;
    ModMul(x, y, P);
  }

  /** The upper fifteen limbs folded back onto the lower ones, and the result stored in o. */
  method Fold(o: array<i64>, t: array<i64>)
    requires o.Length == 16 && t.Length == 31 && o != t
    requires Within(t[..], -16 * MAXPROD, 16 * MAXPROD)
    modifies o, t
    ensures Fe(o[..]) == old(Val(65536, t[..], 31)) % P
    ensures Within(o[..], -LIMIT, LIMIT)
  {
    ghost var t0: seq<int> := t[..];
    for i := 0 to 15
      invariant forall k :: 0 <= k < i ==> t[k] == t0[k] + 38 * t0[k + 16]
      invariant forall k :: i <= k < 31 ==> t[k] == t0[k]
    {
      assert -16 * MAXPROD <= t0[i] <= 16 * MAXPROD && -16 * MAXPROD <= t0[i + 16] <= 16 * MAXPROD;
      var fold: i64 := 38 * t[i + 16];
      t[i] := t[i] + fold;
    }
    ghost var t1 := t[..];
    for i := 0 to 16
      invariant forall k :: 0 <= k < i && k < 15 ==> o[k] == t0[k] + 38 * t0[k + 16]
      invariant i == 16 ==> o[15] == t0[15]
      invariant t[..] == t1
    {
      o[i] := t[i];
    }
    FoldKeepsFe(t0, o[..]);
    forall k | 0 <= k < 16 ensures -LIMIT <= o[k] <= LIMIT {
      assert -16 * MAXPROD <= t0[k] <= 16 * MAXPROD;
      assert k < 15 ==> -16 * MAXPROD <= t0[k + 16] <= 16 * MAXPROD;
    }
  }

  /** Two carry passes: the same field element on limbs ready for the next operation. */
  method CarTwice(o: array<i64>)
    requires o.Length == 16 && Within(o[..], -LIMIT, LIMIT)
    modifies o
    ensures Fe(o[..]) == old(Fe(o[..])) && Reduced(o[..]) && Twice(o[..])
  {
    ghost var s: seq<int> := o[..];
    CarriedKeepsFe(s);
    CarriedOnce(s);
    CarriedKeepsFe(Carried(s));
    CarriedTwice(Carried(s));
    Car(o);
    Car(o);
  }

  /** Multiplication in the field; o may be a or b or both. */
  method M(o: array<i64>, a: array<i64>, b: array<i64>)
    requires o.Length == a.Length == b.Length == 16
    requires Operand(a[..]) && Operand(b[..])
    modifies o
    ensures Fe(o[..]) == FMul(old(Fe(a[..])), old(Fe(b[..])))
    ensures Reduced(o[..])
  {
    FeProduct(a[..], b[..]);
    var t := Product(a, b);
    Fold(o, t);
    CarTwice(o);
  }

  method S(o: array<i64>, a: array<i64>)
    requires o.Length == a.Length == 16
    requires Operand(a[..])
    modifies o
    ensures Fe(o[..]) == FMul(old(Fe(a[..])), old(Fe(a[..])))
    ensures Reduced(o[..])
  {
    M(o, a, a);
  }

  // ---- addition and subtraction

  lemma {:induction false} ValAdd(b: int, s: seq<int>, t: seq<int>, u: seq<int>, k: int, n: nat)
    requires n <= |s| && n <= |t| && n <= |u|
    requires forall i :: 0 <= i < n ==> u[i] == s[i] + k * t[i]
    ensures Val(b, u, n) == Val(b, s, n) + k * Val(b, t, n)
  {
    if n > 0 {
      ValAdd(b, s, t, u, k, n - 1);
      AddStep(s[n - 1], t[n - 1], k, Pow(b, n - 1), Val(b, t, n - 1));
    }
  }

  lemma AddStep(x: int, y: int, k: int, w: int, v: int)
    ensures (x + k * y) * w + k * v == x * w + k * (v + y * w)
  {
    assert (k * y) * w == k * (y * w);
  }

  lemma FeAdd(a: seq<int>, b: seq<int>, o: seq<int>)
    requires |a| == |b| == |o| == 16
    requires forall i :: 0 <= i < 16 ==> o[i] == a[i] + b[i]
    ensures Fe(o) == FAdd(Fe(a), Fe(b))
  {
    ValAdd(65536, a, b, o, 1, 16);
    ModAdd(Value(a), Value(b), P);
  }

  lemma FeSub(a: seq<int>, b: seq<int>, o: seq<int>)
    requires |a| == |b| == |o| == 16
    requires forall i :: 0 <= i < 16 ==> o[i] == a[i] - b[i]
    ensures Fe(o) == FSub(Fe(a), Fe(b))
  {
    ValAdd(65536, a, b, o, -1, 16);
    ModSub(Value(a), Value(b), P);
  }

  predicate FitsLimb(x: int) {
    -0x8000_0000_0000_0000 <= x < 0x8000_0000_0000_0000
  }

  ghost predicate SumsFit(a: seq<int>, b: seq<int>)
    requires |a| == |b| == 16
  {
    forall i :: 0 <= i < 16 ==> FitsLimb(a[i] + b[i])
  }

  ghost predicate DifferencesFit(a: seq<int>, b: seq<int>)
    requires |a| == |b| == 16
  {
    forall i :: 0 <= i < 16 ==> FitsLimb(a[i] - b[i])
  }

  /** Addition in the field; o may be a or b or both. */
  method A(o: array<i64>, a: array<i64>, b: array<i64>)
    requires o.Length == a.Length == b.Length == 16
    requires SumsFit(a[..], b[..])
    modifies o
    ensures Fe(o[..]) == FAdd(old(Fe(a[..])), old(Fe(b[..])))
    ensures old(Small(a[..]) && Small(b[..])) ==> Operand(o[..])
    ensures old(Reduced(a[..]) && Reduced(b[..])) ==> Small(o[..])
  {
    ghost var sa, sb := a[..], b[..];
    for i := 0 to 16
      invariant forall k :: 0 <= k < i ==> o[k] == sa[k] + sb[k]
      invariant forall k :: i <= k < 16 ==> a[k] == sa[k] && b[k] == sb[k]
    {
      assert FitsLimb(sa[i] + sb[i]);
      o[i] := a[i] + b[i];
    }
    FeAdd(sa, sb, o[..]);
  }

  /** Subtraction in the field; o may be a or b or both. */
  method Z(o: array<i64>, a: array<i64>, b: array<i64>)
    requires o.Length == a.Length == b.Length == 16
    requires DifferencesFit(a[..], b[..])
    modifies o
    ensures Fe(o[..]) == FSub(old(Fe(a[..])), old(Fe(b[..])))
    ensures old(Small(a[..]) && Small(b[..])) ==> Operand(o[..])
    ensures old(Reduced(a[..]) && Reduced(b[..])) ==> Small(o[..])
  {
    ghost var sa, sb := a[..], b[..];
    for i := 0 to 16
      invariant forall k :: 0 <= k < i ==> o[k] == sa[k] - sb[k]
      invariant forall k :: i <= k < 16 ==> a[k] == sa[k] && b[k] == sb[k]
    {
      assert FitsLimb(sa[i] - sb[i]);
      o[i] := a[i] - b[i];
    }
    FeSub(sa, sb, o[..]);
  }

  /** The branch-free conditional swap: p and q trade contents exactly when b is 1. */
  method Sel(p: array<i64>, q: array<i64>, b: int)
    requires p.Length == q.Length == 16 && p != q && 0 <= b <= 1
    modifies p, q
    ensures p[..] == if b == 1 then old(q[..]) else old(p[..])
    ensures q[..] == if b == 1 then old(p[..]) else old(q[..])
  {
    ghost var sp, sq := p[..], q[..];
    var c: i64 := -(b - 1) - 1;
    for i := 0 to 16
      invariant forall k :: 0 <= k < i ==> p[k] == (if b == 1 then sq[k] else sp[k])
      invariant forall k :: 0 <= k < i ==> q[k] == (if b == 1 then sp[k] else sq[k])
      invariant forall k :: i <= k < 16 ==> p[k] == sp[k] && q[k] == sq[k]
    {
      SwapByXor(sp[i], sq[i], b);
      XorI64(sp[i], sq[i]);
      AndMask(Xor(sp[i], sq[i]));
      var t: i64 := And(c, Xor(p[i], q[i]));
      p[i] := Xor(p[i], t);
      q[i] := Xor(q[i], t);
    }
  }

  lemma SwapByXor(x: int, y: int, b: int)
    requires 0 <= b <= 1
    ensures Xor(x, And(-b, Xor(x, y))) == if b == 1 then y else x
    ensures Xor(y, And(-b, Xor(x, y))) == if b == 1 then x else y
  {
    AndMask(Xor(x, y));
    XorUndo(x, y);
    XorUndo(y, x);
    XorComm(x, y);
    XorZero(x);
    XorZero(y);
  }

  // ---- the canonical byte string

  /** The limbs of p itself. */
  function PLimb(i: nat): int {
    if i == 0 then 0xffed else if i < 15 then 0xffff else 0x7fff
  }

  function PLimbs(): (s: seq<int>)
    ensures |s| == 16
  {
    seq(16, i requires 0 <= i < 16 => PLimb(i))
  }

  lemma PLimbsValue()
    ensures Value(PLimbs()) == P
  {
    var s := PLimbs();
    var t := s[0 := 0xffff];
    ValBounds(65536, t, 15, 0xffff, 0xffff);
    ValUpdate(65536, s, t, 16, 0);
    Pow256();
    assert Value(t) == Val(65536, t, 15) + 0x7fff * Pow(65536, 15);
    assert Pow(65536, 16) == 65536 * Pow(65536, 15);
    assert Pow(65536, 0) == 1;
  }

  /** A borrow moves from limb i to limb i-1 without changing the integer. */
  lemma BorrowStep(m: seq<int>, n: seq<int>, t: seq<int>, i: nat, borrow: int)
    requires 1 <= i < 16 && |m| == |n| == |t| == 16
    requires Val(65536, m, i) == Val(65536, t, i) - Val(65536, PLimbs(), i)
    requires n[i - 1] == m[i - 1] + 65536 * borrow && n[i] == t[i] - PLimb(i) - borrow
    requires forall k :: 0 <= k < i - 1 ==> n[k] == m[k]
    ensures Val(65536, n, i + 1) == Val(65536, t, i + 1) - Val(65536, PLimbs(), i + 1)
  {
    ValSame(65536, m, n, i - 1);
    BorrowWeights(m[i - 1], t[i], PLimb(i), borrow, Pow(65536, i - 1));
  }

  lemma BorrowBase(m: seq<int>, t: seq<int>)
    requires |m| == |t| == 16 && m[0] == t[0] - PLimb(0)
    ensures Val(65536, m, 1) == Val(65536, t, 1) - Val(65536, PLimbs(), 1)
  {
    assert Pow(65536, 0) == 1;
    assert forall s: seq<int> | |s| == 16 :: Val(65536, s, 1) == Val(65536, s, 0) + s[0] * Pow(65536, 0);
  }

  lemma BorrowWeights(x: int, y: int, z: int, borrow: int, w: int)
    ensures (x + 65536 * borrow) * w + (y - z - borrow) * (65536 * w) == x * w + y * (65536 * w) - z * (65536 * w)
  {
    Distribute(x, 65536 * borrow, w);
    Distribute(y - z, borrow, 65536 * w);
    Distribute(y, z, 65536 * w);
    assert (65536 * borrow) * w == borrow * (65536 * w);
  }

  /** m := t - p limb by limb; b is 1 exactly when the difference is negative. */
  method SubtractP(t: array<i64>, m: array<i64>) returns (b: int)
    requires t.Length == m.Length == 16 && t != m
    requires Digits16(t[..])
    modifies m
    ensures 0 <= b <= 1
    ensures Value(m[..]) == Value(t[..]) - P
    ensures b == 1 <==> Value(t[..]) < P
    ensures b == 0 ==> Digits16(m[..])
  {
    hide Val, Pow, PLimbs, PLimb, Value, P;
    ghost var st: seq<int> := t[..];
    m[0] := t[0] - 0xffed;
    PLimbIs(0);
    BorrowBase(m[..], st);
    for i := 1 to 16
      invariant t[..] == st
      invariant -65536 <= m[i - 1] <= 65535
      invariant i == 16 ==> m[15] <= 0x8000
      invariant forall k :: 0 <= k < i - 1 ==> 0 <= m[k] < 65536
      invariant Val(65536, m[..], i) == Val(65536, st, i) - Val(65536, PLimbs(), i)
    {
      ghost var sm: seq<int> := m[..];
      assert 0 <= st[i] < 65536;
      BorrowBit(m[i - 1]);
      PLimbIs(i);
      var borrow := (m[i - 1] / 65536) % 2;
      m[i] := t[i] - (if i < 15 then 0xffff else 0x7fff) - borrow;
      m[i - 1] := m[i - 1] % 65536;
      BorrowStep(sm, m[..], st, i, borrow);
    }
    BorrowBit(m[15]);
    b := (m[15] / 65536) % 2;
    SubtractEnd(m[..], st);
    TopSign(m[..]);
  }

  lemma BorrowBit(x: int)
    requires -65536 <= x <= 65535
    ensures var b := (x / 65536) % 2; 0 <= b <= 1 && x % 65536 == x + 65536 * b && 0 <= x % 65536 < 65536
    ensures (x / 65536) % 2 == 1 <==> x < 0
  {
  }

  lemma PLimbIs(i: nat)
    requires i < 16
    ensures PLimb(i) == if i == 0 then 0xffed else if i < 15 then 0xffff else 0x7fff
  {
  }

  lemma SubtractEnd(m: seq<int>, t: seq<int>)
    requires |m| == |t| == 16 && Val(65536, m, 16) == Val(65536, t, 16) - Val(65536, PLimbs(), 16)
    ensures Value(m) == Value(t) - P
  {
    PLimbsValue();
  }

  /** With the lower limbs in range, the top limb carries the sign of the integer. */
  lemma TopSign(m: seq<int>)
    requires |m| == 16 && forall k :: 0 <= k < 15 ==> 0 <= m[k] < 65536
    ensures Value(m) < 0 <==> m[15] < 0
  {
    ValRange(65536, m, 15);
    if m[15] < 0 {
      MulOrder(m[15], -1, -1, Pow(65536, 15));
    } else {
      MulOrder(0, m[15], m[15], Pow(65536, 15));
    }
  }

  /** One branch-free conditional subtraction of p. */
  method ReduceOnce(t: array<i64>, m: array<i64>)
    requires t.Length == m.Length == 16 && t != m
    requires Digits16(t[..])
    modifies t, m
    ensures Digits16(t[..])
    ensures Value(t[..]) == old(Value(t[..])) - (if old(Value(t[..])) < P then 0 else P)
  {
    var b := SubtractP(t, m);
    Sel(t, m, 1 - b);
  }

  function Pair(lo: int, hi: int): int {
    lo + 256 * hi
  }

  /** Limbs in radix 2^16 and the byte pairs they are made of have one value. */
  lemma {:induction false} PairsValue(o: seq<int>, t: seq<int>, n: nat)
    requires 2 * n <= |o| && n <= |t|
    requires forall i :: 0 <= i < n ==> t[i] == Pair(o[2 * i], o[2 * i + 1])
    ensures Pow(256, 2 * n) == Pow(65536, n)
    ensures Val(256, o, 2 * n) == Val(65536, t, n)
  {
    if n > 0 {
      PairsValue(o, t, n - 1);
      var w := Pow(65536, n - 1);
      assert Pow(256, 2 * n) == 256 * Pow(256, 2 * n - 1) && Pow(256, 2 * n - 1) == 256 * w;
      assert Val(256, o, 2 * n - 1) == Val(256, o, 2 * n - 2) + o[2 * n - 2] * w;
      assert Val(256, o, 2 * n) == Val(256, o, 2 * n - 1) + o[2 * n - 1] * Pow(256, 2 * n - 1);
      PairWeights(o[2 * n - 2], o[2 * n - 1], w);
    }
  }

  lemma PairWeights(x: int, y: int, w: int)
    ensures x * w + y * (256 * w) == (x + 256 * y) * w
  {
  }

  /** The canonical 32 bytes: the little-endian representative in [0, p) of the value of n. */
  method Pack(o: array<byte>, n: array<i64>)
    requires o.Length == 32 && n.Length == 16 && Within(n[..], -LIMIT, LIMIT)
    modifies o
    ensures o[..] == LeBytes(Fe(n[..]), 32)
    ensures LeVal(o[..]) == Fe(n[..]) < P
  {
    hide Val, Pow, Fe, Value, LeBytes, Pair;
    var m := new i64[16](_ => 0);
    var t := new i64[16](_ => 0);
    for i := 0 to 16
      invariant forall k :: 0 <= k < i ==> t[k] == n[k]
    {
      t[i] := n[i];
    }
    assert t[..] == n[..];
    Canonical(t, m);
    for i := 0 to 16
      invariant Digits16(t[..]) && Value(t[..]) == Fe(n[..])
      invariant forall k :: 0 <= k < i ==> t[k] == Pair(o[2 * k], o[2 * k + 1])
    {
      assert 0 <= t[i] < 65536;
      PairSplits(t[i]);
      o[2 * i] := t[i] % 256;
      o[2 * i + 1] := t[i] / 256;
    }
    PairsValue(o[..], t[..], 16);
    assert o[..32] == o[..];
    LeBytesLeVal(o[..]);
    ValueIs(t[..]);
    FeBelow(n[..]);
  }

  lemma PairSplits(v: int)
    requires 0 <= v < 65536
    ensures 0 <= v % 256 < 256 && 0 <= v / 256 < 256 && v == Pair(v % 256, v / 256)
  {
  }

  lemma ValueIs(t: seq<int>)
    requires |t| == 16
    ensures Value(t) == Val(65536, t, 16)
  {
  }

  lemma FeBelow(s: seq<int>)
    requires |s| == 16
    ensures 0 <= Fe(s) < P
  {
  }

  /** Three carry passes and two conditional subtractions reach the representative in [0, p). */
  method Canonical(t: array<i64>, m: array<i64>)
    requires t.Length == m.Length == 16 && t != m && Within(t[..], -LIMIT, LIMIT)
    modifies t, m
    ensures Digits16(t[..]) && Value(t[..]) == old(Fe(t[..])) && 0 <= Value(t[..]) < P
  {
    CarTwice(t);
    ghost var s: seq<int> := t[..];
    CarriedKeepsFe(s);
    CarriedThrice(s);
    Car(t);
    ghost var v := Value(t[..]);
    ValRange(65536, t[..], 16);
    Pow256();
    for j := 0 to 2
      invariant Digits16(t[..])
      invariant Value(t[..]) == v - (if v < P || j == 0 then 0 else if v < 2 * P || j == 1 then P else 2 * P)
    {
      ReduceOnce(t, m);
    }
    ModUnique(v, if v < P then 0 else if v < 2 * P then 1 else 2, Value(t[..]), P);
  }

  /** The limbs of 32 little-endian bytes, with the top bit ignored. */
  method Unpack(o: array<i64>, n: seq<byte>)
    requires o.Length == 16 && |n| == 32
    modifies o
    ensures Digits16(o[..])
    ensures Value(o[..]) == LeVal(n) % TWO255
  {
    for i := 0 to 16
      invariant forall k :: 0 <= k < i ==> o[k] == Pair(n[2 * k], n[2 * k + 1])
    {
      o[i] := Pair(n[2 * i], n[2 * i + 1]);
    }
    ghost var s: seq<int> := o[..];
    PairsValue(n, s, 16);
    o[15] := o[15] % 0x8000;
    TopBit(s, o[..]);
  }

  lemma TopBit(s: seq<int>, r: seq<int>)
    requires Digits16(s) && r == s[15 := s[15] % 0x8000]
    ensures Value(r) == Value(s) % TWO255
  {
    var w, top := Pow(65536, 15), s[15] / 0x8000;
    ValRange(65536, s, 15);
    ValUpdate(65536, s, r, 16, 15);
    Pow256();
    assert Pow(65536, 16) == 65536 * w;
    assert 0x8000 * w == TWO255;
    assert (s[15] - top * 0x8000) * w == s[15] * w - top * (0x8000 * w);
    ValRange(65536, r, 16);
    MulOrder(0, r[15], 0x7fff, w);
    ValSame(65536, s, r, 15);
    ModUnique(Value(s), top, Value(r), TWO255);
  }

  // ---- fixed powers

  lemma InverseExponent()
    ensures Pow(2, 255) - 1 - Pow(2, 4) - Pow(2, 2) == P - 2
  {
    assert Pow(2, 4) == 16 && Pow(2, 2) == 4;
  }

  lemma RootExponent()
    ensures Pow(2, 252) - 1 - Pow(2, 1) == (P - 5) / 8
  {
    PowsOfTwoTop();
    assert Pow(2, 1) == 2;
  }

  function FPow(x: int, n: nat): int {
    Pow(x, n) % P
  }

  lemma FPowAdd(x: int, m: nat, n: nat)
    ensures FMul(FPow(x, m), FPow(x, n)) == FPow(x, m + n)
  {
    PowAdd(x, m, n);
    ModMul(Pow(x, m), Pow(x, n), P);
  }

  lemma FPowOne(s: seq<int>)
    requires |s| == 16
    ensures FPow(Fe(s), 1) == Fe(s)
  {
    PIs();
    assert Pow(Fe(s), 1) == Fe(s) * Pow(Fe(s), 0);
  }

  /** What an exponent misses of a full run of ones once bit k has been left out. */
  function Missing(k: int, a: int): int
    requires -1 <= a
  {
    if a < k then Pow(2, k - 1 - a) else 0
  }

  /** i to the power p - 2; o may be i. */
  method Inv25519(o: array<i64>, i: array<i64>)
    requires o.Length == i.Length == 16 && Operand(i[..])
    modifies o
    ensures Fe(o[..]) == FPow(old(Fe(i[..])), P - 2)
    ensures Reduced(o[..])
  {
    hide Fe, FPow, FMul, P, TWO255;
    ghost var x, si := Fe(i[..]), i[..];
    var c := new i64[16](_ => 0);
    Copy(c, i);
    FPowOne(i[..]);
    ghost var e: nat := 1;
    var a := 253;
    while a >= 0
      invariant -1 <= a <= 253
      invariant i[..] == si && Operand(c[..]) && (a < 253 ==> Reduced(c[..]))
      invariant Fe(c[..]) == FPow(x, e)
      invariant e == Pow(2, 254 - a) - 1 - Missing(4, a) - Missing(2, a)
    {
      FPowAdd(x, e, e);
      FPowAdd(x, e + e, 1);
      FPowOne(si);
      S(c, c);
      e := e + e;
      if a != 2 && a != 4 {
        M(c, c, i);
        e := e + 1;
      }
      a := a - 1;
    }
    InverseExponent();
    Copy(o, c);
  }

  /** i to the power 2^252 - 3; o may be i. */
  method Pow2523(o: array<i64>, i: array<i64>)
    requires o.Length == i.Length == 16 && Operand(i[..])
    modifies o
    ensures Fe(o[..]) == FPow(old(Fe(i[..])), (P - 5) / 8)
    ensures Reduced(o[..])
  {
    hide Fe, FPow, FMul, P, TWO255;
    ghost var x, si := Fe(i[..]), i[..];
    var c := new i64[16](_ => 0);
    Copy(c, i);
    FPowOne(i[..]);
    ghost var e: nat := 1;
    var a := 250;
    while a >= 0
      invariant -1 <= a <= 250
      invariant i[..] == si && Operand(c[..]) && (a < 250 ==> Reduced(c[..]))
      invariant Fe(c[..]) == FPow(x, e)
      invariant e == Pow(2, 251 - a) - 1 - Missing(1, a)
    {
      FPowAdd(x, e, e);
      FPowAdd(x, e + e, 1);
      FPowOne(si);
      S(c, c);
      e := e + e;
      if a != 1 {
        M(c, c, i);
        e := e + 1;
      }
      a := a - 1;
    }
    RootExponent();
    Copy(o, c);
  }

  method Copy(r: array<i64>, a: array<i64>)
    requires r.Length == a.Length == 16
    modifies r
    ensures r[..] == old(a[..])
  {
    for i := 0 to 16
      invariant forall k :: 0 <= k < i ==> r[k] == old(a[k])
      invariant forall k :: i <= k < 16 ==> a[k] == old(a[k])
    {
      r[i] := a[i];
    }
  }

  // ---- the field operations as a commutative ring

  lemma FMulComm(x: int, y: int)
    ensures FMul(x, y) == FMul(y, x)
  {
  }

  lemma FMulResidue(x: int, y: int)
    ensures FMul(x % P, y) == FMul(x, y) == FMul(x, y % P)
  {
    PIs();
    var r, t := x % P, y % P;
    assert r % P == r && t % P == t;
    assert FMul(r, y) == (r * y) % P && FMul(x, y) == (x * y) % P && FMul(x, t) == (x * t) % P;
    hide *;
    ModMul(x, y, P);
    ModMul(r, y, P);
    ModMul(x, t, P);
  }

  lemma FMulAssoc(x: int, y: int, z: int)
    ensures FMul(FMul(x, y), z) == FMul(x, FMul(y, z)) == (x * y * z) % P
  {
    FMulResidue(x * y, z);
    FMulResidue(x, y * z);
    assert (x * y) * z == x * (y * z);
  }

  /** A product of two products may be regrouped crosswise. */
  lemma FMulCross(x: int, y: int, z: int, w: int)
    ensures FMul(FMul(x, y), FMul(z, w)) == FMul(FMul(y, z), FMul(x, w))
  {
    FMulProducts(x, y, z, w);
    FMulProducts(y, z, x, w);
    assert (x * y) * (z * w) == (y * z) * (x * w);
  }

  lemma FMulProducts(x: int, y: int, z: int, w: int)
    ensures FMul(FMul(x, y), FMul(z, w)) == ((x * y) * (z * w)) % P
  {
    FMulResidue(x * y, FMul(z, w));
    FMulResidue(x * y, z * w);
  }
}
