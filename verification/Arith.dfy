/** Integers as the C code uses them: machine ranges, residues and positional values. */
module Arith {

  type i64 = x: int | -0x8000_0000_0000_0000 <= x < 0x8000_0000_0000_0000
  type byte = x: int | 0 <= x < 256

  function Pow(b: int, e: nat): int {
    if e == 0 then 1 else b * Pow(b, e - 1)
  }

  /** The number whose first n digits, least significant first, are those of s in radix b. */
  function Val(b: int, s: seq<int>, n: nat): int
    requires n <= |s|
  {
    if n == 0 then 0 else Val(b, s, n - 1) + s[n - 1] * Pow(b, n - 1)
  }

  // ---- powers

  lemma {:induction false} PowAdd(b: int, m: nat, n: nat)
    ensures Pow(b, m + n) == Pow(b, m) * Pow(b, n)
  {
    if m == 0 {
    } else {
      PowAdd(b, m - 1, n);
      assert b * (Pow(b, m - 1) * Pow(b, n)) == (b * Pow(b, m - 1)) * Pow(b, n);
    }
  }

  lemma {:induction false} PowPositive(b: int, n: nat)
    requires 0 < b
    ensures 0 < Pow(b, n)
  {
    if n > 0 {
      PowPositive(b, n - 1);
    }
  }

  // ---- residues

  lemma Distribute(a: int, b: int, c: int)
    ensures (a + b) * c == a * c + b * c
    ensures (a - b) * c == a * c - b * c
  {
  }

  lemma SmallMultiple(d: int, m: int)
    requires -m < d * m < m
    ensures d == 0
  {
  }

  lemma ModUnique(x: int, q: int, r: int, m: int)
    requires 0 < m && 0 <= r < m && x == q * m + r
    ensures x % m == r && x / m == q
  {
    var p, s := x / m, x % m;
    assert p * m + s == x;
    Distribute(p, q, m);
    SmallMultiple(p - q, m);
  }

  lemma ModShift(x: int, k: int, m: int)
    requires 0 < m
    ensures (x + k * m) % m == x % m
  {
    assert x == (x / m) * m + x % m;
    Distribute(x / m, k, m);
    ModUnique(x + k * m, x / m + k, x % m, m);
  }

  lemma ModAdd(x: int, y: int, m: int)
    requires 0 < m
    ensures (x + y) % m == (x % m + y % m) % m
  {
    var p, q, r, s := x / m, y / m, x % m, y % m;
    assert x == p * m + r && y == q * m + s;
    Distribute(p, q, m);
    ModShift(r + s, p + q, m);
  }

  lemma ModSub(x: int, y: int, m: int)
    requires 0 < m
    ensures (x - y) % m == (x % m - y % m) % m
  {
    var p, q, r, s := x / m, y / m, x % m, y % m;
    assert x == p * m + r && y == q * m + s;
    Distribute(p, q, m);
    ModShift(r - s, p - q, m);
  }

  lemma ModMul(x: int, y: int, m: int)
    requires 0 < m
    ensures (x * y) % m == ((x % m) * (y % m)) % m
  {
    var p, q, r, s := x / m, y / m, x % m, y % m;
    assert x == p * m + r && y == q * m + s;
    MulExpand(p, q, r, s, m);
    ModShift(r * s, p * q * m + p * s + q * r, m);
  }

  lemma MulExpand(p: int, q: int, r: int, s: int, m: int)
    ensures (p * m + r) * (q * m + s) == r * s + (p * q * m + p * s + q * r) * m
  {
    calc {
      (p * m + r) * (q * m + s);
      (p * m) * (q * m) + (p * m) * s + r * (q * m) + r * s;
      { assert (p * m) * (q * m) == (p * q * m) * m; }
      { assert (p * m) * s == (p * s) * m && r * (q * m) == (q * r) * m; }
      (p * q * m) * m + (p * s) * m + (q * r) * m + r * s;
    }
  }

  // ---- positional values

  lemma {:induction false} ValSame(b: int, s: seq<int>, t: seq<int>, n: nat)
    requires n <= |s| && n <= |t|
    requires forall i :: 0 <= i < n ==> s[i] == t[i]
    ensures Val(b, s, n) == Val(b, t, n)
  {
    if n > 0 {
      ValSame(b, s, t, n - 1);
    }
  }

  lemma {:induction false} ValUpdate(b: int, s: seq<int>, t: seq<int>, n: nat, k: nat)
    requires k < n <= |s| == |t|
    requires forall i :: 0 <= i < n && i != k ==> s[i] == t[i]
    ensures Val(b, t, n) == Val(b, s, n) + (t[k] - s[k]) * Pow(b, k)
  {
    if n - 1 == k {
      ValSame(b, s, t, k);
      assert (t[k] - s[k]) * Pow(b, k) == t[k] * Pow(b, k) - s[k] * Pow(b, k);
    } else {
      ValUpdate(b, s, t, n - 1, k);
    }
  }

  lemma {:induction false} ValSplit(b: int, s: seq<int>, m: nat, n: nat)
    requires m + n <= |s|
    ensures Val(b, s, m + n) == Val(b, s, m) + Pow(b, m) * Val(b, s[m..], n)
  {
    if n > 0 {
      ValSplit(b, s, m, n - 1);
      PowAdd(b, m, n - 1);
      SplitStep(Pow(b, m), Val(b, s[m..], n - 1), s[m + n - 1], Pow(b, n - 1));
    }
  }

  lemma SplitStep(w: int, v: int, d: int, u: int)
    ensures d * (w * u) + w * v == w * (v + d * u)
  {
    assert d * (w * u) == w * (d * u);
  }

  /** Every digit in [lo, hi] puts the value between the two constant-digit values. */
  lemma {:induction false} ValBounds(b: int, s: seq<int>, n: nat, lo: int, hi: int)
    requires 1 < b && n <= |s|
    requires forall i :: 0 <= i < n ==> lo <= s[i] <= hi
    ensures lo * (Pow(b, n) - 1) <= (b - 1) * Val(b, s, n) <= hi * (Pow(b, n) - 1)
  {
    if n > 0 {
      ValBounds(b, s, n - 1, lo, hi);
      PowPositive(b, n - 1);
      BoundsStep(b, Pow(b, n - 1), Val(b, s, n - 1), s[n - 1], lo, hi);
    }
  }

  lemma BoundsStep(b: int, w: int, v: int, d: int, lo: int, hi: int)
    requires 1 < b && 0 < w && lo <= d <= hi
    requires lo * (w - 1) <= (b - 1) * v <= hi * (w - 1)
    ensures lo * (b * w - 1) <= (b - 1) * (v + d * w) <= hi * (b * w - 1)
  {
    MulOrder(lo, d, hi, (b - 1) * w);
    SplitStep(b - 1, v, d, w);
    Grow(b, w, lo);
    Grow(b, w, hi);
  }

  lemma Grow(b: int, w: int, x: int)
    ensures x * (b * w - 1) == x * (w - 1) + x * ((b - 1) * w)
  {
    var u := (b - 1) * w;
    assert b * w - 1 == (w - 1) + u;
    Distribute(w - 1, u, x);
  }

  lemma MulOrder(lo: int, d: int, hi: int, w: int)
    requires lo <= d <= hi && 0 <= w
    ensures lo * w <= d * w <= hi * w
  {
  }

  /** Digits in [0, b) are determined by their value. */
  lemma {:induction false} ValInjective(b: int, s: seq<int>, t: seq<int>, n: nat)
    requires 1 < b && n <= |s| && n <= |t|
    requires forall i :: 0 <= i < n ==> 0 <= s[i] < b && 0 <= t[i] < b
    requires Val(b, s, n) == Val(b, t, n)
    ensures forall i :: 0 <= i < n ==> s[i] == t[i]
  {
    if n > 0 {
      var w := Pow(b, n - 1);
      PowPositive(b, n - 1);
      ValRange(b, s, n - 1);
      ValRange(b, t, n - 1);
      ModUnique(Val(b, s, n), s[n - 1], Val(b, s, n - 1), w);
      ModUnique(Val(b, t, n), t[n - 1], Val(b, t, n - 1), w);
      ValInjective(b, s, t, n - 1);
    }
  }

  lemma {:induction false} ValRange(b: int, s: seq<int>, n: nat)
    requires 1 < b && n <= |s|
    requires forall i :: 0 <= i < n ==> 0 <= s[i] < b
    ensures 0 <= Val(b, s, n) < Pow(b, n)
  {
    if n > 0 {
      ValRange(b, s, n - 1);
      PowPositive(b, n - 1);
      MulOrder(0, s[n - 1], b - 1, Pow(b, n - 1));
    }
  }

  lemma {:induction false} ValCons(b: int, d: int, s: seq<int>, n: nat)
    requires n <= |s|
    ensures Val(b, [d] + s, n + 1) == d + b * Val(b, s, n)
  {
    if n > 0 {
      ValCons(b, d, s, n - 1);
      assert ([d] + s)[n] == s[n - 1];
      SplitStep(b, Val(b, s, n - 1), s[n - 1], Pow(b, n - 1));
    } else {
      assert Val(b, [d] + s, 1) == Val(b, [d] + s, 0) + d * Pow(b, 0);
    }
  }

  /** One term of a schoolbook product lands with the weight of the two digits it comes from. */
  lemma ConvolutionStep(b: int, a: seq<int>, c: seq<int>, t: seq<int>, u: seq<int>, n: nat, i: nat, j: nat)
    requires i < |a| && j < |c| && i + j < n == |t| == |u|
    requires u == t[i + j := t[i + j] + a[i] * c[j]]
    ensures Val(b, u, n) == Val(b, t, n) - a[i] * Pow(b, i) * Val(b, c, j) + a[i] * Pow(b, i) * Val(b, c, j + 1)
  {
    ValUpdate(b, t, u, n, i + j);
    PowAdd(b, i, j);
    assert Val(b, c, j + 1) == Val(b, c, j) + c[j] * Pow(b, j);
    Regroup(a[i], c[j], Pow(b, i), Pow(b, j), Val(b, c, j));
  }

  lemma Regroup(x: int, y: int, v: int, w: int, z: int)
    ensures x * v * z + (x * y) * (v * w) == x * v * (z + y * w)
  {
    assert (x * y) * (v * w) == (x * v) * (y * w);
  }

  // ---- little-endian byte strings

  /** The n low bytes of v, least significant first. */
  function LeBytes(v: int, n: nat): (s: seq<byte>)
    ensures |s| == n
    decreases n
  {
    if n == 0 then [] else [v % 256] + LeBytes(v / 256, n - 1)
  }

  function LeVal(s: seq<byte>): int {
    Val(256, s, |s|)
  }

  lemma LeValRange(s: seq<byte>)
    ensures 0 <= LeVal(s) < Pow(256, |s|)
  {
    ValRange(256, s, |s|);
  }

  lemma {:induction false} LeValLeBytes(v: int, n: nat)
    requires 0 <= v < Pow(256, n)
    ensures LeVal(LeBytes(v, n)) == v
  {
    if n > 0 {
      LeValLeBytes(v / 256, n - 1);
      ValCons(256, v % 256, LeBytes(v / 256, n - 1), n - 1);
    }
  }

  /** A byte string is the encoding of its value: encodings of one length are unique. */
  lemma LeBytesLeVal(s: seq<byte>)
    ensures LeBytes(LeVal(s), |s|) == s
  {
    LeValRange(s);
    LeValLeBytes(LeVal(s), |s|);
    ValInjective(256, s, LeBytes(LeVal(s), |s|), |s|);
  }

  lemma ModOpposite(x: int, m: int)
    requires m > 0
    ensures (-x) % m == if x % m == 0 then 0 else m - x % m
  {
    var q := x / m;
    if x % m == 0 {
      ModUnique(-x, -q, 0, m);
    } else {
      ModUnique(-x, -q - 1, m - x % m, m);
    }
  }
}
