/** The swap ladder over any commutative group law. */
module Groups {
  import opened Arith
  import opened X25519

  ghost predicate Commutative<G(!new)>(op: (G, G) -> G, zero: G) {
    (forall a, b, c {:trigger op(op(a, b), c)} :: op(op(a, b), c) == op(a, op(b, c)))
    && (forall a, b {:trigger op(a, b)} :: op(a, b) == op(b, a))
    && forall a {:trigger op(zero, a)} :: op(zero, a) == a
  }

  /** g added to itself n times. */
  function Times<G>(op: (G, G) -> G, zero: G, g: G, n: nat): G {
    if n == 0 then zero else op(g, Times(op, zero, g, n - 1))
  }

  /** The ladder's pair (p, q) after bits 255 down to i of n. */
  function Run<G>(op: (G, G) -> G, zero: G, base: G, n: int, i: nat): (G, G)
    requires i <= 256
    decreases 256 - i
  {
    if i == 256 then (zero, base)
    else
      var (p, q) := Run(op, zero, base, n, i + 1);
      if Bit(n, i) == 1 then (op(p, q), op(q, q)) else (op(p, p), op(q, p))
  }

  lemma {:induction false} TimesAdd<G(!new)>(op: (G, G) -> G, zero: G, g: G, m: nat, n: nat)
    requires Commutative(op, zero)
    ensures op(Times(op, zero, g, m), Times(op, zero, g, n)) == Times(op, zero, g, m + n)
  {
    if m > 0 {
      TimesAdd(op, zero, g, m - 1, n);
      var rest := Times(op, zero, g, m - 1);
      assert op(op(g, rest), Times(op, zero, g, n)) == op(g, op(rest, Times(op, zero, g, n)));
    }
  }

  lemma ShiftBit(n: int, i: nat)
    requires 0 <= n
    ensures 0 < Pow(2, i) && 0 < Pow(2, i + 1)
    ensures n / Pow(2, i) == 2 * (n / Pow(2, i + 1)) + Bit(n, i)
    ensures 0 <= n / Pow(2, i)
  {
    PowPositive(2, i);
    HalfQuotient(n, Pow(2, i));
  }

  lemma HalfQuotient(n: int, w: int)
    requires 0 <= n && 0 < w
    ensures n / w == 2 * (n / (2 * w)) + (n / w) % 2 && 0 <= n / w
  {
    var q, r := n / w, n % w;
    assert n == q * w + r;
    assert (2 * (q / 2) + q % 2) * w == (q / 2) * (2 * w) + (q % 2) * w;
    ModUnique(n, q / 2, (q % 2) * w + r, 2 * w);
    if q < 0 {
      MulOrder(q, -1, -1, w);
    }
  }

  /** At every step p is the multiple read so far and q is p + base. */
  lemma {:induction false} RunMultiplies<G(!new)>(op: (G, G) -> G, zero: G, base: G, n: int, i: nat)
    requires Commutative(op, zero) && i <= 256 && 0 <= n < Pow(2, 256)
    ensures 0 < Pow(2, i) && 0 <= n / Pow(2, i)
    ensures Run(op, zero, base, n, i).0 == Times(op, zero, base, n / Pow(2, i))
    ensures Run(op, zero, base, n, i).1 == op(Run(op, zero, base, n, i).0, base)
    decreases 256 - i
  {
    ShiftBit(n, i);
    if i == 256 {
      ModUnique(n, 0, n, Pow(2, 256));
    } else {
      RunMultiplies(op, zero, base, n, i + 1);
      var (p, q) := Run(op, zero, base, n, i + 1);
      var r := Run(op, zero, base, n, i);
      assert r == if Bit(n, i) == 1 then (op(p, q), op(q, q)) else (op(p, p), op(q, p));
      RunStep(op, zero, base, n / Pow(2, i + 1), p, q, Bit(n, i));
    }
  }

  /** Reading one more bit doubles the multiple and adds the bit. */
  lemma RunStep<G(!new)>(op: (G, G) -> G, zero: G, base: G, k: nat, p: G, q: G, bit: int)
    requires Commutative(op, zero) && 0 <= bit <= 1
    requires p == Times(op, zero, base, k) && q == op(p, base)
    ensures var r := if bit == 1 then (op(p, q), op(q, q)) else (op(p, p), op(q, p));
            r.0 == Times(op, zero, base, 2 * k + bit) && r.1 == op(r.0, base)
  {
    assert Times(op, zero, base, 2 * k + 1) == op(base, Times(op, zero, base, 2 * k));
    TimesAdd(op, zero, base, k, k);
    hide *;
    PairStep(op, zero, p, base);
  }

  /** Adding and doubling the pair (p, p + base). */
  lemma PairStep<G(!new)>(op: (G, G) -> G, zero: G, p: G, base: G)
    requires Commutative(op, zero)
    ensures op(op(p, base), p) == op(op(p, p), base)
    ensures op(p, op(p, base)) == op(base, op(p, p))
    ensures op(op(p, base), op(p, base)) == op(op(base, op(p, p)), base)
  {
    var q, d := op(p, base), op(p, p);
    assert q == op(base, p) && op(base, d) == op(d, base);
    assert op(p, q) == op(d, base);
    assert op(q, p) == op(p, q);
    calc {
      op(q, q);
      op(p, op(base, q));
      { assert op(base, q) == op(q, base); }
      op(p, op(q, base));
      op(op(p, q), base);
    }
  }
}
