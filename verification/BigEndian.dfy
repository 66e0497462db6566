/** Numbers as big-endian bytes. */
module BigEndian {
  import opened Arith

  function BeVal(s: seq<byte>): nat {
    if s == [] then 0 else 256 * BeVal(s[..|s| - 1]) + s[|s| - 1]
  }

  function BeBytes(v: nat, n: nat): (s: seq<byte>)
    ensures |s| == n
    decreases n
  {
    if n == 0 then [] else BeBytes(v / 256, n - 1) + [v % 256]
  }

  lemma {:induction false} BeRange(s: seq<byte>)
    ensures BeVal(s) < Pow(256, |s|)
  {
    if s != [] {
      BeRange(s[..|s| - 1]);
    }
  }

  lemma {:induction false} BeValBytes(v: nat, n: nat)
    requires v < Pow(256, n)
    ensures BeVal(BeBytes(v, n)) == v
  {
    if n > 0 {
      BeValBytes(v / 256, n - 1);
      var s := BeBytes(v, n);
      assert s[..n - 1] == BeBytes(v / 256, n - 1);
    }
  }

  lemma {:induction false} BeBytesVal(s: seq<byte>)
    ensures BeBytes(BeVal(s), |s|) == s
  {
    if s != [] {
      BeBytesVal(s[..|s| - 1]);
      assert s == s[..|s| - 1] + [s[|s| - 1]];
    }
  }
}
