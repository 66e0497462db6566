/** Field values as text: lower-case hex, decimal numbers, and the dash for nothing. */
module Text {
  import opened Arith
  import opened Wrappers

  const MAXHEX := 4098

  // ---- hex

  function Digit(v: int): char
    requires 0 <= v < 16
  {
    if v < 10 then '0' + v as char else 'a' + (v - 10) as char
  }

  /** unhex: the digit's number, or -1. */
  function Unhex(c: char): int {
    if '0' <= c <= '9' then (c - '0') as int
    else if 'a' <= c <= 'f' then (c - 'a') as int + 10
    else -1
  }

  function Hex2(b: byte): string {
    [Digit(b / 16), Digit(b % 16)]
  }

  function Hex(s: seq<byte>): string {
    if s == [] then "" else Hex2(s[0]) + Hex(s[1..])
  }

  predicate AllHex(v: string) {
    forall i :: 0 <= i < |v| ==> Unhex(v[i]) >= 0
  }

  /** decode_hex: the bytes of a lower-case hex string of even length. */
  function FromHex(v: string): Option<seq<byte>> {
    if v == "" then Some([])
    else if |v| == 1 then None
    else
      var hi, lo := Unhex(v[0]), Unhex(v[1]);
      var rest := FromHex(v[2..]);
      if hi < 0 || lo < 0 || rest == None then None else Some([16 * hi + lo] + rest.value)
  }

  /** field_hex: nothing prints as a dash. */
  function FieldText(s: seq<byte>): string {
    if s == [] then "-" else Hex(s)
  }

  lemma DigitUnhex(v: int)
    requires 0 <= v < 16
    ensures Unhex(Digit(v)) == v
  {
  }

  lemma {:induction false} HexShape(s: seq<byte>)
    ensures |Hex(s)| == 2 * |s| && AllHex(Hex(s)) && (s != [] ==> Hex(s) != "-")
  {
    if s != [] {
      HexShape(s[1..]);
      DigitUnhex(s[0] / 16);
      DigitUnhex(s[0] % 16);
    }
  }

  lemma {:induction false} HexAppend(a: seq<byte>, b: seq<byte>)
    ensures Hex(a + b) == Hex(a) + Hex(b)
  {
    if a == [] {
      assert a + b == b;
    } else {
      assert (a + b)[1..] == a[1..] + b;
      HexAppend(a[1..], b);
    }
  }

  lemma {:induction false} FromHexHex(s: seq<byte>)
    ensures FromHex(Hex(s)) == Some(s)
  {
    if s != [] {
      FromHexHex(s[1..]);
      DigitUnhex(s[0] / 16);
      DigitUnhex(s[0] % 16);
      var v := Hex(s);
      assert v == Hex2(s[0]) + Hex(s[1..]);
      assert v[0] == Digit(s[0] / 16) && v[1] == Digit(s[0] % 16) && v[2..] == Hex(s[1..]);
      assert s == [s[0]] + s[1..];
    }
  }

  /** Exactly the texts of an even number of hex digits decode, and they are the hex of their bytes. */
  lemma {:induction false} HexFromHex(v: string)
    ensures FromHex(v).Some? <==> |v| % 2 == 0 && AllHex(v)
    ensures FromHex(v).Some? ==> Hex(FromHex(v).value) == v
  {
    hide *;
    if |v| < 2 {
      FromHexShort(v);
    } else {
      HexFromHex(v[2..]);
      AllHexStep(v);
      FromHexStep(v);
    }
  }

  lemma FromHexShort(v: string)
    requires |v| < 2
    ensures FromHex(v).Some? <==> |v| % 2 == 0 && AllHex(v)
    ensures FromHex(v).Some? ==> Hex(FromHex(v).value) == v
  {
  }

  lemma AllHexStep(v: string)
    requires |v| >= 2
    ensures AllHex(v) <==> Unhex(v[0]) >= 0 && Unhex(v[1]) >= 0 && AllHex(v[2..])
  {
    hide Unhex;
    assert forall i :: 2 <= i < |v| ==> v[i] == v[2..][i - 2];
  }

  lemma FromHexStep(v: string)
    requires |v| >= 2
    ensures FromHex(v).Some? <==> Unhex(v[0]) >= 0 && Unhex(v[1]) >= 0 && FromHex(v[2..]).Some?
    ensures FromHex(v).Some? && Hex(FromHex(v[2..]).value) == v[2..] ==> Hex(FromHex(v).value) == v
  {
    hide Unhex, Hex;
    if FromHex(v).Some? {
      var b, rest := 16 * Unhex(v[0]) + Unhex(v[1]), FromHex(v[2..]).value;
      HexPair(v[0], v[1], rest);
      assert FromHex(v).value == [b] + rest;
      assert v == [v[0], v[1]] + v[2..];
    }
  }

  lemma HexPair(c: char, d: char, rest: seq<byte>)
    requires Unhex(c) >= 0 && Unhex(d) >= 0
    ensures 0 <= 16 * Unhex(c) + Unhex(d) < 256
    ensures Hex([16 * Unhex(c) + Unhex(d)] + rest) == [c, d] + Hex(rest)
  {
    UnhexDigit(c);
    UnhexDigit(d);
    hide Unhex, Digit;
    var b := 16 * Unhex(c) + Unhex(d);
    assert ([b] + rest)[1..] == rest && b / 16 == Unhex(c) && b % 16 == Unhex(d);
  }

  lemma UnhexDigit(c: char)
    requires Unhex(c) >= 0
    ensures Unhex(c) < 16 && Digit(Unhex(c)) == c
  {
  }

  // ---- decimal

  function Dec(n: nat): (v: string)
    ensures |v| > 0
  {
    if n < 10 then [Digit(n)] else Dec(n / 10) + [Digit(n % 10)]
  }

  predicate IsDigit(c: char) {
    '0' <= c <= '9'
  }

  /** The number a run of digits spells. */
  function DigitsValue(v: string): nat {
    if v == "" || !IsDigit(v[|v| - 1]) then 0
    else 10 * DigitsValue(v[..|v| - 1]) + (v[|v| - 1] - '0') as int
  }

  predicate AllDigits(v: string) {
    forall i :: 0 <= i < |v| ==> IsDigit(v[i])
  }

  const ULONG := 0x1_0000_0000_0000_0000

  predicate IsSpace(c: char) {
    c == ' ' || '\t' <= c <= '\r'
  }

  function SkipSpace(v: string): string {
    if v != "" && IsSpace(v[0]) then SkipSpace(v[1..]) else v
  }

  /** strtoul, when it consumes all of its text. Too large a number reads as the largest one, a minus sign as the
      number's negative modulo 2^64, and an empty text as 0. */
  function Strtoul(v: string): (r: Option<nat>)
    ensures r.Some? ==> r.value < ULONG
  {
    var t := SkipSpace(v);
    if v == "" then Some(0)
    else if t != "" && AllDigits(t) then Some(Saturated(DigitsValue(t)))
    else if |t| > 1 && t[0] == '+' && AllDigits(t[1..]) then Some(Saturated(DigitsValue(t[1..])))
    else if |t| > 1 && t[0] == '-' && AllDigits(t[1..]) then
      var n := DigitsValue(t[1..]);
      Some(if n < ULONG then (ULONG - n) % ULONG else Saturated(n))
    else None
  }

  function Saturated(n: nat): (r: nat)
    ensures r < ULONG && r <= n
  {
    if n < ULONG then n else ULONG - 1
  }

  lemma {:induction false} DecReads(n: nat)
    ensures AllDigits(Dec(n)) && DigitsValue(Dec(n)) == n
  {
    if n >= 10 {
      DecReads(n / 10);
      assert Dec(n)[..|Dec(n)| - 1] == Dec(n / 10);
    } else {
      assert DigitsValue(Dec(n)[..0]) == 0;
    }
  }
}
