/** Tokens: an initialisation vector, a ciphertext and a code over both. */
module Token {
  import opened Wrappers
  import Aes

  const IVLEN := 16
  const MACLEN := 32
  const OVERHEAD := 48

  type Mac = s: seq<bv8> | |s| == 32 witness seq(32, _ => 0)

  /** The key splits in half: the first signs, the second enciphers, and its length selects the cipher. An odd byte
      at the end belongs to neither. */
  function SigningKey(key: seq<bv8>): seq<bv8> {
    key[..|key| / 2]
  }

  function CipherKey(key: seq<bv8>): seq<bv8> {
    key[|key| / 2..|key| / 2 * 2]
  }

  /** What the sender of a token puts together: iv, ciphertext, code. */
  function Seal(hmac: (seq<bv8>, seq<bv8>) -> Mac, key: seq<bv8>, iv: Aes.State, m: seq<bv8>): seq<bv8>
    requires |key| == 32 || |key| == 64
  {
    var ks := Aes.RoundKeys(CipherKey(key), |key| / 8);
    var c := Aes.CbcEncrypt(ks, iv, Aes.Pad(m));
    iv + c + hmac(SigningKey(key), iv + c)
  }

  /** Whether the code matched, and the plaintext when the token opened. */
  datatype Opened = Opened(mac_ok: bool, plain: Option<seq<bv8>>)

  /** token_open with a key. */
  method Open(hmac: (seq<bv8>, seq<bv8>) -> Mac, key: seq<bv8>, p: seq<bv8>) returns (r: Opened)
    requires |p| >= OVERHEAD
    ensures r == OpenSpec(hmac, key, p)
  {
    var half := |key| / 2;
    var iv, c, mac := p[..IVLEN], p[IVLEN..|p| - MACLEN], p[|p| - MACLEN..];
    var mac_ok := mac == hmac(key[..half], iv + c);
    if !mac_ok || |c| == 0 || |c| % 16 != 0 {
      return Opened(mac_ok, None);
    }
    var out := new bv8[|c|];
    var ok := Aes.CbcDecryptInto(key[half..half * 2], iv, c, out);
    if !ok {
      return Opened(true, None);
    }
    var length := Aes.Unpad(out[..]);
    assert out[..] == out[..|c|];
    return Opened(true, if length == None then None else Some(out[..length.value]));
  }

  function OpenSpec(hmac: (seq<bv8>, seq<bv8>) -> Mac, key: seq<bv8>, p: seq<bv8>): Opened
    requires |p| >= OVERHEAD
  {
    var iv, c, mac := p[..IVLEN], p[IVLEN..|p| - MACLEN], p[|p| - MACLEN..];
    var mac_ok := mac == hmac(SigningKey(key), iv + c);
    var k := CipherKey(key);
    if !mac_ok || |c| == 0 || |c| % 16 != 0 || (|k| != 16 && |k| != 32) then Opened(mac_ok, None)
    else
      var plain := Aes.CbcDecrypt(Aes.RoundKeys(k, |k| / 4), iv, c);
      match Aes.Unpad(plain)
      case None => Opened(true, None)
      case Some(n) => Opened(true, Some(plain[..n]))
  }

  /** Opening a sealed token gives the plaintext back: for both key lengths, every vector, every plaintext. */
  lemma OpenSeal(hmac: (seq<bv8>, seq<bv8>) -> Mac, key: seq<bv8>, iv: Aes.State, m: seq<bv8>)
    requires |key| == 32 || |key| == 64
    ensures |Seal(hmac, key, iv, m)| >= OVERHEAD
    ensures OpenSpec(hmac, key, Seal(hmac, key, iv, m)) == Opened(true, Some(m))
  {
    hide Aes.RoundKeys, Aes.CbcEncrypt, Aes.CbcDecrypt, Aes.Pad, Aes.Unpad;
    var k := CipherKey(key);
    Aes.PlaintextBack(k, iv, m);
    var c := Aes.CbcEncrypt(Aes.RoundKeys(k, |k| / 4), iv, Aes.Pad(m));
    var p := Seal(hmac, key, iv, m);
    assert p[..IVLEN] == iv && p[IVLEN..|p| - MACLEN] == c && p[|p| - MACLEN..] == hmac(SigningKey(key), iv + c);
  }

  /** A token opens under nothing but a matching code, and under no key whose halves are not 16 or 32 bytes. */
  lemma OpenNeedsMac(hmac: (seq<bv8>, seq<bv8>) -> Mac, key: seq<bv8>, p: seq<bv8>)
    requires |p| >= OVERHEAD && OpenSpec(hmac, key, p).plain.Some?
    ensures p[|p| - MACLEN..] == hmac(SigningKey(key), p[..|p| - MACLEN])
    ensures |key| / 2 == 16 || |key| / 2 == 32
  {
    hide Aes.RoundKeys, Aes.CbcDecrypt, Aes.Unpad;
    assert p[..|p| - MACLEN] == p[..IVLEN] + p[IVLEN..|p| - MACLEN];
  }
}
