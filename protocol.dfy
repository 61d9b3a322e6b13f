/** The TP-Link Smart Home Protocol codec: an XOR autokey cipher with starting
    key 171, and the four-byte header that frames every message. */
module SmartHomeProtocol {

  /** One octet, as Python 2's `ord` yields it for a character of a `str`. */
  type byte = bv8

  /** Bitwise exclusive or of two octets (Python's `^` on `ord` values). */
  function Xor(a: byte, b: byte): byte
  {
    a ^ b
  }

  /** Applying the same key twice gives the byte back: what makes the cipher
      invertible. */
  lemma XorCancel(k: byte, b: byte)
    ensures Xor(k, Xor(k, b)) == b
  {
  }

  const InitialKey: byte := 171

  /** The four bytes `encrypt` writes in front of every request (always zero:
      the driver never fills in the payload length). */
  const Header: seq<byte> := [0, 0, 0, 0]

  /** Python 2's `ord` on a character of a `str`: its code, taken modulo
      256 for a character no `str` can hold. */
  function Ord(c: char): (b: byte)
    ensures b as int == c as int % 256
  {
    var n := c as int;
    (if n < 256 then n else n % 256) as byte
  }

  /** A command string as the bytes `encrypt` feeds to the cipher. */
  function Bytes(s: string): (b: seq<byte>)
    ensures |b| == |s|
    ensures forall i :: 0 <= i < |s| ==> b[i] == Ord(s[i])
  {
    if s == [] then [] else [Ord(s[0])] + Bytes(s[1..])
  }

  /** Encryption from key `key`: each output byte is the key XOR the input
      byte, and that output byte becomes the key for the next one. */
  function EncryptStream(key: byte, s: seq<byte>): (r: seq<byte>)
    ensures |r| == |s|
    decreases |s|
  {
    if s == [] then [] else
      var c := Xor(key, s[0]);
      [c] + EncryptStream(c, s[1..])
  }

  /** Decryption from key `key`: each output byte is the key XOR the input
      byte, and the INPUT (ciphertext) byte becomes the key for the next one. */
  function DecryptStream(key: byte, s: seq<byte>): (r: seq<byte>)
    ensures |r| == |s|
    decreases |s|
  {
    if s == [] then [] else [Xor(key, s[0])] + DecryptStream(s[0], s[1..])
  }

  /** The key the encryption loop holds after consuming `s`: the last
      ciphertext byte it produced. */
  function EncryptKeyAfter(key: byte, s: seq<byte>): byte
  {
    if s == [] then key else EncryptStream(key, s)[|s| - 1]
  }

  /** The key the decryption loop holds after consuming `s`: the last
      ciphertext byte it read. */
  function DecryptKeyAfter(key: byte, s: seq<byte>): byte
  {
    if s == [] then key else s[|s| - 1]
  }

  /** What `encrypt` returns: the header, then the ciphertext. */
  function Frame(payload: seq<byte>): (r: seq<byte>)
    ensures |r| == |Header| + |payload|
    ensures r[..|Header|] == Header
  {
    Header + EncryptStream(InitialKey, payload)
  }

  /** Python's `data[4:]`: everything after the header, or nothing when the
      message is shorter than a header. */
  function StripHeader(data: seq<byte>): (r: seq<byte>)
    ensures |data| >= |Header| ==> data == data[..|Header|] + r
    ensures |data| < |Header| ==> r == []
  {
    if |data| < |Header| then [] else data[|Header|..]
  }

  /** What the receiving side of `socketCmd` makes of a framed message. */
  function Unframe(data: seq<byte>): (r: seq<byte>)
    ensures |r| == if |data| < |Header| then 0 else |data| - |Header|
  {
    DecryptStream(InitialKey, StripHeader(data))
  }

  /** Byte `i` of the ciphertext is the previous ciphertext byte (the key,
      for the first byte) XOR plaintext byte `i`. */
  lemma {:induction false} EncryptAt(key: byte, s: seq<byte>, i: nat)
    requires i < |s|
    ensures EncryptStream(key, s)[i] ==
            Xor(if i == 0 then key else EncryptStream(key, s)[i - 1], s[i])
    decreases i
  {
    if i > 0 {
      EncryptAt(Xor(key, s[0]), s[1..], i - 1);
    }
  }

  /** Byte `i` of the plaintext is the previous ciphertext byte (the key,
      for the first byte) XOR ciphertext byte `i`. */
  lemma {:induction false} DecryptAt(key: byte, s: seq<byte>, i: nat)
    requires i < |s|
    ensures DecryptStream(key, s)[i] == Xor(if i == 0 then key else s[i - 1], s[i])
    decreases i
  {
    if i > 0 {
      DecryptAt(s[0], s[1..], i - 1);
    }
  }

  /** Conversely, the only byte string in which each byte is the previous
      byte (the key, for the first) XOR the plaintext byte is the
      ciphertext: the per-byte rule determines the encryption. */
  lemma {:induction false} EncryptStreamUnique(key: byte, s: seq<byte>, c: seq<byte>)
    requires |c| == |s|
    requires |s| > 0 ==> c[0] == Xor(key, s[0])
    requires forall i :: 0 < i < |s| ==> c[i] == Xor(c[i - 1], s[i])
    ensures c == EncryptStream(key, s)
    decreases |s|
  {
    if s != [] {
      forall i | 0 < i < |s| - 1
        ensures c[1..][i] == Xor(c[1..][i - 1], s[1..][i])
      {
        assert c[i + 1] == Xor(c[i], s[i + 1]);
      }
      if |s| > 1 {
        assert c[1] == Xor(c[0], s[1]);
      }
      EncryptStreamUnique(c[0], s[1..], c[1..]);
      assert c == [c[0]] + c[1..];
    }
  }

  /** The layout of an outgoing message: four zero bytes, then byte `4 + i`
      is the byte before it (171 for the first one) XOR payload byte `i`. */
  lemma FrameAt(payload: seq<byte>, i: nat)
    requires i < |payload|
    ensures Frame(payload)[|Header| + i] ==
            Xor(if i == 0 then InitialKey else Frame(payload)[|Header| + i - 1], payload[i])
  {
    EncryptAt(InitialKey, payload, i);
  }

  /** Decryption undoes encryption from the same key. */
  lemma {:induction false} DecryptEncrypt(key: byte, s: seq<byte>)
    ensures DecryptStream(key, EncryptStream(key, s)) == s
    decreases |s|
  {
    if s != [] {
      var c := Xor(key, s[0]);
      DecryptEncrypt(c, s[1..]);
      XorCancel(key, s[0]);
      assert EncryptStream(key, s) == [c] + EncryptStream(c, s[1..]);
    }
  }

  /** Encryption undoes decryption from the same key, so the cipher is a
      bijection on byte strings of each length. */
  lemma {:induction false} EncryptDecrypt(key: byte, c: seq<byte>)
    ensures EncryptStream(key, DecryptStream(key, c)) == c
    decreases |c|
  {
    if c != [] {
      EncryptDecrypt(c[0], c[1..]);
      XorCancel(key, c[0]);
      assert DecryptStream(key, c) == [Xor(key, c[0])] + DecryptStream(c[0], c[1..]);
    }
  }

  /** A framed request decodes back to the command that was framed:
      `decrypt(encrypt(s)[4:]) == s`. */
  lemma FrameRoundTrip(payload: seq<byte>)
    ensures Unframe(Frame(payload)) == payload
  {
    assert StripHeader(Frame(payload)) == EncryptStream(InitialKey, payload);
    DecryptEncrypt(InitialKey, payload);
  }

  /** The running key after a non-empty input is the running key after its
      tail, started from the first ciphertext byte. */
  lemma EncryptKeyAfterCons(key: byte, s: seq<byte>)
    requires s != []
    ensures EncryptKeyAfter(key, s) == EncryptKeyAfter(Xor(key, s[0]), s[1..])
  {
  }

  /** Encrypting one more byte appends that byte XOR the running key. */
  lemma {:induction false} EncryptSnoc(key: byte, s: seq<byte>, b: byte)
    ensures EncryptStream(key, s + [b]) == EncryptStream(key, s) + [Xor(EncryptKeyAfter(key, s), b)]
    decreases |s|
  {
    if s == [] {
      assert s + [b] == [b];
    } else {
      var c := Xor(key, s[0]);
      var t := s + [b];
      assert t != [] && t[0] == s[0] && t[1..] == s[1..] + [b];
      var tail := EncryptStream(c, s[1..]);
      EncryptSnoc(c, s[1..], b);
      var k := EncryptKeyAfter(c, s[1..]);
      EncryptKeyAfterCons(key, s);
      calc {
        EncryptStream(key, t);
        [c] + EncryptStream(c, s[1..] + [b]);
        [c] + (tail + [Xor(k, b)]);
        ([c] + tail) + [Xor(k, b)];
        EncryptStream(key, s) + [Xor(k, b)];
      }
    }
  }

  /** Decrypting one more byte appends that byte XOR the running key. */
  lemma {:induction false} DecryptSnoc(key: byte, s: seq<byte>, b: byte)
    ensures DecryptStream(key, s + [b]) == DecryptStream(key, s) + [Xor(DecryptKeyAfter(key, s), b)]
    decreases |s|
  {
    if s == [] {
      assert s + [b] == [b];
    } else {
      var t := s + [b];
      assert t != [] && t[0] == s[0] && t[1..] == s[1..] + [b];
      var tail := DecryptStream(s[0], s[1..]);
      DecryptSnoc(s[0], s[1..], b);
      var k := DecryptKeyAfter(s[0], s[1..]);
      assert DecryptKeyAfter(key, s) == k;
      calc {
        DecryptStream(key, t);
        [Xor(key, s[0])] + DecryptStream(s[0], s[1..] + [b]);
        [Xor(key, s[0])] + (tail + [Xor(k, b)]);
        ([Xor(key, s[0])] + tail) + [Xor(k, b)];
        DecryptStream(key, s) + [Xor(k, b)];
      }
    }
  }

  /** `encrypt`: the running-key loop prefixed by the header. */
  method Encrypt(s: seq<byte>) returns (result: seq<byte>)
    ensures result == Frame(s)
  {
    var key := InitialKey;
    result := Header;
    for i := 0 to |s|
      invariant result == Header + EncryptStream(InitialKey, s[..i])
      invariant key == EncryptKeyAfter(InitialKey, s[..i])
    {
      var a := Xor(key, s[i]);
      key := a;
      EncryptSnoc(InitialKey, s[..i], s[i]);
      assert s[..i + 1] == s[..i] + [s[i]];
      result := result + [a];
    }
    assert s[..|s|] == s;
  }

  /** `decrypt`: the running-key loop, the key following the ciphertext. */
  method Decrypt(s: seq<byte>) returns (result: seq<byte>)
    ensures result == DecryptStream(InitialKey, s)
  {
    var key := InitialKey;
    result := [];
    for i := 0 to |s|
      invariant result == DecryptStream(InitialKey, s[..i])
      invariant key == DecryptKeyAfter(InitialKey, s[..i])
    {
      var a := Xor(key, s[i]);
      key := s[i];
      DecryptSnoc(InitialKey, s[..i], s[i]);
      assert s[..i + 1] == s[..i] + [s[i]];
      result := result + [a];
    }
    assert s[..|s|] == s;
  }

  /** The codec half of `socketCmd`: strip the header of what was received,
      then decrypt the rest. */
  method ReceivePayload(data: seq<byte>) returns (plain: seq<byte>)
    ensures plain == Unframe(data)
  {
    var body := if |data| < |Header| then [] else data[|Header|..];
    plain := Decrypt(body);
  }
}
