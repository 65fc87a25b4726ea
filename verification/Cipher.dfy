/** The two-key shift cipher of rpc_src/encrypt/aes_encrypt.cpp around the Base64 codec. */
module Cipher {
  import opened Bytes
  import Base64

  const KEY_LENGTH: nat := 32

  const MASTER_KEY_TEXT := "MyRPC_Secret_Key_2026_Production!@#$%^&*"

  function ToBytes(s: string): (r: seq<byte>)
    ensures |r| == |s|
  {
    seq(|s|, i requires 0 <= i < |s| => s[i] as int % 256)
  }

  function MasterKey(): (k: seq<byte>)
    ensures k != []
  {
    ToBytes(MASTER_KEY_TEXT)
  }

  /** The C++ remainder: it has the sign of the dividend. */
  function Rem(a: int, b: int): int
    requires b > 0
  {
    if a >= 0 then a % b else -(-a % b)
  }

  /** What is left of an `int` stored in a `char`. */
  function ToChar(v: int): byte { v % 256 }

  function Shifted(c: byte, k: byte, i: nat): byte { ToChar(Rem(c + k + i % 256, 256)) }

  function Unshifted(c: byte, k: byte, i: nat): byte { ToChar(Rem(c - k - i % 256 + 512, 256)) }

  function Encipher(input: seq<byte>, key: seq<byte>): (r: seq<byte>)
    requires key != []
    ensures |r| == |input|
  {
    seq(|input|, i requires 0 <= i < |input| => Shifted(input[i], key[i % |key|], i))
  }

  function Decipher(input: seq<byte>, key: seq<byte>): (r: seq<byte>)
    requires key != []
    ensures |r| == |input|
  {
    seq(|input|, i requires 0 <= i < |input| => Unshifted(input[i], key[i % |key|], i))
  }

  /** Every byte of `out` is that of `input` plus that of the key, used over and over, plus its position. */
  predicate ShiftedBy(out: seq<byte>, input: seq<byte>, key: seq<byte>)
    requires key != []
  {
    && |out| == |input|
    && forall i :: 0 <= i < |input| ==> (out[i] as int - input[i] as int - key[i % |key|] as int - i) % 256 == 0
  }

  lemma Reduced(v: int, w: int, q: int)
    requires v == w + 256 * q
    ensures (v % 256 - w) % 256 == 0 && (w - v % 256) % 256 == 0
  {
    assert v % 256 - w == 256 * (q - v / 256);
    assert w - v % 256 == 256 * (v / 256 - q);
  }

  lemma ShiftedValue(c: byte, k: byte, s: int)
    requires 0 <= s < 256
    ensures ToChar(Rem(c as int + k as int + s, 256)) == (c as int + k as int + s) % 256
    ensures ToChar(Rem(c as int - k as int - s + 512, 256)) == (c as int - k as int - s + 512) % 256
  {
  }

  lemma ShiftMod(c: byte, k: byte, i: nat)
    ensures (Shifted(c, k, i) as int - c as int - k as int - i) % 256 == 0
    ensures (c as int - Unshifted(c, k, i) as int - k as int - i) % 256 == 0
  {
    var q, s := i / 256, i % 256;
    ShiftedValue(c, k, s);
    hide ToChar, Rem;
    assert i == 256 * q + s;
    var w: int := c as int + k as int + i;
    var v: int := c as int - k as int - i;
    Reduced(c as int + k as int + s, w, -q);
    Reduced(c as int - k as int - s + 512, v, 2 + q);
    assert Shifted(c, k, i) as int - c as int - k as int - i == Shifted(c, k, i) as int - w;
    assert c as int - Unshifted(c, k, i) as int - k as int - i == v - Unshifted(c, k, i) as int;
  }

  lemma EncipherShifts(input: seq<byte>, key: seq<byte>)
    requires key != []
    ensures ShiftedBy(Encipher(input, key), input, key) && ShiftedBy(input, Decipher(input, key), key)
  {
    hide Shifted, Unshifted;
    forall i | 0 <= i < |input|
      ensures (Encipher(input, key)[i] as int - input[i] as int - key[i % |key|] as int - i) % 256 == 0
      ensures (input[i] as int - Decipher(input, key)[i] as int - key[i % |key|] as int - i) % 256 == 0
    {
      ShiftMod(input[i], key[i % |key|], i);
    }
  }

  method ShiftEncrypt(input: seq<byte>, key: seq<byte>) returns (result: seq<byte>)
    requires key != []
    ensures result == Encipher(input, key)
    ensures ShiftedBy(result, input, key)
  {
    hide ShiftedBy;
    EncipherShifts(input, key);
    result := [];
    for i := 0 to |input|
      invariant result == Encipher(input, key)[..i]
    {
      var c: int, k: int, shift := input[i], key[i % |key|], i % 256;
      result := result + [ToChar(Rem(c + k + shift, 256))];
    }
  }

  method ShiftDecrypt(input: seq<byte>, key: seq<byte>) returns (result: seq<byte>)
    requires key != []
    ensures result == Decipher(input, key)
    ensures ShiftedBy(input, result, key)
  {
    hide ShiftedBy;
    EncipherShifts(input, key);
    result := [];
    for i := 0 to |input|
      invariant result == Decipher(input, key)[..i]
    {
      var c: int, k: int, shift := input[i], key[i % |key|], i % 256;
      result := result + [ToChar(Rem(c - k - shift + 512, 256))];
    }
  }

  /** `sessionKey` is what GenerateRandomBytes drew; `None` is the refusal of empty data. */
  function Encrypted(data: seq<byte>, sessionKey: seq<byte>): Option<seq<byte>>
    requires |sessionKey| == KEY_LENGTH
  {
    if data == [] then None
    else Some(Base64.Encode(Encipher(sessionKey, MasterKey()) + Encipher(data, sessionKey)))
  }

  function Decrypted(text: seq<byte>): Option<seq<byte>> {
    var decoded := Base64.Decode(text);
    if |decoded| <= KEY_LENGTH then None
    else Some(Decipher(decoded[KEY_LENGTH..], Decipher(decoded[..KEY_LENGTH], MasterKey())))
  }

  /**
   The decoded text `d` is the 32 bytes of the session key, shifted by the master key, and then the data,
   shifted by the session key.
   */
  predicate Wraps(d: seq<byte>, data: seq<byte>, sessionKey: seq<byte>)
    requires |sessionKey| == 32
  {
    && |d| == 32 + |data|
    && ShiftedBy(d[..32], sessionKey, ToBytes("MyRPC_Secret_Key_2026_Production!@#$%^&*"))
    && ShiftedBy(d[32..], data, sessionKey)
  }

  lemma EncryptedWraps(data: seq<byte>, sessionKey: seq<byte>)
    requires |sessionKey| == KEY_LENGTH && data != []
    ensures Wraps(Base64.Decode(Encrypted(data, sessionKey).value), data, sessionKey)
  {
    hide Base64.Encode, Base64.Decode, Encipher, ShiftedBy;
    var wrapped, body := Encipher(sessionKey, MasterKey()), Encipher(data, sessionKey);
    Base64.DecodeEncode(wrapped + body);
    EncipherShifts(sessionKey, MasterKey());
    EncipherShifts(data, sessionKey);
    assert (wrapped + body)[..32] == wrapped && (wrapped + body)[32..] == body;
  }

  lemma ShiftedOnce(out: seq<byte>, a: seq<byte>, b: seq<byte>, key: seq<byte>)
    requires key != [] && ShiftedBy(out, a, key) && ShiftedBy(out, b, key)
    ensures a == b
  {
    forall i | 0 <= i < |a| ensures a[i] == b[i] {
      var x: int := out[i] as int - a[i] as int - key[i % |key|] as int - i;
      var y: int := out[i] as int - b[i] as int - key[i % |key|] as int - i;
      assert x == x / 256 * 256 && y == y / 256 * 256;
      assert x - y == (x / 256 - y / 256) * 256 == b[i] as int - a[i] as int;
    }
  }

  /** A text wraps one session key and one piece of data only. */
  lemma WrapsOnce(d: seq<byte>, data: seq<byte>, k: seq<byte>, other: seq<byte>, l: seq<byte>)
    requires |k| == 32 && |l| == 32 && Wraps(d, data, k) && Wraps(d, other, l)
    ensures data == other && k == l
  {
    hide ShiftedBy, ToBytes;
    ShiftedOnce(d[..32], k, l, ToBytes("MyRPC_Secret_Key_2026_Production!@#$%^&*"));
    ShiftedOnce(d[32..], data, other, k);
  }

  lemma DecryptedUnwraps(text: seq<byte>)
    ensures Decrypted(text).None? <==> |Base64.Decode(text)| <= 32
    ensures Decrypted(text).Some? ==>
              exists k :: |k| == 32 && Wraps(Base64.Decode(text), Decrypted(text).value, k)
  {
    hide Base64.Decode, Decipher, ShiftedBy;
    var d := Base64.Decode(text);
    if |d| > KEY_LENGTH {
      var sessionKey := Decipher(d[..KEY_LENGTH], MasterKey());
      EncipherShifts(d[..KEY_LENGTH], MasterKey());
      EncipherShifts(d[KEY_LENGTH..], sessionKey);
      assert Wraps(d, Decrypted(text).value, sessionKey);
    }
  }

  method Encrypt(data: seq<byte>, sessionKey: seq<byte>) returns (r: Option<seq<byte>>)
    requires |sessionKey| == KEY_LENGTH
    ensures r == Encrypted(data, sessionKey)
    ensures r.None? <==> data == []
    ensures r.Some? ==> Wraps(Base64.Decode(r.value), data, sessionKey)
  {
    if data != [] { EncryptedWraps(data, sessionKey); }
    if data == [] {
      return None;
    }
    var encrypted := ShiftEncrypt(data, sessionKey);
    var encryptedKey := ShiftEncrypt(sessionKey, MasterKey());
    var text := Base64.Base64Encode(encryptedKey + encrypted);
    r := Some(text);
  }

  method Decrypt(text: seq<byte>) returns (r: Option<seq<byte>>)
    ensures r == Decrypted(text)
    ensures r.None? <==> |Base64.Decode(text)| <= 32
    ensures r.Some? ==> exists k :: |k| == 32 && Wraps(Base64.Decode(text), r.value, k)
  {
    DecryptedUnwraps(text);
    var decoded := Base64.Base64Decode(text);
    if |decoded| <= KEY_LENGTH {
      return None;
    }
    var sessionKey := ShiftDecrypt(decoded[..KEY_LENGTH], MasterKey());
    var plain := ShiftDecrypt(decoded[KEY_LENGTH..], sessionKey);
    r := Some(plain);
  }

  /** Unshifting undoes shifting; with the offset 512 the C++ remainder never sees a negative value. */
  lemma UnshiftShift(c: byte, k: byte, i: nat)
    ensures Unshifted(Shifted(c, k, i), k, i) == c
    ensures c - k - i % 256 + 512 > 0
  {
    var s := i % 256;
    var x: int := c + k + s;
    var q := x / 256;
    assert 0 <= q <= 2 && x % 256 == x - 256 * q;
    assert x % 256 - k - s + 512 == c + 256 * (2 - q);
    if q == 0 {} else if q == 1 {} else {}
  }

  lemma DecipherEncipher(input: seq<byte>, key: seq<byte>)
    requires key != []
    ensures Decipher(Encipher(input, key), key) == input
  {
    forall i | 0 <= i < |input| ensures Decipher(Encipher(input, key), key)[i] == input[i] {
      UnshiftShift(input[i], key[i % |key|], i);
    }
  }

  /** Decryption recovers every nonempty plaintext under every session key. */
  lemma DecryptEncrypt(data: seq<byte>, sessionKey: seq<byte>)
    requires |sessionKey| == KEY_LENGTH && data != []
    ensures Encrypted(data, sessionKey).Some?
    ensures Decrypted(Encrypted(data, sessionKey).value) == Some(data)
  {
    hide Base64.Encode, Base64.Decode, Encipher, Decipher;
    var wrapped, body := Encipher(sessionKey, MasterKey()), Encipher(data, sessionKey);
    Base64.DecodeEncode(wrapped + body);
    assert (wrapped + body)[..KEY_LENGTH] == wrapped && (wrapped + body)[KEY_LENGTH..] == body;
    DecipherEncipher(sessionKey, MasterKey());
    DecipherEncipher(data, sessionKey);
  }

  /** The ciphertext of `n` bytes has 4 * ceil((32 + n) / 3) characters. */
  function CipherLength(n: nat): nat { 4 * ((KEY_LENGTH + n + 2) / 3) }

  lemma EncryptedLength(data: seq<byte>, sessionKey: seq<byte>)
    requires |sessionKey| == KEY_LENGTH && data != []
    ensures |Encrypted(data, sessionKey).value| == CipherLength(|data|)
  {
    hide Base64.Encode;
    Base64.EncodeLength(Encipher(sessionKey, MasterKey()) + Encipher(data, sessionKey));
  }

  /** A text cut between two groups decrypts to what the cut leaves of the data, if it leaves any. */
  lemma DecryptCut(data: seq<byte>, sessionKey: seq<byte>, p: nat)
    requires |sessionKey| == KEY_LENGTH && data != []
    requires p % 4 == 0 && p / 4 * 3 <= KEY_LENGTH + |data|
    ensures var text := Encrypted(data, sessionKey).value; var k := p / 4 * 3;
            && p <= |text|
            && Decrypted(text[..p]) == if k <= KEY_LENGTH then None else Some(data[..k - KEY_LENGTH])
  {
    hide Base64.Encode, Base64.Decode, Encipher, Decipher;
    var wrapped, body, k := Encipher(sessionKey, MasterKey()), Encipher(data, sessionKey), p / 4 * 3;
    Base64.EncodePrefix(wrapped + body, k);
    Base64.DecodeEncode((wrapped + body)[..k]);
    if k > KEY_LENGTH {
      var decoded := (wrapped + body)[..k];
      assert decoded[..KEY_LENGTH] == wrapped && decoded[KEY_LENGTH..] == body[..k - KEY_LENGTH];
      DecipherEncipher(sessionKey, MasterKey());
      DecipherCut(data, sessionKey, k - KEY_LENGTH);
    }
  }

  lemma DecipherCut(data: seq<byte>, key: seq<byte>, k: nat)
    requires key != [] && k <= |data|
    ensures Decipher(Encipher(data, key)[..k], key) == data[..k]
  {
    assert Encipher(data, key)[..k] == Encipher(data[..k], key);
    DecipherEncipher(data[..k], key);
  }
}
