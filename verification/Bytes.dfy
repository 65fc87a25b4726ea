/** Bytes, the two byte orders of a 32-bit word, and the usual option type. */
module Bytes {

  datatype Option<+T> = None | Some(value: T)

  type byte = x: int | 0 <= x < 256

  const WORD := 0x1_0000_0000

  type u32 = x: int | 0 <= x < 0x1_0000_0000

  /** A size stored in a `uint32_t`. */
  function Truncate(n: nat): u32 { n % WORD }

  /** The word with these bytes, least significant first. */
  function Word(a: int, b: int, c: int, d: int): (n: u32)
    requires 0 <= a < 256 && 0 <= b < 256 && 0 <= c < 256 && 0 <= d < 256
  {
    a + 0x100 * b + 0x1_0000 * c + 0x100_0000 * d
  }

  /** The bytes `memcpy` copies from a `uint32_t` on a little-endian host. */
  function LE32(n: u32): (s: seq<byte>)
    ensures |s| == 4
  {
    [n % 256, n / 0x100 % 256, n / 0x1_0000 % 256, n / 0x100_0000]
  }

  function FromLE32(s: seq<byte>): u32
    requires |s| == 4
  {
    Word(s[0], s[1], s[2], s[3])
  }

  /** Network byte order. */
  function BE32(n: u32): (s: seq<byte>)
    ensures |s| == 4
  {
    [n / 0x100_0000, n / 0x1_0000 % 256, n / 0x100 % 256, n % 256]
  }

  function FromBE32(s: seq<byte>): u32
    requires |s| == 4
  {
    Word(s[3], s[2], s[1], s[0])
  }

  lemma WordBytes(n: u32)
    ensures FromLE32(LE32(n)) == n && FromBE32(BE32(n)) == n
  {
    assert n / 0x1_0000 == n / 0x100 / 256;
    assert n / 0x100_0000 == n / 0x1_0000 / 256;
  }

  lemma WordDigits(a: int, b: int, c: int, d: int)
    requires 0 <= a < 256 && 0 <= b < 256 && 0 <= c < 256 && 0 <= d < 256
    ensures var n := Word(a, b, c, d);
            n % 256 == a && n / 0x100 % 256 == b && n / 0x1_0000 % 256 == c && n / 0x100_0000 == d
  {
    var n := Word(a, b, c, d);
    assert n / 0x100 == b + 0x100 * c + 0x1_0000 * d;
    assert n / 0x1_0000 == c + 0x100 * d;
  }

  lemma BytesWord(s: seq<byte>)
    requires |s| == 4
    ensures LE32(FromLE32(s)) == s && BE32(FromBE32(s)) == s
  {
    WordDigits(s[0], s[1], s[2], s[3]);
    WordDigits(s[3], s[2], s[1], s[0]);
  }

  /** `memcpy` into the middle of a buffer. */
  method CopyIn(out: array<byte>, pos: nat, data: seq<byte>)
    requires pos + |data| <= out.Length
    modifies out
    ensures out[..] == old(out[..pos]) + data + old(out[pos + |data|..])
  {
    for i := 0 to |data|
      invariant out[..] == old(out[..pos]) + data[..i] + old(out[pos + i..])
    {
      out[pos + i] := data[i];
    }
    assert data[..|data|] == data;
  }
}
