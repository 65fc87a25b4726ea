/** The Base64 codec of rpc_src/encrypt/aes_encrypt.cpp (section 4 of RFC 4648), masks and shifts written
    as the remainders and quotients they compute on unsigned bytes. */
module Base64 {
  import opened Bytes

  const PAD: byte := 61

  /** BASE64_CHARS: A-Z, a-z, 0-9, + and /. */
  function CharOf(v: int): (c: byte)
    requires 0 <= v < 64
    ensures c != PAD
  {
    if v < 26 then 65 + v else if v < 52 then 71 + v else if v < 62 then v - 4 else if v == 62 then 43 else 47
  }

  /** The decoding table: -1 for a byte outside the alphabet. */
  function ValueOf(c: byte): int {
    if 65 <= c <= 90 then c - 65 else if 97 <= c <= 122 then c - 71 else if 48 <= c <= 57 then c + 4
    else if c == 43 then 62 else if c == 47 then 63 else -1
  }

  /** What a table entry is after it is stored in an `unsigned char`. */
  function Stored(v: int): byte { v % 256 }

  predicate InAlphabet(c: byte) { 0 <= ValueOf(c) < 64 }

  function CharsOf(v: seq<int>): (c: seq<byte>)
    requires forall i :: 0 <= i < |v| ==> 0 <= v[i] < 64
    ensures |c| == |v|
  {
    seq(|v|, i requires 0 <= i < |v| => CharOf(v[i]))
  }

  /** Three bytes as four 6-bit values. */
  function Sextets(a: byte, b: byte, c: byte): (v: seq<int>)
    ensures |v| == 4 && forall i :: 0 <= i < 4 ==> 0 <= v[i] < 64
  {
    [a / 4, a % 4 * 16 + b / 16, b % 16 * 4 + c / 64, c % 64]
  }

  /** Four table entries as three bytes, computed in `unsigned char`. */
  function Octets(p: byte, q: byte, r: byte, s: byte): (o: seq<byte>)
    ensures |o| == 3
  {
    [(p * 4 + q / 16 % 4) % 256, (q % 16 * 16 + r / 4 % 16) % 256, (r % 4 * 64 + s) % 256]
  }

  function EncodeBlock(a: byte, b: byte, c: byte): (s: seq<byte>)
    ensures |s| == 4
  {
    CharsOf(Sextets(a, b, c))
  }

  function EncodeTail(x: seq<byte>): seq<byte>
    requires |x| < 3
  {
    if |x| == 0 then []
    else if |x| == 1 then EncodeBlock(x[0], 0, 0)[..2] + [PAD, PAD]
    else EncodeBlock(x[0], x[1], 0)[..3] + [PAD]
  }

  function Encode(x: seq<byte>): seq<byte> {
    if |x| < 3 then EncodeTail(x) else EncodeBlock(x[0], x[1], x[2]) + Encode(x[3..])
  }

  function DecodeBlock(c: seq<byte>): (o: seq<byte>)
    requires |c| == 4
    ensures |o| == 3
  {
    Octets(Stored(ValueOf(c[0])), Stored(ValueOf(c[1])), Stored(ValueOf(c[2])), Stored(ValueOf(c[3])))
  }

  function Fill(n: nat, f: byte): (r: seq<byte>)
    ensures |r| == n && forall i :: 0 <= i < n ==> r[i] == f
  {
    seq(n, _ => f)
  }

  /** The slots of an incomplete group hold `fill`; `n - 1` bytes come out of `n` characters. */
  function DecodeTail(c: seq<byte>, fill: byte): seq<byte>
    requires |c| < 4
  {
    if |c| == 0 then []
    else DecodeBlock(c + Fill(4 - |c|, fill))[..|c| - 1]
  }

  function DecodeChars(c: seq<byte>): seq<byte> {
    if |c| < 4 then DecodeTail(c, 0) else DecodeBlock(c[..4]) + DecodeChars(c[4..])
  }

  /** Decoding stops at the first padding character. */
  function BeforePad(s: seq<byte>): (p: seq<byte>)
    ensures p <= s && PAD !in p
    ensures |p| < |s| ==> s[|p|] == PAD
  {
    if s == [] || s[0] == PAD then [] else [s[0]] + BeforePad(s[1..])
  }

  function Decode(s: seq<byte>): seq<byte> { DecodeChars(BeforePad(s)) }

  // ----- the loops of the source compute these functions -----

  lemma {:induction false} EncodeAppend(x: seq<byte>, y: seq<byte>)
    requires |x| % 3 == 0
    ensures Encode(x + y) == Encode(x) + Encode(y)
  {
    hide EncodeBlock;
    if x == [] {
      assert x + y == y;
    } else {
      EncodeAppend(x[3..], y);
      assert (x + y)[3..] == x[3..] + y;
    }
  }

  lemma {:induction false} DecodeCharsAppend(x: seq<byte>, y: seq<byte>)
    requires |x| % 4 == 0
    ensures DecodeChars(x + y) == DecodeChars(x) + DecodeChars(y)
  {
    hide DecodeBlock;
    if x == [] {
      assert x + y == y;
    } else {
      DecodeCharsAppend(x[4..], y);
      assert (x + y)[..4] == x[..4] && (x + y)[4..] == x[4..] + y;
    }
  }

  /** Turns the three collected bytes into 6-bit values and appends the first `n` characters. */
  method EmitChars(ret: seq<byte>, three: array<byte>, four: array<byte>, n: nat) returns (r: seq<byte>)
    requires three.Length == 3 && four.Length == 4 && three != four && n <= 4
    modifies four
    ensures r == ret + EncodeBlock(three[0], three[1], three[2])[..n]
  {
    four[0] := three[0] / 4;
    four[1] := three[0] % 4 * 16 + three[1] / 16;
    four[2] := three[1] % 16 * 4 + three[2] / 64;
    four[3] := three[2] % 64;
    assert four[..] == Sextets(three[0], three[1], three[2]);
    r := ret;
    var i := 0;
    while i < n
      invariant 0 <= i <= n
      invariant r == ret + CharsOf(Sextets(three[0], three[1], three[2]))[..i]
      invariant four[..] == Sextets(three[0], three[1], three[2])
    {
      r := r + [CharOf(four[i])];
      i := i + 1;
    }
  }

  /** The 0 to 2 bytes left over: zero-filled, encoded, padded. */
  method EncodeRest(ret: seq<byte>, three: array<byte>, four: array<byte>, left: nat) returns (r: seq<byte>)
    requires three.Length == 3 && four.Length == 4 && three != four && left < 3
    modifies three, four
    ensures r == ret + EncodeTail(old(three[..left]))
  {
    hide EncodeBlock;
    r := ret;
    if left != 0 {
      ghost var tail := three[..left];
      var i, j := left, left;
      while j < 3
        invariant i <= j <= 3
        invariant three[..i] == tail
        invariant forall k :: i <= k < j ==> three[k] == 0
      {
        three[j] := 0;
        j := j + 1;
      }
      assert three[0] == tail[0] && (i == 2 ==> three[1] == tail[1]);
      r := EmitChars(r, three, four, i + 1);
      ghost var emitted := r;
      while i < 3
        invariant left <= i <= 3
        invariant r == emitted + seq(i - left, _ => PAD)
      {
        r := r + [PAD];
        i := i + 1;
      }
      assert seq(3 - left, _ => PAD) == if left == 1 then [PAD, PAD] else [PAD];
    }
  }

  lemma EncodeGroup(x: seq<byte>, g: seq<byte>)
    requires |x| % 3 == 0 && |g| == 3
    ensures Encode(x + g) == Encode(x) + EncodeBlock(g[0], g[1], g[2])
  {
    hide EncodeBlock;
    EncodeAppend(x, g);
    assert g[3..] == [];
  }

  method Base64Encode(input: seq<byte>) returns (ret: seq<byte>)
    ensures ret == Encode(input)
    ensures Encodes(input, ret)
  {
    EncodeEncodes(input);
    hide Encodes;
    hide EncodeBlock, Encode, EncodeTail;
    ret := [];
    var i, p := 0, 0;
    var three := new byte[3];
    var four := new byte[4];
    ghost var done: seq<byte> := [];
    EncodeNothing();
    while p < |input|
      invariant 0 <= i < 3 && i <= p <= |input|
      invariant |done| % 3 == 0 && input[..p] == done + three[..i]
      invariant ret == Encode(done)
    {
      three[i] := input[p];
      i, p := i + 1, p + 1;
      assert input[..p] == done + three[..i];
      if i == 3 {
        ret := EmitChars(ret, three, four, 4);
        EncodeGroup(done, three[..3]);
        done := done + three[..3];
        i := 0;
      }
    }
    assert input == done + three[..i];
    EncodeAppend(done, three[..i]);
    EncodeShort(three[..i]);
    ret := EncodeRest(ret, three, four, i);
  }

  lemma EncodeNothing()
    ensures Encode([]) == []
  {
  }

  lemma EncodeShort(x: seq<byte>)
    requires |x| < 3
    ensures Encode(x) == EncodeTail(x)
  {
  }

  /** `base64_map`, filled by a loop over the alphabet. */
  method BuildTable() returns (table: array<int>)
    ensures fresh(table) && table.Length == 256
    ensures forall c: byte :: table[c] == ValueOf(c)
    ensures forall c: byte, v :: Spells(c, v) <==> 0 <= v == table[c]
  {
    hide Spells;
    forall c: byte, v ensures Spells(c, v) <==> 0 <= v == ValueOf(c) { SpellsExactly(c, v); }
    table := new int[256](_ => -1);
    for i := 0 to 64
      invariant forall c: byte :: table[c] == if ValueOf(c) < i then ValueOf(c) else -1
    {
      assert ValueOf(CharOf(i)) == i;
      table[CharOf(i)] := i;
      assert forall c: byte :: ValueOf(c) == i ==> c == CharOf(i);
    }
  }

  method MapFour(table: array<int>, four: array<byte>)
    requires table.Length == 256 && (forall c: byte :: table[c] == ValueOf(c)) && four.Length == 4
    modifies four
    ensures forall k :: 0 <= k < 4 ==> four[k] == Stored(ValueOf(old(four[k])))
  {
    var i := 0;
    while i < 4
      invariant 0 <= i <= 4
      invariant forall k :: 0 <= k < i ==> four[k] == Stored(ValueOf(old(four[k])))
      invariant forall k :: i <= k < 4 ==> four[k] == old(four[k])
    {
      four[i] := table[four[i]] % 256;
      i := i + 1;
    }
  }

  /** Turns the four collected characters into bytes and appends the first `n` of them. */
  method EmitBytes(ret: seq<byte>, table: array<int>, four: array<byte>, n: nat) returns (r: seq<byte>)
    requires table.Length == 256 && (forall c: byte :: table[c] == ValueOf(c)) && four.Length == 4 && n <= 3
    modifies four
    ensures r == ret + DecodeBlock(old(four[..]))[..n]
  {
    MapFour(table, four);
    var three := Octets(four[0], four[1], four[2], four[3]);
    r := ret;
    var j := 0;
    while j < n
      invariant 0 <= j <= n
      invariant r == ret + three[..j]
    {
      r := r + [three[j]];
      j := j + 1;
    }
  }

  /** The 0 to 3 characters left over: zero-filled, mapped, and all but the last byte kept. */
  method DecodeRest(ret: seq<byte>, table: array<int>, four: array<byte>, left: nat) returns (r: seq<byte>)
    requires table.Length == 256 && (forall c: byte :: table[c] == ValueOf(c)) && four.Length == 4 && left < 4
    modifies four
    ensures r == ret + DecodeTail(old(four[..left]), 0)
  {
    hide DecodeBlock;
    r := ret;
    if left != 0 {
      ghost var tail := four[..left];
      var j := left;
      while j < 4
        invariant left <= j <= 4
        invariant four[..left] == tail
        invariant forall k :: left <= k < j ==> four[k] == 0
      {
        four[j] := 0;
        j := j + 1;
      }
      assert four[..] == tail + Fill(4 - left, 0);
      r := EmitBytes(r, table, four, left - 1);
    }
  }

  lemma DecodeGroup(x: seq<byte>, g: seq<byte>)
    requires |x| % 4 == 0 && |g| == 4
    ensures DecodeChars(x + g) == DecodeChars(x) + DecodeBlock(g)
  {
    hide DecodeBlock;
    DecodeCharsAppend(x, g);
    assert g[..4] == g && g[4..] == [];
  }

  method Base64Decode(input: seq<byte>) returns (ret: seq<byte>)
    ensures ret == Decode(input)
    ensures Decodes(input, ret)
  {
    DecodeDecodes(input);
    hide Decodes;
    hide DecodeBlock, DecodeChars, DecodeTail;
    ret := [];
    var table := BuildTable();
    var i, p := 0, 0;
    var four := new byte[4];
    ghost var chars, done := BeforePad(input), [];
    DecodeNothing();
    while p < |input| && input[p] != PAD
      invariant 0 <= i < 4 && i <= p <= |chars|
      invariant |done| % 4 == 0 && chars[..p] == done + four[..i]
      invariant forall c: byte :: table[c] == ValueOf(c)
      invariant ret == DecodeChars(done)
    {
      assert p < |chars|;
      four[i] := input[p];
      i, p := i + 1, p + 1;
      assert chars[..p] == done + four[..i];
      if i == 4 {
        assert four[..] == four[..4];
        DecodeGroup(done, four[..4]);
        done := done + four[..4];
        ret := EmitBytes(ret, table, four, 3);
        i := 0;
      }
    }
    assert p == |chars| && chars == done + four[..i];
    DecodeCharsAppend(done, four[..i]);
    DecodeShort(four[..i]);
    ret := DecodeRest(ret, table, four, i);
  }

  lemma DecodeNothing()
    ensures DecodeChars([]) == []
  {
  }

  lemma DecodeShort(c: seq<byte>)
    requires |c| < 4
    ensures DecodeChars(c) == DecodeTail(c, 0)
  {
  }

  // ----- round trips -----

  lemma CharValue(v: int)
    requires 0 <= v < 64
    ensures ValueOf(CharOf(v)) == v
  {
  }

  lemma ValueChar(c: byte)
    requires InAlphabet(c)
    ensures CharOf(ValueOf(c)) == c
  {
  }

  lemma Split(hi: int, lo: int)
    ensures 0 <= lo < 4 ==> (hi * 4 + lo) / 4 == hi && (hi * 4 + lo) % 4 == lo
    ensures 0 <= lo < 16 ==> (hi * 16 + lo) / 16 == hi && (hi * 16 + lo) % 16 == lo
    ensures 0 <= lo < 64 ==> (hi * 64 + lo) / 64 == hi && (hi * 64 + lo) % 64 == lo
  {
  }

  lemma OctetsOf(a1: int, a0: int, b1: int, b0: int, c1: int, c0: int)
    requires 0 <= a1 < 64 && 0 <= a0 < 4 && 0 <= b1 < 16 && 0 <= b0 < 16 && 0 <= c1 < 4 && 0 <= c0 < 64
    ensures var q, r := a0 * 16 + b1, b0 * 4 + c1;
            Octets(a1, q, r, c0) == [a1 * 4 + a0, b1 * 16 + b0, c1 * 64 + c0]
  {
    var q, r := a0 * 16 + b1, b0 * 4 + c1;
    Split(a0, b1);
    Split(b0, c1);
    OctetsByParts(a1, q, r, c0, a0, b1, b0, c1);
  }

  lemma OctetsByParts(p: byte, q: byte, r: byte, s: byte, q1: int, q0: int, r1: int, r0: int)
    requires p < 64 && s < 64 && 0 <= q1 < 4 && 0 <= q0 < 16 && 0 <= r1 < 16 && 0 <= r0 < 4
    requires q / 16 == q1 && q % 16 == q0 && r / 4 == r1 && r % 4 == r0
    ensures Octets(p, q, r, s) == [p * 4 + q1, q0 * 16 + r1, r0 * 64 + s]
  {
  }

  lemma OctetsSextets(a: byte, b: byte, c: byte)
    ensures var v := Sextets(a, b, c); Octets(v[0], v[1], v[2], v[3]) == [a, b, c]
  {
    hide Octets;
    OctetsOf(a / 4, a % 4, b / 16, b % 16, c / 64, c % 64);
  }

  lemma SextetsOctets(p: byte, q: byte, r: byte, s: byte)
    requires p < 64 && q < 64 && r < 64 && s < 64
    ensures var o := Octets(p, q, r, s); Sextets(o[0], o[1], o[2]) == [p, q, r, s]
  {
    var q1, q0, r1, r0 := q / 16, q % 16, r / 4, r % 4;
    var a, b, c: int := p * 4 + q1, q0 * 16 + r1, r0 * 64 + s;
    Split(p, q1);
    Split(q0, r1);
    Split(r0, s);
    assert 0 <= a < 256 && 0 <= b < 256 && 0 <= c < 256;
    OctetsByParts(p, q, r, s, q1, q0, r1, r0);
    assert Sextets(a, b, c) == [p, q1 * 16 + q0, r1 * 4 + r0, s];
  }

  lemma BlockRoundTrip(a: byte, b: byte, c: byte)
    ensures DecodeBlock(EncodeBlock(a, b, c)) == [a, b, c]
    ensures PAD !in EncodeBlock(a, b, c)
  {
    OctetsSextets(a, b, c);
    StoredChars(Sextets(a, b, c));
  }

  lemma StoredChars(v: seq<int>)
    requires |v| == 4 && forall i :: 0 <= i < 4 ==> 0 <= v[i] < 64
    ensures DecodeBlock(CharsOf(v)) == Octets(v[0], v[1], v[2], v[3])
    ensures PAD !in CharsOf(v)
  {
    hide Octets;
  }

  /** Whatever fills the unused slots, 255 after the table included, never reaches a decoded byte. */
  lemma FillerNeverEmitted(c: seq<byte>, f: byte, g: byte)
    requires |c| < 4
    ensures DecodeTail(c, f) == DecodeTail(c, g)
  {
  }

  lemma BeforePadCons(c: byte, s: seq<byte>)
    requires c != PAD
    ensures BeforePad([c] + s) == [c] + BeforePad(s)
  {
    assert ([c] + s)[1..] == s;
  }

  lemma {:induction false} BeforePadAppend(x: seq<byte>, y: seq<byte>)
    requires PAD !in x
    ensures BeforePad(x + y) == x + BeforePad(y)
  {
    hide BeforePad;
    if x == [] {
      assert x + y == y;
    } else {
      BeforePadAppend(x[1..], y);
      BeforePadCons(x[0], x[1..] + y);
      assert x + y == [x[0]] + (x[1..] + y);
      assert x + BeforePad(y) == [x[0]] + (x[1..] + BeforePad(y));
    }
  }

  lemma DecodeFirst(g: seq<byte>, s: seq<byte>)
    requires |g| == 4 && PAD !in g
    ensures Decode(g + s) == DecodeBlock(g) + Decode(s)
  {
    hide DecodeBlock;
    BeforePadAppend(g, s);
    var c := g + BeforePad(s);
    assert c[..4] == g && c[4..] == BeforePad(s);
  }

  lemma DecodeTwo(p: byte, q: byte)
    requires p != PAD && q != PAD
    ensures Decode([p, q, PAD, PAD]) == DecodeBlock([p, q, 0, 0])[..1]
  {
    hide DecodeBlock;
    assert [p, q, PAD, PAD] == [p, q] + [PAD, PAD];
    BeforePadAppend([p, q], [PAD, PAD]);
    assert BeforePad([p, q, PAD, PAD]) == [p, q];
    assert [p, q] + Fill(2, 0) == [p, q, 0, 0];
  }

  lemma DecodeThree(p: byte, q: byte, r: byte)
    requires p != PAD && q != PAD && r != PAD
    ensures Decode([p, q, r, PAD]) == DecodeBlock([p, q, r, 0])[..2]
  {
    hide DecodeBlock;
    assert [p, q, r, PAD] == [p, q, r] + [PAD];
    BeforePadAppend([p, q, r], [PAD]);
    assert BeforePad([p, q, r, PAD]) == [p, q, r];
    assert [p, q, r] + Fill(1, 0) == [p, q, r, 0];
  }

  lemma TailRoundTrip(x: seq<byte>)
    requires |x| < 3
    ensures Decode(EncodeTail(x)) == x
  {
    if |x| == 1 {
      var g := EncodeBlock(x[0], 0, 0);
      BlockRoundTrip(x[0], 0, 0);
      assert EncodeTail(x) == [g[0], g[1], PAD, PAD];
      DecodeTwo(g[0], g[1]);
      SameOctets(g, [g[0], g[1], 0, 0]);
    } else if |x| == 2 {
      var g := EncodeBlock(x[0], x[1], 0);
      BlockRoundTrip(x[0], x[1], 0);
      assert EncodeTail(x) == [g[0], g[1], g[2], PAD];
      DecodeThree(g[0], g[1], g[2]);
      SameOctets(g, [g[0], g[1], g[2], 0]);
    }
  }

  /** The first byte depends on two characters only, the second on three. */
  lemma SameOctets(g: seq<byte>, h: seq<byte>)
    requires |g| == 4 && |h| == 4 && g[0] == h[0] && g[1] == h[1]
    ensures DecodeBlock(g)[0] == DecodeBlock(h)[0]
    ensures g[2] == h[2] ==> DecodeBlock(g)[1] == DecodeBlock(h)[1]
  {
  }

  /** Decoding gives back every encoded byte string. */
  lemma {:induction false} DecodeEncode(x: seq<byte>)
    ensures Decode(Encode(x)) == x
  {
    hide EncodeBlock, DecodeBlock, Decode, EncodeTail;
    if |x| < 3 {
      TailRoundTrip(x);
    } else {
      BlockRoundTrip(x[0], x[1], x[2]);
      DecodeFirst(EncodeBlock(x[0], x[1], x[2]), Encode(x[3..]));
      DecodeEncode(x[3..]);
      assert [x[0], x[1], x[2]] + x[3..] == x;
    }
  }

  /** Four characters for every three bytes begun. */
  lemma {:induction false} EncodeLength(x: seq<byte>)
    ensures |Encode(x)| == 4 * ((|x| + 2) / 3)
  {
    hide EncodeBlock;
    if |x| >= 3 { EncodeLength(x[3..]); }
  }

  /** Cutting a text between two groups cuts the encoded bytes. */
  lemma EncodePrefix(x: seq<byte>, k: nat)
    requires k <= |x| && k % 3 == 0
    ensures k / 3 * 4 <= |Encode(x)| && Encode(x)[..k / 3 * 4] == Encode(x[..k])
  {
    hide Encode;
    assert x == x[..k] + x[k..];
    EncodeAppend(x[..k], x[k..]);
    EncodeLength(x[..k]);
  }

  predicate FullGroup(g: seq<byte>) { |g| == 4 && forall i :: 0 <= i < 4 ==> InAlphabet(g[i]) }

  /** A last group: full, or padded with the unused bits of its last character zero. */
  predicate LastGroup(g: seq<byte>) {
    || FullGroup(g)
    || (|g| == 4 && InAlphabet(g[0]) && InAlphabet(g[1]) && InAlphabet(g[2]) && g[3] == PAD && ValueOf(g[2]) % 4 == 0)
    || (|g| == 4 && InAlphabet(g[0]) && InAlphabet(g[1]) && g[2] == PAD && g[3] == PAD && ValueOf(g[1]) % 16 == 0)
  }

  /** Canonical text in the sense of section 3.5 of RFC 4648. */
  predicate Canonical(s: seq<byte>) {
    s == [] || (|s| >= 4 && (if |s| == 4 then LastGroup(s) else FullGroup(s[..4]) && Canonical(s[4..])))
  }

  lemma StoredInAlphabet(c: byte)
    requires InAlphabet(c)
    ensures Stored(ValueOf(c)) == ValueOf(c) && c != PAD
  {
  }

  lemma FullGroupBack(g: seq<byte>)
    requires FullGroup(g)
    ensures var o := DecodeBlock(g); EncodeBlock(o[0], o[1], o[2]) == g
    ensures PAD !in g
  {
    hide Octets, Sextets;
    var v := seq(4, i requires 0 <= i < 4 => ValueOf(g[i]));
    SextetsOctets(v[0], v[1], v[2], v[3]);
    forall i | 0 <= i < 4 ensures Stored(ValueOf(g[i])) == v[i] && CharOf(v[i]) == g[i] && g[i] != PAD {
      StoredInAlphabet(g[i]);
      ValueChar(g[i]);
    }
    assert v == [v[0], v[1], v[2], v[3]];
    assert CharsOf(v) == g;
  }

  lemma TwoBack(p: byte, q: byte)
    requires InAlphabet(p) && InAlphabet(q) && ValueOf(q) % 16 == 0
    ensures Encode(Decode([p, q, PAD, PAD])) == [p, q, PAD, PAD]
  {
    hide Octets, Sextets;
    StoredInAlphabet(p);
    StoredInAlphabet(q);
    DecodeTwo(p, q);
    var g := [p, q, CharOf(0), CharOf(0)];
    FullGroupBack(g);
    SameOctets(g, [p, q, 0, 0]);
    var o := DecodeBlock(g);
    assert o[1] == 0 && o[2] == 0 by { LowBits(ValueOf(p), ValueOf(q), 0); }
    assert EncodeBlock(o[0], 0, 0)[..2] == [p, q];
  }

  lemma ThreeBack(p: byte, q: byte, r: byte)
    requires InAlphabet(p) && InAlphabet(q) && InAlphabet(r) && ValueOf(r) % 4 == 0
    ensures Encode(Decode([p, q, r, PAD])) == [p, q, r, PAD]
  {
    hide Octets, Sextets;
    StoredInAlphabet(p);
    StoredInAlphabet(q);
    StoredInAlphabet(r);
    DecodeThree(p, q, r);
    var g := [p, q, r, CharOf(0)];
    FullGroupBack(g);
    SameOctets(g, [p, q, r, 0]);
    var o := DecodeBlock(g);
    assert o[2] == 0 by { LowBits(ValueOf(p), ValueOf(q), ValueOf(r)); }
    assert EncodeBlock(o[0], o[1], 0)[..3] == [p, q, r];
  }

  lemma LowBits(p: byte, q: byte, r: byte)
    requires p < 64 && q < 64 && r < 64
    ensures r % 4 == 0 ==> Octets(p, q, r, 0)[2] == 0
    ensures q % 16 == 0 && r == 0 ==> Octets(p, q, r, 0)[1] == 0 && Octets(p, q, r, 0)[2] == 0
  {
  }

  lemma {:induction false} EncodedIsCanonical(x: seq<byte>)
    ensures Canonical(Encode(x))
  {
    hide EncodeBlock;
    if |x| < 3 {
      TailIsCanonical(x);
    } else {
      EncodedIsCanonical(x[3..]);
      BlockIsFull(x[0], x[1], x[2]);
      var g := EncodeBlock(x[0], x[1], x[2]);
      assert Encode(x)[..4] == g && Encode(x)[4..] == Encode(x[3..]);
      if Encode(x[3..]) == [] { assert Encode(x) == g; }
    }
  }

  lemma BlockIsFull(a: byte, b: byte, c: byte)
    ensures FullGroup(EncodeBlock(a, b, c))
  {
    hide Sextets;
    var v := Sextets(a, b, c);
    forall i | 0 <= i < 4 ensures InAlphabet(CharOf(v[i])) { CharValue(v[i]); }
  }

  lemma TailIsCanonical(x: seq<byte>)
    requires |x| < 3
    ensures Canonical(EncodeTail(x))
  {
    if |x| == 1 {
      BlockIsFull(x[0], 0, 0);
      CharValue(x[0] % 4 * 16);
    } else if |x| == 2 {
      BlockIsFull(x[0], x[1], 0);
      CharValue(x[1] % 16 * 4);
    }
  }

  lemma {:induction false} CanonicalBack(s: seq<byte>)
    requires Canonical(s)
    ensures Encode(Decode(s)) == s
  {
    hide EncodeBlock, DecodeBlock, Decode, EncodeTail;
    if s == [] {
      DecodeEncode([]);
      EncodeNothing();
    } else if FullGroup(s[..4]) {
      var g, rest := s[..4], s[4..];
      assert s == g + rest;
      FullGroupBack(g);
      DecodeFirst(g, rest);
      if rest != [] { CanonicalBack(rest); } else { DecodeEncode([]); EncodeNothing(); }
      var o := DecodeBlock(g);
      var d := o + Decode(rest);
      assert d[3..] == Decode(rest) && [d[0], d[1], d[2]] == o;
    } else if s[2] == PAD {
      TwoBack(s[0], s[1]);
      assert s == [s[0], s[1], PAD, PAD];
    } else {
      ThreeBack(s[0], s[1], s[2]);
      assert s == [s[0], s[1], s[2], PAD];
    }
  }

  /** Re-encoding what was decoded gives the same text exactly for canonical text. */
  lemma EncodeDecode(s: seq<byte>)
    ensures Encode(Decode(s)) == s <==> Canonical(s)
  {
    EncodedIsCanonical(Decode(s));
    if Canonical(s) { CanonicalBack(s); }
  }

  // ----- what the text says, in bits -----

  const UPPER := "ABCDEFGHIJKLMNOPQRSTUVWXYZ"
  const LOWER := "abcdefghijklmnopqrstuvwxyz"
  const DIGITS := "0123456789"
  const ALPHABET := UPPER + LOWER + DIGITS + "+/"

  lemma UpperAt(v: int)
    requires 0 <= v < 26
    ensures |UPPER| == 26 && UPPER[v] as int == 65 + v
  {
  }

  lemma LowerAt(v: int)
    requires 0 <= v < 26
    ensures |LOWER| == 26 && LOWER[v] as int == 97 + v
  {
  }

  lemma DigitAt(v: int)
    requires 0 <= v < 10
    ensures |DIGITS| == 10 && DIGITS[v] as int == 48 + v
  {
  }

  lemma AlphabetAt(v: int)
    requires 0 <= v < 64
    ensures |ALPHABET| == 64 && ALPHABET[v] as int == CharOf(v) as int
  {
    UpperAt(if v < 26 then v else 0);
    LowerAt(if 26 <= v < 52 then v - 26 else 0);
    DigitAt(if 52 <= v < 62 then v - 52 else 0);
    hide UPPER, LOWER, DIGITS;
  }

  /** The character stands for this value. */
  predicate Spells(c: byte, v: int) { 0 <= v < |ALPHABET| && c as int == ALPHABET[v] as int }

  lemma SpellsExactly(c: byte, v: int)
    ensures Spells(c, v) <==> 0 <= v < 64 && ValueOf(c) == v
  {
    AlphabetAt(0);
    if 0 <= v < 64 {
      AlphabetAt(v);
      CharValue(v);
      if ValueOf(c) == v { ValueChar(c); }
    }
    hide ALPHABET;
  }

  /**
   Four characters of the alphabet, the first worth most: their 6-bit values as one number are the three bytes
   as one number.
   */
  ghost predicate Group(g: seq<byte>, a: int, b: int, c: int) {
    && |g| == 4
    && exists p, q, r, s :: Spells(g[0], p) && Spells(g[1], q) && Spells(g[2], r) && Spells(g[3], s)
                            && 0x40000 * p + 0x1000 * q + 0x40 * r + s == 0x10000 * a + 0x100 * b + c
  }

  lemma EncodeBlockGroup(a: byte, b: byte, c: byte)
    ensures Group(EncodeBlock(a, b, c), a as int, b as int, c as int)
  {
    var v, g := Sextets(a, b, c), EncodeBlock(a, b, c);
    forall i | 0 <= i < 4 ensures Spells(g[i], v[i]) {
      CharValue(v[i]);
      SpellsExactly(g[i], v[i]);
    }
    hide Spells;
    assert a == a / 4 * 4 + a % 4 && b == b / 16 * 16 + b % 16 && c == c / 64 * 64 + c % 64;
    assert 0x40000 * v[0] + 0x1000 * v[1] + 0x40 * v[2] + v[3] == 0x10000 * a as int + 0x100 * b as int + c as int;
  }

  lemma DecodeBlockGroup(g: seq<byte>)
    requires FullGroup(g)
    ensures var o := DecodeBlock(g); Group(g, o[0] as int, o[1] as int, o[2] as int)
  {
    hide DecodeBlock, EncodeBlock, Group;
    var o := DecodeBlock(g);
    FullGroupBack(g);
    EncodeBlockGroup(o[0], o[1], o[2]);
  }

  /** Group number `k` of the text is that of the bytes from `3 * k` on. */
  ghost predicate GroupAt(x: seq<byte>, t: seq<byte>, k: nat) {
    && 3 * k + 3 <= |x| && 4 * k + 4 <= |t|
    && Group(t[4 * k..4 * k + 4], x[3 * k] as int, x[3 * k + 1] as int, x[3 * k + 2] as int)
  }

  /** One byte over: filled up with zero bits, two characters and two of padding. */
  ghost predicate OneOver(a: byte, g: seq<byte>) {
    |g| == 4 && g[2] == 61 && g[3] == 61 && Group([g[0], g[1], 65, 65], a as int, 0, 0)
  }

  /** Two bytes over: three characters and one of padding. */
  ghost predicate TwoOver(a: byte, b: byte, g: seq<byte>) {
    |g| == 4 && g[3] == 61 && Group([g[0], g[1], g[2], 65], a as int, b as int, 0)
  }

  /** How many bytes are over after the last three, and the size of the text. */
  function Over(n: nat): (r: nat)
    ensures r < 3 && r <= n
  {
    n % 3
  }

  function TextSize(n: nat): (m: nat)
    ensures n > 0 ==> m >= 4
  {
    4 * ((n + 2) / 3)
  }

  ghost predicate PaddedEnd(x: seq<byte>, t: seq<byte>) {
    var n, m := |x|, |t|;
    && m == TextSize(n)
    && (Over(n) == 1 ==> OneOver(x[n - 1], t[m - 4..]))
    && (Over(n) == 2 ==> TwoOver(x[n - 2], x[n - 1], t[m - 4..]))
  }

  /** `t` is the text of `x`: a group for every three bytes, then one filled up and padded. */
  ghost predicate Encodes(x: seq<byte>, t: seq<byte>) {
    PaddedEnd(x, t) && forall k: nat :: 3 * k + 3 <= |x| ==> GroupAt(x, t, k)
  }

  lemma {:induction false} EncodeEncodes(x: seq<byte>)
    ensures Encodes(x, Encode(x))
  {
    hide EncodeBlock, Group;
    EncodeLength(x);
    if |x| < 3 {
      EncodeTailEncodes(x);
    } else {
      EncodeEncodes(x[3..]);
      EncodeBlockGroup(x[0], x[1], x[2]);
      EncodesMore(EncodeBlock(x[0], x[1], x[2]), x, Encode(x[3..]));
    }
  }

  lemma GroupAfter(g: seq<byte>, x: seq<byte>, t: seq<byte>, k: nat)
    requires |x| >= 3 && |g| == 4 && k > 0 && GroupAt(x[3..], t, k - 1)
    ensures GroupAt(x, g + t, k)
  {
    hide Group;
    var j: nat := k - 1;
    assert (g + t)[4 * k..4 * k + 4] == t[4 * j..4 * j + 4];
    assert x[3..][3 * j] == x[3 * k] && x[3..][3 * j + 1] == x[3 * k + 1] && x[3..][3 * j + 2] == x[3 * k + 2];
  }

  lemma ThreeMore(n: nat)
    ensures TextSize(n + 3) == TextSize(n) + 4 && Over(n + 3) == Over(n)
  {
    var q := (n + 2) / 3;
    assert (n + 3 + 2) / 3 == q + 1;
  }

  lemma EndAfter(g: seq<byte>, x: seq<byte>, t: seq<byte>)
    requires |x| >= 3 && |g| == 4 && PaddedEnd(x[3..], t)
    ensures PaddedEnd(x, g + t)
  {
    hide OneOver, TwoOver, Over, TextSize;
    var y, u, n := x[3..], g + t, |x[3..]|;
    ThreeMore(n);
    if Over(n) > 0 { assert u[|u| - 4..] == t[|t| - 4..]; }
  }

  lemma EncodesMore(g: seq<byte>, x: seq<byte>, t: seq<byte>)
    requires |x| >= 3 && |g| == 4 && Group(g, x[0] as int, x[1] as int, x[2] as int) && Encodes(x[3..], t)
    ensures Encodes(x, g + t)
  {
    hide Group, PaddedEnd;
    EndAfter(g, x, t);
    forall k: nat | 3 * k + 3 <= |x| ensures GroupAt(x, g + t, k) {
      if k == 0 { assert (g + t)[0..4] == g; } else { GroupAfter(g, x, t, k); }
    }
  }

  lemma EncodeTailEncodes(x: seq<byte>)
    requires |x| < 3
    ensures Encodes(x, EncodeTail(x))
  {
    if |x| == 1 {
      OneOverEncodes(x[0]);
      assert x == [x[0]];
      assert EncodeTail(x)[0..] == EncodeTail(x);
    } else if |x| == 2 {
      TwoOverEncodes(x[0], x[1]);
      assert x == [x[0], x[1]];
      assert EncodeTail(x)[0..] == EncodeTail(x);
    }
    hide OneOver, TwoOver, EncodeTail;
    assert TextSize(0) == 0 && TextSize(1) == TextSize(2) == 4;
    assert Over(0) == 0 && Over(1) == 1 && Over(2) == 2;
  }

  lemma OneOverEncodes(a: byte)
    ensures |EncodeTail([a])| == 4 && OneOver(a, EncodeTail([a]))
  {
    hide Group;
    var g := EncodeBlock(a, 0, 0);
    EncodeBlockGroup(a, 0, 0);
    assert [g[0], g[1], 65, 65] == g;
  }

  lemma TwoOverEncodes(a: byte, b: byte)
    ensures |EncodeTail([a, b])| == 4 && TwoOver(a, b, EncodeTail([a, b]))
  {
    hide Group;
    var g := EncodeBlock(a, b, 0);
    EncodeBlockGroup(a, b, 0);
    assert [g[0], g[1], g[2], 65] == g;
  }

  /** What decoding must give for the characters `c` in front of the padding, one character in four places. */
  ghost predicate GroupBack(c: seq<byte>, out: seq<byte>, k: nat) {
    && 4 * k + 4 <= |c| && 3 * k + 3 <= |out|
    && (FullGroup(c[4 * k..4 * k + 4]) ==>
          Group(c[4 * k..4 * k + 4], out[3 * k] as int, out[3 * k + 1] as int, out[3 * k + 2] as int))
  }

  /** Two characters stand for one byte and drop four bits, three for two and drop two. */
  ghost predicate TwoBackTo(g: seq<byte>, a: int) {
    FullGroup(g) ==> exists y :: Group(g, a, y, 0) && 0 <= y < 256
  }

  ghost predicate ThreeBackTo(g: seq<byte>, a: int, b: int) {
    FullGroup(g) ==> exists y :: Group(g, a, b, y) && 0 <= y < 256
  }

  /** The characters left after the last four, and the bytes in all; one character alone gives none. */
  function Left(n: nat): (r: nat)
    ensures r < 4 && r <= n
  {
    n % 4
  }

  function BytesIn(n: nat): (m: nat)
    ensures Left(n) >= 1 ==> m >= Left(n) - 1
  {
    n / 4 * 3 + (if n % 4 > 0 then n % 4 - 1 else 0)
  }

  ghost predicate EndBack(c: seq<byte>, out: seq<byte>) {
    var n, m := |c|, |out|;
    && m == BytesIn(n)
    && (Left(n) == 2 ==> TwoBackTo([c[n - 2], c[n - 1], 65, 65], out[m - 1] as int))
    && (Left(n) == 3 ==> ThreeBackTo([c[n - 3], c[n - 2], c[n - 1], 65], out[m - 2] as int, out[m - 1] as int))
  }

  /** `out` is what the characters before the first padding stand for. */
  ghost predicate Decodes(s: seq<byte>, out: seq<byte>) {
    var c := BeforePad(s);
    EndBack(c, out) && forall k: nat :: 4 * k + 4 <= |c| ==> GroupBack(c, out, k)
  }

  lemma GroupBackAfter(g: seq<byte>, o: seq<byte>, c: seq<byte>, out: seq<byte>, k: nat)
    requires |g| == 4 && |o| == 3 && k > 0 && GroupBack(c, out, k - 1)
    ensures GroupBack(g + c, o + out, k)
  {
    hide Group, FullGroup;
    var j: nat := k - 1;
    assert (g + c)[4 * k..4 * k + 4] == c[4 * j..4 * j + 4];
    assert (o + out)[3 * k] == out[3 * j] && (o + out)[3 * k + 1] == out[3 * j + 1];
    assert (o + out)[3 * k + 2] == out[3 * j + 2];
  }

  lemma FourMore(n: nat)
    ensures BytesIn(n + 4) == BytesIn(n) + 3 && Left(n + 4) == Left(n)
  {
    var q, r := n / 4, n % 4;
    assert n == 4 * q + r;
    assert (n + 4) / 4 == q + 1 && (n + 4) % 4 == r;
  }

  lemma EndBackAfter(g: seq<byte>, o: seq<byte>, c: seq<byte>, out: seq<byte>)
    requires |g| == 4 && |o| == 3 && EndBack(c, out)
    ensures EndBack(g + c, o + out)
  {
    hide TwoBackTo, ThreeBackTo, Left, BytesIn;
    FourMore(|c|);
  }

  lemma {:induction false} CharsDecode(c: seq<byte>)
    ensures EndBack(c, DecodeChars(c)) && forall k: nat :: 4 * k + 4 <= |c| ==> GroupBack(c, DecodeChars(c), k)
    decreases |c|
  {
    hide DecodeBlock, Group, FullGroup, EndBack;
    if |c| < 4 {
      TailBack(c);
    } else {
      var g, rest, o := c[..4], c[4..], DecodeBlock(c[..4]);
      CharsDecode(rest);
      assert c == g + rest;
      EndBackAfter(g, o, rest, DecodeChars(rest));
      forall k: nat | 4 * k + 4 <= |c| ensures GroupBack(c, DecodeChars(c), k) {
        if k == 0 {
          assert c[0..4] == g;
          if FullGroup(g) { DecodeBlockGroup(g); }
        } else {
          GroupBackAfter(g, o, rest, DecodeChars(rest), k);
        }
      }
    }
  }

  lemma TailBack(c: seq<byte>)
    requires |c| < 4
    ensures EndBack(c, DecodeTail(c, 0))
  {
    hide DecodeBlock, Group, FullGroup;
    FillerNeverEmitted(c, 0, 65);
    if |c| == 2 {
      var g := [c[0], c[1], 65, 65];
      assert c + Fill(2, 65) == g;
      if FullGroup(g) { DecodeBlockGroup(g); }
      NoLowBits(g);
    } else if |c| == 3 {
      var g := [c[0], c[1], c[2], 65];
      assert c + Fill(1, 65) == g;
      if FullGroup(g) { DecodeBlockGroup(g); }
    }
  }

  /** Two letters and two A's have no bits in the third byte. */
  lemma NoLowBits(g: seq<byte>)
    requires |g| == 4 && g[2] == 65 && g[3] == 65
    ensures DecodeBlock(g)[2] == 0
  {
  }

  lemma DecodeDecodes(s: seq<byte>)
    ensures Decodes(s, Decode(s))
  {
    hide EndBack, GroupBack, DecodeChars, BeforePad;
    CharsDecode(BeforePad(s));
  }

  lemma OutsideFirst(q: byte, r: byte, s: byte)
    ensures Octets(255, q, r, s) == Octets(63, q, r, s)
  {
    var x := q / 16 % 4;
    assert 255 * 4 + x == 3 * 256 + (63 * 4 + x);
  }

  lemma OutsideMiddle(p: byte, q: byte, r: byte, s: byte)
    ensures Octets(p, 255, r, s) == Octets(p, 63, r, s)
    ensures Octets(p, q, 255, s) == Octets(p, q, 63, s)
  {
  }

  lemma OutsideLast(p: byte, q: byte, r: byte)
    ensures Octets(p, q, r, 255)[0] == Octets(p, q, r, 0)[0] && Octets(p, q, r, 255)[1] == Octets(p, q, r, 0)[1]
    ensures Octets(p, q, r, 255)[2] as int == (Octets(p, q, r, 0)[2] as int + 255) % 256
  {
    var y := r % 4 * 64;
    assert 0 <= y <= 192 && y % 256 == y;
  }

  lemma OutsideTable()
    ensures forall c: byte :: !InAlphabet(c) ==> Stored(ValueOf(c)) == 255
    ensures Stored(ValueOf(47)) == 63 && Stored(ValueOf(65)) == 0
  {
  }

  /**
   A byte outside the alphabet is not refused: in the first three places of a group it counts as '/', in the
   fourth the third byte becomes one less than with an 'A' there.
   */
  lemma OutsideCounts(g: seq<byte>, i: nat)
    requires |g| == 4 && i < 4 && !InAlphabet(g[i])
    ensures i < 3 ==> DecodeBlock(g) == DecodeBlock(g[i := 47])
    ensures i == 3 ==> DecodeBlock(g)[0] == DecodeBlock(g[3 := 65])[0]
    ensures i == 3 ==> DecodeBlock(g)[1] == DecodeBlock(g[3 := 65])[1]
    ensures i == 3 ==> DecodeBlock(g)[2] as int == (DecodeBlock(g[3 := 65])[2] as int + 255) % 256
  {
    hide Octets, ValueOf, Stored, InAlphabet;
    OutsideTable();
    var p, q, r, s := Stored(ValueOf(g[0])), Stored(ValueOf(g[1])), Stored(ValueOf(g[2])), Stored(ValueOf(g[3]));
    OutsideFirst(q, r, s);
    OutsideMiddle(p, q, r, s);
    OutsideLast(p, q, r);
  }
}
