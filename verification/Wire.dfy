/**
 What lies between messages and the bytes on a socket (rpc_src/network/connection.cpp): frames cut out of
 a growing buffer, and the bytes `WriteFrame` produces.  Zstd is a pair of functions with one assumption.
 */
module Wire {
  import opened Bytes
  import opened Protocol
  import Cipher

  const MAX_BUFFER_SIZE: nat := 1024 * 1024
  const MAX_FRAME_SIZE: nat := 16 * 1024 * 1024
  const READ_SIZE: nat := 4096

  /** The largest compressed sizes that pass the length check and that fit the read buffer. */
  const MAX_PASSING: nat := 12582880
  const MAX_BUFFERED: nat := 786397

  datatype Codec = Codec(compress: seq<byte> -> Option<seq<byte>>, decompress: seq<byte> -> Option<seq<byte>>)

  /** Decompression undoes every compression that succeeded, and nothing nonempty compresses to nothing. */
  ghost predicate RoundTrips(z: Codec) {
    forall x :: x != [] && z.compress(x).Some? ==>
      z.compress(x).value != [] && z.decompress(z.compress(x).value) == Some(x)
  }

  // ----- reading from the socket -----

  /** What one `::read` of at most 4096 bytes can give; the script ending counts as WouldBlock. */
  datatype ReadResult = Data(bytes: seq<byte>) | WouldBlock | EndOfFile | Failure

  predicate Legal(r: ReadResult) { r.Data? ==> 1 <= |r.bytes| <= READ_SIZE }

  predicate AllLegal(input: seq<ReadResult>) { forall i :: 0 <= i < |input| ==> Legal(input[i]) }

  /** Whether `Read` succeeds and the buffer it leaves. */
  function ReadInto(buffer: seq<byte>, input: seq<ReadResult>): (r: (bool, seq<byte>))
    decreases |input|
  {
    if input == [] || input[0].WouldBlock? then (true, buffer)
    else if !input[0].Data? || |buffer| + |input[0].bytes| > MAX_BUFFER_SIZE then (false, buffer)
    else if |input[0].bytes| < READ_SIZE then (true, buffer + input[0].bytes)
    else ReadInto(buffer + input[0].bytes, input[1..])
  }

  /** Reading only appends and never passes 1 MiB. */
  lemma {:induction false} ReadAppends(buffer: seq<byte>, input: seq<ReadResult>)
    requires |buffer| <= MAX_BUFFER_SIZE
    ensures buffer <= ReadInto(buffer, input).1 && |ReadInto(buffer, input).1| <= MAX_BUFFER_SIZE
    decreases |input|
  {
    if input != [] && input[0].Data? && |buffer| + |input[0].bytes| <= MAX_BUFFER_SIZE
       && |input[0].bytes| >= READ_SIZE {
      ReadAppends(buffer + input[0].bytes, input[1..]);
    }
  }

  /** How one call of `Read` ends: true, false, or not at all. */
  datatype ReadEnd = Arrived | Ended | Hung

  /**
   `Read` on a descriptor that blocks, as the client's does: after a full 4096 bytes it reads again, whether
   there is more or not.  What is not there yet is waited for; the script ending means nothing ever comes.
   */
  function BlockingRead(buffer: seq<byte>, input: seq<ReadResult>): (r: (ReadEnd, seq<byte>))
    decreases |input|
  {
    if input == [] then (Hung, buffer)
    else if input[0].WouldBlock? then BlockingRead(buffer, input[1..])
    else if !input[0].Data? || |buffer| + |input[0].bytes| > MAX_BUFFER_SIZE then (Ended, buffer)
    else if |input[0].bytes| < READ_SIZE then (Arrived, buffer + input[0].bytes)
    else BlockingRead(buffer + input[0].bytes, input[1..])
  }

  /** `Read` on either kind of descriptor. */
  function ReadBy(blocking: bool, buffer: seq<byte>, input: seq<ReadResult>): (r: (ReadEnd, seq<byte>)) {
    if blocking then BlockingRead(buffer, input)
    else var (ok, read) := ReadInto(buffer, input); (if ok then Arrived else Ended, read)
  }

  /** The bytes of a script of reads, one after the other. */
  function Gathered(input: seq<ReadResult>): seq<byte> {
    if input == [] then [] else (if input[0].Data? then input[0].bytes else []) + Gathered(input[1..])
  }

  /** The first `k` results all make `Read` go on: full reads that fit the buffer and, if it blocks, pauses. */
  predicate GoesOn(blocking: bool, buffer: seq<byte>, input: seq<ReadResult>, k: nat) {
    && k <= |input| && |buffer| + |Gathered(input[..k])| <= MAX_BUFFER_SIZE
    && forall j :: 0 <= j < k ==>
         (input[j].Data? && |input[j].bytes| == READ_SIZE) || (blocking && input[j].WouldBlock?)
  }

  lemma GoesOnTail(blocking: bool, buffer: seq<byte>, input: seq<ReadResult>, k: nat)
    requires GoesOn(blocking, buffer, input, k) && k > 0
    ensures var more := if input[0].Data? then input[0].bytes else [];
            && |buffer + more| <= MAX_BUFFER_SIZE && GoesOn(blocking, buffer + more, input[1..], k - 1)
            && buffer + Gathered(input[..k]) == (buffer + more) + Gathered(input[1..][..k - 1])
  {
    assert input[..k][1..] == input[1..][..k - 1];
  }

  /** How `Read` ends when its first `k` results made it go on. */
  predicate StopsAt(blocking: bool, buffer: seq<byte>, input: seq<ReadResult>, k: nat, r: (ReadEnd, seq<byte>))
    requires k <= |input|
  {
    var have := buffer + Gathered(input[..k]);
    if k == |input| then r == (if blocking then Hung else Arrived, have)
    else match input[k]
      case EndOfFile => r == (Ended, have)
      case Failure => r == (Ended, have)
      case WouldBlock => !blocking ==> r == (Arrived, have)
      case Data(bytes) =>
        && (|have| + |bytes| > MAX_BUFFER_SIZE ==> r == (Ended, have))
        && (|have| + |bytes| <= MAX_BUFFER_SIZE && |bytes| < READ_SIZE ==> r == (Arrived, have + bytes))
  }

  /**
   What `Read` does is settled by the first result that does not make it go on: end of file, an error and an
   overflow end the connection, a short read and, if the descriptor does not block, a pause end the call.
   */
  lemma {:induction false} ReadStops(blocking: bool, buffer: seq<byte>, input: seq<ReadResult>, k: nat)
    requires GoesOn(blocking, buffer, input, k)
    ensures StopsAt(blocking, buffer, input, k, ReadBy(blocking, buffer, input))
    decreases k
  {
    if k == 0 {
      assert buffer + Gathered(input[..0]) == buffer;
    } else {
      var more := if input[0].Data? then input[0].bytes else [];
      GoesOnTail(blocking, buffer, input, k);
      ReadStops(blocking, buffer + more, input[1..], k - 1);
      assert buffer + [] == buffer;
      assert ReadBy(blocking, buffer, input) == ReadBy(blocking, buffer + more, input[1..]);
    }
  }

  lemma {:induction false} BlockingReadAppends(buffer: seq<byte>, input: seq<ReadResult>)
    requires |buffer| <= MAX_BUFFER_SIZE
    ensures buffer <= BlockingRead(buffer, input).1 && |BlockingRead(buffer, input).1| <= MAX_BUFFER_SIZE
    decreases |input|
  {
    if input != [] && input[0].WouldBlock? {
      BlockingReadAppends(buffer, input[1..]);
    } else if input != [] && input[0].Data? && |buffer| + |input[0].bytes| <= MAX_BUFFER_SIZE
              && |input[0].bytes| >= READ_SIZE {
      BlockingReadAppends(buffer + input[0].bytes, input[1..]);
    }
  }

  /** The connection keeps coming: no end of file and no error. */
  predicate Calm(input: seq<ReadResult>) {
    AllLegal(input) && forall i :: 0 <= i < |input| ==> input[i].Data? || input[i].WouldBlock?
  }

  // ----- cutting out one frame -----

  datatype FrameStatus = Incomplete | Complete(frame: seq<byte>) | Error

  datatype Extraction = Extraction(status: FrameStatus, rest: seq<byte>)

  function Opened(z: Codec, text: seq<byte>): FrameStatus { Unpacked(z, Cipher.Decrypted(text)) }

  /** What is made of the decrypted bytes, if decryption gave any. */
  function Unpacked(z: Codec, plain: Option<seq<byte>>): FrameStatus {
    if plain.None? then Error
    else
      var data := z.decompress(plain.value);
      if data.None? || |data.value| < HEADER_SIZE || WordAt(data.value, 0) != MAGIC then Error
      else Complete(data.value)
  }

  function Extract(z: Codec, buffer: seq<byte>): (x: Extraction)
    ensures x.status.Complete? ==> |x.rest| < |buffer|
    ensures x.status.Incomplete? ==> x.rest == buffer
  {
    if |buffer| < 4 then Extraction(Incomplete, buffer)
    else
      var len := FromBE32(buffer[..4]);
      if len > MAX_FRAME_SIZE then Extraction(Error, buffer)
      else if |buffer| < 4 + len then Extraction(Incomplete, buffer)
      else Extraction(Opened(z, buffer[4..4 + len]), buffer[4 + len..])
  }

  /** The text of a frame decrypts and decompresses to `f`, which has a header and starts with the magic number. */
  predicate Opens(z: Codec, text: seq<byte>, f: seq<byte>) {
    && Cipher.Decrypted(text).Some? && z.decompress(Cipher.Decrypted(text).value) == Some(f)
    && |f| >= 12 && f[..4] == [0x78, 0x56, 0x34, 0x12]
  }

  lemma MagicBytes(f: seq<byte>)
    requires |f| >= 4
    ensures WordAt(f, 0) == MAGIC <==> f[..4] == [0x78, 0x56, 0x34, 0x12]
  {
    var s: seq<byte> := [0x78, 0x56, 0x34, 0x12];
    assert f[0..4] == f[..4] && FromLE32(s) == MAGIC;
    BytesWord(f[..4]);
    BytesWord(s);
  }

  lemma OpenedExactly(z: Codec, text: seq<byte>)
    ensures forall f :: Opened(z, text) == Complete(f) <==> Opens(z, text, f)
    ensures !Opened(z, text).Incomplete?
  {
    hide Cipher.Decrypted;
    var plain := Cipher.Decrypted(text);
    if plain.Some? && z.decompress(plain.value).Some? && |z.decompress(plain.value).value| >= 4 {
      MagicBytes(z.decompress(plain.value).value);
    }
  }

  /**
   Fewer bytes than the four in front announce are left alone, as are those that announce more than 16 MiB;
   else as many as announced are used up, and are complete exactly with what they open to.
   */
  ghost predicate Cuts(z: Codec, b: seq<byte>, status: FrameStatus, rest: seq<byte>) {
    if |b| < 4 then status == Incomplete && rest == b
    else
      var size := b[0] as int * 0x100_0000 + b[1] as int * 0x1_0000 + b[2] as int * 0x100 + b[3] as int;
      if size > 16 * 1024 * 1024 then status == Error && rest == b
      else if |b| < 4 + size then status == Incomplete && rest == b
      else
        && rest == b[4 + size..] && !status.Incomplete?
        && forall f :: status == Complete(f) <==> Opens(z, b[4..4 + size], f)
  }

  lemma ExtractCuts(z: Codec, b: seq<byte>)
    ensures Cuts(z, b, Extract(z, b).status, Extract(z, b).rest)
  {
    hide Opened, Opens;
    if |b| >= 4 && |b| >= 4 + FromBE32(b[..4]) { OpenedExactly(z, b[4..4 + FromBE32(b[..4])]); }
  }

  /** More bytes behind change neither a complete frame nor an error. */
  lemma ExtractMore(z: Codec, buffer: seq<byte>, more: seq<byte>)
    requires !Extract(z, buffer).status.Incomplete?
    ensures Extract(z, buffer + more) == Extraction(Extract(z, buffer).status, Extract(z, buffer).rest + more)
  {
    hide FromBE32, Opened;
    assert (buffer + more)[..4] == buffer[..4];
    var len := FromBE32(buffer[..4]);
    if len <= MAX_FRAME_SIZE {
      assert (buffer + more)[4..4 + len] == buffer[4..4 + len];
      assert (buffer + more)[4 + len..] == buffer[4 + len..] + more;
    }
  }

  // ----- the bytes of one message -----

  /** What `WriteFrame` hands to the socket, if compression succeeds. */
  function Framed(z: Codec, data: seq<byte>, sessionKey: seq<byte>): Option<seq<byte>>
    requires |sessionKey| == Cipher.KEY_LENGTH
  {
    if z.compress(data).None? then None
    else
      var text := Cipher.Encrypted(z.compress(data).value, sessionKey);
      if text.None? then None else Some(BE32(Truncate(|text.value|)) + text.value)
  }

  /** One frame: the size of the rest in network order, and a text that decrypts to the compressed message. */
  predicate IsFrame(z: Codec, data: seq<byte>, w: seq<byte>) {
    && |w| >= 4
    && w[0] as int * 0x100_0000 + w[1] as int * 0x1_0000 + w[2] as int * 0x100 + w[3] as int
       == (|w| - 4) % 0x1_0000_0000
    && Cipher.Decrypted(w[4..]) == z.compress(data)
  }

  /** What is framed is a frame; only what does not compress, or to nothing, is refused. */
  lemma FramedIsFrame(z: Codec, data: seq<byte>, sessionKey: seq<byte>)
    requires |sessionKey| == Cipher.KEY_LENGTH
    ensures var w := Framed(z, data, sessionKey);
            && (w.None? <==> z.compress(data).None? || z.compress(data).value == [])
            && (w.Some? ==> IsFrame(z, data, w.value))
  {
    hide Cipher.Encrypted, Cipher.Decrypted;
    if z.compress(data).Some? {
      if z.compress(data).value != [] { Cipher.DecryptEncrypt(z.compress(data).value, sessionKey); }
      var text := Cipher.Encrypted(z.compress(data).value, sessionKey);
      if text.Some? {
        NetworkOrder(Truncate(|text.value|));
        assert (BE32(Truncate(|text.value|)) + text.value)[4..] == text.value;
      }
      assert text.None? <==> z.compress(data).value == [] by { RefusesEmpty(z.compress(data).value, sessionKey); }
    }
  }

  lemma RefusesEmpty(data: seq<byte>, sessionKey: seq<byte>)
    requires |sessionKey| == Cipher.KEY_LENGTH
    ensures Cipher.Encrypted(data, sessionKey).None? <==> data == []
  {
  }

  lemma NetworkOrder(n: u32)
    ensures var b := BE32(n);
            b[0] as int * 0x100_0000 + b[1] as int * 0x1_0000 + b[2] as int * 0x100 + b[3] as int == n
  {
    WordBytes(n);
  }

  /**
   How a message fares: it cannot be framed, or its length prefix is truncated; the receiver's buffer cannot
   hold its frame; or it can.
   */
  datatype Size = Unsendable | Oversized | Fitting

  function SizeOf(z: Codec, data: seq<byte>): Size {
    if z.compress(data).None? || z.compress(data).value == [] then Unsendable
    else
      var n := |z.compress(data).value|;
      if Cipher.CipherLength(n) >= WORD then Unsendable else if n > MAX_BUFFERED then Oversized else Fitting
  }

  predicate IsMessage(data: seq<byte>) { |data| >= HEADER_SIZE && WordAt(data, 0) == MAGIC }

  /** The frame of `data` and the size of its ciphertext. */
  ghost predicate FrameOf(z: Codec, data: seq<byte>, sessionKey: seq<byte>, w: seq<byte>, n: nat) {
    && RoundTrips(z) && IsMessage(data) && |sessionKey| == Cipher.KEY_LENGTH
    && Framed(z, data, sessionKey) == Some(w)
    && z.compress(data).Some? && n == |z.compress(data).value|
  }

  /** No compression at all is one codec that round-trips. */
  function Plain(): Codec { Codec(x => Some(x), x => Some(x)) }

  /** A message that can be compressed has a frame. */
  lemma HasFrame(z: Codec, data: seq<byte>, sessionKey: seq<byte>)
    requires RoundTrips(z) && IsMessage(data) && |sessionKey| == Cipher.KEY_LENGTH && z.compress(data).Some?
    ensures Framed(z, data, sessionKey).Some?
    ensures FrameOf(z, data, sessionKey, Framed(z, data, sessionKey).value, |z.compress(data).value|)
  {
    hide BE32, Cipher.Encrypted, Cipher.Decrypted;
    Cipher.DecryptEncrypt(z.compress(data).value, sessionKey);
  }

  /** Under it every message has a frame, so what is said of frames below is said of something. */
  lemma FramesExist(data: seq<byte>, sessionKey: seq<byte>)
    requires IsMessage(data) && |sessionKey| == Cipher.KEY_LENGTH
    ensures Framed(Plain(), data, sessionKey).Some?
    ensures FrameOf(Plain(), data, sessionKey, Framed(Plain(), data, sessionKey).value, |data|)
  {
    hide Framed;
    HasFrame(Plain(), data, sessionKey);
  }

  lemma FrameShape(z: Codec, data: seq<byte>, sessionKey: seq<byte>, w: seq<byte>, n: nat)
    requires FrameOf(z, data, sessionKey, w, n)
    ensures |w| == 4 + Cipher.CipherLength(n)
    ensures FromBE32(w[..4]) == Truncate(Cipher.CipherLength(n))
    ensures Opened(z, w[4..]) == Complete(data)
  {
    hide FromBE32, BE32, Cipher.Encrypted, Cipher.Decrypted;
    var compressed := z.compress(data).value;
    assert compressed != [];
    Cipher.DecryptEncrypt(compressed, sessionKey);
    Cipher.EncryptedLength(compressed, sessionKey);
    var text := Cipher.Encrypted(compressed, sessionKey).value;
    assert w[..4] == BE32(Truncate(|text|)) && w[4..] == text;
    WordBytes(Truncate(|text|));
  }

  lemma SizeLimits(n: nat)
    ensures Cipher.CipherLength(n) <= MAX_FRAME_SIZE <==> n <= MAX_PASSING
    ensures 4 + Cipher.CipherLength(n) <= MAX_BUFFER_SIZE <==> n <= MAX_BUFFERED
  {
  }

  /** A whole frame in front of anything is given back, with exactly its bytes removed, up to 16 MiB. */
  lemma ExtractFramed(z: Codec, data: seq<byte>, sessionKey: seq<byte>, w: seq<byte>, n: nat, rest: seq<byte>)
    requires FrameOf(z, data, sessionKey, w, n)
    ensures Extract(z, w + rest) == Extraction(Complete(data), rest) <==> n <= MAX_PASSING
  {
    hide FromBE32, Opened, Framed, Cipher.CipherLength;
    FrameShape(z, data, sessionKey, w, n);
    SizeLimits(n);
    var size, b := Cipher.CipherLength(n), w + rest;
    assert b[..4] == w[..4];
    if size <= MAX_FRAME_SIZE {
      assert b[4..4 + size] == w[4..] && b[4 + size..] == rest;
    } else if size < WORD {
      assert FromBE32(b[..4]) == size;
    } else {
      assert FromBE32(b[..4]) < size;
    }
  }

  /** Before its last byte has arrived a frame is never taken for complete or wrong. */
  lemma ExtractPartial(z: Codec, data: seq<byte>, sessionKey: seq<byte>, w: seq<byte>, n: nat, part: seq<byte>)
    requires FrameOf(z, data, sessionKey, w, n) && n <= MAX_PASSING && part < w
    ensures Extract(z, part) == Extraction(Incomplete, part)
  {
    hide FromBE32, Opened, Framed, Cipher.CipherLength;
    FrameShape(z, data, sessionKey, w, n);
    SizeLimits(n);
    if |part| >= 4 { assert part[..4] == w[..4]; }
  }

  /** Every request whose fields have 32-bit sizes survives the whole stack. */
  lemma RequestEndToEnd(z: Codec, r: Request, sessionKey: seq<byte>, w: seq<byte>, n: nat, rest: seq<byte>)
    requires FrameOf(z, SerializedRequest(r), sessionKey, w, n) && n <= MAX_PASSING
    ensures var x := Extract(z, w + rest);
            && x.status.Complete? && x.rest == rest
            && ParseRequest(x.status.frame) == Some(CutRequest(r))
            && (ParseRequest(x.status.frame) == Some(r) <==> Sized(r))
  {
    hide Extract, ParseRequest, SerializedRequest, Framed;
    ExtractFramed(z, SerializedRequest(r), sessionKey, w, n, rest);
    ParseSerializedRequest(r, []);
    assert SerializedRequest(r) + [] == SerializedRequest(r);
  }

  lemma ResponseEndToEnd(z: Codec, r: Response, sessionKey: seq<byte>, w: seq<byte>, n: nat, rest: seq<byte>)
    requires FrameOf(z, SerializedResponse(r), sessionKey, w, n) && n <= MAX_PASSING
    ensures var x := Extract(z, w + rest);
            && x.status.Complete? && x.rest == rest
            && (ParseResponse(x.status.frame) == Parsed(r) <==> ResponseSized(r))
  {
    hide Extract, ParseResponse, SerializedResponse, Framed;
    ExtractFramed(z, SerializedResponse(r), sessionKey, w, n, rest);
    ParseSerializedResponse(r);
  }

  /** What is serialized is a message, so only compression can refuse to frame it. */
  lemma SerializedAreMessages(r: Request, p: Response)
    ensures IsMessage(SerializedRequest(r)) && IsMessage(SerializedResponse(p))
  {
    hide Header, FromLE32;
    HeaderWords(RequestBodySize(r), r.sequenceId, SerializedRequest(r)[HEADER_SIZE..]);
    assert SerializedRequest(r) == Header(RequestBodySize(r), r.sequenceId) + SerializedRequest(r)[HEADER_SIZE..];
    HeaderWords(ResponseBodySize(p), p.sequenceId, SerializedResponse(p)[HEADER_SIZE..]);
    assert SerializedResponse(p) == Header(ResponseBodySize(p), p.sequenceId) + SerializedResponse(p)[HEADER_SIZE..];
  }

  // ----- what the buffer limit lets through -----

  /** The stream cut into full reads. */
  function Slices(w: seq<byte>): (s: seq<ReadResult>)
    ensures AllLegal(s)
  {
    if w == [] then [] else if |w| <= READ_SIZE then [Data(w)] else [Data(w[..READ_SIZE])] + Slices(w[READ_SIZE..])
  }

  lemma {:induction false} ReadSlices(buffer: seq<byte>, w: seq<byte>)
    requires |buffer| + |w| <= MAX_BUFFER_SIZE
    ensures ReadInto(buffer, Slices(w)) == (true, buffer + w)
    decreases |w|
  {
    if w == [] {
      assert buffer + w == buffer;
    } else if |w| > READ_SIZE {
      ReadSlices(buffer + w[..READ_SIZE], w[READ_SIZE..]);
      assert buffer + w[..READ_SIZE] + w[READ_SIZE..] == buffer + w;
      assert Slices(w)[1..] == Slices(w[READ_SIZE..]);
    } else if |w| == READ_SIZE {
      assert Slices(w)[1..] == [];
    }
  }

  /** Some successful reads of the stream `w + more` into an empty buffer let `data` be extracted. */
  ghost predicate Deliverable(z: Codec, w: seq<byte>, data: seq<byte>) {
    exists input, more ::
      AllLegal(input) && ReadInto([], input).0 && ReadInto([], input).1 <= w + more
      && Extract(z, ReadInto([], input).1).status == Complete(data)
  }

  /** What the length prefix says of `n` compressed bytes: their ciphertext's size modulo 2^32. */
  function Prefixed(n: nat): nat { Truncate(Cipher.CipherLength(n)) }

  /** What opening a frame gives whose prefix covers only `p` characters of the ciphertext of `compressed`. */
  function CutShort(z: Codec, compressed: seq<byte>, p: nat): FrameStatus
    requires p / 4 * 3 <= Cipher.KEY_LENGTH + |compressed|
  {
    var k := p / 4 * 3;
    Unpacked(z, if k <= Cipher.KEY_LENGTH then None else Some(compressed[..k - Cipher.KEY_LENGTH]))
  }

  /** From 4 GiB on the prefix is smaller than the ciphertext by a multiple of 2^32. */
  lemma PrefixTooSmall(n: nat)
    requires Cipher.CipherLength(n) >= WORD
    ensures Prefixed(n) < Cipher.CipherLength(n) && Prefixed(n) % 4 == 0
    ensures Prefixed(n) / 4 * 3 <= Cipher.KEY_LENGTH + n
  {
    var q := (Cipher.KEY_LENGTH + n + 2) / 3;
    var p := q % 0x4000_0000;
    assert q == q / 0x4000_0000 * 0x4000_0000 + p;
    assert 4 * q == q / 0x4000_0000 * WORD + 4 * p;
    assert Prefixed(n) == 4 * p;
  }

  lemma OpenedShort(z: Codec, data: seq<byte>, sessionKey: seq<byte>, w: seq<byte>, n: nat)
    requires FrameOf(z, data, sessionKey, w, n) && Cipher.CipherLength(n) >= WORD
    ensures var p := Prefixed(n);
            && p / 4 * 3 <= Cipher.KEY_LENGTH + n && 4 + p < |w|
            && Opened(z, w[4..4 + p]) == CutShort(z, z.compress(data).value, p)
  {
    hide Cipher.Encrypted, Cipher.Decrypted, Cipher.CipherLength, FromBE32, BE32;
    var compressed, p := z.compress(data).value, Prefixed(n);
    assert compressed != [];
    PrefixTooSmall(n);
    FrameShape(z, data, sessionKey, w, n);
    Cipher.DecryptEncrypt(compressed, sessionKey);
    Cipher.DecryptCut(compressed, sessionKey, p);
    assert w[4..4 + p] == Cipher.Encrypted(compressed, sessionKey).value[..p];
  }

  /** Whether a frame too long for the buffer is taken for complete all the same, because its prefix lies. */
  predicate PassesCut(z: Codec, compressed: seq<byte>, size: nat, f: seq<byte>) {
    var n := |compressed|;
    && Cipher.CipherLength(n) >= WORD && 4 + Prefixed(n) <= size
    && Prefixed(n) / 4 * 3 <= Cipher.KEY_LENGTH + n && CutShort(z, compressed, Prefixed(n)) == Complete(f)
  }

  /**
   What a buffer of the connection's size makes of the start of a longer frame: below 4 GiB of ciphertext
   nothing is ever complete; beyond, exactly what the truncated length prefix cuts out and decompression accepts.
   */
  lemma TooLongComplete(z: Codec, data: seq<byte>, sessionKey: seq<byte>, w: seq<byte>, n: nat,
                        buffer: seq<byte>, more: seq<byte>, f: seq<byte>)
    requires FrameOf(z, data, sessionKey, w, n) && MAX_BUFFERED < n
    requires |buffer| <= MAX_BUFFER_SIZE && buffer <= w + more
    ensures Extract(z, buffer).status == Complete(f) <==> PassesCut(z, z.compress(data).value, |buffer|, f)
  {
    hide FromBE32, Opened, Framed, Cipher.CipherLength, CutShort;
    FrameShape(z, data, sessionKey, w, n);
    SizeLimits(n);
    if |buffer| >= 4 { assert buffer[..4] == w[..4]; }
    if Cipher.CipherLength(n) >= WORD {
      OpenedShort(z, data, sessionKey, w, n);
      var p := Prefixed(n);
      if |buffer| >= 4 + p { assert buffer[4..4 + p] == w[4..4 + p]; }
    }
  }

  /** Reads that bring the whole frame without end or error, in whatever sizes, all succeed and complete it. */
  lemma AlwaysDelivered(z: Codec, data: seq<byte>, sessionKey: seq<byte>, w: seq<byte>, n: nat, input: seq<ReadResult>)
    requires FrameOf(z, data, sessionKey, w, n) && n <= MAX_BUFFERED && Calm(input) && Delivered(input) == w
    ensures ReadInto([], input) == (true, w) && Extract(z, w) == Extraction(Complete(data), [])
  {
    hide Extract, Framed, Cipher.CipherLength;
    FrameShape(z, data, sessionKey, w, n);
    SizeLimits(n);
    ReadFits([], input);
    ExtractFramed(z, data, sessionKey, w, n, []);
    assert w + [] == w && [] + w == w;
  }

  lemma PrefixDelivers(z: Codec, w: seq<byte>, part: seq<byte>, data: seq<byte>)
    requires part <= w && |part| <= MAX_BUFFER_SIZE && Extract(z, part).status == Complete(data)
    ensures Deliverable(z, w, data)
  {
    ReadSlices([], part);
    assert [] + part == part && part <= w + [];
    assert ReadInto([], Slices(part)).1 <= w + [];
  }

  /**
   The exact bound, for every frame: it can be delivered if and only if it has at most 786397 compressed
   bytes, or is so long that its truncated prefix cuts out a piece which decompresses to the same message.
   */
  lemma DeliverableExactly(z: Codec, data: seq<byte>, sessionKey: seq<byte>, w: seq<byte>, n: nat)
    requires FrameOf(z, data, sessionKey, w, n)
    ensures Deliverable(z, w, data) <==>
            n <= MAX_BUFFERED || PassesCut(z, z.compress(data).value, MAX_BUFFER_SIZE, data)
  {
    hide Extract, Framed, Cipher.CipherLength, CutShort, FrameOf;
    FrameShape(z, data, sessionKey, w, n);
    SizeLimits(n);
    if n <= MAX_BUFFERED {
      ExtractFramed(z, data, sessionKey, w, n, []);
      assert w + [] == w;
      PrefixDelivers(z, w, w, data);
    } else {
      LongDeliverable(z, data, sessionKey, w, n);
    }
  }

  lemma LongDeliverable(z: Codec, data: seq<byte>, sessionKey: seq<byte>, w: seq<byte>, n: nat)
    requires FrameOf(z, data, sessionKey, w, n) && n > MAX_BUFFERED
    ensures Deliverable(z, w, data) <==> PassesCut(z, z.compress(data).value, MAX_BUFFER_SIZE, data)
  {
    hide Extract, Framed, Cipher.CipherLength, CutShort;
    FrameShape(z, data, sessionKey, w, n);
    if PassesCut(z, z.compress(data).value, MAX_BUFFER_SIZE, data) {
      PrefixTooSmall(n);
      var part := w[..4 + Prefixed(n)];
      assert part <= w + [];
      TooLongComplete(z, data, sessionKey, w, n, part, [], data);
      PrefixDelivers(z, w, part, data);
    }
    if Deliverable(z, w, data) {
      var input, more :| AllLegal(input) && ReadInto([], input).0 && ReadInto([], input).1 <= w + more
                         && Extract(z, ReadInto([], input).1).status == Complete(data);
      ReadAppends([], input);
      TooLongComplete(z, data, sessionKey, w, n, ReadInto([], input).1, more, data);
    }
  }

  /** A codec that appends 3 GiB of zeros and takes them off again, where it finds that many bytes. */
  const PADDING: nat := 0xC000_0000

  function Padding(): Codec {
    Codec(x => Some(x + Zeros(PADDING)), y => Some(if |y| >= PADDING then y[..|y| - PADDING] else y))
  }

  lemma PaddingRoundTrips()
    ensures RoundTrips(Padding())
  {
    assert forall x: seq<byte> :: (x + Zeros(PADDING))[..|x|] == x;
  }

  lemma PaddingCut(data: seq<byte>, p: nat)
    requires IsMessage(data) && |data| < PADDING && p / 4 * 3 == Cipher.KEY_LENGTH + |data|
    ensures CutShort(Padding(), data + Zeros(PADDING), p) == Complete(data)
  {
    hide Zeros;
    assert (data + Zeros(PADDING))[..|data|] == data;
  }

  /** Beyond 4 GiB the bound does fail: with that codec a message of a fitting size is delivered. */
  lemma HugeDelivered(data: seq<byte>, sessionKey: seq<byte>)
    requires IsMessage(data) && |sessionKey| == Cipher.KEY_LENGTH && |data| % 3 == 1 && |data| <= MAX_BUFFERED
    ensures var w := Framed(Padding(), data, sessionKey);
            w.Some? && |data| + PADDING > MAX_BUFFERED && Deliverable(Padding(), w.value, data)
  {
    var z, c, n := Padding(), data + Zeros(PADDING), |data| + PADDING;
    assert z.compress(data) == Some(c) && |c| == n;
    PaddingRoundTrips();
    HugePrefix(|data|);
    PaddingCut(data, Prefixed(n));
    hide Zeros, Padding, CutShort, RoundTrips, FrameOf, Framed, Cipher.CipherLength, Prefixed, Deliverable;
    HasFrame(z, data, sessionKey);
    DeliverableExactly(z, data, sessionKey, Framed(z, data, sessionKey).value, n);
  }

  lemma HugePrefix(m: nat)
    requires m % 3 == 1 && m <= MAX_BUFFERED
    ensures Cipher.CipherLength(m + PADDING) >= WORD
    ensures Prefixed(m + PADDING) / 4 * 3 == Cipher.KEY_LENGTH + m && 4 + Prefixed(m + PADDING) <= MAX_BUFFER_SIZE
  {
    var j := (m + 32) / 3;
    assert m + 32 == 3 * j;
    assert (Cipher.KEY_LENGTH + m + PADDING + 2) / 3 == j + 0x4000_0000;
    assert Cipher.CipherLength(m + PADDING) == 4 * j + WORD;
  }

  // ----- streams -----

  /** The requests in front of the first bad frame, what is left, and whether there was a bad frame. */
  datatype Drained = Drained(requests: seq<Request>, rest: seq<byte>, bad: bool)

  /** The frame loop of `HandleClientData`. */
  function Drain(z: Codec, buffer: seq<byte>): Drained
    decreases |buffer|
  {
    var x := Extract(z, buffer);
    match x.status
    case Incomplete => Drained([], x.rest, false)
    case Error => Drained([], x.rest, true)
    case Complete(frame) =>
      match ParseRequest(frame)
      case None => Drained([], x.rest, true)
      case Some(r) => var d := Drain(z, x.rest); d.(requests := [r] + d.requests)
  }

  /** One turn of the frame loop. */
  lemma DrainOne(z: Codec, buffer: seq<byte>)
    ensures var x, d := Extract(z, buffer), Drain(z, buffer);
            match x.status
            case Incomplete => d == Drained([], buffer, false) && x.rest == buffer
            case Error => d == Drained([], x.rest, true)
            case Complete(frame) =>
              && |x.rest| < |buffer|
              && (ParseRequest(frame).None? ==> d == Drained([], x.rest, true))
              && (ParseRequest(frame).Some? ==>
                    d == Drain(z, x.rest).(requests := [ParseRequest(frame).value] + Drain(z, x.rest).requests))
  {
    hide ParseRequest;
  }

  /** Only one outcome is as `Cuts` says. */
  lemma CutsOnce(z: Codec, b: seq<byte>, status: FrameStatus, rest: seq<byte>)
    requires Cuts(z, b, status, rest)
    ensures Extract(z, b) == Extraction(status, rest)
  {
    ExtractCuts(z, b);
    hide Extract, Opens;
    var x := Extract(z, b);
    if status.Complete? { assert x.status == Complete(status.frame); }
    if x.status.Complete? { assert status == Complete(x.status.frame); }
  }

  /** Each of `ws` is a whole frame that holds the request of the same place in `rs`. */
  ghost predicate Holds(z: Codec, ws: seq<seq<byte>>, rs: seq<Request>) {
    |ws| == |rs| && forall i :: 0 <= i < |ws| ==> HoldsOne(z, ws[i], rs[i])
  }

  ghost predicate HoldsOne(z: Codec, w: seq<byte>, r: Request) {
    exists f :: Cuts(z, w, Complete(f), []) && ParseRequest(f) == Some(r)
  }

  /** A frame in front is one request in front. */
  lemma DrainFirst(z: Codec, w: seq<byte>, r: Request, more: seq<byte>)
    requires HoldsOne(z, w, r)
    ensures var d := Drain(z, more); Drain(z, w + more) == d.(requests := [r] + d.requests)
  {
    hide Cuts, Extract, ParseRequest;
    var f :| Cuts(z, w, Complete(f), []) && ParseRequest(f) == Some(r);
    CutsOnce(z, w, Complete(f), []);
    ExtractMore(z, w, more);
    assert [] + more == more;
    DrainOne(z, w + more);
  }

  /**
   What is drained from a buffer: the requests of the whole frames in front, each once and in order, up to the
   first bytes that are no whole frame of a request.  Too few bytes stay; a corrupt frame, and a whole one that
   holds no request, is bad.
   */
  lemma {:induction false} DrainExactly(z: Codec, ws: seq<seq<byte>>, rs: seq<Request>, tail: seq<byte>,
                                        status: FrameStatus, rest: seq<byte>)
    requires Holds(z, ws, rs) && Cuts(z, tail, status, rest)
    requires status.Complete? ==> ParseRequest(status.frame).None?
    ensures Drain(z, Concat(ws) + tail) == Drained(rs, rest, !status.Incomplete?)
    decreases |ws|
  {
    hide Cuts, HoldsOne, Extract, ParseRequest, Drain;
    if ws == [] {
      assert Concat(ws) + tail == tail;
      CutsOnce(z, tail, status, rest);
      DrainOne(z, tail);
    } else {
      DrainExactly(z, ws[1..], rs[1..], tail, status, rest);
      DrainFirst(z, ws[0], rs[0], Concat(ws[1..]) + tail);
      assert Concat(ws) + tail == ws[0] + (Concat(ws[1..]) + tail);
      assert [rs[0]] + rs[1..] == rs;
    }
  }

  /** Every buffer is of that form. */
  lemma {:induction false} DrainCovers(z: Codec, buffer: seq<byte>)
    returns (ws: seq<seq<byte>>, rs: seq<Request>, tail: seq<byte>, status: FrameStatus, rest: seq<byte>)
    ensures buffer == Concat(ws) + tail && Holds(z, ws, rs) && Cuts(z, tail, status, rest)
    ensures status.Complete? ==> ParseRequest(status.frame).None?
    decreases |buffer|
  {
    hide Cuts, Extract, ParseRequest;
    var x := Extract(z, buffer);
    ExtractCuts(z, buffer);
    ws, rs, tail, status, rest := [], [], buffer, x.status, x.rest;
    if x.status.Complete? && ParseRequest(x.status.frame).Some? {
      ExtractKeeps(z, buffer);
      var w := FrameInFront(z, buffer);
      ws, rs, tail, status, rest := DrainCovers(z, x.rest);
      assert HoldsOne(z, w, ParseRequest(x.status.frame).value);
      assert Concat([w] + ws) == w + Concat(ws) by { assert ([w] + ws)[1..] == ws; }
      ws, rs := [w] + ws, [ParseRequest(x.status.frame).value] + rs;
    } else {
      assert Concat(ws) + tail == buffer;
    }
  }

  lemma FrameInFront(z: Codec, buffer: seq<byte>) returns (w: seq<byte>)
    requires Extract(z, buffer).status.Complete?
    ensures buffer == w + Extract(z, buffer).rest && Cuts(z, w, Extract(z, buffer).status, [])
  {
    hide Opens, Extract;
    ExtractCuts(z, buffer);
    var x := Extract(z, buffer);
    w := buffer[..|buffer| - |x.rest|];
    assert w[4..|w|] == buffer[4..|w|] && w[|w|..] == [];
    forall f | x.status == Complete(f) ensures Opens(z, w[4..|w|], f) {}
    forall f | Opens(z, w[4..|w|], f) ensures x.status == Complete(f) {}
  }

  /** `first` followed by what `second` finds. */
  function Then(first: Drained, second: Drained): Drained {
    Drained(first.requests + second.requests, second.rest, second.bad)
  }

  /** One call of `HandleClientData` for each chunk, until one removes the connection. */
  function Feed(z: Codec, buffer: seq<byte>, chunks: seq<seq<byte>>): Drained
    decreases |chunks|
  {
    if chunks == [] then Drained([], buffer, false)
    else
      var d := Drain(z, buffer + chunks[0]);
      if d.bad then d else Then(d, Feed(z, d.rest, chunks[1..]))
  }

  function Concat(chunks: seq<seq<byte>>): seq<byte> {
    if chunks == [] then [] else chunks[0] + Concat(chunks[1..])
  }

  lemma ThenAssociates(r: Request, d: Drained, e: Drained)
    ensures Then(d.(requests := [r] + d.requests), e) == Then(d, e).(requests := [r] + Then(d, e).requests)
  {
    assert ([r] + d.requests) + e.requests == [r] + (d.requests + e.requests);
  }

  /** Draining twice is draining once. */
  lemma {:induction false} DrainMore(z: Codec, buffer: seq<byte>, more: seq<byte>)
    ensures var d, all := Drain(z, buffer), Drain(z, buffer + more);
            all == if d.bad then d.(rest := d.rest + more) else Then(d, Drain(z, d.rest + more))
    decreases |buffer|
  {
    hide Extract, ParseRequest;
    var x := Extract(z, buffer);
    ExtractKeeps(z, buffer);
    if x.status.Incomplete? {
      assert Then(Drained([], buffer, false), Drain(z, buffer + more)) == Drain(z, buffer + more);
    } else {
      ExtractMore(z, buffer, more);
      if x.status.Complete? && ParseRequest(x.status.frame).Some? {
        DrainMore(z, x.rest, more);
        var d := Drain(z, x.rest);
        ThenAssociates(ParseRequest(x.status.frame).value, d, Drain(z, d.rest + more));
      }
    }
  }

  lemma ExtractKeeps(z: Codec, buffer: seq<byte>)
    ensures var x := Extract(z, buffer);
            (x.status.Complete? ==> |x.rest| < |buffer|) && (x.status.Incomplete? ==> x.rest == buffer)
  {
  }

  /** What a loop that found no bad frame leaves is shorter than one whole frame. */
  lemma {:induction false} ResidueIncomplete(z: Codec, buffer: seq<byte>)
    requires !Drain(z, buffer).bad
    ensures Extract(z, Drain(z, buffer).rest).status.Incomplete?
    decreases |buffer|
  {
    hide ParseRequest;
    var x := Extract(z, buffer);
    if x.status.Complete? { ResidueIncomplete(z, x.rest); }
  }

  /**
   However a byte stream is cut into chunks, the requests dispatched are those of parsing it in one piece,
   a bad frame is met in one case exactly when in the other, and the bytes left over are the same.
   */
  lemma {:induction false} ChunkingIndependent(z: Codec, buffer: seq<byte>, chunks: seq<seq<byte>>)
    requires Extract(z, buffer).status.Incomplete?
    ensures var one, many := Drain(z, buffer + Concat(chunks)), Feed(z, buffer, chunks);
            && many.requests == one.requests && many.bad == one.bad
            && (!one.bad ==> many.rest == one.rest && Extract(z, one.rest).status.Incomplete?)
    decreases |chunks|
  {
    hide Extract, ParseRequest;
    ExtractKeeps(z, buffer);
    if chunks == [] {
      assert buffer + Concat(chunks) == buffer;
    } else {
      var first, rest := buffer + chunks[0], Concat(chunks[1..]);
      assert buffer + Concat(chunks) == first + rest;
      DrainMore(z, first, rest);
      var d := Drain(z, first);
      if !d.bad {
        ResidueIncomplete(z, first);
        ChunkingIndependent(z, d.rest, chunks[1..]);
      }
    }
  }

  /** The bytes a `Read` takes from the socket when it succeeds. */
  function Delivered(input: seq<ReadResult>): seq<byte> {
    if input == [] || !input[0].Data? then []
    else if |input[0].bytes| < READ_SIZE then input[0].bytes
    else input[0].bytes + Delivered(input[1..])
  }

  lemma {:induction false} ReadDelivers(buffer: seq<byte>, input: seq<ReadResult>)
    requires ReadInto(buffer, input).0
    ensures ReadInto(buffer, input).1 == buffer + Delivered(input)
    decreases |input|
  {
    if input == [] || input[0].WouldBlock? {
      assert buffer + [] == buffer;
    } else if |input[0].bytes| >= READ_SIZE {
      ReadDelivers(buffer + input[0].bytes, input[1..]);
      assert buffer + input[0].bytes + Delivered(input[1..]) == buffer + (input[0].bytes + Delivered(input[1..]));
    }
  }

  /** Without end or error a `Read` succeeds as long as what it reads fits the buffer. */
  lemma {:induction false} ReadFits(buffer: seq<byte>, input: seq<ReadResult>)
    requires Calm(input) && |buffer| + |Delivered(input)| <= MAX_BUFFER_SIZE
    ensures ReadInto(buffer, input) == (true, buffer + Delivered(input))
    decreases |input|
  {
    if input != [] && input[0].Data? && |input[0].bytes| >= READ_SIZE {
      assert Legal(input[0]);
      ReadFits(buffer + input[0].bytes, input[1..]);
    }
    if ReadInto(buffer, input).0 { ReadDelivers(buffer, input); }
  }

  /** `HandleClientData` called once per readable event; `bad` means the connection was removed. */
  function Serve(z: Codec, buffer: seq<byte>, events: seq<seq<ReadResult>>): Drained
    decreases |events|
  {
    if events == [] then Drained([], buffer, false)
    else
      var (ok, read) := ReadInto(buffer, events[0]);
      if !ok then Drained([], read, true)
      else
        var d := Drain(z, read);
        if d.bad then d else Then(d, Serve(z, d.rest, events[1..]))
  }

  /** Every `Read` up to the removal of the connection succeeds. */
  predicate ReadsSucceed(z: Codec, buffer: seq<byte>, events: seq<seq<ReadResult>>)
    decreases |events|
  {
    events == []
    || (ReadInto(buffer, events[0]).0
        && (var d := Drain(z, ReadInto(buffer, events[0]).1); d.bad || ReadsSucceed(z, d.rest, events[1..])))
  }

  lemma {:induction false} DrainShrinks(z: Codec, buffer: seq<byte>)
    ensures |Drain(z, buffer).rest| <= |buffer|
    decreases |buffer|
  {
    hide ParseRequest;
    DrainOne(z, buffer);
    var x := Extract(z, buffer);
    if x.status.Complete? && ParseRequest(x.status.frame).Some? { DrainShrinks(z, x.rest); }
  }

  /** Without end or error every `Read` of a stream that fits the buffer succeeds. */
  lemma {:induction false} CalmReadsSucceed(z: Codec, buffer: seq<byte>, events: seq<seq<ReadResult>>)
    requires (forall e :: e in events ==> Calm(e)) && |buffer| + |Concat(Chunks(events))| <= MAX_BUFFER_SIZE
    ensures ReadsSucceed(z, buffer, events)
    decreases |events|
  {
    hide Drain, ReadInto, Calm, Delivered;
    if events != [] {
      assert Chunks(events)[1..] == Chunks(events[1..]);
      assert Concat(Chunks(events)) == Delivered(events[0]) + Concat(Chunks(events[1..]));
      ReadFits(buffer, events[0]);
      DrainShrinks(z, buffer + Delivered(events[0]));
      var d := Drain(z, buffer + Delivered(events[0]));
      if !d.bad { CalmReadsSucceed(z, d.rest, events[1..]); }
    }
  }

  function Chunks(events: seq<seq<ReadResult>>): seq<seq<byte>> {
    if events == [] then [] else [Delivered(events[0])] + Chunks(events[1..])
  }

  /** The server dispatches exactly the requests of the byte stream, in order, up to the first bad frame. */
  lemma {:induction false} ServeParsesStream(z: Codec, buffer: seq<byte>, events: seq<seq<ReadResult>>)
    requires Extract(z, buffer).status.Incomplete? && ReadsSucceed(z, buffer, events)
    ensures var one, served := Drain(z, buffer + Concat(Chunks(events))), Serve(z, buffer, events);
            && served.requests == one.requests && served.bad == one.bad
            && (!one.bad ==> served.rest == one.rest)
  {
    ServeFeeds(z, buffer, events);
    ChunkingIndependent(z, buffer, Chunks(events));
  }

  lemma {:induction false} ServeFeeds(z: Codec, buffer: seq<byte>, events: seq<seq<ReadResult>>)
    requires ReadsSucceed(z, buffer, events)
    ensures Serve(z, buffer, events) == Feed(z, buffer, Chunks(events))
    decreases |events|
  {
    hide Extract, ParseRequest, ReadInto;
    if events != [] {
      ReadDelivers(buffer, events[0]);
      assert Chunks(events)[1..] == Chunks(events[1..]);
      var d := Drain(z, buffer + Delivered(events[0]));
      if !d.bad { ServeFeeds(z, d.rest, events[1..]); }
    }
  }
}
