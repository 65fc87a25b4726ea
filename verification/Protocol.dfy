/** The binary request and response of rpc_src/protocol. The host is little-endian; a `uint32_t` length
    keeps a size only modulo 2^32, and then only that many bytes of the field are written. */
module Protocol {
  import opened Bytes

  const MAGIC: u32 := 0x1234_5678
  const HEADER_SIZE: nat := 12

  datatype Request = Request(sequenceId: u32, service: seq<byte>, procedure: seq<byte>, payload: seq<byte>)

  datatype Response = Response(sequenceId: u32, errorCode: u32, result: seq<byte>, message: seq<byte>)

  // ----- writing -----

  function Header(bodySize: nat, sequenceId: u32): (s: seq<byte>)
    ensures |s| == HEADER_SIZE
  {
    LE32(MAGIC) + LE32(Truncate(bodySize)) + LE32(sequenceId)
  }

  /** As much of the text as its truncated length says. */
  function Cut(s: seq<byte>): (c: seq<byte>)
    ensures |c| == Truncate(|s|) && c <= s
    ensures c == s <==> |s| < WORD
  {
    s[..Truncate(|s|)]
  }

  function Field(s: seq<byte>): (f: seq<byte>)
    ensures |f| == 4 + Truncate(|s|)
  {
    LE32(Truncate(|s|)) + Cut(s)
  }

  function Zeros(n: nat): (z: seq<byte>)
    ensures |z| == n
  {
    seq(n, _ => 0)
  }

  function RequestBody(r: Request): seq<byte> { Field(r.service) + Field(r.procedure) + Field(r.payload) }

  function RequestBodySize(r: Request): nat { |r.service| + |r.procedure| + |r.payload| + 12 }

  function SerializedRequest(r: Request): seq<byte>
    ensures |SerializedRequest(r)| == HEADER_SIZE + RequestBodySize(r)
  {
    Header(RequestBodySize(r), r.sequenceId) + RequestBody(r) + Zeros(RequestBodySize(r) - |RequestBody(r)|)
  }

  function ResponseBody(r: Response): seq<byte> {
    Field(r.result) + Field(r.message) + LE32(r.errorCode) + LE32(r.sequenceId)
  }

  function ResponseBodySize(r: Response): nat { |r.result| + |r.message| + 16 }

  function SerializedResponse(r: Response): seq<byte>
    ensures |SerializedResponse(r)| == HEADER_SIZE + ResponseBodySize(r)
  {
    Header(ResponseBodySize(r), r.sequenceId) + ResponseBody(r) + Zeros(ResponseBodySize(r) - |ResponseBody(r)|)
  }

  // ----- reading -----

  function WordAt(s: seq<byte>, pos: nat): u32
    requires pos + 4 <= |s|
  {
    FromLE32(s[pos..pos + 4])
  }

  /** The length-prefixed field `s` starts with and what comes after it, if it fits. */
  function Take(s: seq<byte>): Option<(seq<byte>, seq<byte>)> {
    if |s| < 4 then None
    else
      var len := FromLE32(s[..4]);
      if len > |s| - 4 then None else Some((s[4..4 + len], s[4 + len..]))
  }

  /** The fields before the first that does not fit, at most three. */
  function TakeThree(s: seq<byte>): (f: seq<seq<byte>>)
    ensures |f| <= 3
  {
    match Take(s)
    case None => []
    case Some((a, s1)) =>
      match Take(s1)
      case None => [a]
      case Some((b, s2)) =>
        match Take(s2)
        case None => [a, b]
        case Some((c, _)) => [a, b, c]
  }

  function RequestFields(s: seq<byte>): (f: seq<seq<byte>>)
    ensures |f| <= 3
    ensures |f| > 0 ==> |s| >= HEADER_SIZE && WordAt(s, 0) == MAGIC
  {
    if |s| < HEADER_SIZE || WordAt(s, 0) != MAGIC then [] else TakeThree(s[HEADER_SIZE..])
  }

  function ParseRequest(s: seq<byte>): Option<Request> {
    var f := RequestFields(s);
    if |f| == 3 then Some(Request(WordAt(s, 8), f[0], f[1], f[2])) else None
  }

  /** `Overrun`: the code copies four bytes that are not all inside the string. */
  datatype ResponseOutcome = Parsed(response: Response) | Rejected | Overrun

  function ParseResponseBody(s: seq<byte>): ResponseOutcome {
    if |s| < 4 then Overrun
    else if Take(s).None? then Rejected
    else
      var (result, s1) := Take(s).value;
      if |s1| < 4 then Overrun
      else if Take(s1).None? then Rejected
      else
        var (message, s2) := Take(s1).value;
        if |s2| < 8 then Overrun else Parsed(Response(WordAt(s2, 4), WordAt(s2, 0), result, message))
  }

  predicate ResponseHeaderOk(s: seq<byte>) {
    |s| >= HEADER_SIZE && WordAt(s, 0) == MAGIC && |s| == HEADER_SIZE + WordAt(s, 4)
  }

  function ParseResponse(s: seq<byte>): ResponseOutcome {
    if !ResponseHeaderOk(s) then Rejected
    else ParseResponseBody(s[HEADER_SIZE..])
  }

  // ----- the classes of the source -----

  class RpcRequest {
    var sequenceId: u32
    var service: seq<byte>
    var procedure: seq<byte>
    var payload: seq<byte>

    constructor ()
      ensures View() == Request(0, [], [], [])
    {
      sequenceId, service, procedure, payload := 0, [], [], [];
    }

    function View(): Request
      reads this
    {
      Request(sequenceId, service, procedure, payload)
    }

    method Serialize() returns (out: array<byte>)
      ensures fresh(out) && out[..] == SerializedRequest(View())
      ensures out.Length == 24 + |service| + |procedure| + |payload|
      ensures RequestText(out[..], View())
    {
      hide Header, Field, Zeros, RequestText;
      RequestWritten(View());
      var bodySize := |service| + |procedure| + |payload| + 12;
      out := NewBuffer(bodySize, sequenceId);
      var pos := HEADER_SIZE;
      pos := WriteField(out, pos, service);
      pos := WriteField(out, pos, procedure);
      pos := WriteField(out, pos, payload);
      ghost var header := Header(bodySize, sequenceId);
      assert out[..pos] == header + Field(service) + Field(procedure) + Field(payload) == header + RequestBody(View());
      ZerosOnly(out[pos..]);
    }

    /** A failing parse keeps the fields it had already stored. */
    method Deserialize(input: seq<byte>) returns (ok: bool)
      modifies this
      ensures ok <==> ParseRequest(input).Some?
      ensures ok ==> View() == ParseRequest(input).value
      ensures ok ==> RequestAt(input, View())
      ensures !ok ==> NoRequest(input)
      ensures !ok ==> sequenceId == old(sequenceId)
      ensures var f := RequestFields(input);
              && service == (if |f| > 0 then f[0] else old(service))
              && procedure == (if |f| > 1 then f[1] else old(procedure))
              && payload == (if |f| > 2 then f[2] else old(payload))
    {
      hide FromLE32, Take, RequestAt, NoRequest;
      RequestRead(input);
      if |input| < HEADER_SIZE {
        return false;
      }
      if WordAt(input, 0) != MAGIC {
        return false;
      }
      var pos := HEADER_SIZE;
      TakeAt(input, pos);
      if pos + 4 > |input| {
        return false;
      }
      var len := WordAt(input, pos);
      pos := pos + 4;
      if len > |input| - pos {
        return false;
      }
      service := input[pos..pos + len];
      pos := pos + len;
      TakeAt(input, pos);
      if pos + 4 > |input| {
        return false;
      }
      len := WordAt(input, pos);
      pos := pos + 4;
      if len > |input| - pos {
        return false;
      }
      procedure := input[pos..pos + len];
      pos := pos + len;
      TakeAt(input, pos);
      if pos + 4 > |input| {
        return false;
      }
      len := WordAt(input, pos);
      pos := pos + 4;
      if len > |input| - pos {
        return false;
      }
      payload := input[pos..pos + len];
      sequenceId := WordAt(input, 8);
      return true;
    }
  }

  /** The test the code makes at a position is the one `Take` makes on the rest of the string. */
  lemma TakeAt(s: seq<byte>, pos: nat)
    requires pos <= |s|
    ensures Take(s[pos..]).None? <==> pos + 4 > |s| || WordAt(s, pos) > |s| - (pos + 4)
    ensures pos + 4 <= |s| && WordAt(s, pos) <= |s| - (pos + 4) ==>
              var end := pos + 4 + WordAt(s, pos); Take(s[pos..]) == Some((s[pos + 4..end], s[end..]))
  {
    hide FromLE32;
    if pos + 4 <= |s| { assert s[pos..][..4] == s[pos..pos + 4]; }
    if pos + 4 <= |s| && WordAt(s, pos) <= |s| - (pos + 4) {
      var end := pos + 4 + WordAt(s, pos);
      assert s[pos..][4..end - pos] == s[pos + 4..end] && s[pos..][end - pos..] == s[end..];
    }
  }

  // ----- what lies where -----

  /** The number the four bytes at a position stand for, the least significant first. */
  function LittleEndian(s: seq<byte>, pos: nat): int
    requires pos + 4 <= |s|
  {
    s[pos] as int + s[pos + 1] as int * 0x100 + s[pos + 2] as int * 0x1_0000 + s[pos + 3] as int * 0x100_0000
  }

  predicate StartsWithMagic(s: seq<byte>) { |s| >= 12 && s[..4] == [0x78, 0x56, 0x34, 0x12] }

  /** At this position stands the size of `f`, and then `f`. */
  predicate FieldAt(s: seq<byte>, pos: nat, f: seq<byte>) {
    pos + 4 + |f| <= |s| && LittleEndian(s, pos) == |f| && s[pos + 4..pos + 4 + |f|] == f
  }

  /** The header is 12 bytes: magic number, body size and sequence id; the fields follow one another. */
  predicate RequestAt(s: seq<byte>, r: Request) {
    && StartsWithMagic(s) && LittleEndian(s, 8) == r.sequenceId as int
    && FieldAt(s, 12, r.service)
    && FieldAt(s, 16 + |r.service|, r.procedure)
    && FieldAt(s, 20 + |r.service| + |r.procedure|, r.payload)
  }

  /** Two fields, then the error code and the sequence id. */
  predicate ResponseAt(s: seq<byte>, r: Response) {
    var end := 20 + |r.result| + |r.message|;
    && StartsWithMagic(s) && |s| == 12 + LittleEndian(s, 4) && end + 8 <= |s|
    && FieldAt(s, 12, r.result) && FieldAt(s, 16 + |r.result|, r.message)
    && LittleEndian(s, end) == r.errorCode as int && LittleEndian(s, end + 4) == r.sequenceId as int
  }

  lemma WordIs(s: seq<byte>, pos: nat)
    requires pos + 4 <= |s|
    ensures WordAt(s, pos) as int == LittleEndian(s, pos)
  {
    var t := s[pos..pos + 4];
    assert t[0] == s[pos] && t[1] == s[pos + 1] && t[2] == s[pos + 2] && t[3] == s[pos + 3];
  }

  lemma MagicAt(s: seq<byte>)
    requires |s| >= 4
    ensures WordAt(s, 0) == MAGIC <==> s[..4] == [0x78, 0x56, 0x34, 0x12]
  {
    var m: seq<byte> := [0x78, 0x56, 0x34, 0x12];
    assert s[0..4] == s[..4] && FromLE32(m) == MAGIC;
    BytesWord(s[..4]);
    BytesWord(m);
  }

  lemma FieldIs(s: seq<byte>, pos: nat, f: seq<byte>)
    requires pos <= |s|
    ensures FieldAt(s, pos, f) <==> Take(s[pos..]).Some? && Take(s[pos..]).value.0 == f
    ensures FieldAt(s, pos, f) ==> Take(s[pos..]) == Some((f, s[pos + 4 + |f|..]))
  {
    hide Take, FromLE32, LittleEndian;
    TakeAt(s, pos);
    if pos + 4 <= |s| { WordIs(s, pos); }
  }

  /** A string is taken for a request exactly when it is laid out as one; what follows does not matter. */
  lemma RequestLaidOut(s: seq<byte>, r: Request)
    ensures ParseRequest(s) == Some(r) <==> RequestAt(s, r)
  {
    hide Take, LittleEndian, WordAt, FieldAt;
    if |s| >= HEADER_SIZE {
      MagicAt(s);
      WordIs(s, 8);
      FieldsLaidOut(s, r.service, r.procedure, r.payload);
    }
  }

  lemma FieldsLaidOut(s: seq<byte>, a: seq<byte>, b: seq<byte>, c: seq<byte>)
    requires |s| >= HEADER_SIZE
    ensures TakeThree(s[HEADER_SIZE..]) == [a, b, c] <==>
            FieldAt(s, 12, a) && FieldAt(s, 16 + |a|, b) && FieldAt(s, 20 + |a| + |b|, c)
  {
    hide Take, LittleEndian;
    FieldIs(s, 12, a);
    if FieldAt(s, 12, a) {
      FieldIs(s, 16 + |a|, b);
      if FieldAt(s, 16 + |a|, b) { FieldIs(s, 20 + |a| + |b|, c); }
    }
  }

  lemma ResponseLaidOut(s: seq<byte>, r: Response)
    ensures ParseResponse(s) == Parsed(r) <==> ResponseAt(s, r)
  {
    hide Take, LittleEndian, WordAt, FieldAt, ParseResponseBody;
    if |s| >= HEADER_SIZE {
      MagicAt(s);
      WordIs(s, 4);
      ResponseBodyLaidOut(s, r);
    }
  }

  lemma ResponseBodyLaidOut(s: seq<byte>, r: Response)
    requires |s| >= HEADER_SIZE
    ensures var end := 20 + |r.result| + |r.message|;
            ParseResponseBody(s[HEADER_SIZE..]) == Parsed(r) <==>
            && end + 8 <= |s| && FieldAt(s, 12, r.result) && FieldAt(s, 16 + |r.result|, r.message)
            && LittleEndian(s, end) == r.errorCode as int && LittleEndian(s, end + 4) == r.sequenceId as int
  {
    hide Take, LittleEndian, FromLE32;
    FieldIs(s, 12, r.result);
    if FieldAt(s, 12, r.result) {
      var pos, end := 16 + |r.result|, 20 + |r.result| + |r.message|;
      FieldIs(s, pos, r.message);
      if FieldAt(s, pos, r.message) && end + 8 <= |s| {
        assert s[end..][0..4] == s[end..end + 4] && s[end..][4..8] == s[end + 4..end + 8];
        WordIs(s, end);
        WordIs(s, end + 4);
      }
    }
  }

  /** The string ends where four bytes are read: no size of a field, or not both numbers after the fields. */
  ghost predicate EndsTooSoon(s: seq<byte>) {
    && StartsWithMagic(s) && |s| == 12 + LittleEndian(s, 4)
    && (|s| < 16
        || exists a :: FieldAt(s, 12, a)
             && (|s| < 20 + |a| || exists b :: FieldAt(s, 16 + |a|, b) && |s| < 28 + |a| + |b|))
  }

  lemma OneField(s: seq<byte>, pos: nat, a: seq<byte>, b: seq<byte>)
    requires FieldAt(s, pos, a) && FieldAt(s, pos, b)
    ensures a == b
  {
  }

  lemma OverrunExactly(s: seq<byte>)
    ensures ParseResponse(s).Overrun? <==> EndsTooSoon(s)
  {
    hide Take, LittleEndian, WordAt, FieldAt, FromLE32;
    if |s| >= HEADER_SIZE {
      MagicAt(s);
      WordIs(s, 4);
      forall a ensures FieldAt(s, 12, a) <==> Take(s[12..]).Some? && Take(s[12..]).value.0 == a { FieldIs(s, 12, a); }
      if Take(s[12..]).Some? {
        var a := Take(s[12..]).value.0;
        FieldIs(s, 12, a);
        FieldInside(s, 12, a);
        var pos := 16 + |a|;
        forall b ensures FieldAt(s, pos, b) <==> Take(s[pos..]).Some? && Take(s[pos..]).value.0 == b {
          FieldIs(s, pos, b);
        }
        if Take(s[pos..]).Some? {
          FieldIs(s, pos, Take(s[pos..]).value.0);
          FieldInside(s, pos, Take(s[pos..]).value.0);
        }
      }
    }
  }

  lemma FieldInside(s: seq<byte>, pos: nat, f: seq<byte>)
    requires FieldAt(s, pos, f)
    ensures pos + 4 + |f| <= |s|
  {
  }

  ghost predicate NoRequest(s: seq<byte>) { forall r :: !RequestAt(s, r) }

  ghost predicate NoResponse(s: seq<byte>) { forall r :: !ResponseAt(s, r) }

  lemma RequestRead(s: seq<byte>)
    ensures ParseRequest(s).Some? ==> RequestAt(s, ParseRequest(s).value)
    ensures ParseRequest(s).None? ==> NoRequest(s)
  {
    hide RequestAt, ParseRequest;
    forall r ensures ParseRequest(s) == Some(r) <==> RequestAt(s, r) { RequestLaidOut(s, r); }
  }

  lemma ResponseRead(s: seq<byte>)
    ensures ParseResponse(s).Parsed? ==> ResponseAt(s, ParseResponse(s).response)
    ensures !ParseResponse(s).Parsed? ==> NoResponse(s)
    ensures ParseResponse(s).Overrun? <==> EndsTooSoon(s)
  {
    hide ResponseAt, ParseResponse, EndsTooSoon;
    forall r ensures ParseResponse(s) == Parsed(r) <==> ResponseAt(s, r) { ResponseLaidOut(s, r); }
    OverrunExactly(s);
  }

  /** The text of a request: its body size modulo 2^32 at offset 4, and laid out as one if the sizes fit. */
  predicate RequestText(s: seq<byte>, r: Request) {
    && |s| >= 12 && LittleEndian(s, 4) == (|s| - 12) % 0x1_0000_0000
    && (Sized(r) ==> RequestAt(s, r))
  }

  /** The text of a response: its sequence id at offset 8 too. */
  predicate ResponseText(s: seq<byte>, r: Response) {
    && |s| >= 12 && LittleEndian(s, 8) == r.sequenceId as int
    && (ResponseSized(r) ==> ResponseAt(s, r))
  }

  lemma RequestWritten(r: Request)
    ensures RequestText(SerializedRequest(r), r)
  {
    hide Header, LittleEndian, FromLE32, RequestAt, ParseRequest;
    var s := SerializedRequest(r);
    HeaderWords(RequestBodySize(r), r.sequenceId, s[HEADER_SIZE..]);
    assert s == Header(RequestBodySize(r), r.sequenceId) + s[HEADER_SIZE..];
    WordIs(s, 4);
    ParseSerializedRequest(r, []);
    assert s + [] == s;
    RequestLaidOut(s, r);
  }

  lemma ResponseWritten(r: Response)
    ensures ResponseText(SerializedResponse(r), r)
  {
    hide Header, LittleEndian, FromLE32, ResponseAt, ParseResponse;
    var s := SerializedResponse(r);
    HeaderWords(ResponseBodySize(r), r.sequenceId, s[HEADER_SIZE..]);
    assert s == Header(ResponseBodySize(r), r.sequenceId) + s[HEADER_SIZE..];
    WordIs(s, 8);
    ParseSerializedResponse(r);
    ResponseLaidOut(s, r);
  }

  lemma ZerosOnly(s: seq<byte>)
    requires forall i :: 0 <= i < |s| ==> s[i] == 0
    ensures s == Zeros(|s|)
  {
  }

  /** A zero-filled buffer with the header in place. */
  method NewBuffer(bodySize: nat, sequenceId: u32) returns (out: array<byte>)
    ensures fresh(out) && out.Length == HEADER_SIZE + bodySize
    ensures out[..HEADER_SIZE] == Header(bodySize, sequenceId)
    ensures forall i :: HEADER_SIZE <= i < out.Length ==> out[i] == 0
  {
    hide Header;
    out := new byte[HEADER_SIZE + bodySize](_ => 0);
    ghost var blank := out[..];
    CopyIn(out, 0, Header(bodySize, sequenceId));
    forall i | HEADER_SIZE <= i < out.Length ensures out[i] == 0 { assert out[..][i] == blank[i]; }
  }

  /** One length-prefixed field written at `pos`. */
  method WriteField(out: array<byte>, pos: nat, data: seq<byte>) returns (next: nat)
    requires pos + 4 + |data| <= out.Length
    modifies out
    ensures next == pos + |Field(data)|
    ensures out[..pos] == old(out[..pos]) && out[..next] == old(out[..pos]) + Field(data)
    ensures forall i :: next <= i < out.Length ==> out[i] == old(out[i])
  {
    hide LE32;
    var len := Truncate(|data|);
    ghost var before := out[..];
    CopyIn(out, pos, LE32(len));
    CopyIn(out, pos + 4, data[..len]);
    next := pos + 4 + len;
    assert out[..] == before[..pos] + LE32(len) + data[..len] + before[next..];
    assert Field(data) == LE32(len) + data[..len];
    forall i | next <= i < out.Length ensures out[i] == before[i] { assert out[..][i] == before[next..][i - next]; }
  }

  /** A word written at `pos`. */
  method WriteWord(out: array<byte>, pos: nat, word: u32) returns (next: nat)
    requires pos + 4 <= out.Length
    modifies out
    ensures next == pos + 4 && out[..next] == old(out[..pos]) + LE32(word)
    ensures forall i :: next <= i < out.Length ==> out[i] == old(out[i])
  {
    hide LE32;
    ghost var before := out[..];
    CopyIn(out, pos, LE32(word));
    next := pos + 4;
    assert out[..] == before[..pos] + LE32(word) + before[next..];
    forall i | next <= i < out.Length ensures out[i] == before[i] { assert out[..][i] == before[next..][i - next]; }
  }

  /** How `RpcResponse::Deserialize` ends: true, false, or with a read outside the string. */
  datatype Deserialized = Accepts | Rejects | Overruns

  class RpcResponse {
    var sequenceId: u32
    var errorCode: u32
    var result: seq<byte>
    var message: seq<byte>

    constructor ()
      ensures View() == Response(0, 0, [], [])
    {
      sequenceId, errorCode, result, message := 0, 0, [], [];
    }

    function View(): Response
      reads this
    {
      Response(sequenceId, errorCode, result, message)
    }

    method Serialize() returns (out: array<byte>)
      ensures fresh(out) && out[..] == SerializedResponse(View())
      ensures out.Length == 28 + |result| + |message| && ResponseText(out[..], View())
    {
      hide Header, Field, Zeros, LE32, ResponseText;
      ResponseWritten(View());
      var bodySize := |result| + |message| + 16;
      out := NewBuffer(bodySize, sequenceId);
      var pos := HEADER_SIZE;
      pos := WriteField(out, pos, result);
      pos := WriteField(out, pos, message);
      pos := WriteWord(out, pos, errorCode);
      pos := WriteWord(out, pos, sequenceId);
      ghost var header := Header(bodySize, sequenceId);
      assert out[..pos] == header + Field(result) + Field(message) + LE32(errorCode) + LE32(sequenceId)
                        == header + ResponseBody(View());
      ZerosOnly(out[pos..]);
    }

    /** The code does not test the positions at which `Overruns` is returned: it reads past the end there. */
    method Deserialize(input: seq<byte>) returns (end: Deserialized)
      modifies this
      ensures match ParseResponse(input)
              case Parsed(r) => end == Accepts && View() == r
              case Rejected => end == Rejects && message == old(message)
              case Overrun => end == Overruns
      ensures end.Accepts? ==> ResponseAt(input, View())
      ensures !end.Accepts? ==> NoResponse(input)
      ensures end.Overruns? <==> EndsTooSoon(input)
      ensures !end.Accepts? ==> sequenceId == old(sequenceId) && errorCode == old(errorCode)
      ensures !end.Accepts? ==> result == if ResponseHeaderOk(input) && Take(input[HEADER_SIZE..]).Some?
                                          then Take(input[HEADER_SIZE..]).value.0 else old(result)
    {
      hide FromLE32, Take, ResponseAt, NoResponse, EndsTooSoon;
      ResponseRead(input);
      if |input| < HEADER_SIZE {
        return Rejects;
      }
      if WordAt(input, 0) != MAGIC {
        return Rejects;
      }
      if |input| != HEADER_SIZE + WordAt(input, 4) {
        return Rejects;
      }
      var pos := HEADER_SIZE;
      TakeAt(input, pos);
      if pos + 4 > |input| {
        return Overruns;
      }
      var len := WordAt(input, pos);
      pos := pos + 4;
      if pos + len > |input| {
        return Rejects;
      }
      result := input[pos..pos + len];
      pos := pos + len;
      TakeAt(input, pos);
      if pos + 4 > |input| {
        return Overruns;
      }
      len := WordAt(input, pos);
      pos := pos + 4;
      if pos + len > |input| {
        return Rejects;
      }
      message := input[pos..pos + len];
      pos := pos + len;
      if pos + 8 > |input| {
        return Overruns;
      }
      assert input[pos..][0..4] == input[pos..pos + 4] && input[pos..][4..8] == input[pos + 4..pos + 8];
      errorCode := WordAt(input, pos);
      sequenceId := WordAt(input, pos + 4);
      return Accepts;
    }
  }

  // ----- parsing inverts printing, and accepts nothing else -----

  lemma FieldFits(f: seq<byte>)
    requires |f| < WORD
    ensures Field(f) == LE32(|f|) + f
  {
    hide LE32;
  }

  lemma TakeField(f: seq<byte>, rest: seq<byte>)
    requires |f| < WORD
    ensures Take(Field(f) + rest) == Some((f, rest))
  {
    hide LE32, FromLE32, BE32, FromBE32, Word, Field, Cut, Truncate;
    var s := Field(f) + rest;
    FieldFits(f);
    WordBytes(|f|);
    assert s[..4] == LE32(|f|) && s[4..4 + |f|] == f && s[4 + |f|..] == rest;
  }

  /** `s` starts with `f` as a field exactly when reading a field from `s` gives `f`. */
  lemma TakeExactly(s: seq<byte>, f: seq<byte>, rest: seq<byte>)
    ensures Take(s) == Some((f, rest)) <==> |f| < WORD && s == Field(f) + rest
  {
    hide LE32, FromLE32, Field, Cut, Truncate;
    if |f| < WORD && s == Field(f) + rest { TakeField(f, rest); }
    if Take(s) == Some((f, rest)) { TakenField(s, f, rest); }
  }

  lemma TakenField(s: seq<byte>, f: seq<byte>, rest: seq<byte>)
    requires Take(s) == Some((f, rest))
    ensures |f| < WORD && s == Field(f) + rest
  {
    hide LE32, FromLE32, BE32, FromBE32, Word, Field, Cut, Truncate;
    var size := FromLE32(s[..4]);
    assert |f| == size && f == s[4..4 + size] && rest == s[4 + size..];
    BytesWord(s[..4]);
    hide Take;
    FieldFits(f);
    assert s == s[..4] + s[4..4 + size] + s[4 + size..];
  }

  /** What is left of `s` after the prefix `p`. */
  function After(s: seq<byte>, p: seq<byte>): seq<byte> { if p <= s then s[|p|..] else [] }

  lemma TakeThreeExactly(s: seq<byte>, a: seq<byte>, b: seq<byte>, c: seq<byte>)
    ensures TakeThree(s) == [a, b, c]
            <==> |a| < WORD && |b| < WORD && |c| < WORD && Field(a) + Field(b) + Field(c) <= s
  {
    hide Take, Field;
    if TakeThree(s) == [a, b, c] {
      var s1 := Take(s).value.1;
      var s2 := Take(s1).value.1;
      var s3 := Take(s2).value.1;
      TakeExactly(s, a, s1);
      TakeExactly(s1, b, s2);
      TakeExactly(s2, c, s3);
      assert s == Field(a) + Field(b) + Field(c) + s3;
    }
    if |a| < WORD && |b| < WORD && |c| < WORD && Field(a) + Field(b) + Field(c) <= s {
      var s3 := After(s, Field(a) + Field(b) + Field(c));
      var s2 := Field(c) + s3;
      var s1 := Field(b) + s2;
      assert s == Field(a) + s1;
      TakeExactly(s, a, s1);
      TakeExactly(s1, b, s2);
      TakeExactly(s2, c, s3);
    }
  }

  predicate Sized(r: Request) { |r.service| < WORD && |r.procedure| < WORD && |r.payload| < WORD }

  /**
   `RpcRequest::Deserialize` yields `r` exactly on the strings with the magic number, r's sequence id at
   offset 8, and from offset 12 the body `Serialize` writes for `r`; length word and trailing bytes are free.
   */
  lemma ParseRequestExactly(s: seq<byte>, r: Request)
    ensures ParseRequest(s) == Some(r)
            <==> && |s| >= HEADER_SIZE && WordAt(s, 0) == MAGIC && WordAt(s, 8) == r.sequenceId
                 && Sized(r) && RequestBody(r) <= s[HEADER_SIZE..]
  {
    hide Field, TakeThree, FromLE32;
    if |s| >= HEADER_SIZE && WordAt(s, 0) == MAGIC {
      TakeThreeExactly(s[HEADER_SIZE..], r.service, r.procedure, r.payload);
      if ParseRequest(s) == Some(r) {
        var f := TakeThree(s[HEADER_SIZE..]);
        assert f == [f[0], f[1], f[2]];
      }
    }
  }

  function CutRequest(r: Request): Request {
    Request(r.sequenceId, Cut(r.service), Cut(r.procedure), Cut(r.payload))
  }

  lemma HeaderWords(bodySize: nat, sequenceId: u32, rest: seq<byte>)
    ensures var s := Header(bodySize, sequenceId) + rest;
            && WordAt(s, 0) == MAGIC && WordAt(s, 4) == Truncate(bodySize) && WordAt(s, 8) == sequenceId
            && s[HEADER_SIZE..] == rest
  {
    var s := Header(bodySize, sequenceId) + rest;
    assert s[0..4] == LE32(MAGIC) && s[4..8] == LE32(Truncate(bodySize)) && s[8..12] == LE32(sequenceId);
    WordBytes(MAGIC);
    WordBytes(Truncate(bodySize));
    WordBytes(sequenceId);
  }

  lemma FieldCut(s: seq<byte>)
    ensures Field(Cut(s)) == Field(s)
  {
  }

  /** Parsing what was serialized, with anything after it, gives the request cut to 32-bit lengths. */
  lemma ParseSerializedRequest(r: Request, tail: seq<byte>)
    ensures ParseRequest(SerializedRequest(r) + tail) == Some(CutRequest(r))
    ensures ParseRequest(SerializedRequest(r) + tail) == Some(r) <==> Sized(r)
  {
    hide Header, Field, Zeros, Cut;
    var body := RequestBody(r);
    var rest := body + (Zeros(RequestBodySize(r) - |body|) + tail);
    var s := SerializedRequest(r) + tail;
    assert s == Header(RequestBodySize(r), r.sequenceId) + rest;
    HeaderWords(RequestBodySize(r), r.sequenceId, rest);
    FieldCut(r.service);
    FieldCut(r.procedure);
    FieldCut(r.payload);
    assert RequestBody(CutRequest(r)) == body;
    ParseRequestExactly(s, CutRequest(r));
  }

  predicate ResponseSized(r: Response) { ResponseBodySize(r) < WORD }

  predicate WordsAre(s: seq<byte>, r: Response) {
    |s| >= 8 && WordAt(s, 0) == r.errorCode && WordAt(s, 4) == r.sequenceId
  }

  lemma WordsExactly(s: seq<byte>, r: Response)
    ensures WordsAre(s, r) <==> LE32(r.errorCode) + LE32(r.sequenceId) <= s
  {
    hide LE32, FromLE32;
    WordBytes(r.errorCode);
    WordBytes(r.sequenceId);
    var words := LE32(r.errorCode) + LE32(r.sequenceId);
    if words <= s {
      assert s[0..4] == words[..4] && s[4..8] == words[4..];
    }
    if WordsAre(s, r) {
      BytesWord(s[0..4]);
      BytesWord(s[4..8]);
      assert s[..8] == s[0..4] + s[4..8];
    }
  }

  lemma ParseBodyExactly(s: seq<byte>, r: Response)
    ensures ParseResponseBody(s) == Parsed(r)
            <==> |r.result| < WORD && |r.message| < WORD && ResponseBody(r) <= s
  {
    hide Take, Field, LE32, FromLE32;
    var words := LE32(r.errorCode) + LE32(r.sequenceId);
    if ParseResponseBody(s) == Parsed(r) {
      var s1 := Take(s).value.1;
      var s2 := Take(s1).value.1;
      TakeExactly(s, r.result, s1);
      TakeExactly(s1, r.message, s2);
      assert WordsAre(s2, r);
      WordsExactly(s2, r);
      assert s == ResponseBody(r) + After(s2, words);
    }
    if |r.result| < WORD && |r.message| < WORD && ResponseBody(r) <= s {
      var s2 := words + After(s, ResponseBody(r));
      var s1 := Field(r.message) + s2;
      assert s == Field(r.result) + s1;
      TakeExactly(s, r.result, s1);
      TakeExactly(s1, r.message, s2);
      WordsExactly(s2, r);
    }
  }

  /** A response read from a string whose length word is right lies there as `Serialize` lays it out. */
  lemma ParseResponseExactly(s: seq<byte>, r: Response)
    ensures ParseResponse(s) == Parsed(r)
            <==> && ResponseHeaderOk(s) && |r.result| < WORD && |r.message| < WORD
                 && ResponseBody(r) <= s[HEADER_SIZE..]
  {
    hide ParseResponseBody, ResponseBody, FromLE32;
    if |s| >= HEADER_SIZE { ParseBodyExactly(s[HEADER_SIZE..], r); }
  }

  /** A serialized response is read back exactly when its body size fits a 32-bit word, else refused. */
  lemma ParseSerializedResponse(r: Response)
    ensures ParseResponse(SerializedResponse(r)) == if ResponseSized(r) then Parsed(r) else Rejected
  {
    hide Header, ResponseBody, Zeros, ParseResponseBody, FromLE32;
    var s, body := SerializedResponse(r), ResponseBody(r);
    var rest := body + Zeros(ResponseBodySize(r) - |body|);
    assert s == Header(ResponseBodySize(r), r.sequenceId) + rest;
    HeaderWords(ResponseBodySize(r), r.sequenceId, rest);
    if ResponseSized(r) {
      ParseResponseExactly(s, r);
    }
  }
}
