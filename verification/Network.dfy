/** The connection object, the connection table and the server's frame loop (rpc_src/network). */
module Network {
  import opened Bytes
  import opened Protocol
  import opened Wire
  import opened Answers
  import Cipher

  /** What one `::write` can give; `Accepted` never takes more than was offered. */
  datatype WriteResult = Accepted(n: nat) | TryAgain | WriteError

  /** `Written` is the C++ true, `Refused` and `Broken` are false, `Spinning` has not returned yet. */
  datatype WriteOutcome = Written | Refused | Broken | Spinning

  /** How a write of `size` bytes goes, and how many of them reach the socket. */
  function Pushed(size: nat, results: seq<WriteResult>): (r: (WriteOutcome, nat))
    ensures r.1 <= size && (r.0.Written? <==> r.1 == size) && !r.0.Refused?
    decreases |results|
  {
    if size == 0 then (Written, 0)
    else if results == [] then (Spinning, 0)
    else match results[0]
      case TryAgain => Pushed(size, results[1..])
      case WriteError => (Broken, 0)
      case Accepted(n) =>
        var taken := if n < size then n else size;
        var rest := Pushed(size - taken, results[1..]);
        (rest.0, taken + rest.1)
  }

  /** How many bytes the socket is ready to take in the course of the script, up to its first error. */
  function Room(results: seq<WriteResult>): nat {
    if results == [] || results[0].WriteError? then 0
    else (if results[0].Accepted? then results[0].n else 0) + Room(results[1..])
  }

  predicate NoError(results: seq<WriteResult>) { forall i :: 0 <= i < |results| ==> !results[i].WriteError? }

  /**
   A write fails exactly when an error comes before the socket has been ready for everything, and does not
   return when there is neither.
   */
  lemma {:induction false} PushedExactly(size: nat, results: seq<WriteResult>)
    ensures var r := Pushed(size, results);
            if Room(results) >= size then r == (Written, size)
            else r == (if NoError(results) then Spinning else Broken, Room(results))
    decreases |results|
  {
    if size > 0 && results != [] && !results[0].WriteError? {
      var n := if results[0].Accepted? then results[0].n else 0;
      var taken := if n < size then n else size;
      PushedExactly(size - taken, results[1..]);
      assert NoError(results) <==> NoError(results[1..]);
    }
  }

  /** A message goes out as its one frame: nothing if refused, a prefix if cut short, else all of it. */
  predicate FrameSent(z: Codec, data: seq<byte>, sessionKey: seq<byte>, connected: bool, results: seq<WriteResult>,
                      outcome: WriteOutcome, sent: seq<byte>)
    requires |sessionKey| == Cipher.KEY_LENGTH
  {
    var w := Framed(z, data, sessionKey);
    if !connected || w.None? then outcome == Refused && sent == []
    else outcome == Pushed(|w.value|, results).0 && sent == w.value[..Pushed(|w.value|, results).1]
  }

  /** C++ true is returned exactly when the whole frame is on the wire, and that frame reads back. */
  lemma WrittenReadsBack(z: Codec, data: seq<byte>, sessionKey: seq<byte>, results: seq<WriteResult>,
                         outcome: WriteOutcome, sent: seq<byte>, n: nat, rest: seq<byte>)
    requires RoundTrips(z) && IsMessage(data) && |sessionKey| == Cipher.KEY_LENGTH
    requires FrameSent(z, data, sessionKey, true, results, outcome, sent)
    requires z.compress(data).Some? && n == |z.compress(data).value| <= MAX_PASSING
    ensures outcome.Written? ==> Extract(z, sent + rest) == Extraction(Complete(data), rest)
    ensures !outcome.Written? ==> Extract(z, sent) == Extraction(Incomplete, sent)
  {
    hide Extract, Cipher.Encrypted, Cipher.Decrypted;
    assert z.compress(data).value != [];
    Cipher.DecryptEncrypt(z.compress(data).value, sessionKey);
    var w := Framed(z, data, sessionKey).value;
    if outcome.Written? {
      assert sent == w;
      ExtractFramed(z, data, sessionKey, w, n, rest);
    } else {
      ExtractPartial(z, data, sessionKey, w, n, sent);
    }
  }

  class Connection {
    var fd: int
    var readBuffer: seq<byte>
    var connected: bool
    const codec: Codec
    const blocking: bool    // of the descriptor: O_NONBLOCK is set for the server's sockets only

    constructor (fd: int, codec: Codec, blocking: bool)
      ensures Valid() && this.fd == fd && this.codec == codec && this.blocking == blocking
      ensures readBuffer == [] && connected == (fd >= 0)
    {
      this.fd, this.codec, this.blocking := fd, codec, blocking;
      readBuffer, connected := [], fd >= 0;
    }

    predicate Valid()
      reads this
    {
      |readBuffer| <= MAX_BUFFER_SIZE
    }

    /** Reads until the socket gives less than asked for or, if it may not block, has nothing more. */
    method Read(input: seq<ReadResult>) returns (end: ReadEnd)
      requires Valid()
      modifies this`readBuffer, this`connected
      ensures Valid()
      ensures !old(connected) ==> end.Ended? && !connected && readBuffer == old(readBuffer)
      ensures old(connected) ==>
                (end, readBuffer) == ReadBy(blocking, old(readBuffer), input) && connected == !end.Ended?
      ensures forall k: nat :: old(connected) && k < |input| && GoesOn(blocking, old(readBuffer), input, k) ==>
                var have := old(readBuffer) + Gathered(input[..k]);
                match input[k]
                case EndOfFile => end.Ended? && !connected && readBuffer == have
                case Failure => end.Ended? && !connected && readBuffer == have
                case WouldBlock => !blocking ==> end.Arrived? && connected && readBuffer == have
                case Data(bytes) =>
                  if |have| + |bytes| > MAX_BUFFER_SIZE then end.Ended? && !connected && readBuffer == have
                  else |bytes| < READ_SIZE ==> end.Arrived? && connected && readBuffer == have + bytes
      ensures old(connected) && GoesOn(blocking, old(readBuffer), input, |input|) ==>
                && readBuffer == old(readBuffer) + Gathered(input) && connected
                && if blocking then end.Hung? else end.Arrived?
    {
      if !connected {
        return Ended;
      }
      forall k: nat | GoesOn(blocking, readBuffer, input, k)
        ensures StopsAt(blocking, readBuffer, input, k, ReadBy(blocking, readBuffer, input))
      {
        ReadStops(blocking, readBuffer, input, k);
      }
      assert input[..|input|] == input;
      ReadAppends(readBuffer, input);
      BlockingReadAppends(readBuffer, input);
      var i := 0;
      while i < |input|
        invariant 0 <= i <= |input|
        invariant connected
        invariant ReadBy(blocking, readBuffer, input[i..]) == ReadBy(blocking, old(readBuffer), input)
      {
        assert input[i..][1..] == input[i + 1..];
        match input[i] {
          case WouldBlock =>
            if !blocking {
              return Arrived;
            }
          case Failure =>
            connected := false;
            return Ended;
          case EndOfFile =>
            connected := false;
            return Ended;
          case Data(bytes) =>
            if |readBuffer| + |bytes| > MAX_BUFFER_SIZE {
              connected := false;
              return Ended;
            }
            readBuffer := readBuffer + bytes;
            if |bytes| < READ_SIZE {
              return Arrived;
            }
        }
        i := i + 1;
      }
      return if blocking then Hung else Arrived;
    }

    /** Waits until something can be read; `None` is a time-out or an error of `select`. No limit holds after that. */
    method ReadWithTimeout(input: Option<seq<ReadResult>>) returns (end: ReadEnd)
      requires Valid()
      modifies this`readBuffer, this`connected
      ensures Valid()
      ensures input.None? ==> end.Ended? && readBuffer == old(readBuffer) && connected == old(connected)
      ensures input.Some? && !old(connected) ==> end.Ended? && !connected && readBuffer == old(readBuffer)
      ensures input.Some? && old(connected) ==>
                (end, readBuffer) == ReadBy(blocking, old(readBuffer), input.value) && connected == !end.Ended?
    {
      if input.None? {
        return Ended;
      }
      end := Read(input.value);
    }

    /** Cuts one whole frame out of the buffer, if there is one. */
    method ExtractFrame() returns (status: FrameStatus)
      requires Valid()
      modifies this`readBuffer
      ensures Valid()
      ensures var x := Extract(codec, old(readBuffer)); status == x.status && readBuffer == x.rest
      ensures Cuts(codec, old(readBuffer), status, readBuffer)
    {
      ExtractCuts(codec, readBuffer);
      hide FromBE32, Cipher.Decrypted, Cipher.Wraps, Cuts;
      if |readBuffer| < 4 {
        return Incomplete;
      }
      var len := FromBE32(readBuffer[..4]);
      if len > MAX_FRAME_SIZE {
        return Error;
      }
      var total := 4 + len;
      if |readBuffer| < total {
        return Incomplete;
      }
      var text := readBuffer[4..total];
      readBuffer := readBuffer[total..];
      var plain := Cipher.Decrypt(text);
      if plain.None? {
        return Error;
      }
      var data := codec.decompress(plain.value);
      if data.None? {
        return Error;
      }
      if |data.value| < HEADER_SIZE {
        return Error;
      }
      if WordAt(data.value, 0) != MAGIC {
        return Error;
      }
      return Complete(data.value);
    }

    /** Writes until everything is out; `sent` is what reached the socket. */
    method WriteBytes(data: seq<byte>, results: seq<WriteResult>) returns (outcome: WriteOutcome, sent: seq<byte>)
      modifies this`connected
      ensures !old(connected) || data == [] ==> outcome == Refused && sent == []
      ensures old(connected) && data != [] ==>
                outcome == Pushed(|data|, results).0 && sent == data[..Pushed(|data|, results).1]
      ensures connected == (old(connected) && !outcome.Broken?)
      ensures old(connected) && data != [] ==>
                if Room(results) >= |data| then outcome == Written && sent == data
                else sent == data[..Room(results)] && outcome == if NoError(results) then Spinning else Broken
    {
      if !connected || data == [] {
        return Refused, [];
      }
      PushedExactly(|data|, results);
      var count, i := 0, 0;
      while count < |data|
        invariant 0 <= count <= |data| && 0 <= i <= |results| && connected
        invariant var rest := Pushed(|data| - count, results[i..]);
                  Pushed(|data|, results) == (rest.0, count + rest.1)
        decreases |results| - i, |data| - count
      {
        if i == |results| {
          return Spinning, data[..count];
        }
        assert results[i..][1..] == results[i + 1..];
        match results[i] {
          case TryAgain =>
          case WriteError =>
            connected := false;
            return Broken, data[..count];
          case Accepted(n) =>
            count := count + if n < |data| - count then n else |data| - count;
        }
        i := i + 1;
      }
      return Written, data;
    }

    /** Compresses, encrypts, prefixes the length and writes. */
    method WriteFrame(data: seq<byte>, sessionKey: seq<byte>, results: seq<WriteResult>)
      returns (outcome: WriteOutcome, sent: seq<byte>)
      requires |sessionKey| == Cipher.KEY_LENGTH
      modifies this`connected
      ensures FrameSent(codec, data, sessionKey, old(connected), results, outcome, sent)
      ensures connected == (old(connected) && !outcome.Broken?)
      ensures outcome.Refused? <==>
              !old(connected) || codec.compress(data).None? || codec.compress(data).value == []
      ensures outcome.Written? ==> IsFrame(codec, data, sent)
    {
      FramedIsFrame(codec, data, sessionKey);
      hide BE32, Cipher.Encrypted, IsFrame;
      var compressed := codec.compress(data);
      if compressed.None? {
        return Refused, [];
      }
      var encrypted := Cipher.Encrypt(compressed.value, sessionKey);
      if encrypted.None? {
        return Refused, [];
      }
      var wire := BE32(Truncate(|encrypted.value|)) + encrypted.value;
      assert wire[..|wire|] == wire;
      outcome, sent := WriteBytes(wire, results);
    }

    method WriteRequest(request: RpcRequest, sessionKey: seq<byte>, results: seq<WriteResult>)
      returns (outcome: WriteOutcome, sent: seq<byte>)
      requires |sessionKey| == Cipher.KEY_LENGTH
      modifies this`connected
      ensures FrameSent(codec, SerializedRequest(request.View()), sessionKey, old(connected), results, outcome, sent)
      ensures connected == (old(connected) && !outcome.Broken?)
    {
      hide Framed, SerializedRequest;
      var serialized := request.Serialize();
      outcome, sent := WriteFrame(serialized[..], sessionKey, results);
    }

    method WriteResponse(response: RpcResponse, sessionKey: seq<byte>, results: seq<WriteResult>)
      returns (outcome: WriteOutcome, sent: seq<byte>)
      requires |sessionKey| == Cipher.KEY_LENGTH
      modifies this`connected
      ensures FrameSent(codec, SerializedResponse(response.View()), sessionKey, old(connected), results, outcome, sent)
      ensures connected == (old(connected) && !outcome.Broken?)
    {
      hide Framed, SerializedResponse;
      var serialized := response.Serialize();
      outcome, sent := WriteFrame(serialized[..], sessionKey, results);
    }

    method Close()
      modifies this`fd, this`connected
      ensures fd == (if old(fd) >= 0 then -1 else old(fd)) && !connected
    {
      if fd >= 0 {
        fd := -1;
      }
      connected := false;
    }
  }

  class ConnectionManager {
    var connections: map<int, Connection>

    constructor ()
      ensures connections == map[]
    {
      connections := map[];
    }

    method AddConnection(conn: Connection)
      modifies this
      ensures connections == old(connections)[conn.fd := conn]
    {
      connections := connections[conn.fd := conn];
    }

    method RemoveConnection(fd: int)
      modifies this
      ensures connections == old(connections) - {fd}
    {
      connections := connections - {fd};
    }

    method GetConnection(fd: int) returns (conn: Connection?)
      ensures if fd in connections then conn == connections[fd] else conn == null
    {
      conn := if fd in connections then connections[fd] else null;
    }
  }

  /** One task for the pool per request, each holding its connection. */
  function TasksFor(conn: Connection, requests: seq<Request>): (t: seq<(Connection, Request)>)
    ensures |t| == |requests| && forall i :: 0 <= i < |t| ==> t[i] == (conn, requests[i])
  {
    seq(|requests|, i requires 0 <= i < |requests| => (conn, requests[i]))
  }

  /** One frame went out, and what it holds is an answer to the request, laid out as a response. */
  ghost predicate AnswerWritten(z: Codec, request: Request, outcome: Option<seq<byte>>, sent: seq<byte>) {
    exists p :: AnswersTo(request, outcome, p) && IsFrame(z, SerializedResponse(p), sent)
                && ResponseText(SerializedResponse(p), p)
  }

  lemma WrittenAnswers(z: Codec, request: Request, outcome: Option<seq<byte>>, sessionKey: seq<byte>,
                       results: seq<WriteResult>)
    requires |sessionKey| == Cipher.KEY_LENGTH
    ensures var data := SerializedResponse(Answer(request, outcome));
            forall connected, sent ::
              FrameSent(z, data, sessionKey, connected, results, Written, sent) ==>
              AnswerWritten(z, request, outcome, sent)
  {
    hide SerializedResponse, ResponseText, Framed, IsFrame, AnswersTo, Answer;
    var p := Answer(request, outcome);
    AnswerExactly(request, outcome, p);
    ResponseWritten(p);
    FramedIsFrame(z, SerializedResponse(p), sessionKey);
    var w := Framed(z, SerializedResponse(p), sessionKey);
    assert w.Some? ==> w.value[..|w.value|] == w.value;
  }

  class MessageCycle {
    const manager: ConnectionManager
    var dispatched: seq<(Connection, Request)>

    constructor (manager: ConnectionManager)
      ensures this.manager == manager && dispatched == []
    {
      this.manager := manager;
      dispatched := [];
    }

    /** `clientFd` is what `accept` returned; the flags say whether fcntl and epoll_ctl succeeded. */
    method HandleNewConnection(clientFd: int, nonblocking: bool, registered: bool, codec: Codec)
      returns (conn: Connection?)
      modifies manager
      ensures conn == null <==> clientFd < 0 || !nonblocking
      ensures conn == null ==> manager.connections == old(manager.connections)
      ensures conn != null ==>
                && fresh(conn) && conn.Valid() && conn.connected && !conn.blocking
                && conn.readBuffer == [] && conn.fd == clientFd
                && manager.connections == if registered then old(manager.connections)[clientFd := conn]
                                          else old(manager.connections) - {clientFd}
    {
      if clientFd < 0 || !nonblocking {
        return null;
      }
      conn := new Connection(clientFd, codec, false);
      manager.AddConnection(conn);
      if !registered {
        manager.RemoveConnection(clientFd);
      }
    }

    /** Hands every whole request in the buffer to the pool; true means a bad frame was met. */
    method DispatchFrames(conn: Connection) returns (bad: bool)
      requires conn.Valid()
      modifies this`dispatched, conn`readBuffer
      ensures conn.Valid()
      ensures var d := Drain(conn.codec, old(conn.readBuffer));
              && dispatched == old(dispatched) + TasksFor(conn, d.requests)
              && conn.readBuffer == d.rest && bad == d.bad
    {
      hide Extract, ParseRequest, RequestFields, Drain, Cuts;
      ghost var all := Drain(conn.codec, conn.readBuffer);
      ghost var done: seq<Request> := [];
      while true
        invariant conn.Valid()
        invariant dispatched == old(dispatched) + TasksFor(conn, done)
        invariant var left := Drain(conn.codec, conn.readBuffer);
                  all.requests == done + left.requests && all.rest == left.rest && all.bad == left.bad
        decreases |conn.readBuffer|
      {
        ghost var before := conn.readBuffer;
        var status := conn.ExtractFrame();
        DrainOne(conn.codec, before);
        assert done + [] == done;
        if status.Incomplete? {
          return false;
        }
        if status.Error? {
          return true;
        }
        var request := new RpcRequest();
        var good := request.Deserialize(status.frame);
        if !good {
          return true;
        }
        ghost var more := Drain(conn.codec, conn.readBuffer).requests;
        assert done + ([request.View()] + more) == (done + [request.View()]) + more;
        done := done + [request.View()];
        dispatched := dispatched + [(conn, request.View())];
      }
    }

    /** Reads what is there and hands every whole request to the pool; trouble removes the connection. */
    method HandleClientData(fd: int, input: seq<ReadResult>)
      requires fd in manager.connections ==> manager.connections[fd].Valid() && !manager.connections[fd].blocking
      modifies this`dispatched, manager
      modifies if fd in manager.connections then {manager.connections[fd]} else {}
      ensures fd !in old(manager.connections) ==>
                manager.connections == old(manager.connections) && dispatched == old(dispatched)
      ensures fd in old(manager.connections) ==>
                var conn := old(manager.connections[fd]);
                var (ok, read) := ReadInto(old(manager.connections[fd].readBuffer), input);
                conn.Valid() &&
                if !old(manager.connections[fd].connected) || !ok then
                  manager.connections == old(manager.connections) - {fd} && dispatched == old(dispatched)
                else
                  var d := Drain(conn.codec, read);
                  && dispatched == old(dispatched) + TasksFor(conn, d.requests)
                  && conn.readBuffer == d.rest
                  && manager.connections == if d.bad then old(manager.connections) - {fd} else old(manager.connections)
      ensures forall k: nat ::
                (&& fd in old(manager.connections) && k < |input| && (input[k].EndOfFile? || input[k].Failure?)
                 && GoesOn(false, old(manager.connections[fd].readBuffer), input, k)) ==>
                fd !in manager.connections && dispatched == old(dispatched) && !old(manager.connections[fd]).connected
    {
      hide Drain, ReadInto;
      var conn := manager.GetConnection(fd);
      if conn == null {
        manager.RemoveConnection(fd);
        return;
      }
      var end := conn.Read(input);
      if !end.Arrived? {
        manager.RemoveConnection(fd);
        return;
      }
      var bad := DispatchFrames(conn);
      if bad {
        manager.RemoveConnection(fd);
      }
    }

    /** Runs in the pool: asks the service, `outcome`, and writes one response. */
    method HandleRpcRequestSync(conn: Connection, request: Request, outcome: Option<seq<byte>>,
                                sessionKey: seq<byte>, results: seq<WriteResult>)
      returns (written: WriteOutcome, sent: seq<byte>)
      requires |sessionKey| == Cipher.KEY_LENGTH
      modifies conn`connected
      ensures FrameSent(conn.codec, SerializedResponse(Answer(request, outcome)), sessionKey, old(conn.connected),
                        results, written, sent)
      ensures conn.connected == (old(conn.connected) && !written.Broken?)
      ensures written.Written? ==> AnswerWritten(conn.codec, request, outcome, sent)
    {
      WrittenAnswers(conn.codec, request, outcome, sessionKey, results);
      hide FrameSent, SerializedResponse, Cipher.ToBytes, AnswerWritten;
      if request.service == [] || request.procedure == [] {
        written, sent := SendErrorResponse(conn, request.sequenceId, INVALID_REQUEST,
                                           Cipher.ToBytes("Invalid request"), sessionKey, results);
        return;
      }
      if outcome.None? {
        written, sent := SendErrorResponse(conn, request.sequenceId, SERVICE_NOT_FOUND,
                                           Cipher.ToBytes("Service not found"), sessionKey, results);
        return;
      }
      var response := new RpcResponse();
      response.sequenceId := request.sequenceId;
      response.errorCode := SUCCESS;
      response.message := Cipher.ToBytes("Success");
      response.result := outcome.value;
      written, sent := conn.WriteResponse(response, sessionKey, results);
    }

    method SendErrorResponse(conn: Connection, sequenceId: u32, errorCode: u32, message: seq<byte>,
                             sessionKey: seq<byte>, results: seq<WriteResult>)
      returns (written: WriteOutcome, sent: seq<byte>)
      requires |sessionKey| == Cipher.KEY_LENGTH
      modifies conn`connected
      ensures FrameSent(conn.codec, SerializedResponse(Response(sequenceId, errorCode, [], message)), sessionKey,
                        old(conn.connected), results, written, sent)
      ensures conn.connected == (old(conn.connected) && !written.Broken?)
    {
      hide FrameSent, SerializedResponse;
      var response := new RpcResponse();
      response.sequenceId := sequenceId;
      response.errorCode := errorCode;
      response.message := message;
      written, sent := conn.WriteResponse(response, sessionKey, results);
    }
  }
}
