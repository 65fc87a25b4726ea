/** The client (rpc_src/core): one call at a time over one connection object, replaced when it failed. */
module Client {
  import opened Bytes
  import opened Protocol
  import opened Wire
  import opened Network
  import opened Answers
  import Cipher

  /**
   `Unconnected` and `Unserialized` end a call before anything is sent.  `Lost` gives the connection up,
   `Unreadable` does not, `Overran` is a read past the end of the frame.  With `Unfinished` the call is still
   writing, with `Stuck` it is blocked in a read that no time-out ends.
   */
  datatype Outcome =
    | Unconnected | Unserialized | Unfinished | Stuck | Lost | Unreadable | Overran | Result(response: Response)

  /** What one wait gives: `None` is a time-out, else what there is to read. */
  type Wait = Option<seq<ReadResult>>

  function Understood(frame: seq<byte>): Outcome {
    match ParseResponse(frame)
    case Parsed(r) => Result(r)
    case Rejected => Unreadable
    case Overrun => Overran
  }

  /** The loop of `ReadResponse`: what it ends with and the buffer it leaves; the script ending is a time-out. */
  function Awaited(z: Codec, buffer: seq<byte>, waits: seq<Wait>): (r: (Outcome, seq<byte>))
    ensures !r.0.Unconnected? && !r.0.Unserialized? && !r.0.Unfinished?
    decreases |waits|
  {
    if waits == [] || waits[0].None? then (Lost, buffer)
    else
      var (end, read) := BlockingRead(buffer, waits[0].value);
      if end.Ended? then (Lost, read)
      else if end.Hung? then (Stuck, read)
      else
        var x := Extract(z, read);
        match x.status
        case Incomplete => Awaited(z, read, waits[1..])
        case Error => (Lost, x.rest)
        case Complete(frame) => (Understood(frame), x.rest)
  }

  /** Whatever would come after a time-out, the call ends with it, as if nothing more had come. */
  lemma {:induction false} TimeOutEnds(z: Codec, buffer: seq<byte>, waits: seq<Wait>, more: seq<Wait>)
    ensures Awaited(z, buffer, waits + [None] + more) == Awaited(z, buffer, waits)
    decreases |waits|
  {
    hide Extract, BlockingRead, Understood;
    var all := waits + [None] + more;
    if waits != [] && waits[0].Some? {
      assert all[0] == waits[0] && all[1..] == waits[1..] + [None] + more;
      TimeOutEnds(z, BlockingRead(buffer, waits[0].value).1, waits[1..], more);
    }
  }

  /** Nothing behind a time-out matters. */
  ghost predicate EndsAtTimeOut(z: Codec, buffer: seq<byte>, waits: seq<Wait>, r: (Outcome, seq<byte>)) {
    forall k :: 0 <= k < |waits| && waits[k].None? ==> r == Awaited(z, buffer, waits[..k])
  }

  lemma TimeOutsEnd(z: Codec, buffer: seq<byte>, waits: seq<Wait>)
    ensures EndsAtTimeOut(z, buffer, waits, Awaited(z, buffer, waits))
  {
    hide Awaited;
    forall k | 0 <= k < |waits| && waits[k].None?
      ensures Awaited(z, buffer, waits) == Awaited(z, buffer, waits[..k])
    {
      assert waits == waits[..k] + [None] + waits[k + 1..];
      TimeOutEnds(z, buffer, waits[..k], waits[k + 1..]);
    }
  }

  /** What is made of a frame: the response it is laid out as, if it is one. */
  ghost predicate Read(frame: seq<byte>, outcome: Outcome) {
    && (forall p :: ResponseAt(frame, p) ==> outcome == Result(p))
    && (NoResponse(frame) ==> outcome == if EndsTooSoon(frame) then Overran else Unreadable)
  }

  lemma UnderstoodReads(frame: seq<byte>)
    ensures Read(frame, Understood(frame))
  {
    hide ResponseAt, ParseResponse, NoResponse, EndsTooSoon;
    ResponseRead(frame);
    if ParseResponse(frame).Parsed? { SomeResponse(frame, ParseResponse(frame).response); }
    forall p | ResponseAt(frame, p) ensures Understood(frame) == Result(p) { ResponseLaidOut(frame, p); }
  }

  lemma SomeResponse(s: seq<byte>, p: Response)
    requires ResponseAt(s, p)
    ensures !NoResponse(s)
  {
  }

  /**
   What the first wait leads to, from what the `::read`s give: no time-out ends a read that blocks, a closed or
   broken connection loses the call, and a short read has the buffer looked at.
   */
  lemma FirstWait(z: Codec, buffer: seq<byte>, input: seq<ReadResult>, more: seq<Wait>, k: nat)
    requires GoesOn(true, buffer, input, k)
    ensures var have := buffer + Gathered(input[..k]);
            var r := Awaited(z, buffer, [Some(input)] + more);
            if k == |input| then r == (Stuck, have)
            else match input[k]
              case WouldBlock => true
              case EndOfFile => r == (Lost, have)
              case Failure => r == (Lost, have)
              case Data(bytes) =>
                if |have| + |bytes| > MAX_BUFFER_SIZE then r == (Lost, have)
                else |bytes| < READ_SIZE ==> LookedAt(z, have + bytes, more, r)
  {
    hide Extract, BlockingRead, Understood, LookedAt;
    ReadStops(true, buffer, input, k);
    var have := buffer + Gathered(input[..k]);
    assert ([Some(input)] + more)[1..] == more;
    if k < |input| && input[k].Data? && |have| + |input[k].bytes| <= MAX_BUFFER_SIZE && |input[k].bytes| < READ_SIZE {
      Looks(z, have + input[k].bytes, more);
    }
  }

  /** The buffer is looked at: a whole frame ends the wait, and so does a corrupt one. */
  ghost predicate LookedAt(z: Codec, read: seq<byte>, more: seq<Wait>, r: (Outcome, seq<byte>)) {
    forall status, rest :: Cuts(z, read, status, rest) ==>
      match status
      case Incomplete => r == Awaited(z, read, more)
      case Error => r == (Lost, rest)
      case Complete(frame) => r.1 == rest && Read(frame, r.0)
  }

  lemma Looks(z: Codec, read: seq<byte>, more: seq<Wait>)
    ensures var x := Extract(z, read);
            LookedAt(z, read, more,
                     match x.status
                     case Incomplete => Awaited(z, read, more)
                     case Error => (Lost, x.rest)
                     case Complete(frame) => (Understood(frame), x.rest))
  {
    hide Extract, Cuts, Understood, Read;
    forall status, rest | Cuts(z, read, status, rest) ensures Extract(z, read) == Extraction(status, rest) {
      CutsOnce(z, read, status, rest);
    }
    if Extract(z, read).status.Complete? { UnderstoodReads(Extract(z, read).status.frame); }
  }

  /** What becomes of a call once its request is written, or not. */
  function Concluded(z: Codec, buffer: seq<byte>, written: WriteOutcome, waits: seq<Wait>): (Outcome, seq<byte>) {
    match written
    case Written => Awaited(z, buffer, waits)
    case Spinning => (Unfinished, buffer)
    case Refused => (Lost, buffer)
    case Broken => (Lost, buffer)
  }

  class RpcClient {
    var connection: Connection?
    var connected: bool
    var sequenceId: u32

    constructor ()
      ensures Valid() && connection == null && !connected && sequenceId == 0
    {
      connection, connected, sequenceId := null, false, 0;
    }

    /** While the client counts itself connected its connection object is; `initSocket` leaves it blocking. */
    predicate Valid()
      reads this, connection
    {
      connected ==> connection != null && connection.connected && connection.blocking && connection.Valid()
    }

    /** One attempt per element: the descriptor connected, or `None` if there was no server or no connection. */
    method Connect(attempts: seq<Option<nat>>, codec: Codec) returns (ok: bool)
      requires Valid()
      modifies this`connection, this`connected
      ensures Valid() && ok == connected
      ensures ok <==> old(connected) || exists i :: 0 <= i < |attempts| && attempts[i].Some?
      ensures old(connected) || !ok ==> connection == old(connection)
      ensures !old(connected) && ok ==>
                && fresh(connection) && connection.readBuffer == [] && connection.codec == codec
                && exists i :: 0 <= i < |attempts| && attempts[i] == Some(connection.fd)
                               && forall j :: 0 <= j < i ==> attempts[j].None?
    {
      if connected {
        return true;
      }
      for i := 0 to |attempts|
        invariant !connected && connection == old(connection)
        invariant forall j :: 0 <= j < i ==> attempts[j].None?
      {
        if attempts[i].Some? {
          connection := new Connection(attempts[i].value, codec, true);
          connected := true;
          return true;
        }
      }
      return false;
    }

    method Disconnect()
      modifies this`connection, this`connected, connection
      ensures Valid() && connection == null && !connected
      ensures old(connection) != null ==> !old(connection).connected && old(connection).fd < 0
    {
      if connection != null {
        connection.Close();
        connection := null;
      }
      connected := false;
    }

    /** Reads until there is a whole frame and takes it for the response, whatever its id. */
    method ReadResponse(waits: seq<Wait>) returns (outcome: Outcome)
      requires Valid() && connected && connection != null
      modifies this`connected, connection`readBuffer, connection`connected
      ensures Valid()
      ensures (outcome, connection.readBuffer) == old(Awaited(connection.codec, connection.readBuffer, waits))
      ensures connected <==> !outcome.Lost?
      ensures waits == [] || waits[0].None? ==>
                outcome == Lost && !connected && connection.readBuffer == old(connection.readBuffer)
      ensures EndsAtTimeOut(connection.codec, old(connection.readBuffer), waits, (outcome, connection.readBuffer))
    {
      hide Extract, BlockingRead, ParseResponse, Cuts, GoesOn, ResponseAt, NoResponse, EndsTooSoon, EndsAtTimeOut;
      TimeOutsEnd(connection.codec, connection.readBuffer, waits);
      var i := 0;
      while true
        invariant 0 <= i <= |waits| && Valid() && connected
        invariant Awaited(connection.codec, connection.readBuffer, waits[i..])
               == old(Awaited(connection.codec, connection.readBuffer, waits))
        decreases |waits| - i
      {
        assert waits[i..] == [] || (waits[i..][0] == waits[i] && waits[i..][1..] == waits[i + 1..]);
        var end := connection.ReadWithTimeout(if i < |waits| then waits[i] else None);
        if end.Hung? {
          return Stuck;
        }
        if end.Ended? {
          connected := false;
          return Lost;
        }
        var status := connection.ExtractFrame();
        if status.Error? {
          connected := false;
          return Lost;
        }
        if status.Complete? {
          var response := new RpcResponse();
          var end := response.Deserialize(status.frame);
          return match end case Accepts => Result(response.View()) case Rejects => Unreadable case Overruns => Overran;
        }
        i := i + 1;
      }
    }

    /** The part of `Call` on an open connection: the next id, one request out, one frame back. */
    method Ask(service: seq<byte>, procedure: seq<byte>, payload: seq<byte>,
               sessionKey: seq<byte>, results: seq<WriteResult>, waits: seq<Wait>)
      returns (outcome: Outcome, written: WriteOutcome, sent: seq<byte>)
      requires Valid() && connected && connection != null && |sessionKey| == Cipher.KEY_LENGTH
      modifies this`connected, this`sequenceId, connection`readBuffer, connection`connected
      ensures Valid() && sequenceId == (old(sequenceId) + 1) % WORD
      ensures FrameSent(connection.codec, SerializedRequest(Request(sequenceId, service, procedure, payload)),
                        sessionKey, true, results, written, sent)
      ensures (outcome, connection.readBuffer)
           == Concluded(connection.codec, old(connection.readBuffer), written, waits)
      ensures written.Written? ==>
                (outcome, connection.readBuffer) == old(Awaited(connection.codec, connection.readBuffer, waits))
      ensures !written.Written? ==>
                && connection.readBuffer == old(connection.readBuffer)
                && outcome == if written.Spinning? then Unfinished else Lost
      ensures connected <==> !outcome.Lost?
    {
      hide FrameSent, SerializedRequest, Awaited;
      sequenceId := (sequenceId + 1) % WORD;
      var request := new RpcRequest();
      request.service, request.procedure := service, procedure;
      request.payload, request.sequenceId := payload, sequenceId;
      written, sent := connection.WriteRequest(request, sessionKey, results);
      if written.Spinning? {
        return Unfinished, written, sent;
      }
      if !written.Written? {
        connected := false;
        return Lost, written, sent;
      }
      outcome := ReadResponse(waits);
    }

    /** What an open connection has read and not used yet. */
    function Unused(): seq<byte>
      reads this, connection
    {
      if connected && connection != null then connection.readBuffer else []
    }

    /** An empty payload is one that could not be serialized. A lost connection is replaced before anything is sent. */
    method Call(attempts: seq<Option<nat>>, codec: Codec, service: seq<byte>, procedure: seq<byte>, payload: seq<byte>,
                sessionKey: seq<byte>, results: seq<WriteResult>, waits: seq<Wait>)
      returns (outcome: Outcome, written: WriteOutcome, sent: seq<byte>)
      requires Valid() && |sessionKey| == Cipher.KEY_LENGTH
      modifies this, connection
      ensures Valid()
      ensures outcome.Unconnected? <==> !old(connected) && forall i :: 0 <= i < |attempts| ==> attempts[i].None?
      ensures outcome.Unserialized? <==> !outcome.Unconnected? && payload == []
      ensures outcome.Unconnected? || outcome.Unserialized? ==> sequenceId == old(sequenceId) && sent == []
      ensures !outcome.Unconnected? ==> connection != null && (if old(connected) then connection == old(connection)
                                                               else fresh(connection))
      ensures !outcome.Unconnected? && !outcome.Unserialized? ==>
                && sequenceId == (old(sequenceId) + 1) % WORD
                && FrameSent(connection.codec, SerializedRequest(Request(sequenceId, service, procedure, payload)),
                             sessionKey, true, results, written, sent)
                && (outcome, connection.readBuffer) == Concluded(connection.codec, old(Unused()), written, waits)
                && (!written.Written? ==> outcome == if written.Spinning? then Unfinished else Lost)
      ensures connected <==> !outcome.Unconnected? && !outcome.Lost?
    {
      hide FrameSent, SerializedRequest, Awaited;
      if !connected {
        var ok := Connect(attempts, codec);
        if !ok {
          return Unconnected, Refused, [];
        }
      }
      if payload == [] {
        return Unserialized, Refused, [];
      }
      outcome, written, sent := Ask(service, procedure, payload, sessionKey, results, waits);
    }
  }

  // ----- one response, however it is cut up -----

  /** What successive `::read`s give: at least one byte and at most 4096 each. */
  predicate Pieces(pieces: seq<seq<byte>>) { forall i :: 0 <= i < |pieces| ==> 1 <= |pieces[i]| <= READ_SIZE }

  /** The `::read` just made was full, so that `Read` makes another before anybody looks at the buffer. */
  predicate EndsFull(pieces: seq<seq<byte>>) { pieces != [] && |pieces[|pieces| - 1]| == READ_SIZE }

  /** The waits in which the client makes these `::read`s: each goes on to the first short one. */
  function Calls(pieces: seq<seq<byte>>): (c: seq<seq<ReadResult>>)
    ensures pieces != [] ==> c != []
  {
    if pieces == [] then []
    else if |pieces[0]| < READ_SIZE || |pieces| == 1 then [[Data(pieces[0])]] + Calls(pieces[1..])
    else var c := Calls(pieces[1..]); [[Data(pieces[0])] + c[0]] + c[1..]
  }

  function Waits(inputs: seq<seq<ReadResult>>): seq<Wait> {
    seq(|inputs|, i requires 0 <= i < |inputs| => Some(inputs[i]))
  }

  /** A full read in front is as if its bytes had been in the buffer. */
  lemma FullReadFirst(z: Codec, buffer: seq<byte>, d: seq<byte>, c: seq<seq<ReadResult>>)
    requires |d| == READ_SIZE && |buffer| + |d| <= MAX_BUFFER_SIZE && c != []
    ensures Awaited(z, buffer, Waits([[Data(d)] + c[0]] + c[1..])) == Awaited(z, buffer + d, Waits(c))
  {
    hide Extract, Understood;
    var e := [[Data(d)] + c[0]] + c[1..];
    assert e[0][1..] == c[0];
    assert Waits(e)[1..] == Waits(c)[1..];
  }

  lemma OneFullRead(z: Codec, buffer: seq<byte>, d: seq<byte>)
    requires |d| == READ_SIZE && |buffer| + |d| <= MAX_BUFFER_SIZE
    ensures Awaited(z, buffer, Waits([[Data(d)]])) == (Stuck, buffer + d)
  {
    assert [Data(d)][1..] == [];
    assert BlockingRead(buffer + d, []) == (Hung, buffer + d) == BlockingRead(buffer, [Data(d)]);
  }

  lemma WaitsApart(first: seq<ReadResult>, rest: seq<seq<ReadResult>>)
    ensures Waits([first] + rest) == [Some(first)] + Waits(rest)
  {
  }

  /**
   Fed with a frame, or the start of one, in pieces of any sizes the loop ends in one of three ways.  When the last
   read was full the client is stuck in the next one, though the whole frame may be there.  Otherwise it ends
   with exactly that frame if the last piece is in, and else waits until it times out.
   */
  lemma {:induction false} PiecesAwaited(z: Codec, data: seq<byte>, sessionKey: seq<byte>, w: seq<byte>, n: nat,
                                         buffer: seq<byte>, pieces: seq<seq<byte>>)
    requires FrameOf(z, data, sessionKey, w, n) && n <= MAX_BUFFERED && buffer < w
    requires Pieces(pieces) && buffer + Concat(pieces) <= w
    ensures Awaited(z, buffer, Waits(Calls(pieces))) ==
            if EndsFull(pieces) then (Stuck, buffer + Concat(pieces))
            else if buffer + Concat(pieces) == w then (Understood(data), [])
            else (Lost, buffer + Concat(pieces))
    decreases |pieces|
  {
    hide Extract, FrameOf, Understood;
    if pieces == [] {
      assert buffer + Concat(pieces) == buffer;
    } else {
      var d, rest := pieces[0], pieces[1..];
      FrameFits(z, data, sessionKey, w, n);
      assert buffer + Concat(pieces) == (buffer + d) + Concat(rest);
      if |d| == READ_SIZE && rest == [] {
        OneFullRead(z, buffer, d);
        assert Calls(pieces) == [[Data(d)]] && Concat(pieces) == d + [] == d;
      } else if |d| == READ_SIZE {
        assert rest[0] == pieces[1] && |rest[0]| >= 1;
        assert buffer + d < w;
        FullReadFirst(z, buffer, d, Calls(rest));
        PiecesAwaited(z, data, sessionKey, w, n, buffer + d, rest);
      } else {
        ShortReadFirst(z, data, sessionKey, w, n, buffer, d, Calls(rest));
        if buffer + d == w {
          NothingMore(rest);
        } else {
          assert buffer + d < w;
          PiecesAwaited(z, data, sessionKey, w, n, buffer + d, rest);
        }
      }
    }
  }

  lemma NothingMore(pieces: seq<seq<byte>>)
    requires Pieces(pieces) && Concat(pieces) == []
    ensures pieces == []
  {
  }

  /** After a short read the buffer is looked at. */
  lemma ShortReadFirst(z: Codec, data: seq<byte>, sessionKey: seq<byte>, w: seq<byte>, n: nat,
                       buffer: seq<byte>, d: seq<byte>, rest: seq<seq<ReadResult>>)
    requires FrameOf(z, data, sessionKey, w, n) && n <= MAX_BUFFERED && buffer + d <= w && |d| < READ_SIZE
    ensures Awaited(z, buffer, Waits([[Data(d)]] + rest)) ==
            if buffer + d == w then (Understood(data), []) else Awaited(z, buffer + d, Waits(rest))
  {
    hide Extract, FrameOf, Understood;
    WaitsApart([Data(d)], rest);
    FrameFits(z, data, sessionKey, w, n);
    assert Waits([[Data(d)]] + rest)[1..] == Waits(rest);
    if buffer + d == w {
      ExtractFramed(z, data, sessionKey, w, n, []);
      assert w + [] == w;
    } else {
      ExtractPartial(z, data, sessionKey, w, n, buffer + d);
    }
  }

  /** A frame of at most 786397 compressed bytes is not empty and fits the buffer. */
  lemma FrameFits(z: Codec, data: seq<byte>, sessionKey: seq<byte>, w: seq<byte>, n: nat)
    requires FrameOf(z, data, sessionKey, w, n) && n <= MAX_BUFFERED
    ensures |w| == 4 + Cipher.CipherLength(n) <= MAX_BUFFER_SIZE
  {
    hide FrameOf, Opened, FromBE32, Cipher.CipherLength;
    FrameShape(z, data, sessionKey, w, n);
    SizeLimits(n);
  }

  /** What the client makes of the frame of a response. */
  function Taken(r: Response): Outcome { if ResponseSized(r) then Result(r) else Unreadable }

  /**
   A response that arrives whole is returned if and only if the last `::read` that brought it was short;
   after a full one the call never returns.
   */
  lemma ResponseAwaited(z: Codec, r: Response, sessionKey: seq<byte>, w: seq<byte>, n: nat, pieces: seq<seq<byte>>)
    requires FrameOf(z, SerializedResponse(r), sessionKey, w, n) && n <= MAX_BUFFERED
    requires Pieces(pieces) && Concat(pieces) == w
    ensures Awaited(z, [], Waits(Calls(pieces))) == if EndsFull(pieces) then (Stuck, w) else (Taken(r), [])
    ensures Awaited(z, [], Waits(Calls(pieces))).0 == Taken(r) <==> |pieces[|pieces| - 1]| < READ_SIZE
  {
    hide ParseResponse, Awaited, FrameOf, SerializedResponse;
    FrameFits(z, SerializedResponse(r), sessionKey, w, n);
    assert [] + Concat(pieces) == Concat(pieces);
    PiecesAwaited(z, SerializedResponse(r), sessionKey, w, n, [], pieces);
    ParseSerializedResponse(r);
  }

  /** A stream that is all there at once comes in full reads and a rest. */
  lemma {:induction false} BlockingSlices(buffer: seq<byte>, w: seq<byte>)
    requires w != [] && |buffer| + |w| <= MAX_BUFFER_SIZE
    ensures BlockingRead(buffer, Slices(w)) == (if |w| % READ_SIZE == 0 then Hung else Arrived, buffer + w)
    decreases |w|
  {
    if |w| > READ_SIZE {
      BlockingSlices(buffer + w[..READ_SIZE], w[READ_SIZE..]);
      assert buffer + w[..READ_SIZE] + w[READ_SIZE..] == buffer + w;
      assert Slices(w)[1..] == Slices(w[READ_SIZE..]);
    } else {
      assert Slices(w)[1..] == [];
    }
  }

  /** The frame of `n` compressed bytes has a size that is a multiple of 4096: three in every 3072 have. */
  predicate FullFrame(n: nat) { ((n + 34) / 3 + 1) % 1024 == 0 }

  lemma FullFrameSize(n: nat)
    ensures (4 + Cipher.CipherLength(n)) % READ_SIZE == 0 <==> FullFrame(n)
    ensures 3035 <= n <= 3037 ==> 4 + Cipher.CipherLength(n) == READ_SIZE
  {
    var k := (n + 34) / 3 + 1;
    assert k == k / 1024 * 1024 + k % 1024;
    assert 4 + Cipher.CipherLength(n) == 4 * k == k / 1024 * READ_SIZE + 4 * (k % 1024);
  }

  /**
   A response all there at once is returned if and only if the size of its frame is no multiple of 4096,
   which its compressed size decides.
   */
  lemma AllAtOnce(z: Codec, r: Response, sessionKey: seq<byte>, w: seq<byte>, n: nat)
    requires FrameOf(z, SerializedResponse(r), sessionKey, w, n) && n <= MAX_BUFFERED
    ensures Awaited(z, [], [Some(Slices(w))]) == if FullFrame(n) then (Stuck, w) else (Taken(r), [])
  {
    hide ParseResponse, Extract, FrameOf, SerializedResponse, FullFrame, Slices, Cipher.CipherLength;
    FrameFits(z, SerializedResponse(r), sessionKey, w, n);
    FullFrameSize(n);
    assert w != [];
    BlockingSlices([], w);
    assert [] + w == w && w + [] == w;
    SizeLimits(n);
    ExtractFramed(z, SerializedResponse(r), sessionKey, w, n, []);
    ParseSerializedResponse(r);
  }

  /** The shortest such frames have 4096 bytes: one read brings all of it, and the call never returns. */
  lemma FullFrameSticks(z: Codec, r: Response, sessionKey: seq<byte>, w: seq<byte>, n: nat)
    requires FrameOf(z, SerializedResponse(r), sessionKey, w, n) && 3035 <= n <= 3037
    ensures |w| == READ_SIZE && Awaited(z, [], [Some([Data(w)])]) == (Stuck, w)
  {
    hide FrameOf, SerializedResponse, Cipher.CipherLength;
    FrameFits(z, SerializedResponse(r), sessionKey, w, n);
    FullFrameSize(n);
    OneFullRead(z, [], w);
    assert Waits([[Data(w)]]) == [Some([Data(w)])] && [] + w == w;
  }

  /** A request whose frame fits the buffer, alone on its connection, is dispatched once; nothing is left over. */
  lemma RequestDispatched(z: Codec, r: Request, sessionKey: seq<byte>, w: seq<byte>, n: nat,
                          events: seq<seq<ReadResult>>)
    requires FrameOf(z, SerializedRequest(r), sessionKey, w, n) && n <= MAX_BUFFERED
    requires (forall e :: e in events ==> Calm(e)) && Concat(Chunks(events)) == w
    ensures Serve(z, [], events) == Drained([CutRequest(r)], [], false)
  {
    hide FrameOf, ParseRequest, Serve, ReadsSucceed, CutRequest, SerializedRequest;
    FrameFits(z, SerializedRequest(r), sessionKey, w, n);
    CalmReadsSucceed(z, [], events);
    RequestEndToEnd(z, r, sessionKey, w, n, []);
    assert w + [] == w && [] + w == w;
    EmptyIncomplete(z);
    DrainOne(z, w);
    DrainOne(z, []);
    ServeParsesStream(z, [], events);
  }

  lemma EmptyIncomplete(z: Codec)
    ensures Extract(z, []).status.Incomplete?
  {
  }

  /**
   One call over the whole stack, both ways, in whatever pieces the bytes come: the server dispatches the
   request, and the client is given the server's answer to it if and only if the last `::read` of the client
   was short.  After a full one it has every byte of the answer and never returns.
   */
  lemma CallAnswered(z: Codec, r: Request, outcome: Option<seq<byte>>,
                     requestKey: seq<byte>, w: seq<byte>, n: nat, events: seq<seq<ReadResult>>,
                     replyKey: seq<byte>, v: seq<byte>, m: nat, pieces: seq<seq<byte>>)
    requires FrameOf(z, SerializedRequest(r), requestKey, w, n) && n <= MAX_BUFFERED && Sized(r)
    requires (forall e :: e in events ==> Calm(e)) && Concat(Chunks(events)) == w
    requires FrameOf(z, SerializedResponse(Answer(r, outcome)), replyKey, v, m) && m <= MAX_BUFFERED
    requires ResponseSized(Answer(r, outcome))
    requires Pieces(pieces) && Concat(pieces) == v
    ensures Serve(z, [], events) == Drained([r], [], false)
    ensures Awaited(z, [], Waits(Calls(pieces))) ==
            if |pieces[|pieces| - 1]| < READ_SIZE then (Result(Answer(r, outcome)), []) else (Stuck, v)
    ensures AnswersTo(r, outcome, Answer(r, outcome))
  {
    hide FrameOf, Serve, Awaited, Answer, AnswersTo;
    AnswerExactly(r, outcome, Answer(r, outcome));
    RequestDispatched(z, r, requestKey, w, n, events);
    ResponseAwaited(z, Answer(r, outcome), replyKey, v, m, pieces);
  }
}
