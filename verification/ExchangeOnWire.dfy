/**
 The steps of the exchange in which a message moves, in bytes: what `Send`, `Dispatch`, `Respond` and `Receive`
 do is what the client and the server do with the frames of those messages, in whatever pieces these arrive.
 */
module ExchangeOnWire {
  import opened Bytes
  import opened Protocol
  import opened Answers
  import opened Wire
  import opened Network
  import opened Client
  import opened Exchange
  import Cipher

  /** `w` is the frame of the serialized message `data`. */
  ghost predicate Carries(z: Codec, data: seq<byte>, sessionKey: seq<byte>, w: seq<byte>) {
    RoundTrips(z) && |sessionKey| == Cipher.KEY_LENGTH && Framed(z, data, sessionKey) == Some(w)
  }

  function Compressed(z: Codec, data: seq<byte>): nat {
    if z.compress(data).Some? then |z.compress(data).value| else 0
  }

  /** The frame of something serialized is one the lemmas about frames speak of, and its size class is exact. */
  lemma CarriesFrame(z: Codec, data: seq<byte>, sessionKey: seq<byte>, w: seq<byte>)
    requires Carries(z, data, sessionKey, w) && IsMessage(data)
    ensures FrameOf(z, data, sessionKey, w, Compressed(z, data))
    ensures SizeOf(z, data).Unsendable? <==> Cipher.CipherLength(Compressed(z, data)) >= WORD
    ensures SizeOf(z, data).Fitting? ==> Compressed(z, data) <= MAX_BUFFERED
    ensures SizeOf(z, data).Oversized? ==> Compressed(z, data) > MAX_BUFFERED
  {
    hide Cipher.Encrypted;
  }

  lemma RequestCarried(z: Codec, r: Request, sessionKey: seq<byte>, w: seq<byte>)
    requires Carries(z, SerializedRequest(r), sessionKey, w)
    ensures FrameOf(z, SerializedRequest(r), sessionKey, w, Compressed(z, SerializedRequest(r)))
  {
    hide SerializedRequest, SerializedResponse, Carries, FrameOf;
    SerializedAreMessages(r, Response(0, 0, [], []));
    CarriesFrame(z, SerializedRequest(r), sessionKey, w);
  }

  lemma ResponseCarried(z: Codec, p: Response, sessionKey: seq<byte>, w: seq<byte>)
    requires Carries(z, SerializedResponse(p), sessionKey, w)
    ensures FrameOf(z, SerializedResponse(p), sessionKey, w, Compressed(z, SerializedResponse(p)))
  {
    hide SerializedRequest, SerializedResponse, Carries, FrameOf;
    SerializedAreMessages(Request(0, [], [], []), p);
    CarriesFrame(z, SerializedResponse(p), sessionKey, w);
  }

  // ----- writing -----

  /** A write that reports success has put the frame on the wire; short of 4 GiB that is a step of the exchange. */
  lemma WriteCarries(z: Codec, data: seq<byte>, sessionKey: seq<byte>, results: seq<WriteResult>, sent: seq<byte>)
    requires RoundTrips(z) && |sessionKey| == Cipher.KEY_LENGTH && IsMessage(data)
    requires FrameSent(z, data, sessionKey, true, results, Written, sent)
    ensures Carries(z, data, sessionKey, sent)
    ensures SizeOf(z, data).Unsendable? <==> Cipher.CipherLength(Compressed(z, data)) >= WORD
  {
    hide SizeOf, Framed;
    var w := Framed(z, data, sessionKey).value;
    assert w[..|w|] == w;
    CarriesFrame(z, data, sessionKey, w);
  }

  /** What the client's `Write` puts on the wire is the message that `Send` adds to its socket. */
  lemma SendOnWire(s: Net, i: nat, r: Request, sessionKey: seq<byte>, results: seq<WriteResult>, sent: seq<byte>)
    requires Ready(s, i) && s.HasSock(s.clients[i].sock) && r.sequenceId == NextId(s.clients[i]) && r.payload != []
    requires RoundTrips(s.codec) && |sessionKey| == Cipher.KEY_LENGTH
    requires FrameSent(s.codec, SerializedRequest(r), sessionKey, true, results, Written, sent)
    requires Cipher.CipherLength(Compressed(s.codec, SerializedRequest(r))) < WORD
    ensures var a := Send(i, r.service, r.procedure, r.payload); var x := s.clients[i].sock;
            && Enabled(s, a)
            && var m := Sent(|s.calls|, r);
               Apply(s, a).socks[x].inbound == s.socks[x].inbound + [m]
               && Carries(s.codec, SerializedRequest(m.request), sessionKey, sent)
  {
    hide SerializedRequest, FrameSent, Carries, SizeOf;
    SerializedAreMessages(r, Response(0, 0, [], []));
    WriteCarries(s.codec, SerializedRequest(r), sessionKey, results, sent);
    assert Request(NextId(s.clients[i]), r.service, r.procedure, r.payload) == r;
  }

  /** What the worker's `Write` puts on the wire is the response that `Respond` adds to the socket. */
  lemma RespondOnWire(s: Net, k: nat, outcome: Option<seq<byte>>, sessionKey: seq<byte>,
                      results: seq<WriteResult>, sent: seq<byte>)
    requires k in s.tasks && s.tasks[k].conn < |s.conns| && s.conns[s.tasks[k].conn].fd in s.kernel
    requires s.HasSock(s.kernel[s.conns[s.tasks[k].conn].fd])
    requires RoundTrips(s.codec) && |sessionKey| == Cipher.KEY_LENGTH
    requires FrameSent(s.codec, SerializedResponse(Answer(s.tasks[k].sent.request, outcome)), sessionKey, true,
                       results, Written, sent)
    requires Cipher.CipherLength(Compressed(s.codec, SerializedResponse(Answer(s.tasks[k].sent.request, outcome))))
             < WORD
    ensures Enabled(s, Respond(k, outcome, true))
    ensures var y := s.kernel[s.conns[s.tasks[k].conn].fd];
            var p := Reply(s.tasks[k].sent.call, Answer(s.tasks[k].sent.request, outcome));
            && WriteReply(s, k, outcome, true).socks[y].outbound == s.socks[y].outbound + [p]
            && Carries(s.codec, SerializedResponse(p.response), sessionKey, sent)
  {
    hide SerializedResponse, FrameSent, Carries, SizeOf, Answer;
    var p := Answer(s.tasks[k].sent.request, outcome);
    SerializedAreMessages(Request(0, [], [], []), p);
    WriteCarries(s.codec, SerializedResponse(p), sessionKey, results, sent);
  }

  // ----- reading -----

  /**
   The frame of the next request, arriving without end or error in whatever pieces, makes `HandleClientData`
   hand over exactly the request of the task that `Dispatch` adds.
   */
  lemma DispatchOnWire(s: Net, fd: nat, sessionKey: seq<byte>, w: seq<byte>, events: seq<seq<ReadResult>>)
    requires Enabled(s, Dispatch(fd, true)) && Carries(s.codec, SerializedRequest(Unread(s, fd).request), sessionKey, w)
    requires (forall e :: e in events ==> Calm(e)) && Concat(Chunks(events)) == w
    ensures var t := Apply(s, Dispatch(fd, true));
            s.nextTask in t.tasks
            && Serve(s.codec, [], events) == Drained([t.tasks[s.nextTask].sent.request], [], false)
  {
    hide SerializedRequest, Carries, FrameOf, Serve, CutRequest, Cipher.CipherLength;
    var z, r := s.codec, Unread(s, fd).request;
    RequestCarried(z, r, sessionKey, w);
    SerializedAreMessages(r, Response(0, 0, [], []));
    CarriesFrame(z, SerializedRequest(r), sessionKey, w);
    RequestDispatched(z, r, sessionKey, w, Compressed(z, SerializedRequest(r)), events);
  }

  /** No reads of the frame of a message too long for the buffer ever make the server dispatch anything. */
  lemma {:induction false} OversizedNotServed(z: Codec, data: seq<byte>, sessionKey: seq<byte>, w: seq<byte>, n: nat,
                                              buffer: seq<byte>, events: seq<seq<ReadResult>>)
    requires FrameOf(z, data, sessionKey, w, n) && n > MAX_BUFFERED && Cipher.CipherLength(n) < WORD
    requires |buffer| <= MAX_BUFFER_SIZE && buffer + Concat(Chunks(events)) <= w
    ensures Serve(z, buffer, events).requests == []
    decreases |events|
  {
    hide FrameOf, Extract, ReadInto, ParseRequest, Cipher.CipherLength;
    if events != [] {
      var (ok, read) := ReadInto(buffer, events[0]);
      if ok {
        ReadAppends(buffer, events[0]);
        ReadDelivers(buffer, events[0]);
        assert Concat(Chunks(events)) == Delivered(events[0]) + Concat(Chunks(events[1..])) by {
          assert Chunks(events)[1..] == Chunks(events[1..]);
        }
        assert buffer + Concat(Chunks(events)) == read + Concat(Chunks(events[1..]));
        NeverComplete(z, data, sessionKey, w, n, read);
        DrainOne(z, read);
        if Extract(z, read).status.Incomplete? { OversizedNotServed(z, data, sessionKey, w, n, read, events[1..]); }
      }
    }
  }

  lemma NeverComplete(z: Codec, data: seq<byte>, sessionKey: seq<byte>, w: seq<byte>, n: nat, buffer: seq<byte>)
    requires FrameOf(z, data, sessionKey, w, n) && n > MAX_BUFFERED && Cipher.CipherLength(n) < WORD
    requires |buffer| <= MAX_BUFFER_SIZE && buffer <= w
    ensures !Extract(z, buffer).status.Complete?
  {
    hide Framed, Extract, Cipher.CipherLength;
    assert w + [] == w;
    if Extract(z, buffer).status.Complete? {
      TooLongComplete(z, data, sessionKey, w, n, buffer, [], Extract(z, buffer).status.frame);
    }
  }

  /** So the guard of `Dispatch` is exact: the request can be dispatched if and only if its frame fits. */
  lemma DispatchExactly(z: Codec, r: Request, sessionKey: seq<byte>, w: seq<byte>)
    requires Carries(z, SerializedRequest(r), sessionKey, w) && !RequestSize(z, r).Unsendable?
    ensures RequestSize(z, r).Fitting? <==>
            exists events :: Concat(Chunks(events)) <= w && Serve(z, [], events).requests != []
  {
    hide SerializedRequest, Carries, FrameOf, Serve, CutRequest, Cipher.CipherLength, SizeOf, Slices;
    var n := Compressed(z, SerializedRequest(r));
    RequestCarried(z, r, sessionKey, w);
    SerializedAreMessages(r, Response(0, 0, [], []));
    CarriesFrame(z, SerializedRequest(r), sessionKey, w);
    if RequestSize(z, r).Fitting? {
      SlicesCalm(w);
      RequestDispatched(z, r, sessionKey, w, n, [Slices(w)]);
      assert Serve(z, [], [Slices(w)]).requests != [];
    } else {
      forall events | Concat(Chunks(events)) <= w ensures Serve(z, [], events).requests == [] {
        assert [] + Concat(Chunks(events)) == Concat(Chunks(events));
        OversizedNotServed(z, SerializedRequest(r), sessionKey, w, n, [], events);
      }
    }
  }

  lemma SlicesCons(w: seq<byte>)
    requires |w| > READ_SIZE
    ensures Slices(w) == [Data(w[..READ_SIZE])] + Slices(w[READ_SIZE..])
  {
  }

  lemma CalmCons(first: ReadResult, rest: seq<ReadResult>)
    requires Legal(first) && first.Data? && Calm(rest)
    ensures Calm([first] + rest)
  {
  }

  lemma {:induction false} SlicesDeliver(w: seq<byte>)
    ensures Calm(Slices(w)) && Delivered(Slices(w)) == w
    decreases |w|
  {
    if |w| > READ_SIZE {
      var first, rest := Data(w[..READ_SIZE]), Slices(w[READ_SIZE..]);
      SlicesDeliver(w[READ_SIZE..]);
      hide Slices, Calm;
      SlicesCons(w);
      CalmCons(first, rest);
      assert ([first] + rest)[1..] == rest;
      assert w[..READ_SIZE] + w[READ_SIZE..] == w;
    } else if w != [] {
      assert Slices(w)[1..] == [] && w + [] == w;
    }
  }

  lemma SlicesCalm(w: seq<byte>)
    ensures (forall e :: e in [Slices(w)] ==> Calm(e)) && Concat(Chunks([Slices(w)])) == w
  {
    SlicesDeliver(w);
    assert [Slices(w)][1..] == [];
    assert Chunks([Slices(w)]) == [w] && [w][1..] == [] && w + [] == w;
  }

  /**
   The frame of the reply, arriving in whatever pieces, makes `ReadResponse` end with exactly what `Receive`
   returns, if the last `::read` was short; after a full one it does not end.
   */
  lemma ReceiveOnWire(s: Net, i: nat, sessionKey: seq<byte>, v: seq<byte>, pieces: seq<seq<byte>>)
    requires Enabled(s, Receive(i))
    requires Carries(s.codec, SerializedResponse(s.socks[s.clients[i].sock].outbound[0].response), sessionKey, v)
    requires Pieces(pieces) && Concat(pieces) == v
    ensures var p := s.socks[s.clients[i].sock].outbound[0].response;
            var outcome := Awaited(s.codec, [], Waits(Calls(pieces))).0;
            if EndsFull(pieces) then outcome == Stuck
            else
              && outcome == Taken(p)
              && Apply(s, Receive(i)).returned ==
                 s.returned + if outcome.Result? then [Return(i, s.clients[i].phase.call, outcome.response)] else []
  {
    hide SerializedResponse, Carries, FrameOf, Awaited, Cipher.CipherLength;
    var z, p := s.codec, s.socks[s.clients[i].sock].outbound[0].response;
    ResponseCarried(z, p, sessionKey, v);
    SerializedAreMessages(Request(0, [], [], []), p);
    CarriesFrame(z, SerializedResponse(p), sessionKey, v);
    ResponseAwaited(z, p, sessionKey, v, Compressed(z, SerializedResponse(p)), pieces);
    assert s.returned + [] == s.returned;
  }

  /** And no pieces of a response too long for the buffer ever end the wait with a result. */
  lemma {:induction false} OversizedNotAwaited(z: Codec, data: seq<byte>, sessionKey: seq<byte>, w: seq<byte>, n: nat,
                                               buffer: seq<byte>, pieces: seq<seq<byte>>)
    requires FrameOf(z, data, sessionKey, w, n) && n > MAX_BUFFERED && Cipher.CipherLength(n) < WORD
    requires |buffer| <= MAX_BUFFER_SIZE && Pieces(pieces) && buffer + Concat(pieces) <= w
    ensures var outcome := Awaited(z, buffer, Waits(Calls(pieces))).0; outcome.Lost? || outcome.Stuck?
    decreases |pieces|
  {
    hide FrameOf, Extract, Understood, Cipher.CipherLength;
    if pieces != [] {
      var d, rest := pieces[0], pieces[1..];
      assert buffer + Concat(pieces) == (buffer + d) + Concat(rest);
      if |buffer| + |d| > MAX_BUFFER_SIZE {
        Overflows(z, buffer, d, Waits(Calls(pieces)));
      } else if |d| == READ_SIZE && rest == [] {
        OneFullRead(z, buffer, d);
        assert Calls(pieces) == [[Data(d)]];
      } else if |d| == READ_SIZE {
        FullReadFirst(z, buffer, d, Calls(rest));
        OversizedNotAwaited(z, data, sessionKey, w, n, buffer + d, rest);
      } else {
        NeverComplete(z, data, sessionKey, w, n, buffer + d);
        assert Calls(pieces) == [[Data(d)]] + Calls(rest);
        WaitsApart([Data(d)], Calls(rest));
        assert Waits(Calls(pieces))[1..] == Waits(Calls(rest));
        OversizedNotAwaited(z, data, sessionKey, w, n, buffer + d, rest);
      }
    }
  }

  lemma Overflows(z: Codec, buffer: seq<byte>, d: seq<byte>, waits: seq<Wait>)
    requires |buffer| + |d| > MAX_BUFFER_SIZE
    requires waits != [] && waits[0].Some? && waits[0].value != [] && waits[0].value[0] == Data(d)
    ensures Awaited(z, buffer, waits) == (Lost, buffer)
  {
  }
}
