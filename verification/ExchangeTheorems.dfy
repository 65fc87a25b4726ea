/** What holds of the exchange in every reachable state and over every run. */
module ExchangeTheorems {
  import opened Bytes
  import opened Protocol
  import opened Answers
  import opened Wire
  import opened Exchange

  /** The client compares no ids, and yet what it reads is the answer to the call it is waiting on. */
  lemma MatchedReply(s: Net, i: nat)
    requires Reachable(s) && Enabled(s, Receive(i))
    ensures var call := s.clients[i].phase.call; var reply := s.socks[s.clients[i].sock].outbound[0];
            && reply.call == call && call < |s.calls| && call in s.handled
            && reply.response == Answer(CutRequest(s.calls[call].request), s.handled[call])
            && AnswersTo(CutRequest(s.calls[call].request), s.handled[call], reply.response)
            && reply.response.sequenceId == s.calls[call].request.sequenceId == s.clients[i].sequenceId
  {
    ReachableInv(s);
    ReplyIsOwn(s, i);
    assert ClientOk(s, i);
    var call := s.clients[i].phase.call;
    AnswerExactly(CutRequest(s.calls[call].request), s.handled[call],
                  Answer(CutRequest(s.calls[call].request), s.handled[call]));
  }

  /** Every result ever returned is the answer to the caller's own request, and no call returns twice. */
  lemma ReturnedAnswers(s: Net, j: nat, l: nat)
    requires Reachable(s) && j < |s.returned| && l < |s.returned|
    ensures var r := s.returned[j];
            && r.call < |s.calls| && s.calls[r.call].client == r.client
            && r.call in s.handled && r.response == Answer(CutRequest(s.calls[r.call].request), s.handled[r.call])
            && (Sized(s.calls[r.call].request) ==>
                  r.response == Answer(s.calls[r.call].request, s.handled[r.call]))
            && AnswersTo(CutRequest(s.calls[r.call].request), s.handled[r.call], r.response)
    ensures s.returned[j].call == s.returned[l].call ==> j == l
  {
    ReachableInv(s);
    assert ReturnOk(s, s.returned[j]);
    var r := s.returned[j];
    CutSized(s.calls[r.call].request);
    AnswerExactly(CutRequest(s.calls[r.call].request), s.handled[r.call], r.response);
  }

  /** Fields whose sizes fit 32 bits reach the server whole. */
  lemma CutSized(r: Request)
    ensures CutRequest(r) == r <==> Sized(r)
  {
  }

  ghost function TasksOn(s: Net, x: nat): set<nat> { set k | k in s.tasks && s.tasks[k].origin == x }

  lemma AtMostOne(s: Net, x: nat)
    requires TasksApart(s)
    ensures |TasksOn(s, x)| <= 1
  {
    var on := TasksOn(s, x);
    if on != {} {
      var k :| k in on;
      assert on == {k};
    }
  }

  /** No socket ever has more than one request, task or response; between calls a client's socket has none. */
  lemma OneInFlight(s: Net, x: nat)
    requires Reachable(s) && s.HasSock(x)
    ensures |s.socks[x].inbound| + |TasksOn(s, x)| + |s.socks[x].outbound| <= 1
    ensures forall i: nat :: Ready(s, i) && s.clients[i].sock == x ==>
              |s.socks[x].inbound| + |TasksOn(s, x)| + |s.socks[x].outbound| == 0
  {
    ReachableInv(s);
    assert SockOk(s, x);
    AtMostOne(s, x);
    if k :| k in TasksOn(s, x) { assert TaskOk(s, k); }
    forall i: nat | Ready(s, i) && s.clients[i].sock == x ensures Quiet(s, x) && TasksOn(s, x) == {} {
      assert ClientOk(s, i);
    }
  }

  /** The pool is never given a call that was handled, nor one call twice. */
  lemma HandledOnce(s: Net, k: nat, l: nat)
    requires Reachable(s) && k in s.tasks && l in s.tasks
    ensures s.tasks[k].sent.call !in s.handled
    ensures s.tasks[k].sent.call == s.tasks[l].sent.call ==> k == l
  {
    ReachableInv(s);
    assert TaskOk(s, k) && TaskOk(s, l);
  }

  /** A response leaves by the socket its request came in by and its caller sent it on, whatever the descriptor. */
  lemma RoutesBack(s: Net, k: nat)
    requires Reachable(s) && k in s.tasks
    ensures var task := s.tasks[k]; var c := task.conn;
            && c < |s.conns| && s.conns[c].fd in s.kernel
            && s.kernel[s.conns[c].fd] == s.conns[c].sock == task.origin
            && task.sent.call < |s.calls| && s.calls[task.sent.call].sock == task.origin
  {
    ReachableInv(s);
    WritesToOrigin(s, k);
    assert TaskOk(s, k);
  }

  lemma NeverMisrouted(s: Net, j: nat)
    requires Reachable(s) && j < |s.routed|
    ensures s.routed[j].0 == s.routed[j].1
  {
    ReachableInv(s);
  }

  /** A descriptor is open exactly while some owner of its connection object is left. */
  lemma OpenWhileOwned(s: Net, fd: nat)
    requires Reachable(s)
    ensures fd in s.kernel <==> exists c: nat :: s.Owned(c) && s.conns[c].fd == fd
    ensures forall c: nat :: s.Owned(c) && s.conns[c].fd == fd ==> fd in s.kernel && s.kernel[fd] == s.conns[c].sock
    ensures forall c: nat, d: nat :: s.Owned(c) && s.Owned(d) && s.conns[c].fd == s.conns[d].fd ==> c == d
  {
    ReachableInv(s);
    forall c: nat | s.Owned(c)
      ensures s.conns[c].fd in s.kernel && s.kernel[s.conns[c].fd] == s.conns[c].sock
    {
      assert Held(s, {}, c);
    }
    hide Net.Owned, LineOk, ClientsOk, ReturnsOk, ReturnsOnce, RoutedOk;
    if fd in s.kernel {
      var c: nat :| Held(s, {}, c) && s.conns[c].fd == fd;
      assert s.Owned(c);
    }
  }

  /** `AddConnection` never overwrites an entry, and the key of an entry is its connection's descriptor. */
  lemma TableSound(s: Net, fd: nat, x: nat)
    requires Reachable(s)
    ensures Enabled(s, Accept(fd, x)) ==> fd !in s.table
    ensures fd in s.table ==> s.table[fd] < |s.conns| && s.conns[s.table[fd]].fd == fd && fd in s.kernel
  {
    ReachableInv(s);
    if fd in s.table { TableEntriesAreOpen(s, fd); }
  }

  // ----- an abandoned exchange -----

  /** No client is connected by this socket. */
  ghost predicate Abandoned(s: Net, x: nat) {
    s.HasSock(x) && forall i: nat :: s.HasClient(i) && s.clients[i].connected ==> s.clients[i].sock != x
  }

  /** What was called and returned on the socket is the same in both. */
  ghost predicate NothingNew(s: Net, t: Net, x: nat) {
    && s.calls <= t.calls && s.returned <= t.returned
    && (forall n :: |s.calls| <= n < |t.calls| ==> t.calls[n].sock != x)
    && (forall j :: |s.returned| <= j < |t.returned| ==>
          t.returned[j].call < |t.calls| && t.calls[t.returned[j].call].sock != x)
  }

  /** What the server never touches. */
  predicate LeftAlone(s: Net, t: Net) {
    t.clients == s.clients && t.calls == s.calls && t.returned == s.returned && |t.socks| == |s.socks|
  }

  lemma RespondLeavesAlone(s: Net, k: nat, outcome: Option<seq<byte>>, written: bool)
    requires Enabled(s, Respond(k, outcome, written))
    ensures LeftAlone(s, WriteReply(s, k, outcome, written))
  {
    hide Answer, ResponseSize;
  }

  lemma ServerLeavesAlone(s: Net, a: Action)
    requires !ClientStep(a) && Enabled(s, a)
    ensures LeftAlone(s, Apply(s, a))
  {
    hide Answer, RequestSize, ResponseSize, CutRequest;
    if a.Respond? { RespondLeavesAlone(s, a.k, a.outcome, a.written); }
  }

  lemma ReceiveLeavesAlone(s: Net, i: nat, x: nat)
    requires SocksOk(s) && ClientsOk(s) && Enabled(s, Receive(i)) && Abandoned(s, x)
    ensures Abandoned(ReceiveReply(s, i), x) && NothingNew(s, ReceiveReply(s, i), x)
  {
    ReplyIsOwn(s, i);
    assert ClientOk(s, i);
    hide SocksOk, ClientsOk, Quiet, ResponseSize, ResponseSized;
  }

  lemma ClientLeavesAlone(s: Net, a: Action, x: nat)
    requires SocksOk(s) && ClientsOk(s) && ClientStep(a) && Enabled(s, a) && Abandoned(s, x)
    ensures Abandoned(Apply(s, a), x) && NothingNew(s, Apply(s, a), x)
  {
    hide SocksOk, ClientsOk, RequestSize;
    if a.Receive? { ReceiveLeavesAlone(s, a.i, x); }
  }

  lemma AbandonedStep(s: Net, a: Action, x: nat)
    requires Inv(s) && Enabled(s, a) && Abandoned(s, x)
    ensures Abandoned(Apply(s, a), x) && NothingNew(s, Apply(s, a), x)
  {
    hide Enabled, Apply;
    if ClientStep(a) { ClientLeavesAlone(s, a, x); } else { ServerLeavesAlone(s, a); }
  }

  /** Once given up, a socket is never used again: no later call goes there and no late answer is taken from it. */
  lemma {:induction false} AbandonedForGood(s: Net, acts: seq<Action>, t: Net, x: nat)
    requires Inv(s) && Runs(s, acts, t) && Abandoned(s, x)
    ensures Abandoned(t, x) && NothingNew(s, t, x)
    decreases |acts|
  {
    hide Inv, Enabled, Apply, Abandoned;
    if acts != [] {
      var u := Apply(s, acts[0]);
      KeepsInv(s, acts[0]);
      AbandonedStep(s, acts[0], x);
      AbandonedForGood(u, acts[1..], t, x);
    }
  }

  lemma GivingUpAbandons(s: Net, a: Action)
    requires Inv(s) && Enabled(s, a) && (a.GiveUp? || a.SendFails?)
    ensures Abandoned(Apply(s, a), s.clients[a.i].sock)
  {
    hide FdOk, LineOk, ReturnsOk, ReturnsOnce, RoutedOk, Quiet;
    assert ClientOk(s, a.i);
    assert forall j: nat :: s.HasClient(j) && s.clients[j].connected ==> ClientOk(s, j);
  }

  /** A failed write, a time-out or a bad frame abandons the socket in use. */
  lemma FailureAbandons(s: Net, a: Action)
    requires Reachable(s) && Enabled(s, a) && (a.GiveUp? || a.SendFails?)
    ensures Abandoned(Apply(s, a), s.clients[a.i].sock)
    ensures forall acts, t :: Runs(Apply(s, a), acts, t) ==> NothingNew(Apply(s, a), t, s.clients[a.i].sock)
  {
    var x := s.clients[a.i].sock;
    hide Reachable, Runs, Inv, Apply, NothingNew, Enabled, Abandoned;
    ReachableInv(s);
    KeepsInv(s, a);
    GivingUpAbandons(s, a);
    forall acts, t | Runs(Apply(s, a), acts, t) ensures NothingNew(Apply(s, a), t, x) {
      AbandonedForGood(Apply(s, a), acts, t, x);
    }
  }

  // ----- which calls can complete -----

  /** One call on connection object `c`, already accepted, in the order the messages travel. */
  function WholeCall(s: Net, i: nat, r: Request, c: nat, outcome: Option<seq<byte>>): seq<Action>
    requires c < |s.conns|
  {
    [Send(i, r.service, r.procedure, r.payload),
     Dispatch(s.conns[c].fd, true),
     Respond(s.nextTask, outcome, true),
     Receive(i)]
  }

  /** The request is not refused for an empty payload, and both frames fit the buffers they are read into. */
  predicate Completable(z: Codec, r: Request, outcome: Option<seq<byte>>) {
    && r.payload != [] && RequestSize(z, r).Fitting?
    && ResponseSize(z, Answer(CutRequest(r), outcome)).Fitting?
  }

  lemma SendArrives(s: Net, i: nat, r: Request)
    requires Ready(s, i) && Quiet(s, s.clients[i].sock) && r.sequenceId == NextId(s.clients[i])
    ensures var a := Send(i, r.service, r.procedure, r.payload);
            Enabled(s, a) <==> r.payload != [] && !RequestSize(s.codec, r).Unsendable?
    ensures var a := Send(i, r.service, r.procedure, r.payload); var x := s.clients[i].sock;
            Enabled(s, a) ==>
              var t := Apply(s, a);
              && t.HasSock(x) && t.socks[x].inbound == [Sent(|s.calls|, r)] && t.socks[x].outbound == []
              && t.HasClient(i) && t.clients[i].phase == Waiting(|s.calls|) && t.clients[i].sock == x
              && t.returned == s.returned && t.codec == s.codec && SameServer(s, t)
  {
    hide RequestSize;
  }

  predicate SameServer(s: Net, t: Net) {
    t.kernel == s.kernel && t.table == s.table && t.conns == s.conns && t.tasks == s.tasks && t.nextTask == s.nextTask
  }

  /** A connection object in the table, its descriptor open on its own socket. */
  predicate Serves(s: Net, c: nat, x: nat) {
    && c < |s.conns| && s.HasSock(x) && s.conns[c].fd in s.table && s.table[s.conns[c].fd] == c
    && s.conns[c].fd in s.kernel && s.kernel[s.conns[c].fd] == x
  }

  lemma RequestIsQueued(s: Net, c: nat, x: nat, m: Sent)
    requires Serves(s, c, x) && s.socks[x].inbound == [m]
    ensures Enabled(s, Dispatch(s.conns[c].fd, true)) <==> RequestSize(s.codec, m.request).Fitting?
    ensures Enabled(s, Dispatch(s.conns[c].fd, true)) ==>
              var t := Apply(s, Dispatch(s.conns[c].fd, true));
              && Serves(t, c, x) && t.conns == s.conns && t.clients == s.clients && t.returned == s.returned
              && t.socks == s.socks[x := s.socks[x].(inbound := [])] && t.codec == s.codec
              && s.nextTask in t.tasks && t.tasks[s.nextTask] == Task(c, Sent(m.call, CutRequest(m.request)), x)
  {
    hide RequestSize, CutRequest;
    assert [m][1..] == [];
  }

  lemma ReplyArrives(s: Net, k: nat, c: nat, x: nat, m: Sent, outcome: Option<seq<byte>>)
    requires Serves(s, c, x) && k in s.tasks && s.tasks[k] == Task(c, m, x) && s.socks[x].outbound == []
    ensures Enabled(s, Respond(k, outcome, true)) <==> !ResponseSize(s.codec, Answer(m.request, outcome)).Unsendable?
    ensures Enabled(s, Respond(k, outcome, true)) ==>
              var t := Apply(s, Respond(k, outcome, true));
              && t.clients == s.clients && t.returned == s.returned && t.HasSock(x) && t.codec == s.codec
              && t.socks[x].outbound == [Reply(m.call, Answer(m.request, outcome))]
  {
    hide Answer, ResponseSize;
    if Enabled(s, Respond(k, outcome, true)) { assert WriteReply(s, k, outcome, true).Owned(c); }
  }

  lemma ReplyIsTaken(s: Net, i: nat)
    requires AtWork(s, i) && s.socks[s.clients[i].sock].outbound != []
    ensures var p := s.socks[s.clients[i].sock].outbound[0].response;
            && (Enabled(s, Receive(i)) <==> ResponseSize(s.codec, p).Fitting?)
            && (Enabled(s, Receive(i)) ==>
                  Apply(s, Receive(i)).returned ==
                  s.returned + if ResponseSized(p) then [Return(i, s.clients[i].phase.call, p)] else [])
  {
    hide ResponseSize;
    assert s.returned + [] == s.returned;
  }

  lemma RunOn(s: Net, a: Action, acts: seq<Action>, t: Net)
    ensures Runs(s, [a] + acts, t) <==> Enabled(s, a) && Runs(Apply(s, a), acts, t)
  {
    assert ([a] + acts)[1..] == acts;
  }

  /** The last two steps: the answer written is the answer read. */
  lemma AnswerTravels(s: Net, k: nat, c: nat, x: nat, i: nat, m: Sent, outcome: Option<seq<byte>>, t: Net)
    requires Serves(s, c, x) && k in s.tasks && s.tasks[k] == Task(c, m, x) && s.socks[x].outbound == []
    requires s.HasClient(i) && s.clients[i].phase == Waiting(m.call) && s.clients[i].sock == x
    ensures var p := Answer(m.request, outcome); var acts := [Respond(k, outcome, true), Receive(i)];
            && (Runs(s, acts, t) ==>
                  && ResponseSize(s.codec, p).Fitting?
                  && t.returned == s.returned + if ResponseSized(p) then [Return(i, m.call, p)] else [])
            && (ResponseSize(s.codec, p).Fitting? ==> exists u :: Runs(s, acts, u))
  {
    var a, b := Respond(k, outcome, true), Receive(i);
    hide Answer, Apply, Enabled, ResponseSize, ResponseSized, Serves;
    ReplyArrives(s, k, c, x, m, outcome);
    RunOn(s, a, [b], t);
    if Enabled(s, a) {
      var s1 := Apply(s, a);
      ReplyIsTaken(s1, i);
      RunOn(s1, b, [], t);
      assert [a] + [b] == [a, b] && [b] + [] == [b];
      if Enabled(s1, b) {
        RunOn(s1, b, [], Apply(s1, b));
        RunOn(s, a, [b], Apply(s1, b));
      }
    }
  }

  lemma WholeCallExactly(s: Net, i: nat, r: Request, c: nat, outcome: Option<seq<byte>>, t: Net)
    requires Ready(s, i) && Quiet(s, s.clients[i].sock) && r.sequenceId == NextId(s.clients[i])
    requires Serves(s, c, s.clients[i].sock)
    ensures Runs(s, WholeCall(s, i, r, c, outcome), t) ==>
              Completable(s.codec, r, outcome) && t.returned == s.returned + Returns(s, i, r, outcome)
    ensures Completable(s.codec, r, outcome) ==> exists u :: Runs(s, WholeCall(s, i, r, c, outcome), u)
  {
    var x, m := s.clients[i].sock, Sent(|s.calls|, CutRequest(r));
    var a, b := Send(i, r.service, r.procedure, r.payload), Dispatch(s.conns[c].fd, true);
    var rest := [Respond(s.nextTask, outcome, true), Receive(i)];
    assert WholeCall(s, i, r, c, outcome) == [a] + ([b] + rest);
    hide Answer, Apply, Runs, Enabled, Quiet, Ready, CutRequest, RequestSize, ResponseSize, ResponseSized, WholeCall;
    SendArrives(s, i, r);
    RunOn(s, a, [b] + rest, t);
    if Enabled(s, a) {
      var s1 := Apply(s, a);
      RequestIsQueued(s1, c, x, Sent(|s.calls|, r));
      RunOn(s1, b, rest, t);
      if Enabled(s1, b) {
        var s2 := Apply(s1, b);
        AnswerTravels(s2, s.nextTask, c, x, i, m, outcome, t);
        if u :| Runs(s2, rest, u) {
          RunOn(s1, b, rest, u);
          RunOn(s, a, [b] + rest, u);
        }
      }
    }
  }

  /** What the call gives its client: the answer, unless that is too long to be deserialized. */
  function Returns(s: Net, i: nat, r: Request, outcome: Option<seq<byte>>): seq<Return> {
    var p := Answer(CutRequest(r), outcome);
    if ResponseSized(p) then [Return(i, |s.calls|, p)] else []
  }

  /**
   On an accepted connection a call can be made and come to its end if and only if its payload is not empty
   and both its frames fit their buffers; what it then gives the client is the answer.
   */
  lemma CallCompletes(s: Net, i: nat, r: Request, c: nat, outcome: Option<seq<byte>>)
    requires Reachable(s) && Ready(s, i) && r.sequenceId == NextId(s.clients[i])
    requires c < |s.conns| && s.conns[c].fd in s.table && s.table[s.conns[c].fd] == c
    requires s.conns[c].sock == s.clients[i].sock
    ensures (exists t :: Runs(s, WholeCall(s, i, r, c, outcome), t)) <==> Completable(s.codec, r, outcome)
    ensures forall t :: Runs(s, WholeCall(s, i, r, c, outcome), t) ==>
              t.returned == s.returned + Returns(s, i, r, outcome)
  {
    ReachableInv(s);
    TableEntriesAreOpen(s, s.conns[c].fd);
    assert ClientOk(s, i);
    hide WholeCall, Completable, Returns, Runs;
    forall t
      ensures Runs(s, WholeCall(s, i, r, c, outcome), t) ==>
                Completable(s.codec, r, outcome) && t.returned == s.returned + Returns(s, i, r, outcome)
    {
      WholeCallExactly(s, i, r, c, outcome, t);
    }
    WholeCallExactly(s, i, r, c, outcome, s);
  }

  /** The request or the answer of the call does not fit the buffer it has to be read into. */
  ghost predicate TooLong(s: Net, call: nat)
    requires call < |s.calls|
  {
    || !CallFits(s, call)
    || (call in s.handled
        && !ResponseSize(s.codec, Answer(CutRequest(s.calls[call].request), s.handled[call])).Fitting?)
  }

  lemma ReceivedFits(s: Net, i: nat)
    requires LineOk(s) && ClientsOk(s) && Enabled(s, Receive(i))
    ensures s.clients[i].phase.call < |s.calls| && !TooLong(s, s.clients[i].phase.call)
  {
    hide SockOk, TaskOk, Answer, RequestSize, ResponseSize, CutRequest;
    ReplyIsOwn(s, i);
  }

  lemma OneClientActs(s: Net, a: Action)
    requires ClientStep(a) && Enabled(s, a)
    ensures var t := Apply(s, a); |t.clients| == |s.clients| && t.clients == s.clients[a.i := t.clients[a.i]]
    ensures s.clients[a.i].phase.Waiting? ==> a.Receive? || a.GiveUp?
  {
    hide RequestSize, ResponseSize;
  }

  lemma CodecStays(s: Net, a: Action)
    requires Enabled(s, a)
    ensures Apply(s, a).codec == s.codec
  {
    hide Answer, RequestSize, ResponseSize, CutRequest;
  }

  lemma TooLongStep(s: Net, i: nat, a: Action)
    requires Inv(s) && s.HasClient(i) && s.clients[i].phase.Waiting? && s.clients[i].phase.call < |s.calls|
    requires TooLong(s, s.clients[i].phase.call) && Enabled(s, a) && a != GiveUp(i)
    ensures var t := Apply(s, a); t.HasClient(i) && t.clients[i] == s.clients[i] && |s.calls| <= |t.calls|
    ensures TooLong(Apply(s, a), s.clients[i].phase.call)
  {
    hide Apply, Enabled, Answer, FdOk, SocksOk, TasksOk, ClientsOk, ReturnsOk, ReturnsOnce, RoutedOk;
    hide RequestSize, ResponseSize, CutRequest;
    RecordsKept(s, a);
    CodecStays(s, a);
    if ClientStep(a) {
      OneClientActs(s, a);
      if a == Receive(i) { ReceivedFits(s, i); }
    } else {
      ServerLeavesAlone(s, a);
    }
  }

  /**
   A client whose request or answer is too long waits in every run until it gives up: it is given nothing, and
   no other action moves it on.
   */
  lemma {:induction false} TooLongOnlyGivesUp(s: Net, i: nat, acts: seq<Action>, t: Net)
    requires Inv(s) && s.HasClient(i) && s.clients[i].phase.Waiting? && s.clients[i].phase.call < |s.calls|
    requires TooLong(s, s.clients[i].phase.call) && Runs(s, acts, t) && GiveUp(i) !in acts
    ensures t.HasClient(i) && t.clients[i] == s.clients[i]
    ensures forall j :: 0 <= j < |t.returned| ==> t.returned[j].call != s.clients[i].phase.call
    decreases |acts|
  {
    if acts != [] {
      hide Inv, Enabled, Apply, TooLong;
      TooLongStep(s, i, acts[0]);
      KeepsInv(s, acts[0]);
      TooLongOnlyGivesUp(Apply(s, acts[0]), i, acts[1..], t);
    }
  }

  // ----- sequence ids -----

  predicate TriesToSend(a: Action, i: nat) { (a.Send? || a.SendFails?) && a.i == i }

  /** How often the client tries to send in the run. */
  function Tries(acts: seq<Action>, i: nat): nat {
    if acts == [] then 0 else (if TriesToSend(acts[0], i) then 1 else 0) + Tries(acts[1..], i)
  }

  lemma IdStep(s: Net, a: Action, i: nat)
    requires Enabled(s, a) && s.HasClient(i)
    ensures Apply(s, a).HasClient(i)
    ensures var id := s.clients[i].sequenceId as int;
            Apply(s, a).clients[i].sequenceId as int == if TriesToSend(a, i) then (id + 1) % 0x1_0000_0000 else id
  {
    hide Answer, RequestSize, ResponseSize, CutRequest;
    if !ClientStep(a) { ServerLeavesAlone(s, a); }
  }

  lemma OneMore(id: nat, k: nat)
    ensures ((id + 1) % 0x1_0000_0000 + k) % 0x1_0000_0000 == (id + (1 + k)) % 0x1_0000_0000
  {
  }

  /** A client's id counts what it tried to send, modulo 2^32: calls less than 2^32 apart have different ids. */
  lemma {:induction false} IdsCount(s: Net, acts: seq<Action>, t: Net, i: nat)
    requires Runs(s, acts, t) && s.HasClient(i)
    ensures t.HasClient(i)
    ensures t.clients[i].sequenceId as int == (s.clients[i].sequenceId as int + Tries(acts, i)) % 0x1_0000_0000
    decreases |acts|
  {
    hide Enabled, Apply, TriesToSend;
    if acts != [] {
      var u, k := Apply(s, acts[0]), Tries(acts[1..], i);
      IdStep(s, acts[0], i);
      IdsCount(u, acts[1..], t, i);
      OneMore(s.clients[i].sequenceId as int, k);
      assert Tries(acts, i) == (if TriesToSend(acts[0], i) then 1 else 0) + k;
    }
  }
}
