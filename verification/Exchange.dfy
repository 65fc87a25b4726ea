/**
 Calls between any number of clients and one server, over sockets whose descriptors are reused.

 A socket carries whole messages here; the module ExchangeOnWire relates the steps that send, dispatch,
 answer and receive them to the bytes.  A message is sent only if it can be framed, and taken in only if its
 frame fits the buffer.  Time-outs, failed writes, removed connections and refused tasks may happen at any step.
 */
module Exchange {
  import opened Bytes
  import opened Protocol
  import opened Answers
  import opened Wire

  // ----- state -----

  /** Messages are tagged with the number of the call they belong to; no action looks at the tag. */
  datatype Sent = Sent(call: nat, request: Request)

  datatype Reply = Reply(call: nat, response: Response)

  /** A TCP connection: bytes on their way to the server, bytes on their way back, the last call written. */
  datatype Sock = Sock(client: nat, inbound: seq<Sent>, outbound: seq<Reply>, last: Option<nat>) {
    predicate Silent() { inbound == [] && outbound == [] }
  }

  /** A `Connection` object of the server; `sock` records which socket `accept` returned. */
  datatype Conn = Conn(fd: nat, sock: nat)

  /** A task of the pool: it shares ownership of its connection. `origin` records where the request was read. */
  datatype Task = Task(conn: nat, sent: Sent, origin: nat)

  datatype Phase = Resting | Waiting(call: nat)

  datatype Client = Client(connected: bool, sock: nat, phase: Phase, sequenceId: u32)

  datatype Call = Call(client: nat, sock: nat, request: Request)

  datatype Return = Return(client: nat, call: nat, response: Response)

  datatype Net = Net(
    codec: Codec,
    clients: seq<Client>,
    socks: seq<Sock>,
    // the server
    kernel: map<nat, nat>,       // open descriptors and the sockets behind them
    table: map<nat, nat>,        // ConnectionManager: descriptor to connection object
    conns: seq<Conn>,
    tasks: map<nat, Task>,
    nextTask: nat,
    // history
    accepted: set<nat>,
    calls: seq<Call>,
    handled: map<nat, Option<seq<byte>>>,
    returned: seq<Return>,
    routed: seq<(nat, nat)>)
  {
    predicate HasClient(i: nat) { i < |clients| }

    predicate HasSock(x: nat) { x < |socks| }

    /** Some `shared_ptr` to the connection object is left. */
    ghost predicate Owned(c: nat) {
      c < |conns|
      && ((conns[c].fd in table && table[conns[c].fd] == c) || exists k :: k in tasks && tasks[k].conn == c)
    }

    function OnSock(x: nat, y: Sock): Net
      requires HasSock(x)
    {
      this.(socks := socks[x := y])
    }

    function OnClient(i: nat, y: Client): Net
      requires HasClient(i)
    {
      this.(clients := clients[i := y])
    }
  }

  function Initial(n: nat, z: Codec): Net {
    Net(z, seq(n, _ => Client(false, 0, Resting, 0)), [], map[], map[], [], map[], 0, {}, [], map[], [], [])
  }

  /** The destructor of a connection object closes its descriptor when the last owner is gone. */
  ghost function Drop(s: Net, c: nat): Net
    requires c < |s.conns|
  {
    if s.Owned(c) then s else s.(kernel := s.kernel - {s.conns[c].fd})
  }

  datatype Action =
    // RpcClient
    | Connect(i: nat)
    | Disconnect(i: nat)
    | SendFails(i: nat)
    | Send(i: nat, service: seq<byte>, procedure: seq<byte>, payload: seq<byte>)
    | Receive(i: nat)
    | GiveUp(i: nat)
    // MessageCycle
    | Accept(fd: nat, x: nat)
    | AcceptFails(x: nat)
    | Dispatch(fd: nat, queued: bool)
    | Remove(fd: nat)
    | Respond(k: nat, outcome: Option<seq<byte>>, written: bool)

  predicate Ready(s: Net, i: nat) { s.HasClient(i) && s.clients[i].phase.Resting? && s.clients[i].connected }

  predicate AtWork(s: Net, i: nat) {
    s.HasClient(i) && s.clients[i].phase.Waiting? && s.HasSock(s.clients[i].sock)
  }

  predicate Readable(s: Net, fd: nat) {
    && fd in s.table && s.table[fd] < |s.conns|
    && s.conns[s.table[fd]].fd in s.kernel && s.HasSock(s.kernel[s.conns[s.table[fd]].fd])
    && s.socks[s.kernel[s.conns[s.table[fd]].fd]].inbound != []
  }

  function RequestSize(z: Codec, r: Request): Size { SizeOf(z, SerializedRequest(r)) }

  function ResponseSize(z: Codec, r: Response): Size { SizeOf(z, SerializedResponse(r)) }

  /** The message that is read next. */
  function Unread(s: Net, fd: nat): Sent
    requires Readable(s, fd)
  {
    s.socks[s.kernel[s.conns[s.table[fd]].fd]].inbound[0]
  }

  /** A response has come that the client's buffer can hold. */
  predicate Receivable(s: Net, i: nat) {
    && AtWork(s, i) && s.socks[s.clients[i].sock].outbound != []
    && ResponseSize(s.codec, s.socks[s.clients[i].sock].outbound[0].response).Fitting?
  }

  predicate Enabled(s: Net, a: Action) {
    match a
    case Connect(i) => s.HasClient(i) && s.clients[i].phase.Resting? && !s.clients[i].connected
    case Disconnect(i) => s.HasClient(i) && s.clients[i].phase.Resting?
    case SendFails(i) => Ready(s, i)
    case Send(i, service, procedure, payload) =>
      && Ready(s, i) && s.HasSock(s.clients[i].sock) && payload != []
      && !RequestSize(s.codec, Request(NextId(s.clients[i]), service, procedure, payload)).Unsendable?
    case Receive(i) => Receivable(s, i)
    case GiveUp(i) => AtWork(s, i)
    case Accept(fd, x) => fd !in s.kernel && s.HasSock(x) && x !in s.accepted
    case AcceptFails(x) => s.HasSock(x) && x !in s.accepted
    case Dispatch(fd, queued) => Readable(s, fd) && (queued ==> RequestSize(s.codec, Unread(s, fd).request).Fitting?)
    case Remove(_) => true
    case Respond(k, outcome, written) =>
      && k in s.tasks && s.tasks[k].conn < |s.conns|
      && (written ==>
            && (var fd := s.conns[s.tasks[k].conn].fd; fd in s.kernel && s.HasSock(s.kernel[fd]))
            && !ResponseSize(s.codec, Answer(s.tasks[k].sent.request, outcome)).Unsendable?)
  }

  /** The id is incremented before the write is tried. */
  function NextId(c: Client): u32 { (c.sequenceId + 1) % WORD }

  function SendRequest(s: Net, i: nat, service: seq<byte>, procedure: seq<byte>, payload: seq<byte>): Net
    requires s.HasClient(i) && s.HasSock(s.clients[i].sock)
  {
    var me := s.clients[i];
    var r := Request(NextId(me), service, procedure, payload);
    var n, sock := |s.calls|, s.socks[me.sock];
    s.OnSock(me.sock, sock.(inbound := sock.inbound + [Sent(n, r)], last := Some(n)))
     .OnClient(i, me.(sequenceId := NextId(me), phase := Waiting(n)))
     .(calls := s.calls + [Call(i, me.sock, r)])
  }

  /**
   ReadResponse takes the first frame there is; it compares no ids.  One that cannot be deserialized is used
   up without a result, and the client stays connected.
   */
  function ReceiveReply(s: Net, i: nat): Net
    requires Receivable(s, i)
  {
    var me := s.clients[i];
    var sock := s.socks[me.sock];
    s.OnSock(me.sock, sock.(outbound := sock.outbound[1..]))
     .OnClient(i, me.(phase := Resting))
     .(returned := if ResponseSized(sock.outbound[0].response)
                   then s.returned + [Return(i, me.phase.call, sock.outbound[0].response)] else s.returned)
  }

  function AcceptSock(s: Net, fd: nat, x: nat): Net {
    s.(kernel := s.kernel[fd := x],
       conns := s.conns + [Conn(fd, x)],
       table := s.table[fd := |s.conns|],
       accepted := s.accepted + {x})
  }

  /** The request is read from whatever socket the kernel has behind the descriptor, its fields cut to their sizes. */
  function DispatchRequest(s: Net, fd: nat, queued: bool): Net
    requires Readable(s, fd)
  {
    var c := s.table[fd];
    var x := s.kernel[s.conns[c].fd];
    var sock := s.socks[x];
    var t := s.OnSock(x, sock.(inbound := sock.inbound[1..]));
    var m := sock.inbound[0].(request := CutRequest(sock.inbound[0].request));
    if queued then t.(tasks := s.tasks[s.nextTask := Task(c, m, x)], nextTask := s.nextTask + 1) else t
  }

  /** The response goes to whatever socket the kernel has behind the descriptor. */
  function WriteReply(s: Net, k: nat, outcome: Option<seq<byte>>, written: bool): Net
    requires Enabled(s, Respond(k, outcome, written))
  {
    var task := s.tasks[k];
    var t := s.(tasks := s.tasks - {k}, handled := s.handled[task.sent.call := outcome]);
    if !written then t
    else
      var y := s.kernel[s.conns[task.conn].fd];
      var reply := Reply(task.sent.call, Answer(task.sent.request, outcome));
      t.OnSock(y, s.socks[y].(outbound := s.socks[y].outbound + [reply])).(routed := s.routed + [(task.origin, y)])
  }

  ghost function Apply(s: Net, a: Action): Net
    requires Enabled(s, a)
  {
    match a
    case Connect(i) =>
      s.OnClient(i, s.clients[i].(connected := true, sock := |s.socks|)).(socks := s.socks + [Sock(i, [], [], None)])
    case Disconnect(i) => s.OnClient(i, s.clients[i].(connected := false))
    case SendFails(i) => s.OnClient(i, s.clients[i].(connected := false, sequenceId := NextId(s.clients[i])))
    case Send(i, service, procedure, payload) => SendRequest(s, i, service, procedure, payload)
    case Receive(i) => ReceiveReply(s, i)
    case GiveUp(i) => s.OnClient(i, s.clients[i].(connected := false, phase := Resting))
    case Accept(fd, x) => AcceptSock(s, fd, x)
    case AcceptFails(x) => s.(accepted := s.accepted + {x})
    case Dispatch(fd, queued) => DispatchRequest(s, fd, queued)
    case Remove(fd) =>
      if fd in s.table && s.table[fd] < |s.conns| then Drop(s.(table := s.table - {fd}), s.table[fd]) else s
    case Respond(k, outcome, written) => Drop(WriteReply(s, k, outcome, written), s.tasks[k].conn)
  }

  ghost predicate Runs(s: Net, acts: seq<Action>, t: Net)
    decreases |acts|
  {
    if acts == [] then s == t
    else Enabled(s, acts[0]) && Runs(Apply(s, acts[0]), acts[1..], t)
  }

  ghost predicate Reachable(s: Net) { exists n, acts :: Runs(Initial(n, s.codec), acts, s) }

  // ----- the invariant -----

  /** Owned, or held by a local pointer of the step under way. */
  ghost predicate Held(s: Net, h: set<nat>, c: nat) { c < |s.conns| && (s.Owned(c) || c in h) }

  /** Table and tasks name connection objects, each made for its own accepted socket. */
  ghost predicate ShapeOk(s: Net) {
    && (forall fd :: fd in s.table ==> s.table[fd] < |s.conns| && s.conns[s.table[fd]].fd == fd)
    && (forall c: nat :: c < |s.conns| ==> s.conns[c].sock in s.accepted)
    && (forall c: nat, d: nat :: c < d < |s.conns| ==> s.conns[c].sock != s.conns[d].sock)
    && (forall x :: x in s.accepted ==> s.HasSock(x))
    && (forall k :: k in s.tasks ==>
          k < s.nextTask && s.tasks[k].conn < |s.conns| && s.tasks[k].origin == s.conns[s.tasks[k].conn].sock)
  }

  /** A connection object somebody holds has its own descriptor open on its own socket. */
  ghost predicate HeldOk(s: Net, h: set<nat>) {
    forall c: nat :: Held(s, h, c) ==> s.conns[c].fd in s.kernel && s.kernel[s.conns[c].fd] == s.conns[c].sock
  }

  /** No descriptor stays open without a holder. */
  ghost predicate NoLeak(s: Net, h: set<nat>) {
    forall fd :: fd in s.kernel ==> exists c: nat :: Held(s, h, c) && s.conns[c].fd == fd
  }

  ghost predicate FdOkWith(s: Net, h: set<nat>) { ShapeOk(s) && HeldOk(s, h) && NoLeak(s, h) }

  ghost predicate FdOk(s: Net) { FdOkWith(s, {}) }

  /** A message on socket `x` belongs to the last call written there, and that call is on record. */
  ghost predicate Belongs(s: Net, x: nat, call: nat) {
    s.HasSock(x) && s.socks[x].last == Some(call) && call < |s.calls| && s.calls[call].sock == x
  }

  /** The last call written on `x` has not been handled. */
  ghost predicate Pending(s: Net, x: nat, call: nat) { Belongs(s, x, call) && call !in s.handled }

  predicate Answered(s: Net, call: nat, response: Response) {
    && call < |s.calls| && call in s.handled
    && response == Answer(CutRequest(s.calls[call].request), s.handled[call])
  }

  /** The request of the call is one the server can take in. */
  ghost predicate CallFits(s: Net, call: nat)
    requires call < |s.calls|
  {
    RequestSize(s.codec, s.calls[call].request).Fitting?
  }

  /** A socket carries at most one thing: a request or a response of its last call. */
  ghost predicate SockOk(s: Net, x: nat)
    requires s.HasSock(x)
  {
    var y := s.socks[x];
    && |y.inbound| + |y.outbound| <= 1
    && (y.inbound != [] ==>
          Pending(s, x, y.inbound[0].call) && y.inbound[0].request == s.calls[y.inbound[0].call].request)
    && (y.outbound != [] ==>
          Belongs(s, x, y.outbound[0].call) && Answered(s, y.outbound[0].call, y.outbound[0].response))
    && (y.last.Some? ==> y.last.value < |s.calls|)
  }

  /** The request of a task is all there is of its call, and its socket is silent. */
  ghost predicate TaskOk(s: Net, k: nat)
    requires k in s.tasks
  {
    var m, x := s.tasks[k].sent, s.tasks[k].origin;
    && Pending(s, x, m.call) && s.socks[x].Silent()
    && m.request == CutRequest(s.calls[m.call].request) && CallFits(s, m.call)
  }

  ghost predicate SocksOk(s: Net) { forall x: nat :: s.HasSock(x) ==> SockOk(s, x) }

  ghost predicate TasksOk(s: Net) { forall k :: k in s.tasks ==> TaskOk(s, k) }

  ghost predicate TasksApart(s: Net) {
    forall k, l :: k in s.tasks && l in s.tasks && k != l ==> s.tasks[k].origin != s.tasks[l].origin
  }

  ghost predicate HandledOk(s: Net) { forall n :: n in s.handled ==> n < |s.calls| && CallFits(s, n) }

  /** On every socket at most one thing is under way. */
  ghost predicate LineOk(s: Net) {
    SocksOk(s) && TasksOk(s) && TasksApart(s) && HandledOk(s)
  }

  /** Nothing of any exchange is under way on the socket. */
  ghost predicate Quiet(s: Net, x: nat) {
    s.HasSock(x) && s.socks[x].Silent() && forall k :: k in s.tasks ==> s.tasks[k].origin != x
  }

  /** Between calls a connected client's socket is quiet; in a call the last thing written is that call. */
  ghost predicate ClientOk(s: Net, i: nat)
    requires s.HasClient(i)
  {
    var me := s.clients[i];
    && (me.connected ==> s.HasSock(me.sock) && s.socks[me.sock].client == i)
    && (me.connected && me.phase.Resting? ==> Quiet(s, me.sock))
    && (me.phase.Waiting? ==>
          && me.connected && me.phase.call < |s.calls| && s.calls[me.phase.call].client == i
          && s.calls[me.phase.call].request.sequenceId == me.sequenceId
          && s.socks[me.sock].last == Some(me.phase.call))
  }

  ghost predicate ClientsOk(s: Net) { forall i: nat :: s.HasClient(i) ==> ClientOk(s, i) }

  /** What was returned is the answer to the client's own call. */
  ghost predicate ReturnOk(s: Net, r: Return) {
    Answered(s, r.call, r.response) && s.calls[r.call].client == r.client
  }

  ghost predicate ReturnsOk(s: Net) { forall j :: 0 <= j < |s.returned| ==> ReturnOk(s, s.returned[j]) }

  /** No call returns twice, and none that has returned is waited for. */
  ghost predicate ReturnsOnce(s: Net) {
    && (forall j, l :: 0 <= j < l < |s.returned| ==> s.returned[j].call != s.returned[l].call)
    && (forall j, i: nat :: 0 <= j < |s.returned| && s.HasClient(i) && s.clients[i].phase.Waiting? ==>
          s.returned[j].call != s.clients[i].phase.call)
  }

  ghost predicate RoutedOk(s: Net) { forall j :: 0 <= j < |s.routed| ==> s.routed[j].0 == s.routed[j].1 }

  ghost predicate Inv(s: Net) { FdOk(s) && LineOk(s) && ClientsOk(s) && ReturnsOk(s) && ReturnsOnce(s) && RoutedOk(s) }

  lemma InitialInv(n: nat, z: Codec)
    ensures Inv(Initial(n, z))
  {
  }

  // ----- descriptors -----

  /** The same holders of the same objects: nothing about open descriptors changes. */
  lemma SameHolders(s: Net, h: set<nat>, t: Net, g: set<nat>)
    requires HeldOk(s, h) && NoLeak(s, h) && t.conns == s.conns && t.kernel == s.kernel
    requires forall c: nat :: Held(t, g, c) <==> Held(s, h, c)
    ensures HeldOk(t, g) && NoLeak(t, g)
  {
    hide Net.Owned;
    forall fd | fd in t.kernel ensures exists c: nat :: Held(t, g, c) && t.conns[c].fd == fd {
      var c: nat :| Held(s, h, c) && s.conns[c].fd == fd;
      assert Held(t, g, c);
    }
  }

  /** Nothing about descriptors changes, except that sockets may be added. */
  predicate SameFds(s: Net, t: Net) {
    && t.table == s.table && t.conns == s.conns && t.kernel == s.kernel && t.accepted == s.accepted
    && t.tasks == s.tasks && t.nextTask == s.nextTask && |s.socks| <= |t.socks|
  }

  lemma SameFdsKeeps(s: Net, t: Net)
    requires FdOk(s) && SameFds(s, t)
    ensures FdOk(t)
  {
    assert forall c: nat :: t.Owned(c) == s.Owned(c);
    SameHolders(s, {}, t, {});
  }

  lemma OwnedAfterDrop(s: Net, c: nat, d: nat)
    requires c < |s.conns|
    ensures Held(Drop(s, c), {}, d) <==> s.Owned(d)
  {
  }

  lemma SameShape(s: Net, t: Net)
    requires ShapeOk(s) && t.conns == s.conns && t.accepted == s.accepted && |t.socks| >= |s.socks|
    requires t.table.Keys <= s.table.Keys && (forall fd :: fd in t.table ==> t.table[fd] == s.table[fd])
    requires t.tasks.Keys <= s.tasks.Keys && (forall k :: k in t.tasks ==> t.tasks[k] == s.tasks[k])
    requires t.nextTask == s.nextTask
    ensures ShapeOk(t)
  {
  }

  lemma OneSockEach(s: Net, c: nat, d: nat)
    requires ShapeOk(s) && c < |s.conns| && d < |s.conns| && s.conns[c].sock == s.conns[d].sock
    ensures c == d
  {
  }

  lemma DropKeepsHeld(s: Net, c: nat)
    requires ShapeOk(s) && HeldOk(s, {c}) && c < |s.conns|
    ensures HeldOk(Drop(s, c), {})
  {
    hide Net.Owned, ShapeOk;
    var t := Drop(s, c);
    forall d: nat | Held(t, {}, d) ensures t.conns[d].fd in t.kernel && t.kernel[t.conns[d].fd] == t.conns[d].sock {
      OwnedAfterDrop(s, c, d);
      assert Held(s, {c}, d) && Held(s, {c}, c);
      if s.conns[d].fd == s.conns[c].fd { OneSockEach(s, c, d); }
    }
  }

  lemma DropLeaksNothing(s: Net, c: nat)
    requires NoLeak(s, {c}) && c < |s.conns|
    ensures NoLeak(Drop(s, c), {})
  {
    hide Net.Owned;
    var t := Drop(s, c);
    forall fd | fd in t.kernel ensures exists d: nat :: Held(t, {}, d) && t.conns[d].fd == fd {
      var d: nat :| Held(s, {c}, d) && s.conns[d].fd == fd;
      OwnedAfterDrop(s, c, d);
      assert Held(t, {}, d);
    }
  }

  /** Closing the descriptor of a connection nobody owns any more hurts no other. */
  lemma DropKeepsFd(s: Net, c: nat)
    requires FdOkWith(s, {c}) && c < |s.conns|
    ensures FdOk(Drop(s, c))
  {
    SameShape(s, Drop(s, c));
    DropKeepsHeld(s, c);
    DropLeaksNothing(s, c);
  }

  lemma OwnedAfterAccept(s: Net, fd: nat, x: nat, c: nat)
    requires ShapeOk(s) && fd !in s.table
    ensures AcceptSock(s, fd, x).Owned(c) <==> s.Owned(c) || c == |s.conns|
  {
    var t := AcceptSock(s, fd, x);
    if s.Owned(c) && !(s.conns[c].fd in s.table && s.table[s.conns[c].fd] == c) {
      var k :| k in s.tasks && s.tasks[k].conn == c;
      assert k in t.tasks && t.tasks[k].conn == c;
    }
  }

  /** `AddConnection` never overwrites an entry: a descriptor in the table is open. */
  lemma TableEntriesAreOpen(s: Net, fd: nat)
    requires FdOk(s) && fd in s.table
    ensures fd in s.kernel && s.kernel[fd] == s.conns[s.table[fd]].sock
  {
    assert s.Owned(s.table[fd]) && Held(s, {}, s.table[fd]);
  }

  lemma AcceptShape(s: Net, fd: nat, x: nat)
    requires ShapeOk(s) && Enabled(s, Accept(fd, x))
    ensures ShapeOk(AcceptSock(s, fd, x))
  {
  }

  lemma AcceptKeepsHeld(s: Net, fd: nat, x: nat)
    requires ShapeOk(s) && HeldOk(s, {}) && Enabled(s, Accept(fd, x)) && fd !in s.table
    ensures HeldOk(AcceptSock(s, fd, x), {})
  {
    hide Net.Owned, ShapeOk;
    var t := AcceptSock(s, fd, x);
    forall c: nat | Held(t, {}, c) ensures t.conns[c].fd in t.kernel && t.kernel[t.conns[c].fd] == t.conns[c].sock {
      OwnedAfterAccept(s, fd, x, c);
      if c != |s.conns| { assert Held(s, {}, c); }
    }
  }

  lemma AcceptLeaksNothing(s: Net, fd: nat, x: nat)
    requires ShapeOk(s) && NoLeak(s, {}) && Enabled(s, Accept(fd, x)) && fd !in s.table
    ensures NoLeak(AcceptSock(s, fd, x), {})
  {
    hide Net.Owned, ShapeOk;
    var t := AcceptSock(s, fd, x);
    forall f | f in t.kernel ensures exists c: nat :: Held(t, {}, c) && t.conns[c].fd == f {
      var c: nat := |s.conns|;
      if f != fd { c :| Held(s, {}, c) && s.conns[c].fd == f; }
      OwnedAfterAccept(s, fd, x, c);
      assert Held(t, {}, c) && t.conns[c].fd == f;
    }
  }

  lemma AcceptKeepsFd(s: Net, fd: nat, x: nat)
    requires FdOk(s) && Enabled(s, Accept(fd, x))
    ensures FdOk(AcceptSock(s, fd, x))
  {
    if fd in s.table { TableEntriesAreOpen(s, fd); assert false; }
    AcceptShape(s, fd, x);
    AcceptKeepsHeld(s, fd, x);
    AcceptLeaksNothing(s, fd, x);
  }

  lemma OwnedAfterRemove(s: Net, fd: nat, d: nat)
    requires ShapeOk(s) && fd in s.table
    ensures Held(s.(table := s.table - {fd}), {s.table[fd]}, d) <==> Held(s, {}, d)
  {
    var c, t := s.table[fd], s.(table := s.table - {fd});
    if s.Owned(d) && !(s.conns[d].fd in s.table && s.table[s.conns[d].fd] == d) {
      var k :| k in s.tasks && s.tasks[k].conn == d;
      assert k in t.tasks && t.tasks[k].conn == d;
    }
    if s.Owned(d) && s.conns[d].fd == fd && s.table[fd] == d { assert d == c; }
  }

  lemma RemoveKeepsFd(s: Net, fd: nat)
    requires FdOk(s) && fd in s.table
    ensures FdOk(Drop(s.(table := s.table - {fd}), s.table[fd]))
  {
    var c, t := s.table[fd], s.(table := s.table - {fd});
    SameShape(s, t);
    hide Net.Owned, HeldOk, NoLeak;
    forall d: nat ensures Held(t, {c}, d) <==> Held(s, {}, d) { OwnedAfterRemove(s, fd, d); }
    SameHolders(s, {}, t, {c});
    DropKeepsFd(t, c);
  }

  /** Where a request is read from: the socket its connection object was made for. */
  lemma ReadsOwnSock(s: Net, fd: nat)
    requires FdOk(s) && Readable(s, fd)
    ensures s.conns[s.table[fd]].fd == fd && s.kernel[fd] == s.conns[s.table[fd]].sock
  {
    TableEntriesAreOpen(s, fd);
  }

  lemma OwnedAfterDispatch(s: Net, fd: nat, queued: bool, d: nat)
    requires ShapeOk(s) && Readable(s, fd)
    ensures DispatchRequest(s, fd, queued).Owned(d) <==> s.Owned(d)
  {
    var t := DispatchRequest(s, fd, queued);
    assert s.nextTask !in s.tasks;
    if s.Owned(d) && !(s.conns[d].fd in s.table && s.table[s.conns[d].fd] == d) {
      var k :| k in s.tasks && s.tasks[k].conn == d;
      assert k in t.tasks && t.tasks[k].conn == d;
    }
  }

  lemma DispatchShape(s: Net, fd: nat, queued: bool)
    requires ShapeOk(s) && Readable(s, fd) && s.kernel[s.conns[s.table[fd]].fd] == s.conns[s.table[fd]].sock
    ensures ShapeOk(DispatchRequest(s, fd, queued))
  {
  }

  lemma DispatchKeepsFd(s: Net, fd: nat, queued: bool)
    requires FdOk(s) && Readable(s, fd)
    ensures FdOk(DispatchRequest(s, fd, queued))
  {
    ReadsOwnSock(s, fd);
    DispatchShape(s, fd, queued);
    hide Net.Owned, ShapeOk, HeldOk, NoLeak;
    var t := DispatchRequest(s, fd, queued);
    forall d: nat ensures Held(t, {}, d) <==> Held(s, {}, d) { OwnedAfterDispatch(s, fd, queued, d); }
    SameHolders(s, {}, t, {});
  }

  /** Where a response is written: the socket its request was read from. */
  lemma WritesToOrigin(s: Net, k: nat)
    requires FdOk(s) && k in s.tasks
    ensures var c := s.tasks[k].conn;
            c < |s.conns| && s.conns[c].fd in s.kernel && s.kernel[s.conns[c].fd] == s.tasks[k].origin
  {
    assert s.Owned(s.tasks[k].conn) && Held(s, {}, s.tasks[k].conn);
  }

  lemma OwnedAfterRespond(s: Net, k: nat, t: Net, d: nat)
    requires ShapeOk(s) && k in s.tasks && t.tasks == s.tasks - {k} && t.conns == s.conns && t.table == s.table
    ensures Held(t, {s.tasks[k].conn}, d) <==> Held(s, {}, d)
  {
    if s.Owned(d) && d != s.tasks[k].conn && !(s.conns[d].fd in s.table && s.table[s.conns[d].fd] == d) {
      var l :| l in s.tasks && s.tasks[l].conn == d;
      assert l in t.tasks && t.tasks[l].conn == d;
    }
  }

  lemma ReplyChanges(s: Net, k: nat, outcome: Option<seq<byte>>, written: bool)
    requires Enabled(s, Respond(k, outcome, written))
    ensures var t := WriteReply(s, k, outcome, written);
            && t.tasks == s.tasks - {k} && t.conns == s.conns && t.table == s.table && t.kernel == s.kernel
            && t.accepted == s.accepted && t.nextTask == s.nextTask && |t.socks| == |s.socks|
            && t.calls == s.calls && t.handled.Keys == s.handled.Keys + {s.tasks[k].sent.call} && t.codec == s.codec
  {
  }

  lemma RespondKeepsFd(s: Net, k: nat, outcome: Option<seq<byte>>, written: bool)
    requires FdOk(s) && Enabled(s, Respond(k, outcome, written))
    ensures FdOk(Drop(WriteReply(s, k, outcome, written), s.tasks[k].conn))
  {
    hide WriteReply, Net.Owned, Drop;
    var c, t := s.tasks[k].conn, WriteReply(s, k, outcome, written);
    ReplyChanges(s, k, outcome, written);
    SameShape(s, t);
    forall d: nat ensures Held(t, {c}, d) <==> Held(s, {}, d) { OwnedAfterRespond(s, k, t, d); }
    SameHolders(s, {}, t, {c});
    DropKeepsFd(t, c);
  }

  lemma AcceptFailsKeepsFd(s: Net, x: nat)
    requires FdOk(s) && s.HasSock(x)
    ensures FdOk(s.(accepted := s.accepted + {x}))
  {
    var t := s.(accepted := s.accepted + {x});
    assert forall c: nat :: t.Owned(c) == s.Owned(c);
    SameHolders(s, {}, t, {});
  }

  lemma KeepsFd(s: Net, a: Action)
    requires FdOk(s) && Enabled(s, a)
    ensures FdOk(Apply(s, a))
  {
    hide ShapeOk, HeldOk, NoLeak, Drop, Answer, RequestSize, ResponseSize, CutRequest;
    if a.Accept? {
      AcceptKeepsFd(s, a.fd, a.x);
    } else if a.AcceptFails? {
      AcceptFailsKeepsFd(s, a.x);
    } else if a.Remove? {
      if a.fd in s.table { RemoveKeepsFd(s, a.fd); }
    } else if a.Dispatch? {
      DispatchKeepsFd(s, a.fd, a.queued);
    } else if a.Respond? {
      RespondKeepsFd(s, a.k, a.outcome, a.written);
    } else {
      SameFdsKeeps(s, Apply(s, a));
    }
  }

  // ----- one thing at a time on every socket -----

  /** Nothing about messages changes, except that silent sockets may be added. */
  ghost predicate SameLines(s: Net, t: Net) {
    && s.socks <= t.socks && t.tasks == s.tasks && t.calls == s.calls && t.handled == s.handled && t.codec == s.codec
    && forall x :: |s.socks| <= x < |t.socks| ==> t.socks[x].Silent() && t.socks[x].last.None?
  }

  lemma SameLinesKeeps(s: Net, t: Net)
    requires LineOk(s) && SameLines(s, t)
    ensures LineOk(t)
  {
    hide Answer, RequestSize, ResponseSize, CutRequest;
    forall x: nat | t.HasSock(x) ensures SockOk(t, x) {
      if s.HasSock(x) { assert SockOk(s, x) && t.socks[x] == s.socks[x]; }
    }
    forall k | k in t.tasks ensures TaskOk(t, k) { assert TaskOk(s, k); }
  }

  /** Whatever is pending on a socket stays so when a call on another socket is recorded. */
  lemma SendKeepsLine(s: Net, i: nat, service: seq<byte>, procedure: seq<byte>, payload: seq<byte>)
    requires LineOk(s) && s.HasClient(i) && Quiet(s, s.clients[i].sock)
    ensures LineOk(SendRequest(s, i, service, procedure, payload))
  {
    hide Answer, RequestSize, ResponseSize, CutRequest;
    var t, x := SendRequest(s, i, service, procedure, payload), s.clients[i].sock;
    assert |s.calls| !in s.handled;
    forall y: nat | t.HasSock(y) ensures SockOk(t, y) {
      assert SockOk(s, y);
      if y == x { assert Pending(t, x, t.socks[x].inbound[0].call); }
    }
    forall k | k in t.tasks ensures TaskOk(t, k) { assert TaskOk(s, k); }
  }

  lemma ReceiveKeepsLine(s: Net, i: nat)
    requires LineOk(s) && Receivable(s, i)
    ensures LineOk(ReceiveReply(s, i))
  {
    hide Answer, RequestSize, ResponseSize, CutRequest;
    var t := ReceiveReply(s, i);
    forall y: nat | t.HasSock(y) ensures SockOk(t, y) { assert SockOk(s, y); }
    forall k | k in t.tasks ensures TaskOk(t, k) { assert TaskOk(s, k); }
  }

  lemma DispatchSock(s: Net, fd: nat, queued: bool, y: nat)
    requires Readable(s, fd) && s.HasSock(y) && SockOk(s, y)
    ensures SockOk(DispatchRequest(s, fd, queued), y)
  {
    hide Answer, RequestSize, ResponseSize, CutRequest;
  }

  /** A task that was there stays, and is of another socket than the one just read. */
  lemma DispatchOldTask(s: Net, fd: nat, queued: bool, k: nat)
    requires Readable(s, fd) && k in s.tasks && k < s.nextTask && TaskOk(s, k)
    ensures var t := DispatchRequest(s, fd, queued); k in t.tasks && t.tasks[k] == s.tasks[k] && TaskOk(t, k)
    ensures s.tasks[k].origin != s.kernel[s.conns[s.table[fd]].fd]
  {
  }

  lemma DispatchNewTask(s: Net, fd: nat)
    requires Readable(s, fd) && SockOk(s, s.kernel[s.conns[s.table[fd]].fd])
    requires RequestSize(s.codec, Unread(s, fd).request).Fitting?
    ensures TaskOk(DispatchRequest(s, fd, true), s.nextTask)
  {
  }

  lemma DispatchSocks(s: Net, fd: nat, queued: bool)
    requires SocksOk(s) && Readable(s, fd)
    ensures SocksOk(DispatchRequest(s, fd, queued))
  {
    var t := DispatchRequest(s, fd, queued);
    hide SockOk;
    forall y: nat | t.HasSock(y) ensures SockOk(t, y) { DispatchSock(s, fd, queued, y); }
  }

  /** The tasks there were stay as they were, and none is of the socket just read. */
  ghost predicate TasksStay(s: Net, t: Net, x: nat) {
    forall k :: k in s.tasks ==> k in t.tasks && t.tasks[k] == s.tasks[k] && TaskOk(t, k) && s.tasks[k].origin != x
  }

  lemma DispatchOldTasks(s: Net, fd: nat, queued: bool)
    requires Readable(s, fd) && TasksOk(s) && (forall k :: k in s.tasks ==> k < s.nextTask)
    ensures TasksStay(s, DispatchRequest(s, fd, queued), s.kernel[s.conns[s.table[fd]].fd])
  {
    hide TaskOk, DispatchRequest;
    forall k | k in s.tasks
      ensures var t := DispatchRequest(s, fd, queued); k in t.tasks && t.tasks[k] == s.tasks[k] && TaskOk(t, k)
      ensures s.tasks[k].origin != s.kernel[s.conns[s.table[fd]].fd]
    {
      DispatchOldTask(s, fd, queued, k);
    }
  }

  lemma TasksAfter(s: Net, t: Net, x: nat, queued: bool)
    requires TasksApart(s) && TasksStay(s, t, x)
    requires t.tasks.Keys == s.tasks.Keys + (if queued then {s.nextTask} else {})
    requires queued ==> t.tasks[s.nextTask].origin == x && TaskOk(t, s.nextTask)
    ensures TasksOk(t) && TasksApart(t)
  {
    hide TaskOk;
  }

  lemma DispatchChanges(s: Net, fd: nat, queued: bool)
    requires Readable(s, fd)
    ensures var t := DispatchRequest(s, fd, queued);
            && t.tasks.Keys == s.tasks.Keys + (if queued then {s.nextTask} else {})
            && (queued ==> t.tasks[s.nextTask].origin == s.kernel[s.conns[s.table[fd]].fd])
  {
    hide CutRequest;
  }

  lemma DispatchTasks(s: Net, fd: nat, queued: bool)
    requires Enabled(s, Dispatch(fd, queued)) && (forall k :: k in s.tasks ==> k < s.nextTask)
    requires SocksOk(s) && TasksOk(s) && TasksApart(s)
    ensures var t := DispatchRequest(s, fd, queued); TasksOk(t) && TasksApart(t)
  {
    hide SockOk, TaskOk, DispatchRequest, TasksStay, TasksOk, TasksApart, RequestSize;
    if queued { DispatchNewTask(s, fd); }
    DispatchOldTasks(s, fd, queued);
    DispatchChanges(s, fd, queued);
    TasksAfter(s, DispatchRequest(s, fd, queued), s.kernel[s.conns[s.table[fd]].fd], queued);
  }

  lemma DispatchHandled(s: Net, fd: nat, queued: bool)
    requires Readable(s, fd) && HandledOk(s)
    ensures HandledOk(DispatchRequest(s, fd, queued))
  {
    hide CutRequest, RequestSize;
  }

  lemma DispatchKeepsLine(s: Net, fd: nat, queued: bool)
    requires ShapeOk(s) && LineOk(s) && Enabled(s, Dispatch(fd, queued))
    ensures LineOk(DispatchRequest(s, fd, queued))
  {
    hide SocksOk, TasksOk, TasksApart, HandledOk, DispatchRequest;
    DispatchSocks(s, fd, queued);
    DispatchTasks(s, fd, queued);
    DispatchHandled(s, fd, queued);
  }

  lemma RespondSock(s: Net, k: nat, outcome: Option<seq<byte>>, written: bool, y: nat)
    requires Enabled(s, Respond(k, outcome, written)) && s.HasSock(y) && SockOk(s, y) && TaskOk(s, k)
    requires written ==> s.kernel[s.conns[s.tasks[k].conn].fd] == s.tasks[k].origin
    ensures SockOk(WriteReply(s, k, outcome, written), y)
  {
    hide Answer, RequestSize, ResponseSize, CutRequest;
  }

  lemma RespondTask(s: Net, k: nat, outcome: Option<seq<byte>>, written: bool, l: nat)
    requires Enabled(s, Respond(k, outcome, written)) && TaskOk(s, k)
    requires written ==> s.kernel[s.conns[s.tasks[k].conn].fd] == s.tasks[k].origin
    requires l in s.tasks && TaskOk(s, l) && s.tasks[k].origin != s.tasks[l].origin
    ensures l != k && TaskOk(WriteReply(s, k, outcome, written), l)
  {
    hide Answer, RequestSize, ResponseSize, CutRequest;
  }

  lemma RespondTasks(s: Net, k: nat, outcome: Option<seq<byte>>, written: bool)
    requires Enabled(s, Respond(k, outcome, written)) && TasksOk(s) && TasksApart(s)
    requires written ==> s.kernel[s.conns[s.tasks[k].conn].fd] == s.tasks[k].origin
    ensures var t := WriteReply(s, k, outcome, written); TasksOk(t) && TasksApart(t)
  {
    hide TaskOk, WriteReply, Answer, ResponseSize;
    ReplyChanges(s, k, outcome, written);
    var t := WriteReply(s, k, outcome, written);
    forall l | l in t.tasks ensures TaskOk(t, l) { RespondTask(s, k, outcome, written, l); }
  }

  lemma RespondSocks(s: Net, k: nat, outcome: Option<seq<byte>>, written: bool)
    requires Enabled(s, Respond(k, outcome, written)) && SocksOk(s) && TaskOk(s, k)
    requires written ==> s.kernel[s.conns[s.tasks[k].conn].fd] == s.tasks[k].origin
    ensures SocksOk(WriteReply(s, k, outcome, written))
  {
    ReplyChanges(s, k, outcome, written);
    var t := WriteReply(s, k, outcome, written);
    hide WriteReply, SockOk, TaskOk;
    forall y: nat | t.HasSock(y) ensures SockOk(t, y) { RespondSock(s, k, outcome, written, y); }
  }

  lemma RespondHandled(s: Net, k: nat, outcome: Option<seq<byte>>, written: bool)
    requires Enabled(s, Respond(k, outcome, written)) && TaskOk(s, k) && HandledOk(s)
    ensures HandledOk(WriteReply(s, k, outcome, written))
  {
    hide Answer, RequestSize, ResponseSize, CutRequest;
    ReplyChanges(s, k, outcome, written);
  }

  lemma RespondKeepsLine(s: Net, k: nat, outcome: Option<seq<byte>>, written: bool)
    requires FdOk(s) && LineOk(s) && Enabled(s, Respond(k, outcome, written))
    ensures LineOk(WriteReply(s, k, outcome, written))
  {
    WritesToOrigin(s, k);
    assert TaskOk(s, k);
    hide WriteReply, SocksOk, TasksOk, TaskOk, TasksApart, HandledOk, FdOk;
    RespondSocks(s, k, outcome, written);
    RespondTasks(s, k, outcome, written);
    RespondHandled(s, k, outcome, written);
  }

  lemma KeepsLine(s: Net, a: Action)
    requires FdOk(s) && LineOk(s) && ClientsOk(s) && Enabled(s, a)
    ensures LineOk(Apply(s, a))
  {
    hide ShapeOk, HeldOk, NoLeak, Answer, RequestSize, ResponseSize, CutRequest, LineOk;
    match a {
      case Send(i, service, procedure, payload) => SendKeepsLine(s, i, service, procedure, payload);
      case Receive(i) => ReceiveKeepsLine(s, i);
      case Dispatch(fd, queued) => DispatchKeepsLine(s, fd, queued);
      case Respond(k, outcome, written) =>
        RespondKeepsLine(s, k, outcome, written);
        SameLinesKeeps(WriteReply(s, k, outcome, written), Apply(s, a));
      case _ => SameLinesKeeps(s, Apply(s, a));
    }
  }

  // ----- clients -----

  /** Nothing a client relies on is touched. */
  ghost predicate Undisturbed(s: Net, t: Net, i: nat) {
    && s.HasClient(i) && t.HasClient(i) && t.clients[i] == s.clients[i] && s.calls <= t.calls
    && var x := s.clients[i].sock;
       s.HasSock(x) ==>
         && t.HasSock(x) && t.socks[x].client == s.socks[x].client && t.socks[x].last == s.socks[x].last
         && (Quiet(s, x) ==> Quiet(t, x))
  }

  lemma UndisturbedKeeps(s: Net, t: Net, i: nat)
    requires Undisturbed(s, t, i) && ClientOk(s, i)
    ensures ClientOk(t, i)
  {
  }

  lemma ConnectKeepsClient(s: Net, i: nat)
    requires TasksOk(s) && Enabled(s, Connect(i))
    ensures ClientOk(Apply(s, Connect(i)), i)
  {
    forall k | k in s.tasks ensures s.tasks[k].origin < |s.socks| { assert TaskOk(s, k); }
  }

  lemma ReceiveKeepsClient(s: Net, i: nat)
    requires SocksOk(s) && TasksOk(s) && Enabled(s, Receive(i)) && ClientOk(s, i)
    ensures ClientOk(ReceiveReply(s, i), i)
  {
    hide Answer, RequestSize, ResponseSize, CutRequest, Answered, Pending;
    var x := s.clients[i].sock;
    assert SockOk(s, x);
    forall k | k in s.tasks ensures s.tasks[k].origin != x { assert TaskOk(s, k); }
  }

  predicate ClientStep(a: Action) {
    a.Connect? || a.Disconnect? || a.SendFails? || a.Send? || a.Receive? || a.GiveUp?
  }

  lemma ActorKeeps(s: Net, a: Action)
    requires LineOk(s) && ClientStep(a) && Enabled(s, a) && ClientOk(s, a.i)
    ensures ClientOk(Apply(s, a), a.i)
  {
    hide Answer, RequestSize, ResponseSize, CutRequest, SockOk, TaskOk;
    if a.Connect? { ConnectKeepsClient(s, a.i); }
    if a.Receive? { ReceiveKeepsClient(s, a.i); }
  }

  lemma OthersUndisturbed(s: Net, a: Action, j: nat)
    requires ClientStep(a) && Enabled(s, a) && s.HasClient(j) && ClientOk(s, j) && s.clients[j].connected
    requires ClientOk(s, a.i) && j != a.i
    ensures Undisturbed(s, Apply(s, a), j)
  {
  }

  lemma OthersKeep(s: Net, a: Action, j: nat)
    requires ClientStep(a) && Enabled(s, a) && s.HasClient(j) && ClientOk(s, j)
    requires ClientOk(s, a.i) && j != a.i
    ensures ClientOk(Apply(s, a), j)
  {
    if s.clients[j].connected {
      OthersUndisturbed(s, a, j);
      UndisturbedKeeps(s, Apply(s, a), j);
    }
  }

  lemma SameLinesUndisturbed(s: Net, t: Net, i: nat)
    requires SameLines(s, t) && t.clients == s.clients && s.HasClient(i)
    ensures Undisturbed(s, t, i)
  {
  }

  lemma DispatchUndisturbed(s: Net, fd: nat, queued: bool, i: nat)
    requires Readable(s, fd) && s.HasClient(i)
    ensures Undisturbed(s, DispatchRequest(s, fd, queued), i)
  {
  }

  lemma RespondUndisturbed(s: Net, k: nat, outcome: Option<seq<byte>>, written: bool, i: nat)
    requires FdOk(s) && Enabled(s, Respond(k, outcome, written)) && s.HasClient(i)
    ensures Undisturbed(s, WriteReply(s, k, outcome, written), i)
  {
    WritesToOrigin(s, k);
    hide Answer, RequestSize, ResponseSize, CutRequest, FdOk;
  }

  lemma UndisturbedAfterDrop(s: Net, t: Net, c: nat, i: nat)
    requires Undisturbed(s, t, i) && c < |t.conns|
    ensures Undisturbed(s, Drop(t, c), i)
  {
  }

  lemma ServerUndisturbed(s: Net, a: Action, j: nat)
    requires FdOk(s) && !ClientStep(a) && Enabled(s, a) && s.HasClient(j)
    ensures Undisturbed(s, Apply(s, a), j)
  {
    hide FdOk;
    if a.Dispatch? {
      DispatchUndisturbed(s, a.fd, a.queued, j);
    } else if a.Respond? {
      RespondUndisturbed(s, a.k, a.outcome, a.written, j);
      UndisturbedAfterDrop(s, WriteReply(s, a.k, a.outcome, a.written), s.tasks[a.k].conn, j);
    } else {
      SameLinesUndisturbed(s, Apply(s, a), j);
    }
  }

  lemma SameClients(s: Net, a: Action)
    requires Enabled(s, a)
    ensures |Apply(s, a).clients| == |s.clients| && (ClientStep(a) ==> s.HasClient(a.i))
  {
    hide Answer, RequestSize, ResponseSize, CutRequest;
  }

  lemma KeepsClients(s: Net, a: Action)
    requires FdOk(s) && LineOk(s) && ClientsOk(s) && Enabled(s, a)
    ensures ClientsOk(Apply(s, a))
  {
    hide Apply, ClientOk, LineOk, FdOk, Enabled;
    SameClients(s, a);
    var t := Apply(s, a);
    forall j: nat | t.HasClient(j) ensures ClientOk(t, j) {
      if ClientStep(a) && j == a.i {
        ActorKeeps(s, a);
      } else if ClientStep(a) {
        OthersKeep(s, a, j);
      } else {
        ServerUndisturbed(s, a, j);
        UndisturbedKeeps(s, t, j);
      }
    }
  }

  // ----- history -----

  /** Records of calls are never rewritten. */
  ghost predicate KeepsRecords(s: Net, t: Net) {
    s.calls <= t.calls && forall n :: n in s.handled ==> n in t.handled && t.handled[n] == s.handled[n]
  }

  lemma RespondKeepsRecords(s: Net, k: nat, outcome: Option<seq<byte>>, written: bool)
    requires Enabled(s, Respond(k, outcome, written)) && s.tasks[k].sent.call !in s.handled
    ensures KeepsRecords(s, WriteReply(s, k, outcome, written))
  {
    hide Answer, RequestSize, ResponseSize, CutRequest;
  }

  lemma OthersKeepRecords(s: Net, a: Action)
    requires Enabled(s, a) && !a.Respond?
    ensures s.calls <= Apply(s, a).calls && Apply(s, a).handled == s.handled
  {
    hide Answer, RequestSize, ResponseSize, CutRequest;
  }

  lemma RecordsKept(s: Net, a: Action)
    requires TasksOk(s) && Enabled(s, a)
    ensures KeepsRecords(s, Apply(s, a))
  {
    hide SockOk, Answer, RequestSize, ResponseSize, CutRequest;
    if a.Respond? {
      assert TaskOk(s, a.k);
      RespondKeepsRecords(s, a.k, a.outcome, a.written);
    } else {
      OthersKeepRecords(s, a);
    }
  }

  /** The first response on the socket of a waiting client is the one to its call. */
  lemma ReplyIsOwn(s: Net, i: nat)
    requires SocksOk(s) && ClientsOk(s) && Enabled(s, Receive(i))
    ensures var x := s.clients[i].sock;
            s.socks[x].outbound[0].call == s.clients[i].phase.call && s.calls[s.clients[i].phase.call].sock == x
    ensures var x := s.clients[i].sock;
            ReturnOk(s, Return(i, s.clients[i].phase.call, s.socks[x].outbound[0].response))
  {
    assert SockOk(s, s.clients[i].sock) && ClientOk(s, i);
  }

  lemma KeepsReturns(s: Net, a: Action)
    requires LineOk(s) && ClientsOk(s) && ReturnsOk(s) && Enabled(s, a)
    ensures ReturnsOk(Apply(s, a))
  {
    hide SockOk, TaskOk, ClientOk, Answer, RequestSize, ResponseSize, CutRequest;
    var t := Apply(s, a);
    RecordsKept(s, a);
    if a.Receive? { ReplyIsOwn(s, a.i); }
    forall j | 0 <= j < |t.returned| ensures ReturnOk(t, t.returned[j]) {
      if j < |s.returned| { assert ReturnOk(s, s.returned[j]); }
    }
  }

  lemma ReceiveReturnsOnce(s: Net, i: nat)
    requires ClientsOk(s) && ReturnsOnce(s) && Enabled(s, Receive(i))
    ensures ReturnsOnce(ReceiveReply(s, i))
  {
    hide Quiet;
    var t := ReceiveReply(s, i);
    assert ClientOk(s, i);
    forall j: nat | t.HasClient(j) && t.clients[j].phase.Waiting?
      ensures j != i && t.clients[j] == s.clients[j] && t.clients[j].phase.call != s.clients[i].phase.call
    {
      assert ClientOk(s, j);
    }
  }

  lemma KeepsReturnsOnce(s: Net, a: Action)
    requires ClientsOk(s) && ReturnsOk(s) && ReturnsOnce(s) && Enabled(s, a)
    ensures ReturnsOnce(Apply(s, a))
  {
    hide Answer, RequestSize, ResponseSize, CutRequest;
    if a.Receive? {
      ReceiveReturnsOnce(s, a.i);
    } else if a.Send? {
      forall j | 0 <= j < |s.returned| ensures s.returned[j].call < |s.calls| { assert ReturnOk(s, s.returned[j]); }
    }
  }

  lemma RespondRouted(s: Net, k: nat, outcome: Option<seq<byte>>, written: bool)
    requires FdOk(s) && RoutedOk(s) && Enabled(s, Respond(k, outcome, written))
    ensures RoutedOk(WriteReply(s, k, outcome, written))
  {
    WritesToOrigin(s, k);
    hide FdOk, Answer, RequestSize, ResponseSize, CutRequest;
  }

  lemma KeepsRouted(s: Net, a: Action)
    requires FdOk(s) && RoutedOk(s) && Enabled(s, a)
    ensures RoutedOk(Apply(s, a))
  {
    hide FdOk;
    if a.Respond? {
      RespondRouted(s, a.k, a.outcome, a.written);
    } else {
      assert Apply(s, a).routed == s.routed;
    }
  }

  lemma KeepsInv(s: Net, a: Action)
    requires Inv(s) && Enabled(s, a)
    ensures Inv(Apply(s, a))
  {
    hide Apply, FdOk, LineOk, ClientsOk, ReturnsOk, ReturnsOnce, RoutedOk;
    KeepsFd(s, a);
    KeepsLine(s, a);
    KeepsClients(s, a);
    KeepsReturns(s, a);
    KeepsReturnsOnce(s, a);
    KeepsRouted(s, a);
  }

  lemma {:induction false} RunKeepsInv(s: Net, acts: seq<Action>, t: Net)
    requires Inv(s) && Runs(s, acts, t)
    ensures Inv(t)
    decreases |acts|
  {
    hide Inv, Enabled, Apply;
    if acts != [] {
      KeepsInv(s, acts[0]);
      RunKeepsInv(Apply(s, acts[0]), acts[1..], t);
    }
  }

  lemma ReachableInv(s: Net)
    requires Reachable(s)
    ensures Inv(s)
  {
    hide Inv, Runs, Initial;
    var n, acts :| Runs(Initial(n, s.codec), acts, s);
    InitialInv(n, s.codec);
    RunKeepsInv(Initial(n, s.codec), acts, s);
  }
}
