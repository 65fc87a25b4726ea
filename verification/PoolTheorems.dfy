/** What holds of the pool in every reachable state and over every run. */
module PoolTheorems {
  import opened PoolModel
  import opened PoolInvariants

  // ----- conservation -----

  predicate HeldBy(s: Pool, w: nat, i: nat) {
    s.HasWorker(w) && s.workers[w].Busy() && s.workers[w].task.id == i
  }

  lemma {:induction false} OnceInSeq(r: seq<nat>, i: nat)
    requires NoRepeats(r)
    ensures multiset(r)[i] == One(i in r)
  {
    if r != [] {
      var k := |r| - 1;
      assert r == r[..k] + [r[k]];
      assert r[k] !in r[..k];
      OnceInSeq(r[..k], i);
    }
  }

  /** accepted = queued + in a worker's hands + completed + failed + discarded, and nothing ever fails. */
  lemma Conservation(s: Pool)
    requires Reachable(s)
    ensures |s.accepted| == |s.tasks| + Num(INHAND, s.workers) + s.completed + s.failed + s.discarded
    ensures s.failed == 0
    ensures s.active == Num(ACTIVE, s.workers)
  {
    ReachableInv(s);
  }

  predicate InQueue(s: Pool, i: nat) { i < |s.accepted| && Task(i, s.accepted[i]) in s.tasks }

  /** In the hands of a worker that is not past `execute`. */
  ghost predicate NotYetRun(s: Pool, i: nat) { exists w: nat :: HeldBy(s, w, i) && !s.workers[w].HasRun() }

  predicate Dropped(s: Pool, i: nat) { i < |s.place| && s.place[i].Discarded? }

  /**
   Each accepted task is queued, or held by a worker and not run yet, or run, or discarded by `stop_now`:
   always one of these, never two, run at most once and held by at most one worker.
   */
  lemma OnePlace(s: Pool, i: nat)
    requires Reachable(s) && i < |s.accepted|
    ensures One(InQueue(s, i)) + One(NotYetRun(s, i)) + One(i in s.runs) + One(Dropped(s, i)) == 1
    ensures multiset(s.runs)[i] <= 1
    ensures forall w: nat :: HeldBy(s, w, i) ==> (i in s.runs <==> s.workers[w].HasRun())
    ensures forall w: nat, v: nat :: HeldBy(s, w, i) && HeldBy(s, v, i) ==> w == v
    ensures (exists w: nat :: HeldBy(s, w, i)) ==> !InQueue(s, i) && !Dropped(s, i)
    ensures Dropped(s, i) ==> s.stopNow
  {
    ReachableInv(s);
    OnceInSeq(s.runs, i);
    assert Known(s, Task(i, s.accepted[i]));
    assert i in s.runs <==> Done(s, i);
    if s.place[i].With? { assert HeldBy(s, s.place[i].w, i); }
  }

  // ----- shutdown and stop_now -----

  predicate AllGone(s: Pool) { forall w :: 0 <= w < |s.workers| ==> s.workers[w].Exited? }

  lemma NobodyInHand(s: Pool)
    requires AllGone(s)
    ensures Num(INHAND, s.workers) == 0 && Num(ACTIVE, s.workers) == 0
  {
    NumZero(INHAND, s.workers);
    NumZero(ACTIVE, s.workers);
  }

  /**
   Without `stop_now`, when the `shutdown` that won the CAS has returned true, every accepted task has
   been run exactly once, nothing is queued or held and every thread is gone.
   */
  lemma GracefulShutdown(s: Pool, c: nat)
    requires Reachable(s) && !s.stopNow && s.HasCall(c) && s.calls[c] == ShutReturned(true, true)
    ensures forall i: nat :: i < |s.accepted| ==> multiset(s.runs)[i] == 1
    ensures forall i: nat :: i in s.runs ==> i < |s.accepted|
    ensures s.tasks == {} && AllGone(s) && s.active == 0
    ensures s.completed == |s.accepted| && s.failed == 0
  {
    ReachableInv(s);
    assert CallOk(s, s.calls[c]);
    NobodyInHand(s);
    forall i: nat | i < |s.accepted| ensures multiset(s.runs)[i] == 1 {
      OnceInSeq(s.runs, i);
      assert Known(s, Task(i, s.accepted[i]));
      assert Done(s, i);
    }
  }

  /**
   What a caller of the second `shutdown` can look at: once the first has returned true, or the counter of
   completed tasks has reached what was accepted, every task has been run.
   */
  lemma LosingShutdownObserved(s: Pool, c: nat, d: nat)
    requires Reachable(s) && !s.stopNow && s.HasCall(c) && s.calls[c] == ShutReturned(false, true)
    requires s.completed == |s.accepted| || (s.HasCall(d) && s.calls[d] == ShutReturned(true, true))
    ensures forall i: nat :: i < |s.accepted| ==> multiset(s.runs)[i] == 1
  {
    if s.completed == |s.accepted| {
      ReachableInv(s);
      NumZero(INHAND, s.workers);
      LosingShutdown(s, c);
      forall i: nat | i < |s.accepted| ensures multiset(s.runs)[i] == 1 { OnceInSeq(s.runs, i); }
    } else {
      GracefulShutdown(s, d);
    }
  }

  /**
   A second `shutdown` that returned true found the pool STOPPED: the queue is empty then, but the tasks
   still between pop and execution in some worker are not done, and only those.
   */
  lemma LosingShutdown(s: Pool, c: nat)
    requires Reachable(s) && !s.stopNow && s.HasCall(c) && s.calls[c] == ShutReturned(false, true)
    ensures s.tasks == {}
    ensures forall i: nat :: i < |s.accepted| ==>
              (i !in s.runs <==> exists w: nat :: HeldBy(s, w, i) && !s.workers[w].HasRun())
    ensures (forall i: nat :: i < |s.accepted| ==> i in s.runs)
            <==> (forall w: nat :: s.HasWorker(w) ==> !s.workers[w].Holding? && !s.workers[w].Active?)
  {
    ReachableInv(s);
    assert CallOk(s, s.calls[c]);
    if s.tasks != {} { assert false; }
    forall i: nat | i < |s.accepted|
      ensures i !in s.runs <==> exists w: nat :: HeldBy(s, w, i) && !s.workers[w].HasRun()
    {
      assert Known(s, Task(i, s.accepted[i]));
      assert i in s.runs <==> Done(s, i);
      if i !in s.runs { assert HeldBy(s, s.place[i].w, i); }
    }
    if forall i: nat :: i < |s.accepted| ==> i in s.runs {
      forall w: nat | s.HasWorker(w) ensures !s.workers[w].Holding? && !s.workers[w].Active? {
        if s.workers[w].Busy() { assert s.workers[w].task.id in s.runs; }
      }
    }
  }

  /** When a `stop_now` has returned, what was accepted was either completed or discarded. */
  lemma ImmediateStop(s: Pool, c: nat)
    requires Reachable(s) && s.HasCall(c) && s.calls[c].StopReturned?
    ensures AllGone(s) && s.active == 0 && s.tasks == {} && |s.accepted| == s.completed + s.discarded
    ensures forall i: nat :: i < |s.accepted| ==> (i in s.runs <==> !Dropped(s, i))
  {
    ReachableInv(s);
    assert CallOk(s, s.calls[c]);
    NobodyInHand(s);
    forall i: nat | i < |s.accepted| ensures i in s.runs <==> !Dropped(s, i) {
      OnePlace(s, i);
      assert !InQueue(s, i) && !NotYetRun(s, i);
    }
  }

  // ----- the shutdown gap is real -----

  lemma RunOn(s: Pool, a: Action, acts: seq<Action>, t: Pool)
    requires Enabled(s, a) && Runs(Apply(s, a), acts, t)
    ensures Runs(s, [a] + acts, t)
  {
    assert ([a] + acts)[1..] == acts;
  }

  /** One worker, one task: popped, but not yet counted as active when `shutdown` looks. */
  function GapStart(): Pool {
    Pool(Config(1, 1, 0), {}, RUNNING, false, Free, [Holding(Task(0, NORMAL))], 1, 0, 0, 0, [],
         [NORMAL], [With(0)], [], 0, false)
  }

  function GapEnd(): Pool {
    GapStart().(state := STOPPED, lock := CallerHolds(0), calls := [MarkedStopped, ShutReturned(false, true)])
  }

  function GapQueued(): Pool {
    GapStart().(tasks := {Task(0, NORMAL)}, workers := [Idle], place := [Queued])
  }

  function GapDrained(): Pool {
    GapStart().(state := SHUTTING_DOWN, lock := CallerHolds(0), calls := [Drained])
  }

  lemma GapRun1()
    ensures Reaches(Initial(Config(1, 1, 0)), GapQueued())
  {
    var s0 := Initial(Config(1, 1, 0));
    assert s0.workers == [Idle];
    var s1 := PushTask(s0, NORMAL);
    assert s1.tasks == {Task(0, NORMAL)} && s1.place == [Queued] && s1.accepted == [NORMAL];
    RunOn(s1, TestLoad, [], GapQueued());
    RunOn(s0, Push(NORMAL), [TestLoad], GapQueued());
  }

  lemma GapRun2()
    ensures Reaches(GapQueued(), GapStart())
  {
    var pop := Pop(0, Task(0, NORMAL));
    var s1 := Apply(GapQueued(), Wake(0));
    var s2 := Apply(s1, PassPause(0));
    assert PopTask(s2, 0, Task(0, NORMAL)) == GapStart();
    RunOn(s2, pop, [], GapStart());
    RunOn(s1, PassPause(0), [pop], GapStart());
    RunOn(GapQueued(), Wake(0), [PassPause(0), pop], GapStart());
  }

  lemma GapRun3()
    ensures Reaches(GapStart(), GapDrained())
  {
    var s1 := Apply(GapStart(), CallShutdown);
    assert Apply(s1, SeeDrained(0)) == GapDrained();
    RunOn(s1, SeeDrained(0), [], GapDrained());
    RunOn(GapStart(), CallShutdown, [SeeDrained(0)], GapDrained());
  }

  lemma GapRun4()
    ensures Reaches(GapDrained(), GapEnd())
  {
    var s1 := Apply(GapDrained(), MarkStopped(0));
    var s2 := Apply(s1, CallShutdown);
    assert Apply(s2, ReadLost(1)) == GapEnd();
    RunOn(s2, ReadLost(1), [], GapEnd());
    RunOn(s1, CallShutdown, [ReadLost(1)], GapEnd());
    RunOn(GapDrained(), MarkStopped(0), [CallShutdown, ReadLost(1)], GapEnd());
  }

  lemma {:induction false} RunsConcat(s: Pool, a: seq<Action>, t: Pool, b: seq<Action>, u: Pool)
    requires Runs(s, a, t) && Runs(t, b, u)
    ensures Runs(s, a + b, u)
    decreases |a|
  {
    if a == [] {
      assert a + b == b;
    } else {
      RunsConcat(Apply(s, a[0]), a[1..], t, b, u);
      assert (a + b)[1..] == a[1..] + b;
    }
  }

  lemma ReachesOn(s: Pool, t: Pool, u: Pool)
    requires Reaches(s, t) && Reaches(t, u)
    ensures Reaches(s, u)
  {
    var a :| Runs(s, a, t);
    var b :| Runs(t, b, u);
    RunsConcat(s, a, t, b, u);
  }

  /** The losing `shutdown` can return true while the only accepted task has not been run. */
  lemma LosingShutdownGap()
    ensures Reachable(GapEnd()) && !GapEnd().stopNow
    ensures GapEnd().calls[1] == ShutReturned(false, true) && |GapEnd().accepted| == 1 && GapEnd().runs == []
  {
    var s := Initial(Config(1, 1, 0));
    GapRun1();
    GapRun2();
    GapRun3();
    GapRun4();
    ReachesOn(s, GapQueued(), GapStart());
    ReachesOn(s, GapStart(), GapDrained());
    ReachesOn(s, GapDrained(), GapEnd());
  }

  // ----- lifecycle -----

  /** The only changes of state; only a `shutdown` that saw the queue drained or `stop_now` stops the pool. */
  lemma LifecycleEdges(s: Pool, a: Action)
    requires Reachable(s) && Enabled(s, a)
    ensures Edge(s.state, a, Apply(s, a).state)
  {
    ReachableInv(s);
    if a.MarkStopped? { assert CallOk(s, s.calls[a.c]); } else { FreeEdges(s, a); }
  }

  predicate Edge(x: Lifecycle, a: Action, y: Lifecycle) {
    && y == (if a.Pause? && x == RUNNING then PAUSED
             else if a.Resume? && x == PAUSED then RUNNING
             else if a.CallShutdown? && x == RUNNING then SHUTTING_DOWN
             else if a.MarkStopped? || a.CallStopNow? then STOPPED
             else x)
    && (a.MarkStopped? ==> x == SHUTTING_DOWN || x == STOPPED)
  }

  lemma FreeEdges(s: Pool, a: Action)
    requires Enabled(s, a) && !a.MarkStopped?
    ensures Edge(s.state, a, Apply(s, a).state)
  {
  }

  /** Whenever the mutex is free, `stop_` and STOPPED agree and a stopped pool has an empty queue. */
  lemma StopAgreesWithState(s: Pool)
    requires Reachable(s) && !s.lock.CallerHolds?
    ensures s.stop <==> s.state == STOPPED
    ensures s.stop ==> s.tasks == {}
  {
    ReachableInv(s);
  }

  /** After `stop_` nothing more is accepted, no thread is added or reaped, and the state stays. */
  lemma {:induction false} StoppedForever(s: Pool, acts: seq<Action>, t: Pool)
    requires Inv(s) && s.stop && Runs(s, acts, t)
    ensures t.stop && t.state == STOPPED && t.accepted == s.accepted
    ensures t.current == s.current && |t.workers| == |s.workers|
    decreases |acts|
  {
    if acts != [] {
      KeepsInv(s, acts[0]);
      StoppedStep(s, acts[0]);
      StoppedForever(Apply(s, acts[0]), acts[1..], t);
    }
  }

  lemma StoppedStep(s: Pool, a: Action)
    requires LockOk(s) && LifeOk(s) && s.stop && Enabled(s, a)
    ensures var t := Apply(s, a);
            t.stop && t.accepted == s.accepted && t.current == s.current && |t.workers| == |s.workers|
  {
    if !Moves(a) {
      QuietActions(s, a);
    } else {
      assert !a.Push? && !a.Adjust? && !a.LeaveTimedOut?;
    }
  }

  /** `enqueue` refuses exactly when `stop_` is set; SHUTTING_DOWN still accepts. */
  lemma RefusesOnlyWhenStopped(s: Pool, p: Priority)
    requires Reachable(s) && s.lock.Free?
    ensures Enabled(s, Refuse) <==> s.state == STOPPED
    ensures Enabled(s, Push(p)) <==> s.state != STOPPED && (s.cfg.maxQueue > 0 ==> |s.tasks| < s.cfg.maxQueue)
  {
    StopAgreesWithState(s);
  }

  lemma {:induction false} ReturnsStick(s: Pool, acts: seq<Action>, t: Pool)
    requires Runs(s, acts, t)
    ensures s.stopNow ==> t.stopNow
    ensures t.cfg == s.cfg
    ensures forall c: nat :: s.HasCall(c) && s.calls[c].ShutReturned? ==> t.HasCall(c) && t.calls[c] == s.calls[c]
    decreases |acts|
  {
    if acts != [] {
      ReturnSticks(s, acts[0]);
      ReturnsStick(Apply(s, acts[0]), acts[1..], t);
    }
  }

  lemma CallsOnlyGrow(s: Pool, a: Action)
    requires Enabled(s, a) && !Continues(a)
    ensures s.calls <= Apply(s, a).calls && (s.stopNow ==> Apply(s, a).stopNow)
  {
  }

  lemma SameConfig(s: Pool, a: Action)
    requires Enabled(s, a)
    ensures Apply(s, a).cfg == s.cfg
  {
  }

  lemma ReturnSticks(s: Pool, a: Action)
    requires Enabled(s, a)
    ensures var t := Apply(s, a);
            && (s.stopNow ==> t.stopNow) && t.cfg == s.cfg
            && forall c: nat :: s.HasCall(c) && s.calls[c].ShutReturned? ==> t.HasCall(c) && t.calls[c] == s.calls[c]
  {
    SameConfig(s, a);
    if Continues(a) { ContinuesShape(s, a); } else { CallsOnlyGrow(s, a); }
  }

  /** Once a `shutdown` has timed out, no `shutdown` ever returns true unless `stop_now` intervenes. */
  lemma TimedOutShutdown(s: Pool, c: nat, acts: seq<Action>, t: Pool, d: nat)
    requires Reachable(s) && s.HasCall(c) && s.calls[c] == ShutReturned(true, false)
    requires Runs(s, acts, t) && !t.stopNow && t.HasCall(d) && t.calls[d].ShutReturned?
    ensures !t.calls[d].result
    ensures t.state == SHUTTING_DOWN
  {
    ReachableInv(s);
    ReturnsStick(s, acts, t);
    RunKeepsInv(s, acts, t);
    assert t.calls[c].Won();
    if t.state == STOPPED {
      var e: nat :| t.HasCall(e) && Finisher(t.calls[e]);
      assert t.calls[e].Won();
      assert false;
    }
    assert CallOk(t, t.calls[d]);
  }

  // ----- threads -----

  /** core <= current <= max; until the pool stops `current` is the number of live threads. */
  lemma ThreadBounds(s: Pool)
    requires Reachable(s)
    ensures s.cfg.core <= s.current <= s.cfg.max
    ensures |s.workers| == s.current + Num(TIMEDOUT, s.workers)
    ensures !s.stop ==> Num(LIVE, s.workers) == s.current
    ensures s.stop ==> Num(LIVE, s.workers) + Num(DISMISSED, s.workers) == s.current
  {
    ReachableInv(s);
    NumPartition(s.workers);
    NumZero(DISMISSED, s.workers);
  }

  // ----- pause -----

  function Popped(acts: seq<Action>): seq<Task> {
    if acts == [] then []
    else (if acts[0].Pop? then [acts[0].t] else []) + Popped(acts[1..])
  }

  predicate PausedThroughout(s: Pool, acts: seq<Action>, t: Pool)
    requires Runs(s, acts, t)
    decreases |acts|
  {
    s.state == PAUSED && (acts == [] || PausedThroughout(Apply(s, acts[0]), acts[1..], t))
  }

  /** The mutex is held by a worker that has already passed the PAUSED test. */
  predicate Armed(s: Pool) {
    s.lock.WorkerHolds? && s.HasWorker(s.lock.w) && s.workers[s.lock.w].Cleared?
  }

  lemma PausedStep(s: Pool, a: Action)
    requires LockOk(s) && Enabled(s, a) && s.state == PAUSED && Apply(s, a).state == PAUSED
    ensures One(a.Pop?) + One(Armed(Apply(s, a))) <= One(Armed(s))
  {
  }

  /** While the pool stays PAUSED at most one task is popped, by the worker that was already past the test. */
  lemma {:induction false} PauseStopsPops(s: Pool, acts: seq<Action>, t: Pool)
    requires Inv(s) && Runs(s, acts, t) && PausedThroughout(s, acts, t)
    ensures |Popped(acts)| <= One(Armed(s)) <= 1
    decreases |acts|
  {
    if acts != [] {
      var u := Apply(s, acts[0]);
      assert u.state == PAUSED;
      PausedStep(s, acts[0]);
      KeepsInv(s, acts[0]);
      PauseStopsPops(u, acts[1..], t);
    }
  }

  // ----- queue bound and priorities -----

  /** The bound holds under any number of producers. */
  lemma QueueBound(s: Pool)
    requires Reachable(s) && s.cfg.maxQueue > 0
    ensures |s.tasks| <= s.cfg.maxQueue
  {
    ReachableInv(s);
  }

  predicate NoPush(acts: seq<Action>) { forall i :: 0 <= i < |acts| ==> !acts[i].Push? }

  /** No HIGH task after another, no NORMAL one after a LOW one. */
  predicate Descending(ts: seq<Task>) {
    forall i, j :: 0 <= i < j < |ts| ==>
      (ts[j].priority == HIGH ==> ts[i].priority == HIGH) && (ts[j].priority == NORMAL ==> ts[i].priority != LOW)
  }

  /** A task may be popped exactly when none in the queue outranks it. */
  lemma PopsHighest(s: Pool, w: nat, t: Task)
    requires s.HasWorker(w) && s.workers[w].Cleared? && t in s.tasks
    ensures Enabled(s, Pop(w, t)) <==>
            match t.priority
            case HIGH => true
            case NORMAL => forall u :: u in s.tasks ==> u.priority != HIGH
            case LOW => forall u :: u in s.tasks ==> u.priority == LOW
  {
    if t.priority == LOW && Enabled(s, Pop(w, t)) {
      forall u | u in s.tasks ensures u.priority == LOW { assert u.priority.Rank() <= 0; }
    }
  }

  lemma QueueOnlyShrinks(s: Pool, a: Action)
    requires Enabled(s, a) && !a.Push?
    ensures Apply(s, a).tasks <= s.tasks
  {
  }

  /**
   Between two enqueues tasks leave in order of priority, HIGH before NORMAL before LOW, all from the queue of
   the start.
   */
  lemma {:induction false} PopsDescend(s: Pool, acts: seq<Action>, t: Pool)
    requires Runs(s, acts, t) && NoPush(acts)
    ensures forall i, j :: 0 <= i < j < |Popped(acts)| ==>
              && (Popped(acts)[j].priority == HIGH ==> Popped(acts)[i].priority == HIGH)
              && (Popped(acts)[j].priority == NORMAL ==> Popped(acts)[i].priority != LOW)
    ensures forall u :: u in Popped(acts) ==> u in s.tasks
    ensures t.tasks <= s.tasks
    decreases |acts|
  {
    if acts != [] {
      var a, r := acts[0], Apply(s, acts[0]);
      QueueOnlyShrinks(s, a);
      PopsDescend(r, acts[1..], t);
      if a.Pop? {
        PopsHighest(s, a.w, a.t);
        var rest := Popped(acts[1..]);
        forall j | 0 <= j < |rest| ensures Descending([a.t, rest[j]]) { assert rest[j] in r.tasks; }
        forall j | 0 < j < |Popped(acts)| ensures Descending([a.t, Popped(acts)[j]]) {
          assert Popped(acts)[j] == rest[j - 1];
        }
      }
    }
  }

  // ----- drain progress -----

  function WorkLeft(empty: bool, x: Worker): nat {
    match x
    case Idle => if empty then 1 else 3
    case Locked(_) => if empty then 1 else 2
    case Cleared => 1
    case Holding(_) => 7
    case Active(_) => 6
    case Ran(_, _) => 5
    case Counted(_) => 4
    case Exited(_) => 0
  }

  function Total(empty: bool, ws: seq<Worker>): nat {
    if ws == [] then 0 else WorkLeft(empty, ws[0]) + Total(empty, ws[1..])
  }

  lemma {:induction false} TotalUpdate(empty: bool, ws: seq<Worker>, w: nat, x: Worker)
    requires w < |ws|
    ensures Total(empty, ws[w := x]) == Total(empty, ws) - WorkLeft(empty, ws[w]) + WorkLeft(empty, x)
  {
    if w > 0 {
      TotalUpdate(empty, ws[1..], w - 1, x);
      assert ws[w := x][1..] == ws[1..][w - 1 := x];
    } else {
      assert ws[w := x][1..] == ws[1..];
    }
  }

  lemma {:induction false} TotalEmpty(ws: seq<Worker>)
    ensures Total(true, ws) <= Total(false, ws)
  {
    if ws != [] { TotalEmpty(ws[1..]); }
  }

  /** Queued tasks weigh 8; a worker weighs what its round still has to do, a reaped one nothing. */
  function Measure(s: Pool): nat { 8 * |s.tasks| + Total(s.tasks == {}, s.workers) }

  /** Everything a worker does except polling an empty queue. */
  predicate Progress(s: Pool, a: Action) {
    a.IsWorkerStep() && !(s.tasks == {} && (a.Wake? || a.PassPause? || a.FindEmpty?))
  }

  lemma DrainPop(s: Pool, w: nat, u: Task)
    requires Enabled(s, Pop(w, u))
    ensures Measure(PopTask(s, w, u)) < Measure(s)
  {
    var t := PopTask(s, w, u);
    TotalUpdate(false, s.workers, w, Holding(u));
    TotalEmpty(t.workers);
    assert |t.tasks| == |s.tasks| - 1;
  }

  /** What one worker step does to the worker, the queue aside. */
  lemma DrainShape(s: Pool, a: Action)
    requires Enabled(s, a) && a.IsWorkerStep() && !a.Pop? && s.state == SHUTTING_DOWN && !s.stop
    ensures var t := Apply(s, a);
            && t.workers == s.workers[a.w := t.workers[a.w]] && t.tasks == s.tasks
            && WorkLeft(s.tasks == {}, t.workers[a.w]) + One(Progress(s, a)) <= WorkLeft(s.tasks == {}, s.workers[a.w])
  {
  }

  lemma DrainStep(s: Pool, a: Action)
    requires Enabled(s, a) && a.IsWorkerStep() && s.state == SHUTTING_DOWN && !s.stop
    ensures Measure(Apply(s, a)) + One(Progress(s, a)) <= Measure(s)
  {
    if a.Pop? {
      DrainPop(s, a.w, a.t);
    } else {
      DrainShape(s, a);
      TotalUpdate(s.tasks == {}, s.workers, a.w, Apply(s, a).workers[a.w]);
    }
  }

  lemma DrainStays(s: Pool, a: Action)
    requires Inv(s) && Enabled(s, a) && a.IsWorkerStep()
    ensures var t := Apply(s, a); t.state == s.state && t.cfg == s.cfg && t.stop == s.stop
    ensures s.lock.Free? || s.lock.WorkerHolds? ==> Apply(s, a).lock.Free? || Apply(s, a).lock.WorkerHolds?
  {
  }

  predicate WorkersOnly(acts: seq<Action>) {
    acts == [] || (acts[0].IsWorkerStep() && WorkersOnly(acts[1..]))
  }

  lemma WorkersOnlyMore(a: Action, acts: seq<Action>)
    ensures WorkersOnly([a] + acts) <==> a.IsWorkerStep() && WorkersOnly(acts)
  {
    assert ([a] + acts)[1..] == acts;
  }

  function ProgressSteps(s: Pool, acts: seq<Action>, t: Pool): nat
    requires Runs(s, acts, t)
    decreases |acts|
  {
    if acts == [] then 0
    else One(Progress(s, acts[0])) + ProgressSteps(Apply(s, acts[0]), acts[1..], t)
  }

  /** While shutting down the workers make at most `Measure(s)` progress steps, however they interleave. */
  lemma {:induction false} DrainBounded(s: Pool, acts: seq<Action>, t: Pool)
    requires Inv(s) && s.state == SHUTTING_DOWN && Runs(s, acts, t)
    requires WorkersOnly(acts)
    ensures ProgressSteps(s, acts, t) + Measure(t) <= Measure(s)
    decreases |acts|
  {
    if acts != [] {
      DrainStep(s, acts[0]);
      DrainStays(s, acts[0]);
      KeepsInv(s, acts[0]);
      assert acts == [acts[0]] + acts[1..];
      WorkersOnlyMore(acts[0], acts[1..]);
      DrainBounded(Apply(s, acts[0]), acts[1..], t);
    }
  }

  lemma LiveWorker(s: Pool) returns (w: nat)
    requires LifeOk(s) && ThreadsOk(s) && !s.stop && s.cfg.core > 0
    ensures s.HasWorker(w) && s.workers[w].Live()
  {
    NumPartition(s.workers);
    NumZero(DISMISSED, s.workers);
    NumZero(LIVE, s.workers);
    w :| 0 <= w < |s.workers| && Is(LIVE, s.workers[w]);
  }

  /** The next thing a live worker does, when it does not have to wait for the mutex. */
  ghost function NextOf(s: Pool, w: nat): Action
    requires s.HasWorker(w)
  {
    match s.workers[w]
    case Idle => Wake(w)
    case Locked(_) => PassPause(w)
    case Cleared => if s.tasks == {} then FindEmpty(w) else Pop(w, Top(s.tasks))
    case Holding(_) => Activate(w)
    case Active(_) => Execute(w)
    case Ran(_, _) => Count(w)
    case Counted(_) => Deactivate(w)
    case Exited(_) => Wake(w)
  }

  ghost function Top(ts: set<Task>): Task
    requires ts != {}
  {
    HasTop(ts);
    var t: Task :| t in ts && (forall u :: u in ts ==> u.priority.Rank() <= t.priority.Rank());
    t
  }

  lemma {:induction false} HasTop(ts: set<Task>)
    requires ts != {}
    ensures exists t :: t in ts && forall u :: u in ts ==> u.priority.Rank() <= t.priority.Rank()
  {
    var x :| x in ts;
    if ts == {x} {
    } else {
      var rest := ts - {x};
      assert rest != {};
      HasTop(rest);
      var t :| t in rest && forall u :: u in rest ==> u.priority.Rank() <= t.priority.Rank();
      if x.priority.Rank() <= t.priority.Rank() {
        assert forall u :: u in ts ==> u.priority.Rank() <= t.priority.Rank();
      } else {
        assert forall u :: u in ts ==> u.priority.Rank() <= x.priority.Rank();
      }
    }
  }

  predicate DrainState(s: Pool) {
    s.state == SHUTTING_DOWN && s.cfg.core > 0 && (s.lock.Free? || s.lock.WorkerHolds?)
  }

  /** Some progress step is possible until the predicate `shutdown` waits for holds. */
  lemma DrainEnabled(s: Pool) returns (a: Action)
    requires LockOk(s) && LifeOk(s) && CountsOk(s) && ThreadsOk(s) && DrainState(s) && !s.DrainPredicate()
    ensures Enabled(s, a) && Progress(s, a)
  {
    var w: nat;
    if s.tasks == {} {
      NumZero(ACTIVE, s.workers);
      w :| 0 <= w < |s.workers| && Is(ACTIVE, s.workers[w]);
    } else if s.lock.WorkerHolds? {
      w := s.lock.w;
    } else {
      w := LiveWorker(s);
    }
    a := NextOf(s, w);
  }

  lemma DrainAdvance(s: Pool) returns (a: Action, t: Pool)
    requires Inv(s) && DrainState(s) && !s.DrainPredicate()
    ensures Inv(t) && DrainState(t) && Measure(t) < Measure(s)
    ensures a.IsWorkerStep() && Runs(s, [a], t)
  {
    a := DrainEnabled(s);
    t := Apply(s, a);
    DrainStep(s, a);
    DrainStays(s, a);
    KeepsInv(s, a);
    RunOn(s, a, [], t);
  }

  /** From any shutting-down state the workers alone can reach the drain predicate. */
  lemma {:induction false} DrainCompletes(s: Pool) returns (acts: seq<Action>, t: Pool)
    requires Inv(s) && DrainState(s)
    ensures Runs(s, acts, t) && WorkersOnly(acts) && t.DrainPredicate()
    decreases Measure(s)
  {
    acts, t := [], s;
    if !s.DrainPredicate() {
      var a, r := DrainAdvance(s);
      acts, t := DrainCompletes(r);
      RunsConcat(s, [a], r, acts, t);
      WorkersOnlyMore(a, acts);
      acts := [a] + acts;
    }
  }
}
