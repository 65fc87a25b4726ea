/** What every action of the pool keeps. */
module PoolInvariants {
  import opened PoolModel

  // ----- counting workers -----

  datatype Kind = INHAND | ACTIVE | LIVE | TIMEDOUT | DISMISSED

  predicate Is(k: Kind, x: Worker) {
    match k
    case INHAND => x.InHand()
    case ACTIVE => x.InActive()
    case LIVE => x.Live()
    case TIMEDOUT => x.TimedOut()
    case DISMISSED => x.Dismissed()
  }

  function One(b: bool): nat { if b then 1 else 0 }

  /** How many workers are of the given kind. */
  function Num(k: Kind, ws: seq<Worker>): nat {
    if ws == [] then 0 else One(Is(k, ws[0])) + Num(k, ws[1..])
  }

  lemma {:induction false} NumUpdate(k: Kind, ws: seq<Worker>, w: nat, x: Worker)
    requires w < |ws|
    ensures Num(k, ws[w := x]) == Num(k, ws) - One(Is(k, ws[w])) + One(Is(k, x))
  {
    if w > 0 {
      NumUpdate(k, ws[1..], w - 1, x);
      assert ws[w := x][1..] == ws[1..][w - 1 := x];
    } else {
      assert ws[w := x][1..] == ws[1..];
    }
  }

  lemma {:induction false} NumAppend(k: Kind, ws: seq<Worker>, x: Worker)
    ensures Num(k, ws + [x]) == Num(k, ws) + One(Is(k, x))
  {
    if ws == [] {
      assert ws + [x] == [x];
    } else {
      NumAppend(k, ws[1..], x);
      assert (ws + [x])[1..] == ws[1..] + [x];
    }
  }

  lemma {:induction false} NumZero(k: Kind, ws: seq<Worker>)
    ensures Num(k, ws) == 0 <==> forall w :: 0 <= w < |ws| ==> !Is(k, ws[w])
  {
    if ws != [] {
      NumZero(k, ws[1..]);
      assert forall w :: 0 < w < |ws| ==> ws[w] == ws[1..][w - 1];
      if Num(k, ws) == 0 {
        forall w | 0 <= w < |ws| ensures !Is(k, ws[w]) {
          if w > 0 { assert !Is(k, ws[1..][w - 1]); }
        }
      }
      if forall w :: 0 <= w < |ws| ==> !Is(k, ws[w]) {
        forall w | 0 <= w < |ws[1..]| ensures !Is(k, ws[1..][w]) { assert ws[1..][w] == ws[w + 1]; }
      }
    }
  }

  lemma {:induction false} NumPartition(ws: seq<Worker>)
    ensures Num(LIVE, ws) + Num(TIMEDOUT, ws) + Num(DISMISSED, ws) == |ws|
  {
    if ws != [] { NumPartition(ws[1..]); }
  }

  lemma {:induction false} NumInitial(k: Kind, n: nat)
    ensures Num(k, seq(n, _ => Idle)) == if k == LIVE then n else 0
  {
    var ws := seq(n, _ => Idle);
    if n > 0 {
      NumInitial(k, n - 1);
      assert ws[1..] == seq(n - 1, _ => Idle);
    }
  }

  // ----- the invariant -----

  /** The mutex has exactly the one owner whose program counter is inside the critical section. */
  ghost predicate LockOk(s: Pool) {
    && (s.lock.WorkerHolds? ==> s.HasWorker(s.lock.w))
    && (s.lock.CallerHolds? ==> s.HasCall(s.lock.c))
    && (forall w: nat :: s.HasWorker(w) ==> (s.workers[w].HasLock() <==> s.lock == WorkerHolds(w)))
    && (forall c: nat :: s.HasCall(c) ==> (s.calls[c].HasLock() <==> s.lock == CallerHolds(c)))
    && (s.lock.ProducerHolds? ==> !s.stop)
  }

  /** `state_`, `stop_` and the queue agree, up to the two windows inside critical sections. */
  ghost predicate LifeOk(s: Pool) {
    && (s.stop ==> s.state == STOPPED)
    && (s.state == STOPPED && !s.stop ==>
          && s.lock.CallerHolds? && s.HasCall(s.lock.c)
          && (s.calls[s.lock.c].MarkedStopped? || s.calls[s.lock.c].Stopping?))
    && (s.state == STOPPED && s.tasks != {} ==>
          && s.lock.CallerHolds? && s.HasCall(s.lock.c)
          && (s.calls[s.lock.c].Stopping? || s.calls[s.lock.c].Clearing?))
    && (forall w: nat :: s.HasWorker(w) && s.workers[w].Dismissed() ==> s.stop)
    && (forall w: nat :: s.HasWorker(w) && s.workers[w] == Locked(false) ==> !s.stop)
  }

  ghost predicate CallOk(s: Pool, x: Call) {
    match x
    case LostCas => true
    case Draining => s.state == SHUTTING_DOWN || s.state == STOPPED
    case Drained => (s.state == SHUTTING_DOWN || s.state == STOPPED) && s.tasks == {}
    case MarkedStopped => s.state == STOPPED && s.tasks == {}
    case Joining(k) => s.stop && AllExited(s, k)
    case ShutReturned(won, r) =>
      && (won ==> s.state == SHUTTING_DOWN || s.state == STOPPED)
      && (won && r ==> s.stop && AllExited(s, |s.workers|))
      && (!won && r ==> s.state == STOPPED)
    case Stopping => s.state == STOPPED
    case Clearing => s.stop
    case StopJoining(k) => s.stop && s.tasks == {} && AllExited(s, k)
    case StopReturned => s.stop && s.tasks == {} && AllExited(s, |s.workers|)
  }

  ghost predicate AllExited(s: Pool, k: nat) {
    k <= |s.workers| && forall j :: 0 <= j < k ==> s.workers[j].Exited?
  }

  /** Every call stands where its program counter allows. */
  ghost predicate CallsOk(s: Pool) {
    && (forall c: nat :: s.HasCall(c) ==> CallOk(s, s.calls[c]))
    && (forall c: nat :: s.HasCall(c) && s.calls[c].IsStopNow() ==> s.stopNow)
  }

  predicate Finisher(x: Call) { x.MarkedStopped? || x.Joining? || x == ShutReturned(true, true) }

  /** At most one `shutdown` ever wins the CAS, and without `stop_now` only its success stops the pool. */
  ghost predicate WinnerOk(s: Pool) {
    && (forall c: nat, d: nat :: s.HasCall(c) && s.HasCall(d) && s.calls[c].Won() && s.calls[d].Won() ==> c == d)
    && (forall c: nat :: s.HasCall(c) && s.calls[c].Won() ==> s.state == SHUTTING_DOWN || s.state == STOPPED)
    && (!s.stopNow && s.state == STOPPED ==> exists c: nat :: s.HasCall(c) && Finisher(s.calls[c]))
  }

  ghost predicate Known(s: Pool, t: Task) { t.id < |s.accepted| && s.accepted[t.id] == t.priority }

  /** Every accepted task is in exactly one place: the queue, one worker, finished, discarded. */
  ghost predicate PlaceOk(s: Pool) {
    && |s.place| == |s.accepted|
    && (forall t :: t in s.tasks <==> Known(s, t) && s.place[t.id] == Queued)
    && (forall w: nat :: s.HasWorker(w) && s.workers[w].Busy() ==>
          Known(s, s.workers[w].task) && s.place[s.workers[w].task.id] == With(w))
    && (forall i: nat :: i < |s.place| && s.place[i].With? ==>
          s.HasWorker(s.place[i].w) && s.workers[s.place[i].w].Busy() && s.workers[s.place[i].w].task.id == i)
    && (forall i: nat :: i < |s.place| && s.place[i].Discarded? ==> s.stopNow)
  }

  ghost predicate Done(s: Pool, i: nat) {
    && i < |s.place|
    && (s.place[i].Finished?
        || (s.place[i].With? && s.HasWorker(s.place[i].w) && s.workers[s.place[i].w].HasRun()))
  }

  ghost predicate NoRepeats(r: seq<nat>) { forall i, j :: 0 <= i < j < |r| ==> r[i] != r[j] }

  /** A task has been run exactly when it is finished or its worker is past `execute`; never twice. */
  ghost predicate RunsOk(s: Pool) {
    && NoRepeats(s.runs)
    && (forall i: nat :: i in s.runs <==> Done(s, i))
    && (forall w: nat :: s.HasWorker(w) && s.workers[w].Ran? ==> !s.workers[w].threw)
    && s.failed == 0
  }

  /** The counters are what they are meant to count. */
  ghost predicate CountsOk(s: Pool) {
    && s.active == Num(ACTIVE, s.workers)
    && |s.accepted| == |s.tasks| + Num(INHAND, s.workers) + s.completed + s.failed + s.discarded
    && (s.discarded > 0 ==> s.stopNow)
  }

  ghost predicate ThreadsOk(s: Pool) {
    && s.cfg.core <= s.current <= s.cfg.max
    && |s.workers| == s.current + Num(TIMEDOUT, s.workers)
  }

  ghost predicate QueueOk(s: Pool) { s.cfg.maxQueue > 0 ==> |s.tasks| <= s.cfg.maxQueue }

  ghost predicate Inv(s: Pool) {
    && LockOk(s) && LifeOk(s) && CallsOk(s) && WinnerOk(s) && PlaceOk(s) && RunsOk(s) && CountsOk(s)
    && ThreadsOk(s) && QueueOk(s)
  }

  lemma InitialInv(cfg: Config)
    requires cfg.Valid()
    ensures Inv(Initial(cfg))
  {
    forall k: Kind ensures Num(k, Initial(cfg).workers) == if k == LIVE then cfg.core else 0 {
      NumInitial(k, cfg.core);
    }
  }

  // ----- preservation, one part of the invariant at a time -----

  /** The actions in which a call already under way moves on: up to the stop, and after it. */
  predicate Drains(a: Action) { a.ReadLost? || a.SeeDrained? || a.TimeOut? || a.MarkStopped? || a.SetStop? }

  predicate Finishes(a: Action) { a.Join? || a.Return? || a.SetStopNow? || a.Release? }

  predicate Continues(a: Action) { Drains(a) || Finishes(a) }

  /** The steps of a worker with a task in its hands; it does not hold the mutex. */
  predicate Labours(a: Action) { a.Activate? || a.Execute? || a.Count? || a.Deactivate? }

  lemma LabourKeepsLock(s: Pool, a: Action)
    requires LockOk(s) && Enabled(s, a) && Labours(a)
    ensures LockOk(Apply(s, a))
  {
  }

  lemma TurnKeepsLock(s: Pool, a: Action)
    requires LockOk(s) && Enabled(s, a) && a.IsWorkerStep() && !Labours(a)
    ensures LockOk(Apply(s, a))
  {
  }

  lemma WorkerKeepsLock(s: Pool, a: Action)
    requires LockOk(s) && Enabled(s, a) && a.IsWorkerStep()
    ensures LockOk(Apply(s, a))
  {
    if Labours(a) { LabourKeepsLock(s, a); } else { TurnKeepsLock(s, a); }
  }

  /** `t` is `s` with call `c` at another program counter, and possibly stopped. */
  predicate OnlyCall(s: Pool, c: nat, t: Pool) {
    && s.HasCall(c) && t.HasCall(c)
    && t.calls == s.calls[c := t.calls[c]]
    && t.workers == s.workers && t.tasks == s.tasks && t.stopNow == s.stopNow
    && (t.state == s.state || t.state == STOPPED)
    && (s.stop ==> t.stop)
    && s.calls[c].Won() == t.calls[c].Won()
    && s.calls[c].IsStopNow() == t.calls[c].IsStopNow()
    && (Finisher(s.calls[c]) ==> Finisher(t.calls[c]))
    && (t.state != s.state ==> Finisher(t.calls[c]))
  }

  lemma DrainShape(s: Pool, a: Action)
    requires Enabled(s, a) && Drains(a)
    ensures OnlyCall(s, a.c, Apply(s, a))
  {
  }

  lemma JoinShape(s: Pool, a: Action)
    requires Enabled(s, a) && Finishes(a)
    ensures OnlyCall(s, a.c, Apply(s, a))
  {
  }

  lemma ContinuesShape(s: Pool, a: Action)
    requires Enabled(s, a) && Continues(a)
    ensures OnlyCall(s, a.c, Apply(s, a))
  {
    if Finishes(a) { JoinShape(s, a); } else { DrainShape(s, a); }
  }

  lemma OnlyCallKeepsLock(s: Pool, c: nat, t: Pool)
    requires LockOk(s) && OnlyCall(s, c, t)
    requires
      || (t.lock == s.lock && s.calls[c].HasLock() == t.calls[c].HasLock())
      || (s.lock == Free && t.lock == CallerHolds(c) && t.calls[c].HasLock())
      || (s.lock == CallerHolds(c) && t.lock == Free && !t.calls[c].HasLock())
    requires t.lock.ProducerHolds? ==> t.stop == s.stop
    ensures LockOk(t)
  {
  }

  lemma DrainKeepsLock(s: Pool, a: Action)
    requires LockOk(s) && Enabled(s, a) && Drains(a)
    ensures LockOk(Apply(s, a))
  {
    DrainShape(s, a);
    OnlyCallKeepsLock(s, a.c, Apply(s, a));
  }

  lemma FinishKeepsLock(s: Pool, a: Action)
    requires LockOk(s) && Enabled(s, a) && Finishes(a)
    ensures LockOk(Apply(s, a))
  {
    JoinShape(s, a);
    OnlyCallKeepsLock(s, a.c, Apply(s, a));
  }

  lemma CallerKeepsLock(s: Pool, a: Action)
    requires LockOk(s) && Enabled(s, a) && Continues(a)
    ensures LockOk(Apply(s, a))
  {
    if Drains(a) { DrainKeepsLock(s, a); } else { FinishKeepsLock(s, a); }
  }

  lemma OtherKeepsLock(s: Pool, a: Action)
    requires LockOk(s) && LifeOk(s) && Enabled(s, a) && !a.IsWorkerStep() && !Continues(a)
    ensures LockOk(Apply(s, a))
  {
  }

  lemma LabourKeepsLife(s: Pool, a: Action)
    requires LifeOk(s) && Enabled(s, a) && Labours(a)
    ensures LifeOk(Apply(s, a))
  {
  }

  lemma TurnKeepsLife(s: Pool, a: Action)
    requires LockOk(s) && LifeOk(s) && Enabled(s, a) && a.IsWorkerStep() && !Labours(a)
    ensures LifeOk(Apply(s, a))
  {
  }

  lemma WorkerKeepsLife(s: Pool, a: Action)
    requires LockOk(s) && LifeOk(s) && Enabled(s, a) && a.IsWorkerStep()
    ensures LifeOk(Apply(s, a))
  {
    if Labours(a) { LabourKeepsLife(s, a); } else { TurnKeepsLife(s, a); }
  }

  lemma DrainKeepsLife(s: Pool, a: Action)
    requires LockOk(s) && LifeOk(s) && CallsOk(s) && Enabled(s, a) && Drains(a)
    ensures LifeOk(Apply(s, a))
  {
    assert CallOk(s, s.calls[a.c]);
  }

  lemma FinishKeepsLife(s: Pool, a: Action)
    requires LockOk(s) && LifeOk(s) && CallsOk(s) && Enabled(s, a) && Finishes(a)
    ensures LifeOk(Apply(s, a))
  {
    assert CallOk(s, s.calls[a.c]);
  }

  lemma NewKeepsLife(s: Pool, a: Action)
    requires LockOk(s) && LifeOk(s) && Enabled(s, a) && !a.IsWorkerStep() && !Continues(a)
    ensures LifeOk(Apply(s, a))
  {
  }

  lemma OtherKeepsLife(s: Pool, a: Action)
    requires LockOk(s) && LifeOk(s) && CallsOk(s) && Enabled(s, a) && !a.IsWorkerStep()
    ensures LifeOk(Apply(s, a))
  {
    if Drains(a) {
      DrainKeepsLife(s, a);
    } else if Finishes(a) {
      FinishKeepsLife(s, a);
    } else {
      NewKeepsLife(s, a);
    }
  }

  lemma WorkerKeepsCalls(s: Pool, a: Action)
    requires LockOk(s) && LifeOk(s) && CallsOk(s) && Enabled(s, a) && a.IsWorkerStep()
    ensures CallsOk(Apply(s, a))
  {
    var t := Apply(s, a);
    assert t.calls == s.calls;
    forall c: nat | t.HasCall(c) ensures CallOk(t, t.calls[c]) {
      assert CallOk(s, s.calls[c]);
    }
  }

  lemma OnlyCallKeepsCalls(s: Pool, c: nat, t: Pool)
    requires CallsOk(s) && OnlyCall(s, c, t) && CallOk(t, t.calls[c])
    ensures CallsOk(t)
  {
    forall d: nat | t.HasCall(d) ensures CallOk(t, t.calls[d]) {
      assert CallOk(s, s.calls[d]);
    }
    assert t.calls[c].IsStopNow() ==> s.calls[c].IsStopNow();
  }

  lemma DrainKeepsCall(s: Pool, a: Action)
    requires LifeOk(s) && Enabled(s, a) && Drains(a) && CallOk(s, s.calls[a.c])
    ensures CallOk(Apply(s, a), Apply(s, a).calls[a.c])
  {
  }

  lemma FinishKeepsCall(s: Pool, a: Action)
    requires LifeOk(s) && Enabled(s, a) && Finishes(a) && CallOk(s, s.calls[a.c])
    ensures CallOk(Apply(s, a), Apply(s, a).calls[a.c])
  {
  }

  lemma CallerKeepsCalls(s: Pool, a: Action)
    requires LifeOk(s) && CallsOk(s) && Enabled(s, a) && Continues(a)
    ensures CallsOk(Apply(s, a))
  {
    ContinuesShape(s, a);
    assert CallOk(s, s.calls[a.c]);
    hide CallOk, Apply, Enabled;
    if Drains(a) { DrainKeepsCall(s, a); } else { FinishKeepsCall(s, a); }
    OnlyCallKeepsCalls(s, a.c, Apply(s, a));
  }

  lemma OtherKeepsCalls(s: Pool, a: Action)
    requires LockOk(s) && LifeOk(s) && CallsOk(s) && Enabled(s, a) && !a.IsWorkerStep() && !Continues(a)
    ensures CallsOk(Apply(s, a))
  {
    var t := Apply(s, a);
    forall c: nat | t.HasCall(c) ensures CallOk(t, t.calls[c]) {
      if s.HasCall(c) { assert CallOk(s, s.calls[c]); }
    }
  }

  lemma QuietKeepsWinner(s: Pool, a: Action)
    requires WinnerOk(s) && Enabled(s, a) && !Continues(a) && !a.CallShutdown? && !a.CallStopNow?
    ensures WinnerOk(Apply(s, a))
  {
    var t := Apply(s, a);
    assert t.calls == s.calls && t.stopNow == s.stopNow;
  }

  lemma OnlyCallKeepsWinner(s: Pool, c: nat, t: Pool)
    requires WinnerOk(s) && OnlyCall(s, c, t)
    ensures WinnerOk(t)
  {
    if !t.stopNow && t.state == STOPPED {
      var d: nat := c;
      if s.state == STOPPED {
        d :| s.HasCall(d) && Finisher(s.calls[d]);
      }
      assert t.HasCall(d) && Finisher(t.calls[d]);
    }
  }

  lemma CallShutdownKeepsWinner(s: Pool)
    requires WinnerOk(s)
    ensures WinnerOk(Apply(s, CallShutdown))
  {
    var t := Apply(s, CallShutdown);
    if !t.stopNow && t.state == STOPPED {
      var c: nat :| s.HasCall(c) && Finisher(s.calls[c]);
      assert t.HasCall(c) && Finisher(t.calls[c]);
    }
  }

  lemma KeepsWinner(s: Pool, a: Action)
    requires WinnerOk(s) && Enabled(s, a)
    ensures WinnerOk(Apply(s, a))
  {
    if Continues(a) {
      ContinuesShape(s, a);
      OnlyCallKeepsWinner(s, a.c, Apply(s, a));
    } else if a.CallShutdown? {
      CallShutdownKeepsWinner(s);
    } else if !a.CallStopNow? {
      QuietKeepsWinner(s, a);
    }
  }

  /** The actions that touch the queue, the places, the runs or the list of workers. */
  predicate Moves(a: Action) {
    a.IsWorkerStep() || a.Push? || a.Adjust? || a.Discard?
  }

  predicate SameWork(s: Pool, t: Pool) {
    && t.tasks == s.tasks && t.accepted == s.accepted && t.place == s.place && t.runs == s.runs
    && t.workers == s.workers && t.current == s.current && t.active == s.active && t.cfg == s.cfg
    && t.completed == s.completed && t.failed == s.failed && t.discarded == s.discarded
  }

  lemma DrainingIsQuiet(s: Pool, a: Action)
    requires Enabled(s, a) && Drains(a)
    ensures SameWork(s, Apply(s, a)) && (s.stopNow ==> Apply(s, a).stopNow)
  {
  }

  lemma FinishingIsQuiet(s: Pool, a: Action)
    requires Enabled(s, a) && Finishes(a)
    ensures SameWork(s, Apply(s, a)) && (s.stopNow ==> Apply(s, a).stopNow)
  {
  }

  lemma QuietActions(s: Pool, a: Action)
    requires Enabled(s, a) && !Moves(a)
    ensures SameWork(s, Apply(s, a)) && (s.stopNow ==> Apply(s, a).stopNow)
  {
    if Drains(a) {
      DrainingIsQuiet(s, a);
    } else if Finishes(a) {
      FinishingIsQuiet(s, a);
    }
  }

  lemma QuietKeeps(s: Pool, t: Pool)
    requires PlaceOk(s) && RunsOk(s) && CountsOk(s) && SameWork(s, t) && (s.stopNow ==> t.stopNow)
    ensures PlaceOk(t) && RunsOk(t) && CountsOk(t)
  {
    forall i: nat ensures Done(t, i) == Done(s, i) {}
  }

  lemma KeepsQueue(s: Pool, a: Action)
    requires QueueOk(s) && Enabled(s, a)
    ensures QueueOk(Apply(s, a))
  {
    if !Moves(a) { QuietActions(s, a); } else { assert a.Push? || Apply(s, a).tasks <= s.tasks; }
    if !a.Push? { Smaller(Apply(s, a).tasks, s.tasks); }
  }

  lemma {:induction false} Smaller(a: set<Task>, b: set<Task>)
    requires a <= b
    ensures |a| <= |b|
  {
    assert |b - a| == |b| - |a|;
  }

  lemma PushKeepsPlace(s: Pool, p: Priority)
    requires PlaceOk(s)
    ensures PlaceOk(PushTask(s, p))
    ensures Task(|s.accepted|, p) !in s.tasks
  {
    var t := PushTask(s, p);
    assert forall u :: Known(t, u) <==> Known(s, u) || u == Task(|s.accepted|, p);
  }

  lemma PushKeeps(s: Pool, p: Priority)
    requires PlaceOk(s) && RunsOk(s) && CountsOk(s)
    ensures PlaceOk(PushTask(s, p)) && RunsOk(PushTask(s, p)) && CountsOk(PushTask(s, p))
  {
    PushKeepsPlace(s, p);
    forall i: nat ensures Done(PushTask(s, p), i) == Done(s, i) {}
  }

  lemma DiscardKeeps(s: Pool, c: nat, u: Task)
    requires CallsOk(s) && PlaceOk(s) && RunsOk(s) && CountsOk(s) && Enabled(s, Discard(c, u))
    ensures PlaceOk(Apply(s, Discard(c, u))) && RunsOk(Apply(s, Discard(c, u))) && CountsOk(Apply(s, Discard(c, u)))
  {
    var t := Apply(s, Discard(c, u));
    assert Known(s, u);
    forall i: nat ensures Done(t, i) == Done(s, i) {}
  }

  lemma AdjustKeeps(s: Pool, created: bool)
    requires PlaceOk(s) && RunsOk(s) && CountsOk(s)
    ensures var t := AdjustThreads(s, created); PlaceOk(t) && RunsOk(t) && CountsOk(t)
  {
    var t := AdjustThreads(s, created);
    forall i: nat ensures Done(t, i) == Done(s, i) {}
    NumAppend(ACTIVE, s.workers, Idle);
    NumAppend(INHAND, s.workers, Idle);
  }

  lemma PopKeepsPlace(s: Pool, w: nat, u: Task)
    requires PlaceOk(s) && Enabled(s, Pop(w, u))
    ensures PlaceOk(Apply(s, Pop(w, u)))
  {
    assert Known(s, u);
  }

  /** `t` is `s` with worker `w` at another program counter. */
  predicate OnlyWorker(s: Pool, w: nat, t: Pool) {
    && s.HasWorker(w) && t.HasWorker(w)
    && t.workers == s.workers[w := t.workers[w]]
    && t.tasks == s.tasks && t.accepted == s.accepted && t.stopNow == s.stopNow
  }

  lemma SameTaskKeepsPlace(s: Pool, w: nat, t: Pool)
    requires PlaceOk(s) && OnlyWorker(s, w, t) && t.place == s.place
    requires s.workers[w].Busy() == t.workers[w].Busy()
    requires s.workers[w].Busy() ==> s.workers[w].task == t.workers[w].task
    ensures PlaceOk(t)
  {
  }

  lemma FinishKeepsPlace(s: Pool, w: nat, t: Pool)
    requires PlaceOk(s) && OnlyWorker(s, w, t) && s.workers[w].Busy() && !t.workers[w].Busy()
    requires t.place == Move(s.place, s.workers[w].task.id, Finished)
    ensures PlaceOk(t)
  {
    assert Known(s, s.workers[w].task);
  }

  lemma WorkerKeepsPlace(s: Pool, a: Action)
    requires PlaceOk(s) && Enabled(s, a) && a.IsWorkerStep()
    ensures PlaceOk(Apply(s, a))
  {
    if a.Pop? {
      PopKeepsPlace(s, a.w, a.t);
    } else if a.Deactivate? {
      FinishKeepsPlace(s, a.w, Apply(s, a));
    } else {
      SameTaskKeepsPlace(s, a.w, Apply(s, a));
    }
  }

  lemma SameRunKeepsRuns(s: Pool, w: nat, t: Pool)
    requires PlaceOk(s) && RunsOk(s) && OnlyWorker(s, w, t) && t.place == s.place && t.runs == s.runs
    requires s.workers[w].HasRun() == t.workers[w].HasRun() && !t.workers[w].Ran? && t.failed == s.failed
    ensures RunsOk(t)
  {
    forall i: nat ensures Done(t, i) == Done(s, i) {}
  }

  lemma PopKeepsRuns(s: Pool, w: nat, u: Task)
    requires PlaceOk(s) && RunsOk(s) && Enabled(s, Pop(w, u))
    ensures RunsOk(PopTask(s, w, u))
  {
    assert Known(s, u);
    forall i: nat ensures Done(PopTask(s, w, u), i) == Done(s, i) {}
  }

  lemma FinishKeepsRuns(s: Pool, w: nat, t: Pool)
    requires PlaceOk(s) && RunsOk(s) && OnlyWorker(s, w, t) && s.workers[w].Counted? && t.workers[w].Idle?
    requires t.place == Move(s.place, s.workers[w].task.id, Finished) && t.runs == s.runs && t.failed == s.failed
    ensures RunsOk(t)
  {
    forall i: nat ensures Done(t, i) == Done(s, i) {}
  }

  lemma ExecuteKeepsRuns(s: Pool, w: nat)
    requires PlaceOk(s) && RunsOk(s) && s.HasWorker(w) && s.workers[w].Active?
    ensures RunsOk(ExecuteTask(s, w))
  {
    var t, id := ExecuteTask(s, w), s.workers[w].task.id;
    assert s.place[id] == With(w);
    forall i: nat ensures Done(t, i) == (Done(s, i) || i == id) {}
  }

  lemma CountKeepsRuns(s: Pool, w: nat)
    requires PlaceOk(s) && RunsOk(s) && s.HasWorker(w) && s.workers[w].Ran?
    ensures RunsOk(CountTask(s, w))
  {
    SameRunKeepsRuns(s, w, CountTask(s, w));
  }

  lemma WorkerKeepsRuns(s: Pool, a: Action)
    requires PlaceOk(s) && RunsOk(s) && Enabled(s, a) && a.IsWorkerStep()
    ensures RunsOk(Apply(s, a))
  {
    if a.Pop? {
      PopKeepsRuns(s, a.w, a.t);
    } else if a.Deactivate? {
      FinishKeepsRuns(s, a.w, Apply(s, a));
    } else if a.Execute? {
      ExecuteKeepsRuns(s, a.w);
    } else if a.Count? {
      CountKeepsRuns(s, a.w);
    } else {
      SameRunKeepsRuns(s, a.w, Apply(s, a));
    }
  }

  lemma WorkerKeepsCounts(s: Pool, a: Action)
    requires CountsOk(s) && Enabled(s, a) && a.IsWorkerStep()
    ensures CountsOk(Apply(s, a))
  {
    var w, x := a.w, Apply(s, a).workers[a.w];
    NumUpdate(ACTIVE, s.workers, w, x);
    NumUpdate(INHAND, s.workers, w, x);
  }

  lemma WorkerKeepsThreads(s: Pool, a: Action)
    requires ThreadsOk(s) && Enabled(s, a) && a.IsWorkerStep()
    ensures ThreadsOk(Apply(s, a))
  {
    NumUpdate(TIMEDOUT, s.workers, a.w, Apply(s, a).workers[a.w]);
  }

  lemma AdjustKeepsThreads(s: Pool, created: bool)
    requires ThreadsOk(s)
    ensures ThreadsOk(AdjustThreads(s, created))
  {
    NumAppend(TIMEDOUT, s.workers, Idle);
  }

  lemma KeepsThreads(s: Pool, a: Action)
    requires ThreadsOk(s) && Enabled(s, a)
    ensures ThreadsOk(Apply(s, a))
  {
    if !Moves(a) {
      QuietActions(s, a);
    } else if a.Adjust? {
      AdjustKeepsThreads(s, a.created);
    } else if a.IsWorkerStep() {
      WorkerKeepsThreads(s, a);
    }
  }

  lemma KeepsWork(s: Pool, a: Action)
    requires CallsOk(s) && PlaceOk(s) && RunsOk(s) && CountsOk(s) && Enabled(s, a)
    ensures PlaceOk(Apply(s, a)) && RunsOk(Apply(s, a)) && CountsOk(Apply(s, a))
  {
    if !Moves(a) {
      QuietActions(s, a);
      QuietKeeps(s, Apply(s, a));
    } else if a.Push? {
      PushKeeps(s, a.p);
    } else if a.Discard? {
      DiscardKeeps(s, a.c, a.t);
    } else if a.Adjust? {
      AdjustKeeps(s, a.created);
    } else {
      WorkerKeepsPlace(s, a);
      WorkerKeepsRuns(s, a);
      WorkerKeepsCounts(s, a);
    }
  }

  /** Every action keeps the invariant. */
  lemma KeepsInv(s: Pool, a: Action)
    requires Inv(s) && Enabled(s, a)
    ensures Inv(Apply(s, a))
  {
    KeepsQueue(s, a);
    KeepsThreads(s, a);
    KeepsWinner(s, a);
    KeepsWork(s, a);
    if a.IsWorkerStep() {
      WorkerKeepsLock(s, a);
      WorkerKeepsLife(s, a);
      WorkerKeepsCalls(s, a);
    } else {
      OtherKeepsLife(s, a);
      if Continues(a) {
        CallerKeepsLock(s, a);
        CallerKeepsCalls(s, a);
      } else {
        OtherKeepsLock(s, a);
        OtherKeepsCalls(s, a);
      }
    }
  }

  /** Every run keeps the invariant. */
  lemma {:induction false} RunKeepsInv(s: Pool, acts: seq<Action>, t: Pool)
    requires Inv(s) && Runs(s, acts, t)
    ensures Inv(t)
    decreases |acts|
  {
    if acts != [] {
      KeepsInv(s, acts[0]);
      RunKeepsInv(Apply(s, acts[0]), acts[1..], t);
    }
  }

  lemma ReachableInv(s: Pool)
    requires Reachable(s)
    ensures Inv(s)
  {
    var acts :| Runs(Initial(s.cfg), acts, s);
    InitialInv(s.cfg);
    RunKeepsInv(Initial(s.cfg), acts, s);
  }
}
