/**
 The pool as the class of the source.  Each method is one critical section, or one stretch outside the
 mutex, executed without a break; what it does is shown to be a run of the machine in PoolModel, which
 also covers the interleavings a method body cannot show.
 */
module ThreadPools {
  import opened Bytes
  import opened PoolModel
  import opened PoolInvariants
  import opened PoolTheorems

  datatype Enqueued = Accepted | Refused | Blocked

  lemma ReachesItself(s: Pool)
    ensures Reaches(s, s)
  {
    assert Runs(s, [], s);
  }

  lemma StepReaches(s: Pool, t: Pool, a: Action)
    requires Reaches(s, t) && Enabled(t, a)
    ensures Reaches(s, Apply(t, a))
  {
    hide Apply, Enabled;
    assert Runs(Apply(t, a), [], Apply(t, a));
    RunOn(t, a, [], Apply(t, a));
    ReachesOn(s, t, Apply(t, a));
  }

  lemma StaysReachable(s: Pool, t: Pool)
    requires Reachable(s) && Reaches(s, t)
    ensures Reachable(t)
  {
    var acts :| Runs(s, acts, t);
    ReturnsStick(s, acts, t);
    ReachesOn(Initial(s.cfg), s, t);
  }

  /** What an `enqueue` that is neither refused nor blocked does before it gives the mutex back. */
  function AfterEnqueue(s: Pool, p: Priority, created: bool): Pool {
    var t := PushTask(s, p);
    if Overloaded(t) then AdjustThreads(t, created) else t.(lock := Free)
  }

  lemma EnqueueRuns(s: Pool, p: Priority, created: bool)
    requires Reachable(s) && s.lock.Free? && !s.stop && (s.cfg.maxQueue > 0 ==> |s.tasks| < s.cfg.maxQueue)
    ensures Reaches(s, AfterEnqueue(s, p, created)) && Reachable(AfterEnqueue(s, p, created))
  {
    var s1 := PushTask(s, p);
    var s2 := Apply(s1, TestLoad);
    assert Runs(s, [], s);
    StepReaches(s, s, Push(p));
    StepReaches(s, s1, TestLoad);
    if Overloaded(s1) { StepReaches(s, s2, Adjust(created)); }
    StaysReachable(s, AfterEnqueue(s, p, created));
  }

  /** The number of a new task is not taken. */
  lemma NewTask(s: Pool, p: Priority)
    requires Reachable(s)
    ensures |s.tasks + {Task(|s.accepted|, p)}| == |s.tasks| + 1
  {
    QueueKnown(s);
    assert Task(|s.accepted|, p) !in s.tasks;
  }

  /** A worker that waited in vain, is above the core number and has been unused for too long leaves. */
  predicate Reaped(s: Pool, stale: bool) { stale && !s.WorkAvailable() && s.current > s.cfg.core }

  /** A worker's turn with the mutex when it gets no task. */
  function AfterNoTask(s: Pool, w: nat, stale: bool): Pool
    requires s.HasWorker(w)
  {
    if Reaped(s, stale) then s.With(w, Exited(true)).(current := s.current - 1)
    else if s.stop && s.tasks == {} then s.With(w, Exited(false))
    else s
  }

  lemma WakeReaches(s: Pool, w: nat)
    requires s.lock.Free? && s.HasWorker(w) && s.workers[w].Idle?
    ensures Reaches(s, s.With(w, Locked(s.WorkAvailable())).(lock := WorkerHolds(w)))
  {
    assert Runs(s, [], s);
    StepReaches(s, s, Wake(w));
  }

  lemma LeaveRuns(s: Pool, w: nat, stale: bool)
    requires Reachable(s) && s.lock.Free? && s.HasWorker(w) && s.workers[w].Idle?
    requires Reaped(s, stale) || (s.stop && s.tasks == {})
    ensures Reaches(s, AfterNoTask(s, w, stale))
  {
    WakeReaches(s, w);
    var s1 := s.With(w, Locked(s.WorkAvailable())).(lock := WorkerHolds(w));
    assert s1.workers[w := Exited(true)] == s.workers[w := Exited(true)];
    assert s1.workers[w := Exited(false)] == s.workers[w := Exited(false)];
    if Reaped(s, stale) { StepReaches(s, s1, LeaveTimedOut(w)); } else { StepReaches(s, s1, LeaveStopped(w)); }
  }

  lemma PollRuns(s: Pool, w: nat)
    requires s.lock.Free? && s.HasWorker(w) && s.workers[w].Idle?
    requires !s.stop && s.state != STOPPED && (s.tasks == {} || s.state == PAUSED)
    ensures Reaches(s, s)
  {
    WakeReaches(s, w);
    var s1 := s.With(w, Locked(s.WorkAvailable())).(lock := WorkerHolds(w));
    assert s1.workers[w := Idle] == s.workers && s1.workers[w := Cleared][w := Idle] == s.workers;
    if s.state == PAUSED {
      StepReaches(s, s1, SeePaused(w));
    } else {
      StepReaches(s, s1, PassPause(w));
      assert Apply(s1, PassPause(w)) == s1.With(w, Cleared);
      StepReaches(s, s1.With(w, Cleared), FindEmpty(w));
      assert s.With(w, Idle) == s;
    }
  }

  /** A turn with the mutex: a task of highest priority is popped if the state lets tasks be run and there is one. */
  ghost predicate Took(s: Pool, w: nat, stale: bool, task: Option<Task>, t: Pool)
    requires s.HasWorker(w)
  {
    && (task.Some? <==> s.tasks != {} && (s.state == RUNNING || s.state == SHUTTING_DOWN))
    && (task.Some? ==> s.IsTop(task.value) && t == PopTask(s, w, task.value))
    && (task.None? ==> t == AfterNoTask(s, w, stale))
  }

  lemma NoTaskRuns(s: Pool, w: nat, stale: bool)
    requires Reachable(s) && s.lock.Free? && s.HasWorker(w) && s.workers[w].Idle?
    requires Reaped(s, stale) || s.tasks == {} || s.state == PAUSED
    ensures Reaches(s, AfterNoTask(s, w, stale)) && Reachable(AfterNoTask(s, w, stale))
    ensures Took(s, w, stale, None, AfterNoTask(s, w, stale))
  {
    StopAgreesWithState(s);
    hide Reachable, Reaches;
    if Reaped(s, stale) || s.stop { LeaveRuns(s, w, stale); } else { PollRuns(s, w); }
    StaysReachable(s, AfterNoTask(s, w, stale));
  }

  lemma TakeRuns(s: Pool, w: nat, stale: bool, t: Task)
    requires Reachable(s) && s.lock.Free? && s.HasWorker(w) && s.workers[w].Idle?
    requires s.IsTop(t) && (s.state == RUNNING || s.state == SHUTTING_DOWN)
    ensures Reaches(s, PopTask(s, w, t)) && Reachable(PopTask(s, w, t))
    ensures Took(s, w, stale, Some(t), PopTask(s, w, t))
  {
    StopAgreesWithState(s);
    WakeReaches(s, w);
    var s1 := s.With(w, Locked(s.WorkAvailable())).(lock := WorkerHolds(w));
    StepReaches(s, s1, PassPause(w));
    var s2 := s1.With(w, Cleared);
    StepReaches(s, s2, Pop(w, t));
    assert PopTask(s2, w, t) == PopTask(s, w, t);
    StaysReachable(s, PopTask(s, w, t));
  }

  /** A popped task runs to its end: it is counted as completed and its worker is free again. */
  function AfterTask(s: Pool, w: nat): Pool
    requires s.HasWorker(w) && s.workers[w].Holding?
  {
    var t := s.workers[w].task;
    s.With(w, Idle).(completed := s.completed + 1, runs := s.runs + [t.id], place := Move(s.place, t.id, Finished))
  }

  lemma TaskStarts(s: Pool, w: nat)
    requires s.HasWorker(w) && s.workers[w].Holding?
    ensures var s1 := s.With(w, Active(s.workers[w].task)).(active := s.active + 1); Reaches(s, ExecuteTask(s1, w))
  {
    var s1 := s.With(w, Active(s.workers[w].task)).(active := s.active + 1);
    ReachesItself(s);
    StepReaches(s, s, Activate(w));
    StepReaches(s, s1, Execute(w));
  }

  lemma TaskEnds(s: Pool, w: nat)
    requires s.HasWorker(w) && s.workers[w].Ran?
    ensures var s1 := CountTask(s, w); Reaches(s, Apply(s1, Deactivate(w)))
  {
    ReachesItself(s);
    StepReaches(s, s, Count(w));
    StepReaches(s, CountTask(s, w), Deactivate(w));
  }

  lemma TaskRuns(s: Pool, w: nat)
    requires Reachable(s) && s.HasWorker(w) && s.workers[w].Holding?
    ensures s.workers[w].task.id !in s.runs
    ensures Reaches(s, AfterTask(s, w)) && Reachable(AfterTask(s, w))
  {
    NewToRuns(s, w);
    hide Reachable, Reaches;
    var s2 := ExecuteTask(s.With(w, Active(s.workers[w].task)).(active := s.active + 1), w);
    TaskStarts(s, w);
    TaskEnds(s2, w);
    assert Apply(CountTask(s2, w), Deactivate(w)) == AfterTask(s, w);
    ReachesOn(s, s2, AfterTask(s, w));
    StaysReachable(s, AfterTask(s, w));
  }

  lemma NewToRuns(s: Pool, w: nat)
    requires Reachable(s) && s.HasWorker(w) && s.workers[w].Holding?
    ensures s.workers[w].task.id !in s.runs
  {
    ReachableInv(s);
    assert !Done(s, s.workers[w].task.id);
  }

  /** A `shutdown` that wins the CAS goes on to wait; one that loses returns at once. */
  function AfterCall(s: Pool): Pool {
    if s.state == RUNNING then s.(state := SHUTTING_DOWN, calls := s.calls + [Draining])
    else s.(calls := s.calls + [ShutReturned(false, s.state == STOPPED)])
  }

  lemma CallRuns(s: Pool)
    requires Reachable(s)
    ensures Reaches(s, AfterCall(s)) && Reachable(AfterCall(s))
  {
    ReachesItself(s);
    StepReaches(s, s, CallShutdown);
    if s.state != RUNNING {
      var t := s.(calls := s.calls + [LostCas]);
      StepReaches(s, t, ReadLost(|s.calls|));
      assert t.calls[|s.calls| := ShutReturned(false, s.state == STOPPED)]
          == s.calls + [ShutReturned(false, s.state == STOPPED)];
    }
    StaysReachable(s, AfterCall(s));
  }

  /** The wait of the winner ends: stopped if drained, else timed out. */
  function AfterWait(s: Pool, c: nat): Pool
    requires s.HasCall(c)
  {
    if s.DrainPredicate() then s.WithCall(c, Joining(0)).(state := STOPPED, stop := true)
    else s.WithCall(c, ShutReturned(true, false))
  }

  lemma StopMarked(s: Pool, c: nat)
    requires s.lock.Free? && s.HasCall(c) && s.calls[c].Draining? && s.DrainPredicate()
    ensures Reaches(s, s.WithCall(c, MarkedStopped).(state := STOPPED, lock := CallerHolds(c)))
  {
    ReachesItself(s);
    var s1 := s.WithCall(c, Drained).(lock := CallerHolds(c));
    StepReaches(s, s, SeeDrained(c));
    StepReaches(s, s1, MarkStopped(c));
    assert s1.calls[c := MarkedStopped] == s.calls[c := MarkedStopped];
  }

  lemma DrainedRuns(s: Pool, c: nat)
    requires s.lock.Free? && s.HasCall(c) && s.calls[c].Draining? && s.DrainPredicate()
    ensures Reaches(s, AfterWait(s, c))
  {
    StopMarked(s, c);
    hide Reaches;
    var s2 := s.WithCall(c, MarkedStopped).(state := STOPPED, lock := CallerHolds(c));
    StepReaches(s, s2, SetStop(c));
    assert s2.calls[c := Joining(0)] == s.calls[c := Joining(0)];
  }

  lemma WaitRuns(s: Pool, c: nat)
    requires Reachable(s) && s.lock.Free? && s.HasCall(c) && s.calls[c].Draining?
    ensures Reaches(s, AfterWait(s, c)) && Reachable(AfterWait(s, c))
  {
    if s.DrainPredicate() {
      DrainedRuns(s, c);
    } else {
      ReachesItself(s);
      StepReaches(s, s, TimeOut(c));
    }
    StaysReachable(s, AfterWait(s, c));
  }

  /** `stop_now` about to empty the queue. */
  function Emptying(s: Pool): Pool {
    s.(state := STOPPED, stop := true, stopNow := true, lock := CallerHolds(|s.calls|), calls := s.calls + [Clearing])
  }

  lemma EmptyingRuns(s: Pool)
    requires s.lock.Free?
    ensures Reaches(s, Emptying(s))
  {
    ReachesItself(s);
    StepReaches(s, s, CallStopNow);
    var s1 := s.(state := STOPPED, stopNow := true, lock := CallerHolds(|s.calls|), calls := s.calls + [Stopping]);
    StepReaches(s, s1, SetStopNow(|s.calls|));
    assert s1.calls[|s.calls| := Clearing] == s.calls + [Clearing];
  }

  function WithoutTop(s: Pool, t: Task): Pool {
    s.(tasks := s.tasks - {t}, place := Move(s.place, t.id, Discarded), discarded := s.discarded + 1)
  }

  lemma QueueKnown(s: Pool)
    requires Reachable(s)
    ensures |s.place| == |s.accepted|
    ensures forall t :: t in s.tasks ==> t.id < |s.accepted| && t == Task(t.id, s.accepted[t.id])
  {
    ReachableInv(s);
    forall t | t in s.tasks ensures Known(s, t) {}
  }

  /** The places of the tasks of `s` that are no longer in `left`. */
  ghost predicate Discards(s: Pool, left: set<Task>, place: seq<Place>) {
    && |place| == |s.place| == |s.accepted|
    && forall i: nat :: i < |place| ==>
         place[i] == if Task(i, s.accepted[i]) in s.tasks - left then Discarded else s.place[i]
  }

  /** How far the loop of `stop_now` has got. */
  ghost predicate Swept(s: Pool, u: Pool) {
    && u == Emptying(s).(tasks := u.tasks, place := u.place, discarded := u.discarded)
    && u.tasks <= s.tasks && u.discarded + |u.tasks| == s.discarded + |s.tasks|
    && Discards(s, u.tasks, u.place) && Reaches(s, u)
  }

  lemma SweepStarts(s: Pool)
    requires Reachable(s) && s.lock.Free?
    ensures Swept(s, Emptying(s))
  {
    QueueKnown(s);
    EmptyingRuns(s);
  }

  lemma SweepOne(s: Pool, u: Pool, t: Task)
    requires Reachable(s) && Swept(s, u) && u.IsTop(t)
    ensures Swept(s, WithoutTop(u, t))
  {
    QueueKnown(s);
    hide Reachable, Reaches;
    DiscardRuns(s, u, |s.calls|, t);
    assert |u.tasks - {t}| == |u.tasks| - 1;
  }

  lemma DiscardRuns(s: Pool, u: Pool, c: nat, t: Task)
    requires Reaches(s, u) && u.HasCall(c) && u.calls[c].Clearing? && u.IsTop(t)
    ensures Reaches(s, WithoutTop(u, t))
  {
    StepReaches(s, u, Discard(c, t));
  }

  /** The queue is empty, its tasks are discarded and the pool is stopped. */
  ghost predicate StoppedFrom(s: Pool, t: Pool) {
    && t == s.(tasks := {}, state := STOPPED, stop := true, stopNow := true, calls := s.calls + [StopJoining(0)],
               place := t.place, discarded := s.discarded + |s.tasks|)
    && Discards(s, {}, t.place)
  }

  lemma SweepEnds(s: Pool, u: Pool)
    requires Reachable(s) && s.lock.Free? && Swept(s, u) && u.tasks == {}
    ensures |u.calls| == |s.calls| + 1
    ensures var t := u.WithCall(|s.calls|, StopJoining(0)).(lock := Free);
            Reaches(s, t) && Reachable(t) && StoppedFrom(s, t)
  {
    hide Discards;
    var t := u.WithCall(|s.calls|, StopJoining(0)).(lock := Free);
    assert t.calls == s.calls + [StopJoining(0)];
    StepReaches(s, u, Release(|s.calls|));
    StaysReachable(s, t);
  }

  /** The same call after `k` threads have been joined, or when it returns. */
  function JoinedSoFar(x: Call, k: nat): Call { if x.Joining? then Joining(k) else StopJoining(k) }

  function Returned(x: Call): Call { if x.Joining? then ShutReturned(true, true) else StopReturned }

  /** How far the joins get: to the first thread that has not left. */
  function JoinedUpTo(ws: seq<Worker>, k: nat): (r: nat)
    requires k <= |ws|
    ensures k <= r <= |ws| && (r < |ws| ==> ws[r].Live())
    ensures forall j :: k <= j < r ==> ws[j].Exited?
    decreases |ws| - k
  {
    if k < |ws| && ws[k].Exited? then JoinedUpTo(ws, k + 1) else k
  }

  /** The call in the middle of its joins, or returned when all threads are joined. */
  function AfterJoins(s: Pool, c: nat): Pool
    requires s.HasCall(c) && (s.calls[c].Joining? || s.calls[c].StopJoining?) && s.calls[c].joined <= |s.workers|
  {
    var k := JoinedUpTo(s.workers, s.calls[c].joined);
    s.WithCall(c, if k < |s.workers| then JoinedSoFar(s.calls[c], k) else Returned(s.calls[c]))
  }

  lemma {:induction false} JoinRuns(s: Pool, c: nat, k: nat)
    requires s.HasCall(c) && (s.calls[c].Joining? || s.calls[c].StopJoining?) && s.calls[c].joined <= k <= |s.workers|
    requires forall j :: s.calls[c].joined <= j < k ==> s.workers[j].Exited?
    ensures Reaches(s, s.WithCall(c, JoinedSoFar(s.calls[c], k)))
  {
    if k == s.calls[c].joined {
      assert s.WithCall(c, JoinedSoFar(s.calls[c], k)) == s;
      assert Runs(s, [], s);
    } else {
      JoinRuns(s, c, k - 1);
      var t := s.WithCall(c, JoinedSoFar(s.calls[c], k - 1));
      StepReaches(s, t, Join(c));
      assert t.WithCall(c, JoinedSoFar(s.calls[c], k)) == s.WithCall(c, JoinedSoFar(s.calls[c], k));
    }
  }

  /** What has been joined has left. */
  lemma JoinedHaveLeft(s: Pool, c: nat)
    requires Reachable(s) && s.HasCall(c) && (s.calls[c].Joining? || s.calls[c].StopJoining?)
    ensures s.calls[c].joined <= |s.workers| && forall j :: 0 <= j < s.calls[c].joined ==> s.workers[j].Exited?
    ensures AllGone(s) <==> JoinedUpTo(s.workers, s.calls[c].joined) == |s.workers|
  {
    ReachableInv(s);
    assert CallOk(s, s.calls[c]);
  }

  /** Nothing is left of what was ever accepted but its one run. */
  ghost predicate AllRunOnce(s: Pool) {
    && s.tasks == {} && s.completed == |s.accepted|
    && forall i: nat :: i < |s.accepted| ==> multiset(s.runs)[i] == 1
  }

  /** The joins have ended, or wait; a `shutdown` that has returned true without `stop_now` kept its promise. */
  ghost predicate Joined(s: Pool, c: nat, finished: bool, t: Pool) {
    && s.HasCall(c) && (s.calls[c].Joining? || s.calls[c].StopJoining?) && s.calls[c].joined <= |s.workers|
    && t == AfterJoins(s, c)
    && (finished <==> AllGone(t))
    && (finished && s.calls[c].Joining? && !s.stopNow ==> AllRunOnce(t))
  }

  lemma JoinsRun(s: Pool, c: nat)
    requires Reachable(s) && s.HasCall(c) && (s.calls[c].Joining? || s.calls[c].StopJoining?)
    ensures s.calls[c].joined <= |s.workers| && forall j :: 0 <= j < s.calls[c].joined ==> s.workers[j].Exited?
    ensures Reaches(s, AfterJoins(s, c)) && Reachable(AfterJoins(s, c))
    ensures Joined(s, c, JoinedUpTo(s.workers, s.calls[c].joined) == |s.workers|, AfterJoins(s, c))
  {
    JoinedHaveLeft(s, c);
    var k := JoinedUpTo(s.workers, s.calls[c].joined);
    var u := AfterJoins(s, c);
    JoinRuns(s, c, k);
    if k == |s.workers| {
      var t := s.WithCall(c, JoinedSoFar(s.calls[c], k));
      StepReaches(s, t, Return(c));
      assert t.WithCall(c, Returned(s.calls[c])) == u;
    }
    StaysReachable(s, u);
    if k == |s.workers| && s.calls[c].Joining? && !s.stopNow { GracefulShutdown(u, c); }
  }

  class ThreadPool {
    const config: Config
    var tasks: set<Task>
    var state: Lifecycle
    var stop: bool
    var workers: seq<Worker>
    var current: int
    var active: int
    var completed: nat
    var failed: nat
    var calls: seq<Call>
    // history
    var accepted: seq<Priority>
    var place: seq<Place>
    var runs: seq<nat>
    var discarded: nat
    var stopNow: bool

    /** The state of the machine while `lock` has the mutex. */
    ghost function Under(lock: Holder): Pool
      reads this
    {
      Pool(config, tasks, state, stop, lock, workers, current, active, completed, failed, calls,
           accepted, place, runs, discarded, stopNow)
    }

    /** The state of the machine between two methods: nobody has the mutex. */
    ghost function State(): Pool
      reads this
    {
      Under(Free)
    }

    ghost predicate Valid()
      reads this
    {
      Reachable(State())
    }

    constructor (config: Config)
      requires config.Valid()
      ensures Valid() && this.config == config && State() == Initial(config)
      ensures |workers| == current == config.core && forall w :: 0 <= w < |workers| ==> workers[w].Idle?
      ensures state == RUNNING && !stop && tasks == {} && active == 0 && completed == 0
    {
      this.config := config;
      tasks, state, stop, workers := {}, RUNNING, false, [];
      current, active, completed, failed, calls := 0, 0, 0, 0, [];
      accepted, place, runs, discarded, stopNow := [], [], [], 0, false;
      new;
      for i := 0 to config.core
        invariant State() == Initial(config).(workers := seq(i, _ => Idle), current := 0)
      {
        workers := workers + [Idle];
      }
      current := config.core;
      assert Runs(State(), [], State());
    }

    method Pause()
      requires Valid()
      modifies this`state
      ensures Valid() && State() == Apply(old(State()), Action.Pause)
      ensures state == if old(state) == RUNNING then PAUSED else old(state)
    {
      ghost var s := State();
      if state == RUNNING {
        state := PAUSED;
      }
      assert Runs(s, [], s);
      StepReaches(s, s, Action.Pause);
      StaysReachable(s, State());
    }

    method Resume()
      requires Valid()
      modifies this`state
      ensures Valid() && State() == Apply(old(State()), Action.Resume)
      ensures state == if old(state) == PAUSED then RUNNING else old(state)
    {
      ghost var s := State();
      if state == PAUSED {
        state := RUNNING;
      }
      assert Runs(s, [], s);
      StepReaches(s, s, Action.Resume);
      StaysReachable(s, State());
    }

    /** Called with the mutex held; `created` says whether the new thread could be started. */
    method AdjustThreadCount(created: bool)
      modifies this`current, this`workers
      ensures State() == AdjustThreads(old(State()), created)
      ensures if created && |tasks| > active && old(current) < config.max
              then current == old(current) + 1 && workers == old(workers) + [Idle]
              else current == old(current) && workers == old(workers)
    {
      if current < config.max && |tasks| > active {
        current := current + 1;
        if created {
          workers := workers + [Idle];
        } else {
          current := current - 1;
        }
      }
    }

    /** `Blocked` means the caller is still waiting for room in the queue. */
    method Enqueue(p: Priority, created: bool) returns (outcome: Enqueued)
      requires Valid()
      modifies this`tasks, this`current, this`workers, this`accepted, this`place
      ensures Valid() && Reaches(old(State()), State())
      ensures outcome.Refused? <==> old(state) == STOPPED
      ensures outcome.Blocked? <==> old(state) != STOPPED && 0 < config.maxQueue <= |old(tasks)|
      ensures State() == if outcome.Accepted? then AfterEnqueue(old(State()), p, created) else old(State())
      ensures outcome.Accepted? ==>
                && accepted == old(accepted) + [p] && tasks == old(tasks) + {Task(|old(accepted)|, p)}
                && |tasks| == |old(tasks)| + 1
                && if created && |tasks| > active && old(current) < config.max
                   then current == old(current) + 1 && workers == old(workers) + [Idle]
                   else current == old(current) && workers == old(workers)
    {
      hide Reachable, Reaches;
      ghost var s := State();
      ReachesItself(s);
      StopAgreesWithState(s);
      if stop {
        return Refused;
      }
      if config.maxQueue > 0 && |tasks| >= config.maxQueue {
        return Blocked;
      }
      EnqueueRuns(s, p, created);
      NewTask(s, p);
      tasks, accepted, place := tasks + {Task(|accepted|, p)}, accepted + [p], place + [Queued];
      if |tasks| > active && current < config.max {
        AdjustThreadCount(created);
      }
      assert State() == AfterEnqueue(s, p, created);
      return Accepted;
    }

    /** What the priority queue has in front: some task no other exceeds. */
    method Top() returns (t: Task)
      requires tasks != {}
      ensures State().IsTop(t)
    {
      HasTop(tasks);
      t :| t in tasks && forall u :: u in tasks ==> u.priority.Rank() <= t.priority.Rank();
    }

    /** One turn with the mutex; `stale` says whether the worker has been unused for longer than it may. */
    method TakeTask(w: nat, stale: bool) returns (task: Option<Task>)
      requires Valid() && w < |workers| && workers[w].Idle?
      modifies this`tasks, this`workers, this`current, this`place
      ensures Valid() && Reaches(old(State()), State()) && Took(old(State()), w, stale, task, State())
      ensures task.Some? <==> old(tasks) != {} && (old(state) == RUNNING || old(state) == SHUTTING_DOWN)
      ensures task.Some? ==>
                && task.value in old(tasks) && tasks == old(tasks) - {task.value}
                && workers == old(workers)[w := Holding(task.value)] && current == old(current)
      ensures task.Some? && task.value.priority == LOW ==> forall u :: u in old(tasks) ==> u.priority == LOW
      ensures task.Some? && task.value.priority != HIGH ==> forall u :: u in old(tasks) ==> u.priority != HIGH
      ensures task.None? ==>
                && tasks == old(tasks)
                && if old(state) == STOPPED then workers == old(workers)[w := Exited(false)] && current == old(current)
                   else if stale && old(current) > config.core then
                     workers == old(workers)[w := Exited(true)] && current == old(current) - 1
                   else workers == old(workers) && current == old(current)
    {
      hide Reachable, Reaches, Took;
      ghost var s := State();
      StopAgreesWithState(s);
      var hasTask := stop || (state == RUNNING && tasks != {}) || (state == SHUTTING_DOWN && tasks != {});
      if !hasTask && current > config.core && stale {
        current, workers := current - 1, workers[w := Exited(true)];
        assert State() == AfterNoTask(s, w, stale);
        NoTaskRuns(s, w, stale);
        return None;
      }
      if (stop || state == STOPPED) && tasks == {} {
        workers := workers[w := Exited(false)];
        assert State() == AfterNoTask(s, w, stale);
        NoTaskRuns(s, w, stale);
        return None;
      }
      if state == PAUSED || tasks == {} {
        NoTaskRuns(s, w, stale);
        return None;
      }
      var t := Top();
      TakeRuns(s, w, stale, t);
      tasks, workers, place := tasks - {t}, workers[w := Holding(t)], Move(place, t.id, With(w));
      return Some(t);
    }

    /** Outside the mutex: the task popped last is run and counted. */
    method RunTask(w: nat)
      requires Valid() && w < |workers| && workers[w].Holding?
      modifies this`active, this`completed, this`failed, this`workers, this`runs, this`place
      ensures Valid() && Reaches(old(State()), State()) && State() == AfterTask(old(State()), w)
      ensures workers == old(workers)[w := Idle] && active == old(active) && failed == old(failed)
      ensures completed == old(completed) + 1
      ensures old(workers[w].task).id !in old(runs) && runs == old(runs) + [old(workers[w].task).id]
    {
      hide Reachable, Reaches;
      ghost var s := State();
      var task := workers[w].task;
      active := active + 1;
      var threw := task.id in runs;
      runs := runs + [task.id];
      if !threw {
        completed := completed + 1;
      } else {
        failed := failed + 1;
      }
      active := active - 1;
      workers, place := workers[w := Idle], Move(place, task.id, Finished);
      TaskRuns(s, w);
      assert State() == AfterTask(s, w);
    }

    /** The first part of `shutdown`: true means this call changed RUNNING to SHUTTING_DOWN and has to wait. */
    method CallOfShutdown() returns (won: bool)
      requires Valid()
      modifies this`state, this`calls
      ensures Valid() && Reaches(old(State()), State()) && State() == AfterCall(old(State()))
      ensures won <==> old(state) == RUNNING
      ensures state == if won then SHUTTING_DOWN else old(state)
      ensures calls == old(calls) + [if won then Draining else ShutReturned(false, old(state) == STOPPED)]
    {
      CallRuns(State());
      hide Reachable, Reaches;
      won := state == RUNNING;
      if won {
        state, calls := SHUTTING_DOWN, calls + [Draining];
      } else {
        calls := calls + [ShutReturned(false, state == STOPPED)];
      }
    }

    /** The second part, when its wait ends: true means drained, false timed out. */
    method EndWait(c: nat) returns (drained: bool)
      requires Valid() && c < |calls| && calls[c].Draining?
      modifies this`state, this`stop, this`calls
      ensures Valid() && Reaches(old(State()), State()) && State() == AfterWait(old(State()), c)
      ensures drained <==> old(tasks) == {} && old(active) == 0
      ensures if drained then state == STOPPED && stop && calls == old(calls)[c := Joining(0)]
              else state == old(state) && stop == old(stop) && calls == old(calls)[c := ShutReturned(true, false)]
    {
      WaitRuns(State(), c);
      hide Reachable, Reaches;
      drained := tasks == {} && active == 0;
      if !drained {
        calls := calls[c := ShutReturned(true, false)];
        return;
      }
      state, stop, calls := STOPPED, true, calls[c := Joining(0)];
    }

    /** The last part of `shutdown` and of `stop_now`; false means it is still waiting for a thread to leave. */
    method JoinWorkers(c: nat) returns (finished: bool)
      requires Valid() && c < |calls| && (calls[c].Joining? || calls[c].StopJoining?)
      modifies this`calls
      ensures Valid() && Reaches(old(State()), State()) && Joined(old(State()), c, finished, State())
      ensures finished <==> forall w :: 0 <= w < |workers| ==> workers[w].Exited?
      ensures finished ==>
                calls == old(calls)[c := if old(calls[c]).Joining? then ShutReturned(true, true) else StopReturned]
      ensures !finished ==>
                exists k: nat :: k < |workers| && workers[k].Live() && (forall j :: 0 <= j < k ==> workers[j].Exited?)
                  && calls == old(calls)[c := if old(calls[c]).Joining? then Joining(k) else StopJoining(k)]
    {
      hide Reachable, Reaches, Joined;
      ghost var s := State();
      JoinsRun(s, c);
      var k := calls[c].joined;
      while k < |workers| && workers[k].Exited?
        invariant s.calls[c].joined <= k <= |workers| && forall j :: 0 <= j < k ==> workers[j].Exited?
        invariant JoinedUpTo(workers, k) == JoinedUpTo(workers, s.calls[c].joined)
        invariant calls == s.calls[c := JoinedSoFar(s.calls[c], k)]
      {
        k := k + 1;
        calls := calls[c := if calls[c].Joining? then Joining(k) else StopJoining(k)];
      }
      finished := k == |workers|;
      if finished {
        calls := calls[c := if calls[c].Joining? then ShutReturned(true, true) else StopReturned];
      } else {
        assert workers[k].Live() && calls == s.calls[c := if s.calls[c].Joining? then Joining(k) else StopJoining(k)];
      }
      assert State() == AfterJoins(s, c);
    }

    /** One turn of the loop that empties the queue. */
    method DiscardTop(ghost lock: Holder) returns (t: Task)
      requires tasks != {}
      modifies this`tasks, this`place, this`discarded
      ensures old(Under(lock)).IsTop(t) && Under(lock) == WithoutTop(old(Under(lock)), t) && |tasks| < |old(tasks)|
    {
      t := Top();
      tasks, place, discarded := tasks - {t}, Move(place, t.id, Discarded), discarded + 1;
    }

    /** `stop_now` up to the joins: the queue is emptied task by task. */
    method StopNow()
      requires Valid()
      modifies this`tasks, this`state, this`stop, this`stopNow, this`calls, this`place, this`discarded
      ensures Valid() && Reaches(old(State()), State()) && StoppedFrom(old(State()), State())
      ensures state == STOPPED && stop && stopNow && tasks == {} && discarded == old(discarded) + |old(tasks)|
      ensures calls == old(calls) + [StopJoining(0)] && |place| == |accepted| == |old(place)|
      ensures forall i: nat :: i < |place| ==>
                place[i] == if Task(i, accepted[i]) in old(tasks) then Discarded else old(place)[i]
    {
      ghost var s := State();
      SweepStarts(s);
      ghost var c := |s.calls|;
      state, stop, stopNow, calls := STOPPED, true, true, calls + [Clearing];
      assert Under(CallerHolds(c)) == Emptying(s);
      hide Reachable, Reaches, Swept, StoppedFrom, Emptying;
      while tasks != {}
        invariant Swept(s, Under(CallerHolds(c))) && calls == s.calls + [Clearing]
        decreases |tasks|
      {
        ghost var u := Under(CallerHolds(c));
        var t := DiscardTop(CallerHolds(c));
        SweepOne(s, u, t);
      }
      SweepEnds(s, Under(CallerHolds(c)));
      calls := calls[|calls| - 1 := StopJoining(0)];
    }
  }
}
