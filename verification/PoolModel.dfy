/**
 The dynamic priority thread pool (rpc_src/thread_pool) as a transition system.

 One action is one atomic operation or one stretch of code inside `queue_mutex` between two reads of
 an atomic that other threads may write.  `state_` and `active_threads_` are atomics which change
 without the mutex, so a critical section that reads them twice is two actions here.

 The last five fields of `Pool` are history: they record what happened and no action reads them,
 except that `Execute` looks at `runs` to decide what a `packaged_task` does when it is called again.
 */
module PoolModel {

  datatype Priority = LOW | NORMAL | HIGH {
    function Rank(): nat {
      match this case LOW => 0 case NORMAL => 1 case HIGH => 2
    }
  }

  /** `id` is the number of the `enqueue` call that accepted the task. */
  datatype Task = Task(id: nat, priority: Priority)

  datatype Lifecycle = RUNNING | PAUSED | SHUTTING_DOWN | STOPPED

  /** `maxQueue == 0` means unlimited. */
  datatype Config = Config(core: nat, max: nat, maxQueue: nat) {
    predicate Valid() { core <= max }
  }

  /** Where a thread stands in `worker_thread`. */
  datatype Worker =
    | Idle                              // before the lock, or blocked in `wait_for`
    | Locked(hasTask: bool)             // holds the lock, `wait_for` has returned
    | Cleared                           // holds the lock, the PAUSED test was passed
    | Holding(task: Task)               // popped, lock released, not yet counted as active
    | Active(task: Task)                // active_threads_ incremented
    | Ran(task: Task, threw: bool)      // execute() has returned or thrown
    | Counted(task: Task)               // tasks_completed_ or tasks_failed_ incremented
    | Exited(timedOut: bool)
  {
    predicate HasLock() { Locked? || Cleared? }
    predicate Busy() { Holding? || Active? || Ran? || Counted? }
    predicate InHand() { Holding? || Active? || Ran? }
    predicate InActive() { Active? || Ran? || Counted? }
    predicate HasRun() { Ran? || Counted? }
    predicate Live() { !Exited? }
    predicate TimedOut() { Exited? && timedOut }
    predicate Dismissed() { Exited? && !timedOut }
  }

  /** Where a call of `shutdown` (first six) or `stop_now` (last four) stands. */
  datatype Call =
    | LostCas                                // the CAS failed, line 259 not yet read
    | Draining                               // the CAS succeeded, waiting for the drain predicate
    | Drained                                // holds the lock, predicate was true
    | MarkedStopped                          // holds the lock, state_ is STOPPED
    | Joining(joined: nat)
    | ShutReturned(won: bool, result: bool)
    | Stopping                               // stop_now: holds the lock, state_ is STOPPED
    | Clearing                               // stop_now: holds the lock, stop_ is set
    | StopJoining(joined: nat)
    | StopReturned
  {
    predicate HasLock() { Drained? || MarkedStopped? || Stopping? || Clearing? }
    predicate Won() { Draining? || Drained? || MarkedStopped? || Joining? || (ShutReturned? && won) }
    predicate IsStopNow() { Stopping? || Clearing? || StopJoining? || StopReturned? }
  }

  datatype Holder = Free | WorkerHolds(w: nat) | ProducerHolds(tested: bool) | CallerHolds(c: nat)

  datatype Place = Queued | With(w: nat) | Finished | Discarded

  datatype Pool = Pool(
    cfg: Config,
    tasks: set<Task>,
    state: Lifecycle,
    stop: bool,
    lock: Holder,
    workers: seq<Worker>,
    current: int,
    active: int,
    completed: nat,
    failed: nat,
    calls: seq<Call>,
    // history
    accepted: seq<Priority>,
    place: seq<Place>,
    runs: seq<nat>,
    discarded: nat,
    stopNow: bool)
  {
    predicate HasWorker(w: nat) { w < |workers| }

    predicate HasCall(c: nat) { c < |calls| }

    function With(w: nat, x: Worker): Pool
      requires HasWorker(w)
    {
      this.(workers := workers[w := x])
    }

    function WithCall(c: nat, x: Call): Pool
      requires HasCall(c)
    {
      this.(calls := calls[c := x])
    }

    /** The predicate of the worker's `wait_for`. */
    predicate WorkAvailable() {
      stop || (state == RUNNING && tasks != {}) || (state == SHUTTING_DOWN && tasks != {})
    }

    /** The predicate `shutdown` waits for. */
    predicate DrainPredicate() { tasks == {} && active == 0 }

    predicate IsTop(t: Task) {
      t in tasks && forall u :: u in tasks ==> u.priority.Rank() <= t.priority.Rank()
    }
  }

  function Initial(cfg: Config): Pool {
    Pool(cfg, {}, RUNNING, false, Free, seq(cfg.core, _ => Idle), cfg.core, 0, 0, 0, [], [], [], [], 0, false)
  }

  datatype Action =
    // worker_thread
    | Wake(w: nat)
    | LeaveTimedOut(w: nat)
    | LeaveStopped(w: nat)
    | SeePaused(w: nat)
    | PassPause(w: nat)
    | Pop(w: nat, t: Task)
    | FindEmpty(w: nat)
    | Activate(w: nat)
    | Execute(w: nat)
    | Count(w: nat)
    | Deactivate(w: nat)
    // enqueue and adjust_thread_count
    | Push(p: Priority)
    | Refuse
    | TestLoad
    | Adjust(created: bool)
    // pause and resume
    | Pause
    | Resume
    // shutdown
    | CallShutdown
    | ReadLost(c: nat)
    | SeeDrained(c: nat)
    | TimeOut(c: nat)
    | MarkStopped(c: nat)
    | SetStop(c: nat)
    | Join(c: nat)
    | Return(c: nat)
    // stop_now
    | CallStopNow
    | SetStopNow(c: nat)
    | Discard(c: nat, t: Task)
    | Release(c: nat)
  {
    predicate IsWorkerStep() {
      Wake? || LeaveTimedOut? || LeaveStopped? || SeePaused? || PassPause? || Pop? || FindEmpty?
      || Activate? || Execute? || Count? || Deactivate?
    }
  }

  predicate Stopped(s: Pool) { (s.stop || s.state == STOPPED) && s.tasks == {} }

  predicate Overloaded(s: Pool) { |s.tasks| > s.active && s.current < s.cfg.max }

  predicate Enabled(s: Pool, a: Action) {
    match a
    case Wake(w) => s.HasWorker(w) && s.workers[w].Idle? && s.lock.Free?
    case LeaveTimedOut(w) => s.HasWorker(w) && s.workers[w].Locked? && !s.workers[w].hasTask && s.current > s.cfg.core
    case LeaveStopped(w) => s.HasWorker(w) && s.workers[w].Locked? && Stopped(s)
    case SeePaused(w) => s.HasWorker(w) && s.workers[w].Locked? && !Stopped(s) && s.state == PAUSED
    case PassPause(w) => s.HasWorker(w) && s.workers[w].Locked? && !Stopped(s) && s.state != PAUSED
    case Pop(w, t) => s.HasWorker(w) && s.workers[w].Cleared? && s.IsTop(t)
    case FindEmpty(w) => s.HasWorker(w) && s.workers[w].Cleared? && s.tasks == {}
    case Activate(w) => s.HasWorker(w) && s.workers[w].Holding?
    case Execute(w) => s.HasWorker(w) && s.workers[w].Active?
    case Count(w) => s.HasWorker(w) && s.workers[w].Ran?
    case Deactivate(w) => s.HasWorker(w) && s.workers[w].Counted?
    case Push(p) => s.lock.Free? && !s.stop && (s.cfg.maxQueue > 0 ==> |s.tasks| < s.cfg.maxQueue)
    case Refuse => s.lock.Free? && s.stop
    case TestLoad => s.lock == ProducerHolds(false)
    case Adjust(_) => s.lock == ProducerHolds(true)
    case Pause => true
    case Resume => true
    case CallShutdown => true
    case ReadLost(c) => s.HasCall(c) && s.calls[c].LostCas?
    case SeeDrained(c) => s.HasCall(c) && s.calls[c].Draining? && s.lock.Free? && s.DrainPredicate()
    case TimeOut(c) => s.HasCall(c) && s.calls[c].Draining? && s.lock.Free? && !s.DrainPredicate()
    case MarkStopped(c) => s.HasCall(c) && s.calls[c].Drained?
    case SetStop(c) => s.HasCall(c) && s.calls[c].MarkedStopped?
    case Join(c) =>
      && s.HasCall(c) && (s.calls[c].Joining? || s.calls[c].StopJoining?)
      && s.calls[c].joined < |s.workers|
      && s.workers[s.calls[c].joined].Exited?
    case Return(c) =>
      && s.HasCall(c) && (s.calls[c].Joining? || s.calls[c].StopJoining?)
      && s.calls[c].joined >= |s.workers|
    case CallStopNow => s.lock.Free?
    case SetStopNow(c) => s.HasCall(c) && s.calls[c].Stopping?
    case Discard(c, t) => s.HasCall(c) && s.calls[c].Clearing? && s.IsTop(t)
    case Release(c) => s.HasCall(c) && s.calls[c].Clearing? && s.tasks == {}
  }

  function Move(place: seq<Place>, id: nat, p: Place): seq<Place> {
    if id < |place| then place[id := p] else place
  }

  function PopTask(s: Pool, w: nat, t: Task): Pool
    requires s.HasWorker(w)
  {
    s.With(w, Holding(t)).(
      tasks := s.tasks - {t},
      lock := Free,
      place := Move(s.place, t.id, With(w)))
  }

  /** A `packaged_task` swallows what the user function throws; called twice it throws itself. */
  function ExecuteTask(s: Pool, w: nat): Pool
    requires s.HasWorker(w) && s.workers[w].Active?
  {
    var t := s.workers[w].task;
    s.With(w, Ran(t, t.id in s.runs)).(runs := s.runs + [t.id])
  }

  function CountTask(s: Pool, w: nat): Pool
    requires s.HasWorker(w) && s.workers[w].Ran?
  {
    var x := s.workers[w];
    s.With(w, Counted(x.task)).(
      completed := if x.threw then s.completed else s.completed + 1,
      failed := if x.threw then s.failed + 1 else s.failed)
  }

  function PushTask(s: Pool, p: Priority): Pool {
    s.(tasks := s.tasks + {Task(|s.accepted|, p)},
       accepted := s.accepted + [p],
       place := s.place + [Queued],
       lock := ProducerHolds(false))
  }

  /** A thread that could not be created rolls the counter back. */
  function AdjustThreads(s: Pool, created: bool): Pool {
    if Overloaded(s) && created then
      s.(current := s.current + 1, workers := s.workers + [Idle], lock := Free)
    else
      s.(lock := Free)
  }

  function Apply(s: Pool, a: Action): Pool
    requires Enabled(s, a)
  {
    match a
    case Wake(w) => s.With(w, Locked(s.WorkAvailable())).(lock := WorkerHolds(w))
    case LeaveTimedOut(w) => s.With(w, Exited(true)).(current := s.current - 1, lock := Free)
    case LeaveStopped(w) => s.With(w, Exited(false)).(lock := Free)
    case SeePaused(w) => s.With(w, Idle).(lock := Free)
    case PassPause(w) => s.With(w, Cleared)
    case Pop(w, t) => PopTask(s, w, t)
    case FindEmpty(w) => s.With(w, Idle).(lock := Free)
    case Activate(w) => s.With(w, Active(s.workers[w].task)).(active := s.active + 1)
    case Execute(w) => ExecuteTask(s, w)
    case Count(w) => CountTask(s, w)
    case Deactivate(w) =>
      s.With(w, Idle).(active := s.active - 1, place := Move(s.place, s.workers[w].task.id, Finished))
    case Push(p) => PushTask(s, p)
    case Refuse => s
    case TestLoad => s.(lock := if Overloaded(s) then ProducerHolds(true) else Free)
    case Adjust(created) => AdjustThreads(s, created)
    case Pause => if s.state == RUNNING then s.(state := PAUSED) else s
    case Resume => if s.state == PAUSED then s.(state := RUNNING) else s
    case CallShutdown =>
      if s.state == RUNNING then s.(state := SHUTTING_DOWN, calls := s.calls + [Draining])
      else s.(calls := s.calls + [LostCas])
    case ReadLost(c) => s.WithCall(c, ShutReturned(false, s.state == STOPPED))
    case SeeDrained(c) => s.WithCall(c, Drained).(lock := CallerHolds(c))
    case TimeOut(c) => s.WithCall(c, ShutReturned(true, false))
    case MarkStopped(c) => s.WithCall(c, MarkedStopped).(state := STOPPED)
    case SetStop(c) => s.WithCall(c, Joining(0)).(stop := true, lock := Free)
    case Join(c) =>
      var k := s.calls[c].joined + 1;
      s.WithCall(c, if s.calls[c].Joining? then Joining(k) else StopJoining(k))
    case Return(c) =>
      s.WithCall(c, if s.calls[c].Joining? then ShutReturned(true, true) else StopReturned)
    case CallStopNow =>
      s.(state := STOPPED, stopNow := true, lock := CallerHolds(|s.calls|), calls := s.calls + [Stopping])
    case SetStopNow(c) => s.WithCall(c, Clearing).(stop := true)
    case Discard(c, t) =>
      s.(tasks := s.tasks - {t}, place := Move(s.place, t.id, Discarded), discarded := s.discarded + 1)
    case Release(c) => s.WithCall(c, StopJoining(0)).(lock := Free)
  }

  /** `acts` leads from `s` to `t`. */
  predicate Runs(s: Pool, acts: seq<Action>, t: Pool)
    decreases |acts|
  {
    if acts == [] then s == t
    else Enabled(s, acts[0]) && Runs(Apply(s, acts[0]), acts[1..], t)
  }

  ghost predicate Reaches(s: Pool, t: Pool) { exists acts :: Runs(s, acts, t) }

  ghost predicate Reachable(s: Pool) { s.cfg.Valid() && Reaches(Initial(s.cfg), s) }
}
