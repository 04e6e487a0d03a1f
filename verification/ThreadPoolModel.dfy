/** The thread pool of include/ThreadPool.hpp as a step-based transition system.

    Every step is one atomic action of one thread: taking the mutex, evaluating a
    condition while holding it, changing the shared fields and letting go of it,
    or a call on the condition variable. A run is any interleaving of such steps by
    any number of workers, any number of concurrent `enqueue` calls and the
    destructor. A task is the number of the `enqueue` call that submits it. */
module ThreadPoolModel {

  datatype Option<+T> = None | Some(value: T)

  /** The threads that compete for `m_queue_mutex`. */
  datatype Thread = Worker(i: nat) | Caller(c: nat) | Destroyer

  /** Where a worker is in its endless loop (lines 28-46). */
  datatype WorkerPhase =
    | WantLock            // line 33, or woken inside `wait` and about to re-lock
    | Checking            // holds the mutex, about to evaluate the predicate
    | Passed              // holds the mutex, the predicate was true
    | Asleep              // blocked inside `wait`, the mutex is free
    | Running(task: nat)  // line 45, outside the mutex
    | Exited              // line 40

  /** Where an `enqueue` call is (lines 53-75). */
  datatype CallPhase =
    | Blocked    // line 62
    | Testing    // holds the mutex, about to test `stop`
    | Pushing    // holds the mutex, `stop` was false
    | Notifying  // pushed and unlocked, about to call `notify_one`
    | Returned
    | Rejected   // the runtime_error of line 66

  /** Where the destructor is (lines 77-87). */
  datatype DtorPhase =
    | Idle
    | Locked
    | StopSet
    | Unlocked
    | Joining(joined: nat)
    | Destroyed

  /** The shared fields, the program counters of all threads, and the history of
      the queue. `fault` records a `front()` or `pop()` on an empty queue. */
  datatype State = State(
    workers: seq<WorkerPhase>,
    calls: seq<CallPhase>,
    dtor: DtorPhase,
    lock: Option<Thread>,
    tasks: seq<nat>,
    stop: bool,
    fault: bool,
    accepted: seq<nat>,
    dispatched: seq<nat>,
    completed: seq<nat>)

  datatype Step =
    | WorkerLock(i: nat)
    | WorkerTest(i: nat)
    | WorkerTake(i: nat)
    | WorkerFinish(i: nat)
    | SpuriousWake(i: nat)
    | CallBegin
    | CallLock(c: nat)
    | CallTest(c: nat)
    | CallPush(c: nat)
    | CallNotify(c: nat, woken: Option<nat>)
    | DtorLock
    | DtorStop
    | DtorUnlock
    | DtorNotifyAll
    | DtorJoin

  function Init(threads: nat): State {
    State(seq(threads, _ => WantLock), [], Idle, None, [], false, false, [], [], [])
  }

  predicate WorkerIs(s: State, i: nat, phase: WorkerPhase) {
    i < |s.workers| && s.workers[i] == phase
  }

  predicate CallIs(s: State, c: nat, phase: CallPhase) {
    c < |s.calls| && s.calls[c] == phase
  }

  predicate AnyAsleep(s: State) {
    Asleep in s.workers
  }

  predicate Enabled(s: State, step: Step) {
    match step
    case WorkerLock(i) => WorkerIs(s, i, WantLock) && s.lock == None
    case WorkerTest(i) => WorkerIs(s, i, Checking)
    case WorkerTake(i) => WorkerIs(s, i, Passed)
    case WorkerFinish(i) => i < |s.workers| && s.workers[i].Running?
    case SpuriousWake(i) => WorkerIs(s, i, Asleep)
    case CallBegin => true
    case CallLock(c) => CallIs(s, c, Blocked) && s.lock == None
    case CallTest(c) => CallIs(s, c, Testing)
    case CallPush(c) => CallIs(s, c, Pushing)
    case CallNotify(c, woken) =>
      && CallIs(s, c, Notifying)
      && (match woken
          case None => !AnyAsleep(s)
          case Some(i) => WorkerIs(s, i, Asleep))
    case DtorLock => s.dtor == Idle && s.lock == None
    case DtorStop => s.dtor == Locked
    case DtorUnlock => s.dtor == StopSet
    case DtorNotifyAll => s.dtor == Unlocked
    case DtorJoin =>
      s.dtor.Joining? && (s.dtor.joined < |s.workers| ==> s.workers[s.dtor.joined] == Exited)
  }

  function Woken(ws: seq<WorkerPhase>): (r: seq<WorkerPhase>)
    ensures |r| == |ws|
  {
    seq(|ws|, i requires 0 <= i < |ws| => if ws[i] == Asleep then WantLock else ws[i])
  }

  function Apply(s: State, step: Step): State
    requires Enabled(s, step)
  {
    match step
    case WorkerLock(i) =>
      s.(workers := s.workers[i := Checking], lock := Some(Worker(i)))
    case WorkerTest(i) =>
      if s.stop || s.tasks != [] then s.(workers := s.workers[i := Passed])
      else s.(workers := s.workers[i := Asleep], lock := None)
    case WorkerTake(i) =>
      if s.stop && s.tasks == [] then s.(workers := s.workers[i := Exited], lock := None)
      else if s.tasks == [] then s.(fault := true)
      else s.(workers := s.workers[i := Running(s.tasks[0])], lock := None,
              tasks := s.tasks[1..], dispatched := s.dispatched + [s.tasks[0]])
    case WorkerFinish(i) =>
      s.(workers := s.workers[i := WantLock], completed := s.completed + [s.workers[i].task])
    case SpuriousWake(i) =>
      s.(workers := s.workers[i := WantLock])
    case CallBegin =>
      s.(calls := s.calls + [Blocked])
    case CallLock(c) =>
      s.(calls := s.calls[c := Testing], lock := Some(Caller(c)))
    case CallTest(c) =>
      if s.stop then s.(calls := s.calls[c := Rejected], lock := None)
      else s.(calls := s.calls[c := Pushing])
    case CallPush(c) =>
      s.(calls := s.calls[c := Notifying], lock := None,
         tasks := s.tasks + [c], accepted := s.accepted + [c])
    case CallNotify(c, woken) =>
      (match woken
       case None => s.(calls := s.calls[c := Returned])
       case Some(i) => s.(calls := s.calls[c := Returned], workers := s.workers[i := WantLock]))
    case DtorLock => s.(dtor := Locked, lock := Some(Destroyer))
    case DtorStop => s.(dtor := StopSet, stop := true)
    case DtorUnlock => s.(dtor := Unlocked, lock := None)
    case DtorNotifyAll => s.(dtor := Joining(0), workers := Woken(s.workers))
    case DtorJoin =>
      if s.dtor.joined < |s.workers| then s.(dtor := Joining(s.dtor.joined + 1))
      else s.(dtor := Destroyed)
  }

  /** A run of a pool with `threads` workers: `run[k]` is the state before step k. */
  ghost predicate IsRun(threads: nat, run: seq<State>, steps: seq<Step>) {
    && |run| == |steps| + 1
    && run[0] == Init(threads)
    && forall k :: 0 <= k < |steps| ==> Enabled(run[k], steps[k]) && run[k + 1] == Apply(run[k], steps[k])
  }

  /** Steps the outside world decides on: a new `enqueue` call, the start of the
      destructor, and a wakeup nobody asked for. All others are the pool's own. */
  predicate IsExternal(step: Step) {
    step.CallBegin? || step.SpuriousWake? || step.DtorLock?
  }

  // ---------- counting over sequences of phases ----------

  function Sum<T>(xs: seq<T>, f: T -> nat): nat {
    if xs == [] then 0 else Sum(xs[..|xs| - 1], f) + f(xs[|xs| - 1])
  }

  lemma {:induction false} SumUpdate<T>(xs: seq<T>, i: nat, x: T, f: T -> nat)
    requires i < |xs|
    ensures Sum(xs[i := x], f) + f(xs[i]) == Sum(xs, f) + f(x)
  {
    var n := |xs| - 1;
    if i == n {
      assert xs[i := x][..n] == xs[..n];
    } else {
      assert xs[i := x][..n] == xs[..n][i := x];
      SumUpdate(xs[..n], i, x, f);
    }
  }

  lemma SumPush<T>(xs: seq<T>, x: T, f: T -> nat)
    ensures Sum(xs + [x], f) == Sum(xs, f) + f(x)
  {
    assert (xs + [x])[..|xs|] == xs;
  }

  lemma {:induction false} SumAtLeast<T>(xs: seq<T>, i: nat, f: T -> nat)
    requires i < |xs|
    ensures f(xs[i]) <= Sum(xs, f)
  {
    if i < |xs| - 1 {
      SumAtLeast(xs[..|xs| - 1], i, f);
    }
  }

  lemma {:induction false} SumZero<T>(xs: seq<T>, f: T -> nat)
    requires forall x :: x in xs ==> f(x) == 0
    ensures Sum(xs, f) == 0
  {
    if xs != [] {
      SumZero(xs[..|xs| - 1], f);
    }
  }

  /** Waking everybody changes a sum by what it changes for a sleeper. */
  lemma {:induction false} SumWoken(ws: seq<WorkerPhase>, f: WorkerPhase -> nat, d: nat)
    requires f(WantLock) <= f(Asleep) + d
    ensures Sum(Woken(ws), f) <= Sum(ws, f) + d * |ws|
    ensures f(WantLock) == f(Asleep) ==> Sum(Woken(ws), f) == Sum(ws, f)
  {
    if ws != [] {
      assert Woken(ws)[..|ws| - 1] == Woken(ws[..|ws| - 1]);
      SumWoken(ws[..|ws| - 1], f, d);
      assert d * |ws| == d * (|ws| - 1) + d;
    }
  }
}
