/** The guarantees of the thread pool over all of its runs. */
module ThreadPoolTheorems {
  import opened ThreadPoolModel
  import opened ThreadPoolProofs
  import opened Sequences

  // ---------- safety in every reachable state ----------

  ghost predicate Inside(s: State, t: Thread) {
    match t
    case Worker(i) => i < |s.workers| && WorkerInside(s.workers[i])
    case Caller(c) => c < |s.calls| && CallInside(s.calls[c])
    case Destroyer => DtorInside(s.dtor)
  }

  /** At most one thread is inside a critical section, and `front()`/`pop()` are never
      called on an empty queue. */
  lemma MutualExclusion(threads: nat, run: seq<State>, steps: seq<Step>, k: nat)
    requires IsRun(threads, run, steps) && k < |run|
    ensures forall a, b :: Inside(run[k], a) && Inside(run[k], b) ==> a == b
    ensures !run[k].fault
  {
    InvAlways(threads, run, steps, k);
    HolderIsInside(run[k]);
  }

  /** Inside a critical section is exactly the thread that holds the mutex. */
  lemma HolderIsInside(s: State)
    requires LockInv(s)
    ensures forall t :: Inside(s, t) <==> s.lock == Some(t)
  {
    forall t
      ensures Inside(s, t) <==> s.lock == Some(t)
    {
      match t {
        case Worker(i) =>
        case Caller(c) =>
        case Destroyer =>
      }
    }
  }

  /** No lost wakeup: if a worker sleeps, the queued tasks are outnumbered by the
      undelivered notifications and the workers about to look at the queue. When
      neither is left, a sleeper means an empty queue. */
  lemma NoLostWakeup(threads: nat, run: seq<State>, steps: seq<Step>, k: nat)
    requires IsRun(threads, run, steps) && k < |run|
    ensures AnyAsleep(run[k]) ==> |run[k].tasks| <= Pending(run[k]) + Heading(run[k])
    ensures AnyAsleep(run[k])
            && (forall w :: w in run[k].workers ==> w == Asleep || w == Exited || w.Running?)
            && Notifying !in run[k].calls
            ==> run[k].tasks == []
  {
    InvAlways(threads, run, steps, k);
    if (forall w :: w in run[k].workers ==> w == Asleep || w == Exited || w.Running?) && Notifying !in run[k].calls {
      SumZero(run[k].workers, HeadingOne);
      SumZero(run[k].calls, PendingOne);
    }
  }

  /** The queue is a FIFO: what has been dispatched, followed by what is queued, is
      what was accepted, in order. Every accepted task is in exactly one place:
      queued, being run, or completed; a rejected one is nowhere. */
  lemma FifoAndConservation(threads: nat, run: seq<State>, steps: seq<Step>, k: nat)
    requires IsRun(threads, run, steps) && k < |run|
    ensures run[k].dispatched + run[k].tasks == run[k].accepted
    ensures forall t: nat ::
              multiset(run[k].tasks)[t] + RunningCount(run[k].workers, t) + multiset(run[k].completed)[t]
              == if t < |run[k].calls| && WasAccepted(run[k].calls[t]) then 1 else 0
  {
    InvAlways(threads, run, steps, k);
    forall t: nat
      ensures multiset(run[k].tasks)[t] + RunningCount(run[k].workers, t) + multiset(run[k].completed)[t]
              == if t < |run[k].calls| && WasAccepted(run[k].calls[t]) then 1 else 0
    {
      EachTaskOnce(run[k], t);
    }
  }

  // ---------- the order of what happens ----------

  /** The tasks that the steps push, in the order of the pushes. */
  function Pushes(steps: seq<Step>): seq<nat> {
    if steps == [] then []
    else
      var last := steps[|steps| - 1];
      Pushes(steps[..|steps| - 1]) + if last.CallPush? then [last.c] else []
  }

  /** The tasks that workers were seen to begin in the first k steps, in that order. */
  function Started(run: seq<State>, steps: seq<Step>, k: nat): seq<nat>
    requires |run| == |steps| + 1 && k <= |steps|
  {
    if k == 0 then []
    else Started(run, steps, k - 1) + StartedBy(steps[k - 1], run[k])
  }

  function StartedBy(step: Step, after: State): seq<nat> {
    if step.WorkerTake? && step.i < |after.workers| && after.workers[step.i].Running?
    then [after.workers[step.i].task]
    else []
  }

  /** The tasks that workers were seen to finish in the first k steps, in that order. */
  function Finished(run: seq<State>, steps: seq<Step>, k: nat): seq<nat>
    requires |run| == |steps| + 1 && k <= |steps|
  {
    if k == 0 then []
    else Finished(run, steps, k - 1) + FinishedBy(steps[k - 1], run[k - 1])
  }

  function FinishedBy(step: Step, before: State): seq<nat> {
    if step.WorkerFinish? && step.i < |before.workers| && before.workers[step.i].Running?
    then [before.workers[step.i].task]
    else []
  }

  lemma HistoryStep(s: State, step: Step)
    requires ReadInv(s) && Enabled(s, step)
    ensures Apply(s, step).accepted == s.accepted + if step.CallPush? then [step.c] else []
    ensures Apply(s, step).dispatched == s.dispatched + StartedBy(step, Apply(s, step))
    ensures Apply(s, step).completed == s.completed + FinishedBy(step, s)
  {
    if step.WorkerTake? {
      assert s.workers[step.i] in s.workers;
    }
  }

  lemma HistoryAt(threads: nat, run: seq<State>, steps: seq<Step>, k: nat)
    requires IsRun(threads, run, steps) && k < |steps|
    ensures run[k + 1].accepted == run[k].accepted + if steps[k].CallPush? then [steps[k].c] else []
    ensures run[k + 1].dispatched == run[k].dispatched + StartedBy(steps[k], run[k + 1])
    ensures run[k + 1].completed == run[k].completed + FinishedBy(steps[k], run[k])
  {
    InvAlways(threads, run, steps, k);
    HistoryStep(run[k], steps[k]);
  }

  lemma LastPush(steps: seq<Step>, k: nat)
    requires k < |steps|
    ensures Pushes(steps[..k + 1]) == Pushes(steps[..k]) + if steps[k].CallPush? then [steps[k].c] else []
  {
    assert steps[..k + 1][..k] == steps[..k];
  }

  /** The histories in the state are what an observer of the run writes down. */
  lemma {:induction false} HistoriesAre(threads: nat, run: seq<State>, steps: seq<Step>, k: nat)
    requires IsRun(threads, run, steps) && k <= |steps|
    ensures run[k].accepted == Pushes(steps[..k])
    ensures run[k].dispatched == Started(run, steps, k)
    ensures run[k].completed == Finished(run, steps, k)
  {
    if k > 0 {
      HistoriesAre(threads, run, steps, k - 1);
      HistoryAt(threads, run, steps, k - 1);
      LastPush(steps, k - 1);
    }
  }

  /** First in, first out: the tasks that workers began, followed by those that wait in
      the queue, are the tasks pushed, in the order of the pushes. */
  lemma FirstInFirstOut(threads: nat, run: seq<State>, steps: seq<Step>, k: nat)
    requires IsRun(threads, run, steps) && k <= |steps|
    ensures Started(run, steps, k) + run[k].tasks == Pushes(steps[..k])
  {
    HistoriesAre(threads, run, steps, k);
    InvAlways(threads, run, steps, k);
  }

  lemma {:induction false} PushesGrow(steps: seq<Step>, j: nat, k: nat)
    requires j <= k <= |steps|
    ensures Pushes(steps[..j]) <= Pushes(steps[..k])
  {
    if j < k {
      PushesGrow(steps, j, k - 1);
      LastPush(steps, k - 1);
    }
  }

  lemma {:induction false} StartedGrows(run: seq<State>, steps: seq<Step>, j: nat, k: nat)
    requires |run| == |steps| + 1 && j <= k <= |steps|
    ensures Started(run, steps, j) <= Started(run, steps, k)
  {
    if j < k {
      StartedGrows(run, steps, j, k - 1);
    }
  }

  /** The histories only grow at their ends. */
  lemma HistoriesGrow(threads: nat, run: seq<State>, steps: seq<Step>, j: nat, k: nat)
    requires IsRun(threads, run, steps) && j <= k <= |steps|
    ensures run[j].accepted <= run[k].accepted
    ensures run[j].dispatched <= run[k].dispatched
  {
    HistoriesAre(threads, run, steps, j);
    HistoriesAre(threads, run, steps, k);
    PushesGrow(steps, j, k);
    StartedGrows(run, steps, j, k);
  }

  lemma EachTaskOnce(s: State, t: nat)
    requires QueueInv(s) && WorkInv(s)
    ensures multiset(s.tasks)[t] + RunningCount(s.workers, t) + multiset(s.completed)[t]
            == if t < |s.calls| && WasAccepted(s.calls[t]) then 1 else 0
  {
    DistinctCount(s.accepted, t);
    assert multiset(s.dispatched + s.tasks) == multiset(s.dispatched) + multiset(s.tasks);
  }

  /** What the single worker of a pool has in hand. */
  function InHand(w: WorkerPhase): seq<nat> {
    if w.Running? then [w.task] else []
  }

  ghost predicate Serial(s: State) {
    |s.workers| == 1 && s.completed + InHand(s.workers[0]) == s.dispatched
  }

  lemma SerialStep(s: State, step: Step)
    requires Inv(s) && Serial(s) && Enabled(s, step)
    ensures Serial(Apply(s, step))
  {
    if step.WorkerTake? && s.tasks != [] {
      assert s.completed + [] == s.dispatched;
    }
  }

  lemma {:induction false} SerialAlways(run: seq<State>, steps: seq<Step>, k: nat)
    requires IsRun(1, run, steps) && k < |run|
    ensures Serial(run[k])
  {
    if k > 0 {
      SerialAlways(run, steps, k - 1);
      InvAlways(1, run, steps, k - 1);
      SerialStep(run[k - 1], steps[k - 1]);
    }
  }

  /** With one worker, tasks finish in the order in which they were pushed. */
  lemma SingleWorkerKeepsOrder(run: seq<State>, steps: seq<Step>, k: nat)
    requires IsRun(1, run, steps) && k < |run|
    ensures run[k].completed == Finished(run, steps, k) <= Pushes(steps[..k])
  {
    HistoriesAre(1, run, steps, k);
    SerialAlways(run, steps, k);
    InvAlways(1, run, steps, k);
    assert run[k].completed <= run[k].dispatched <= run[k].accepted;
  }

  // ---------- shutdown ----------

  /** `t` may follow `s` once `stop` is set: nothing more was accepted, nobody fell asleep. */
  ghost predicate Closing(s: State, t: State) {
    && t.stop && t.accepted == s.accepted
    && |t.workers| == |s.workers|
    && forall i :: 0 <= i < |t.workers| && t.workers[i] == Asleep ==> s.workers[i] == Asleep
  }

  lemma ClosingStep(s: State, step: Step)
    requires LockInv(s) && s.stop && Enabled(s, step)
    ensures Closing(s, Apply(s, step))
  {
    assert Pushing !in s.calls;
  }

  lemma ClosingTwice(s: State, t: State, u: State)
    requires Closing(s, t) && Closing(t, u)
    ensures Closing(s, u)
  {
  }

  lemma ClosingAt(threads: nat, run: seq<State>, steps: seq<Step>, k: nat)
    requires IsRun(threads, run, steps) && k < |steps| && run[k].stop
    ensures Closing(run[k], run[k + 1])
  {
    InvAlways(threads, run, steps, k);
    ClosingStep(run[k], steps[k]);
  }

  /** Once `stop` is set nothing is accepted any more and no worker falls asleep. */
  lemma {:induction false} StopIsFinal(threads: nat, run: seq<State>, steps: seq<Step>, j: nat, k: nat)
    requires IsRun(threads, run, steps) && j <= k < |run|
    requires run[j].stop
    ensures Closing(run[j], run[k])
  {
    if j < k {
      StopIsFinal(threads, run, steps, j, k - 1);
      ClosingAt(threads, run, steps, k - 1);
      ClosingTwice(run[j], run[k - 1], run[k]);
    }
  }

  /** When the destructor has returned every worker has exited. The queue is then
      drained, and exactly the accepted tasks have run, exactly if the pool had a
      worker or there was nothing to do. */
  lemma DestroyedMeansDrained(threads: nat, run: seq<State>, steps: seq<Step>, k: nat)
    requires IsRun(threads, run, steps) && k < |run|
    requires run[k].dtor == Destroyed
    ensures forall i :: 0 <= i < threads ==> i < |run[k].workers| && run[k].workers[i] == Exited
    ensures run[k].tasks == [] && multiset(run[k].completed) == multiset(run[k].accepted)
            <==> threads > 0 || run[k].accepted == []
    ensures threads > 0 ==> forall t: nat ::
                multiset(run[k].completed)[t] == if t < |run[k].calls| && WasAccepted(run[k].calls[t]) then 1 else 0
  {
    InvAlways(threads, run, steps, k);
    AllExited(run[k]);
    FifoAndConservation(threads, run, steps, k);
  }

  lemma AllExited(s: State)
    requires Inv(s) && s.dtor == Destroyed
    ensures multiset(s.completed) == multiset(s.dispatched)
    ensures s.workers != [] ==> s.tasks == [] && s.dispatched == s.accepted
  {
    forall t: nat ensures multiset(s.completed)[t] == multiset(s.dispatched)[t] {
      SumZero(s.workers, Carries(t));
    }
    if s.workers != [] {
      assert Exited in s.workers by { assert s.workers[0] == Exited; }
      assert s.dispatched + [] == s.dispatched;
    }
  }

  lemma Extend(threads: nat, run: seq<State>, steps: seq<Step>, last: State, step: Step)
    returns (run': seq<State>, steps': seq<Step>, last': State)
    requires IsRun(threads, run, steps) && run[|steps|] == last && Enabled(last, step)
    ensures IsRun(threads, run', steps') && run'[|steps'|] == last' == Apply(last, step)
  {
    last' := Apply(last, step);
    run', steps' := run + [last'], steps + [step];
  }

  lemma EnqueueWithoutWorkers() returns (run: seq<State>, steps: seq<Step>, last: State)
    ensures IsRun(0, run, steps) && run[|steps|] == last
    ensures last == State([], [Returned], Idle, None, [0], false, false, [0], [], [])
  {
    run, steps, last := [Init(0)], [], Init(0);
    assert last == State([], [], Idle, None, [], false, false, [], [], []);
    run, steps, last := Extend(0, run, steps, last, CallBegin);
    run, steps, last := Extend(0, run, steps, last, CallLock(0));
    run, steps, last := Extend(0, run, steps, last, CallTest(0));
    run, steps, last := Extend(0, run, steps, last, CallPush(0));
    run, steps, last := Extend(0, run, steps, last, CallNotify(0, None));
  }

  lemma DestroyWithoutWorkers() returns (run: seq<State>, steps: seq<Step>, last: State)
    ensures IsRun(0, run, steps) && run[|steps|] == last
    ensures last == State([], [Returned], Unlocked, None, [0], true, false, [0], [], [])
  {
    run, steps, last := EnqueueWithoutWorkers();
    run, steps, last := Extend(0, run, steps, last, DtorLock);
    run, steps, last := Extend(0, run, steps, last, DtorStop);
    run, steps, last := Extend(0, run, steps, last, DtorUnlock);
  }

  /** The condition above is needed: a pool of no workers accepts a task and its
      destructor returns with the task still queued. */
  lemma NoWorkersLoseTheTask()
    ensures exists run: seq<State>, steps: seq<Step> ::
              && IsRun(0, run, steps) && run[|steps|].dtor == Destroyed
              && run[|steps|].tasks == [0] && run[|steps|].completed == []
  {
    var run, steps, last := DestroyWithoutWorkers();
    run, steps, last := Extend(0, run, steps, last, DtorNotifyAll);
    run, steps, last := Extend(0, run, steps, last, DtorJoin);
  }

  // ---------- termination ----------

  function WorkerWeight(w: WorkerPhase): nat {
    match w
    case Exited => 0
    case Asleep => 0
    case Passed => 1
    case Checking => 2
    case WantLock => 3
    case Running(_) => 4
  }

  function CallWeight(c: CallPhase): nat {
    match c
    case Blocked => 11
    case Testing => 10
    case Pushing => 9
    case Notifying => 4
    case Returned => 0
    case Rejected => 0
  }

  /** The steps the destructor has left. */
  function DtorSteps(s: State): int {
    var n := |s.workers|;
    match s.dtor
    case Idle => n + 5
    case Locked => n + 4
    case StopSet => n + 3
    case Unlocked => n + 2
    case Joining(j) => n - j + 1
    case Destroyed => 0
  }

  /** The same, with the work that `notify_all` may bring by waking everybody. */
  function DtorWeight(s: State): int {
    DtorSteps(s) + if s.dtor.Joining? || s.dtor == Destroyed then 0 else 3 * |s.workers|
  }

  function Measure(s: State): int {
    Sum(s.workers, WorkerWeight) + Sum(s.calls, CallWeight) + 4 * |s.tasks| + DtorWeight(s)
  }

  /** What an external step may add to the work the pool has left. */
  function Credit(step: Step): nat {
    if step.CallBegin? then 12 else if step.SpuriousWake? then 4 else 0
  }

  lemma MeasureWorkerStep(s: State, step: Step)
    requires Inv(s) && Enabled(s, step)
    requires IsWorkerStep(step)
    ensures Measure(Apply(s, step)) + 1 <= Measure(s) + Credit(step)
  {
    SumUpdate(s.workers, step.i, Apply(s, step).workers[step.i], WorkerWeight);
    assert s.workers[step.i] in s.workers;
    if step.WorkerTake? {
      assert Apply(s, step).workers == s.workers[step.i := Apply(s, step).workers[step.i]];
    }
  }

  lemma MeasureCallStep(s: State, step: Step)
    requires Inv(s) && Enabled(s, step)
    requires step.CallLock? || step.CallTest? || step.CallPush?
    ensures Measure(Apply(s, step)) + 1 <= Measure(s) + Credit(step)
  {
    SumUpdate(s.calls, step.c, Apply(s, step).calls[step.c], CallWeight);
  }

  lemma MeasureNotifyStep(s: State, c: nat, woken: Option<nat>)
    requires Inv(s) && Enabled(s, CallNotify(c, woken))
    ensures Measure(Apply(s, CallNotify(c, woken))) + 1 <= Measure(s)
  {
    SumUpdate(s.calls, c, Returned, CallWeight);
    if woken.Some? {
      SumUpdate(s.workers, woken.value, WantLock, WorkerWeight);
    }
  }

  lemma MeasureDtorStep(s: State, step: Step)
    requires Inv(s) && Enabled(s, step) && !IsWorkerStep(step) && !IsCallStep(step)
    ensures Measure(Apply(s, step)) + 1 <= Measure(s)
  {
    if step.DtorNotifyAll? {
      SumWoken(s.workers, WorkerWeight, 3);
    }
  }

  /** Every step uses up work, except that a new `enqueue` call and a spurious wakeup
      first bring some. */
  lemma MeasureStep(s: State, step: Step)
    requires Inv(s) && Enabled(s, step)
    ensures Measure(Apply(s, step)) + 1 <= Measure(s) + Credit(step)
  {
    if IsWorkerStep(step) {
      MeasureWorkerStep(s, step);
    } else if step.CallLock? || step.CallTest? || step.CallPush? {
      MeasureCallStep(s, step);
    } else if step.CallNotify? {
      MeasureNotifyStep(s, step.c, step.woken);
    } else if step.CallBegin? {
      SumPush(s.calls, Blocked, CallWeight);
    } else {
      MeasureDtorStep(s, step);
    }
  }

  lemma MeasureInit(threads: nat)
    ensures Measure(Init(threads)) == 7 * threads + 5
  {
    WantLockWeight(threads);
  }

  lemma {:induction false} WantLockWeight(n: nat)
    ensures Sum(seq(n, _ => WantLock), WorkerWeight) == 3 * n
  {
    if n > 0 {
      assert seq(n, _ => WantLock)[..n - 1] == seq(n - 1, _ => WantLock);
      WantLockWeight(n - 1);
    }
  }

  lemma MeasureAt(threads: nat, run: seq<State>, steps: seq<Step>, k: nat)
    requires IsRun(threads, run, steps) && k < |steps|
    ensures Measure(run[k + 1]) + 1 <= Measure(run[k]) + Credit(steps[k])
  {
    InvAlways(threads, run, steps, k);
    MeasureStep(run[k], steps[k]);
  }

  lemma {:induction false} CreditsAddUp(measures: seq<int>, steps: seq<Step>, k: nat)
    requires k < |measures| == |steps| + 1
    requires forall i :: 0 <= i < |steps| ==> measures[i + 1] + 1 <= measures[i] + Credit(steps[i])
    ensures k + measures[k] <= measures[0] + Sum(steps[..k], Credit)
  {
    if k > 0 {
      CreditsAddUp(measures, steps, k - 1);
      assert steps[..k][..k - 1] == steps[..k - 1];
    }
  }

  /** Before and after `stop`: the number of steps of all threads together is bounded
      by the number of workers, of `enqueue` calls and of spurious wakeups. */
  lemma RunsAreBounded(threads: nat, run: seq<State>, steps: seq<Step>)
    requires IsRun(threads, run, steps)
    ensures |steps| <= 7 * threads + 5 + Sum(steps, Credit)
  {
    var measures := seq(|run|, k requires 0 <= k < |run| => Measure(run[k]));
    forall i | 0 <= i < |steps|
      ensures measures[i + 1] + 1 <= measures[i] + Credit(steps[i])
    {
      MeasureAt(threads, run, steps, i);
    }
    CreditsAddUp(measures, steps, |steps|);
    MeasureInit(threads);
    InvAlways(threads, run, steps, |steps|);
    assert steps[..|steps|] == steps;
  }

  /** No thread of the pool, no caller and not the destructor can move. */
  ghost predicate Stuck(s: State) {
    forall step :: Enabled(s, step) ==> IsExternal(step)
  }

  /** The only states in which nothing can move are the good ones: every call has
      returned, and either the pool is idle, all workers asleep and the destructor not
      called, or the destructor has returned and all workers have exited. With at
      least one worker, the queue is empty and every accepted task has run once. */
  lemma StuckMeansDone(threads: nat, run: seq<State>, steps: seq<Step>, k: nat)
    requires IsRun(threads, run, steps) && k < |run|
    requires Stuck(run[k])
    ensures forall c :: c in run[k].calls ==> c == Returned || c == Rejected
    ensures run[k].dtor == Idle || run[k].dtor == Destroyed
    ensures forall w :: w in run[k].workers ==> w == if run[k].dtor == Idle then Asleep else Exited
    ensures threads > 0 ==> run[k].tasks == []
    ensures threads > 0 ==> forall t: nat ::
                multiset(run[k].completed)[t] == if t < |run[k].calls| && run[k].calls[t] == Returned then 1 else 0
  {
    InvAlways(threads, run, steps, k);
    var s := run[k];
    if s.lock.Some? { LockHolderCanMove(s); }
    StuckWorkers(s);
    StuckCalls(s);
    StuckDtor(s);
    if threads > 0 {
      StuckQueue(s);
      forall t: nat
        ensures multiset(s.completed)[t] == if t < |s.calls| && s.calls[t] == Returned then 1 else 0
      {
        EachTaskOnce(s, t);
        SumZero(s.workers, Carries(t));
        assert t < |s.calls| ==> s.calls[t] in s.calls;
      }
    }
  }

  /** Whoever holds the mutex can take its next step. */
  lemma LockHolderCanMove(s: State)
    requires Inv(s) && s.lock.Some?
    ensures exists step :: Enabled(s, step) && !IsExternal(step)
  {
    match s.lock.value {
      case Worker(i) => assert Enabled(s, WorkerTest(i)) || Enabled(s, WorkerTake(i));
      case Caller(c) => assert Enabled(s, CallTest(c)) || Enabled(s, CallPush(c));
      case Destroyer => assert Enabled(s, DtorStop) || Enabled(s, DtorUnlock);
    }
  }

  lemma StuckWorkers(s: State)
    requires Inv(s) && Stuck(s) && s.lock == None
    ensures forall w :: w in s.workers ==> w == Asleep || w == Exited
  {
    forall i | 0 <= i < |s.workers|
      ensures s.workers[i] == Asleep || s.workers[i] == Exited
    {
      assert !Enabled(s, WorkerLock(i)) && !Enabled(s, WorkerFinish(i));
    }
  }

  lemma StuckCalls(s: State)
    requires Inv(s) && Stuck(s) && s.lock == None
    ensures forall c :: c in s.calls ==> c == Returned || c == Rejected
  {
    forall c | 0 <= c < |s.calls|
      ensures s.calls[c] == Returned || s.calls[c] == Rejected
    {
      assert !Enabled(s, CallLock(c));
      if s.calls[c] == Notifying {
        if AnyAsleep(s) {
          var i :| 0 <= i < |s.workers| && s.workers[i] == Asleep;
          assert Enabled(s, CallNotify(c, Some(i)));
        } else {
          assert Enabled(s, CallNotify(c, None));
        }
      }
    }
  }

  lemma StuckDtor(s: State)
    requires Inv(s) && Stuck(s) && s.lock == None
    requires forall w :: w in s.workers ==> w == Asleep || w == Exited
    ensures s.dtor == Idle || s.dtor == Destroyed
    ensures forall w :: w in s.workers ==> w == if s.dtor == Idle then Asleep else Exited
  {
    assert !Enabled(s, DtorNotifyAll) && !Enabled(s, DtorJoin);
    assert forall i :: 0 <= i < |s.workers| ==> s.workers[i] in s.workers;
  }

  lemma StuckQueue(s: State)
    requires Inv(s) && s.workers != []
    requires forall c :: c in s.calls ==> c == Returned || c == Rejected
    requires s.dtor == Idle || s.dtor == Destroyed
    requires forall w :: w in s.workers ==> w == if s.dtor == Idle then Asleep else Exited
    ensures s.tasks == []
  {
    assert s.workers[0] in s.workers;
    SumZero(s.workers, HeadingOne);
    SumZero(s.calls, PendingOne);
  }

  // ---------- shutdown ends whatever the callers do ----------

  /** Once `stop` is set a sleeper can only wake. */
  function ClosingWeight(w: WorkerPhase): nat {
    if w == Asleep then 4 else WorkerWeight(w)
  }

  /** What workers and destructor have left to do once `stop` is set; no call counts. */
  function ClosingMeasure(s: State): int {
    Sum(s.workers, ClosingWeight) + 4 * |s.tasks| + DtorSteps(s)
  }

  /** One for a step of a worker or of the destructor. */
  function PoolOne(step: Step): nat {
    if IsCallStep(step) then 0 else 1
  }

  lemma ClosingWorkerStep(s: State, step: Step)
    requires Inv(s) && s.stop && Enabled(s, step) && IsWorkerStep(step)
    ensures ClosingMeasure(Apply(s, step)) + 1 <= ClosingMeasure(s)
  {
    var s' := Apply(s, step);
    SumUpdate(s.workers, step.i, s'.workers[step.i], ClosingWeight);
    assert s.workers[step.i] in s.workers;
    assert s'.workers == s.workers[step.i := s'.workers[step.i]];
  }

  lemma ClosingCallStep(s: State, step: Step)
    requires Inv(s) && s.stop && Enabled(s, step) && IsCallStep(step)
    ensures ClosingMeasure(Apply(s, step)) <= ClosingMeasure(s)
  {
    assert Pushing !in s.calls;
    if step.CallNotify? && step.woken.Some? {
      SumUpdate(s.workers, step.woken.value, WantLock, ClosingWeight);
    }
  }

  /** Once `stop` is set every step of a worker, a spurious wakeup included, and of the
      destructor uses up work, and no step of a call brings any. */
  lemma ClosingMeasureStep(s: State, step: Step)
    requires Inv(s) && s.stop && Enabled(s, step)
    ensures ClosingMeasure(Apply(s, step)) + PoolOne(step) <= ClosingMeasure(s)
  {
    if IsWorkerStep(step) {
      ClosingWorkerStep(s, step);
    } else if IsCallStep(step) {
      ClosingCallStep(s, step);
    } else if step.DtorNotifyAll? {
      SumWoken(s.workers, ClosingWeight, 0);
    }
  }

  lemma ClosingMeasureAt(threads: nat, run: seq<State>, steps: seq<Step>, j: nat, k: nat)
    requires IsRun(threads, run, steps) && j <= k < |steps| && run[j].stop
    ensures ClosingMeasure(run[k + 1]) + PoolOne(steps[k]) <= ClosingMeasure(run[k])
  {
    StopIsFinal(threads, run, steps, j, k);
    InvAlways(threads, run, steps, k);
    ClosingMeasureStep(run[k], steps[k]);
  }

  lemma LastMove(steps: seq<Step>, j: nat, k: nat)
    requires j <= k < |steps|
    ensures Sum(steps[j..k + 1], PoolOne) == Sum(steps[j..k], PoolOne) + PoolOne(steps[k])
  {
    assert steps[j..k + 1][..k - j] == steps[j..k];
  }

  lemma {:induction false} MovesUseUp(measures: seq<int>, steps: seq<Step>, j: nat, k: nat)
    requires j <= k < |measures| == |steps| + 1
    requires forall i :: j <= i < |steps| ==> measures[i + 1] + PoolOne(steps[i]) <= measures[i]
    ensures Sum(steps[j..k], PoolOne) + measures[k] <= measures[j]
  {
    if j < k {
      MovesUseUp(measures, steps, j, k - 1);
      LastMove(steps, j, k - 1);
    }
  }

  lemma ClosingRun(threads: nat, run: seq<State>, steps: seq<Step>, j: nat)
    requires IsRun(threads, run, steps) && j < |run| && run[j].stop
    ensures Sum(steps[j..], PoolOne) + ClosingMeasure(run[|steps|]) <= ClosingMeasure(run[j])
  {
    var measures := seq(|run|, k requires 0 <= k < |run| => ClosingMeasure(run[k]));
    forall i | j <= i < |steps|
      ensures measures[i + 1] + PoolOne(steps[i]) <= measures[i]
    {
      ClosingMeasureAt(threads, run, steps, j, i);
    }
    MovesUseUp(measures, steps, j, |steps|);
    assert steps[j..|steps|] == steps[j..];
  }

  lemma {:induction false} ClosingWeightBound(ws: seq<WorkerPhase>)
    ensures Sum(ws, ClosingWeight) <= 4 * |ws|
  {
    if ws != [] {
      ClosingWeightBound(ws[..|ws| - 1]);
    }
  }

  /** From any state with `stop` on, however many calls arrive and however they are
      interleaved, the workers and the destructor together take no more steps than the
      queue and the number of workers allow. */
  lemma ShutdownIsBounded(threads: nat, run: seq<State>, steps: seq<Step>, j: nat)
    requires IsRun(threads, run, steps) && j < |run| && run[j].stop
    ensures Sum(steps[j..], PoolOne) <= ClosingMeasure(run[j]) <= 5 * threads + 4 * |run[j].tasks| + 3
  {
    ClosingRun(threads, run, steps, j);
    InvAlways(threads, run, steps, j);
    InvAlways(threads, run, steps, |steps|);
    ClosingWeightBound(run[j].workers);
  }

  /** A step of a worker or of the destructor that is its own doing. */
  ghost predicate PoolCanMove(s: State) {
    exists step :: Enabled(s, step) && !IsCallStep(step) && !step.SpuriousWake?
  }

  lemma FreeMutexLetsPoolMove(s: State)
    requires Inv(s) && s.stop && s.dtor != Destroyed && s.lock == None
    ensures PoolCanMove(s)
  {
    if s.dtor == Unlocked {
      assert Enabled(s, DtorNotifyAll);
    } else if s.dtor.joined == |s.workers| || s.workers[s.dtor.joined] == Exited {
      assert Enabled(s, DtorJoin);
    } else {
      var i := s.dtor.joined;
      assert s.workers[i] in s.workers;
      assert Enabled(s, WorkerLock(i)) || Enabled(s, WorkerFinish(i));
    }
  }

  /** Until the destructor has returned, a worker or the destructor can move; only a
      caller that holds the mutex may have to make one step first, which it can, and
      which frees the mutex. */
  lemma ShutdownProgress(s: State)
    requires Inv(s) && s.stop && s.dtor != Destroyed
    ensures PoolCanMove(s)
            || exists c: nat :: s.lock == Some(Caller(c)) && Enabled(s, CallTest(c))
                                && Apply(s, CallTest(c)).lock == None && PoolCanMove(Apply(s, CallTest(c)))
  {
    if s.lock == None {
      FreeMutexLetsPoolMove(s);
    } else {
      match s.lock.value {
        case Worker(i) => assert Enabled(s, WorkerTest(i)) || Enabled(s, WorkerTake(i));
        case Destroyer => assert Enabled(s, DtorUnlock);
        case Caller(c) =>
          assert s.calls[c] in s.calls && Enabled(s, CallTest(c));
          InvStep(s, CallTest(c));
          FreeMutexLetsPoolMove(Apply(s, CallTest(c)));
      }
    }
  }

  /** From step j on, of any w steps one is a step of a worker or of the destructor,
      until the destructor has returned. `ShutdownProgress` says that it can be. */
  ghost predicate LetsPoolMove(run: seq<State>, steps: seq<Step>, j: nat, w: nat)
    requires |run| == |steps| + 1
  {
    forall k :: j <= k <= |steps| - w && run[k].dtor != Destroyed ==> MovesWithin(steps, k, k + w)
  }

  ghost predicate MovesWithin(steps: seq<Step>, k: nat, n: nat)
    requires n <= |steps|
  {
    exists m :: k <= m < n && !IsCallStep(steps[m])
  }

  lemma {:induction false} MovesAddUp(steps: seq<Step>, j: nat, k: nat, n: nat)
    requires j <= k <= n <= |steps|
    ensures Sum(steps[j..k], PoolOne) + (if MovesWithin(steps, k, n) then 1 else 0) <= Sum(steps[j..n], PoolOne)
  {
    if k < n {
      MovesAddUp(steps, j, k, n - 1);
      LastMove(steps, j, n - 1);
    }
  }

  lemma {:induction false} MovesSoFar(run: seq<State>, steps: seq<Step>, j: nat, w: nat, m: nat)
    requires |run| == |steps| + 1 && j + w * m <= |steps| && LetsPoolMove(run, steps, j, w)
    requires forall k :: j <= k <= |steps| ==> run[k].dtor != Destroyed
    ensures m <= Sum(steps[j..j + w * m], PoolOne)
  {
    if m > 0 {
      var k, n := j + w * (m - 1), j + w * m;
      assert n == k + w && w * (m - 1) >= 0;
      MovesSoFar(run, steps, j, w, m - 1);
      assert run[k].dtor != Destroyed;
      assert MovesWithin(steps, k, k + w);
      MovesAddUp(steps, j, k, n);
    }
  }

  lemma ManyMoves(run: seq<State>, steps: seq<Step>, j: nat, w: nat, m: nat)
    requires |run| == |steps| + 1 && j + w * m <= |steps| && LetsPoolMove(run, steps, j, w)
    ensures m <= Sum(steps[j..], PoolOne) || exists k :: j <= k < |run| && run[k].dtor == Destroyed
  {
    if forall k :: j <= k <= |steps| ==> run[k].dtor != Destroyed {
      var n := j + w * m;
      assert w * m >= 0;
      MovesSoFar(run, steps, j, w, m);
      MovesAddUp(steps, j, n, |steps|);
      assert steps[j..|steps|] == steps[j..];
    }
  }

  /** Every join returns: if the pool's threads are not starved, the destructor comes to
      its end within a number of steps that the queue and the workers determine, no
      matter how many calls arrive meanwhile. */
  lemma DestructorReturns(threads: nat, run: seq<State>, steps: seq<Step>, j: nat, w: nat)
    requires IsRun(threads, run, steps) && j < |run| && run[j].stop
    requires LetsPoolMove(run, steps, j, w)
    requires j + w * (5 * threads + 4 * |run[j].tasks| + 4) <= |steps|
    ensures exists k :: j <= k < |run| && run[k].dtor == Destroyed
  {
    ManyMoves(run, steps, j, w, 5 * threads + 4 * |run[j].tasks| + 4);
    ShutdownIsBounded(threads, run, steps, j);
  }
}
