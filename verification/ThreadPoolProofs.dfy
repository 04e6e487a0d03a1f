/** What every run of the thread pool keeps, and what it ends in. */
module ThreadPoolProofs {
  import opened ThreadPoolModel
  import opened Sequences

  // ---------- vocabulary ----------

  predicate WorkerInside(w: WorkerPhase) { w == Checking || w == Passed }

  predicate CallInside(c: CallPhase) { c == Testing || c == Pushing }

  predicate DtorInside(d: DtorPhase) { d == Locked || d == StopSet }

  predicate WasAccepted(c: CallPhase) { c == Notifying || c == Returned }

  /** One for a worker that is awake and will evaluate the predicate, or just did. */
  function HeadingOne(w: WorkerPhase): nat {
    if w == WantLock || WorkerInside(w) then 1 else 0
  }

  /** One for a pushed task whose `notify_one` has not been called yet. */
  function PendingOne(c: CallPhase): nat {
    if c == Notifying then 1 else 0
  }

  function Heading(s: State): nat { Sum(s.workers, HeadingOne) }

  function Pending(s: State): nat { Sum(s.calls, PendingOne) }

  /** One for a worker that is running task t. */
  function Carries(t: nat): WorkerPhase -> nat {
    w => if w == Running(t) then 1 else 0
  }

  /** The number of workers that are running task t. */
  function RunningCount(ws: seq<WorkerPhase>, t: nat): nat {
    Sum(ws, Carries(t))
  }

  // ---------- the invariant ----------

  /** The mutex is held by exactly the thread that is inside a critical section. */
  ghost predicate HolderInv(s: State) {
    && (forall i :: 0 <= i < |s.workers| ==> (WorkerInside(s.workers[i]) <==> s.lock == Some(Worker(i))))
    && (forall c :: 0 <= c < |s.calls| ==> (CallInside(s.calls[c]) <==> s.lock == Some(Caller(c))))
    && (DtorInside(s.dtor) <==> s.lock == Some(Destroyer))
    && (s.lock.Some? && s.lock.value.Worker? ==> s.lock.value.i < |s.workers|)
    && (s.lock.Some? && s.lock.value.Caller? ==> s.lock.value.c < |s.calls|)
  }

  /** What a thread inside has read is still true. */
  ghost predicate ReadInv(s: State) {
    && (Passed in s.workers ==> s.stop || s.tasks != [])
    && (Pushing in s.calls ==> !s.stop)
    && (s.stop <==> s.dtor != Idle && s.dtor != Locked)
    && !s.fault
  }

  ghost predicate LockInv(s: State) {
    HolderInv(s) && ReadInv(s)
  }

  /** Tasks leave the queue in the order they entered it; they entered it once each,
      and exactly those whose call got past the test of `stop`. */
  ghost predicate QueueInv(s: State) {
    && s.dispatched + s.tasks == s.accepted
    && Distinct(s.accepted)
    && (forall t: nat :: t in s.accepted <==> t < |s.calls| && WasAccepted(s.calls[t]))
    && (s.workers == [] ==> s.dispatched == [])
  }

  /** Every dispatched task is being run by one worker or has been run. */
  ghost predicate WorkInv(s: State) {
    forall t: nat :: multiset(s.completed)[t] + RunningCount(s.workers, t) == multiset(s.dispatched)[t]
  }

  /** A sleeping worker never has more queued tasks in front of it than wakeups on
      their way and workers about to look at the queue. */
  ghost predicate WakeInv(s: State) {
    AnyAsleep(s) ==> |s.tasks| <= Pending(s) + Heading(s)
  }

  ghost predicate ShutdownInv(s: State) {
    && (s.dtor.Joining? || s.dtor == Destroyed ==> !AnyAsleep(s))
    && (s.dtor.Joining? ==> s.dtor.joined <= |s.workers|
                            && forall i :: 0 <= i < s.dtor.joined ==> s.workers[i] == Exited)
    && (s.dtor == Destroyed ==> forall i :: 0 <= i < |s.workers| ==> s.workers[i] == Exited)
    && (Exited in s.workers ==> s.stop && s.tasks == [])
  }

  ghost predicate Inv(s: State) {
    LockInv(s) && QueueInv(s) && WorkInv(s) && WakeInv(s) && ShutdownInv(s)
  }

  predicate IsWorkerStep(step: Step) {
    step.WorkerLock? || step.WorkerTest? || step.WorkerTake? || step.WorkerFinish? || step.SpuriousWake?
  }

  predicate IsCallStep(step: Step) {
    step.CallBegin? || step.CallLock? || step.CallTest? || step.CallPush? || step.CallNotify?
  }

  lemma HolderInvStep(s: State, step: Step)
    requires HolderInv(s) && ReadInv(s) && Enabled(s, step)
    ensures HolderInv(Apply(s, step))
  {
    if IsWorkerStep(step) {
      HolderInvWorkerStep(s, step);
    } else if IsCallStep(step) {
      HolderInvCallStep(s, step);
    }
  }

  lemma HolderInvWorkerStep(s: State, step: Step)
    requires HolderInv(s) && ReadInv(s) && Enabled(s, step) && IsWorkerStep(step)
    ensures HolderInv(Apply(s, step))
  {
    if step.WorkerTake? { assert s.workers[step.i] == Passed; }
  }

  lemma HolderInvCallStep(s: State, step: Step)
    requires HolderInv(s) && Enabled(s, step) && IsCallStep(step)
    ensures HolderInv(Apply(s, step))
  {
  }

  lemma ReadInvStep(s: State, step: Step)
    requires HolderInv(s) && ReadInv(s) && Enabled(s, step)
    ensures ReadInv(Apply(s, step))
  {
    var s' := Apply(s, step);
    if Passed in s'.workers {
      var i :| 0 <= i < |s'.workers| && s'.workers[i] == Passed;
      if s.workers[i] == Passed { assert Passed in s.workers; }
    }
    if Pushing in s'.calls {
      var c :| 0 <= c < |s'.calls| && s'.calls[c] == Pushing;
      if c < |s.calls| && s.calls[c] == Pushing { assert Pushing in s.calls; }
    }
    if step.WorkerTake? { assert s.workers[step.i] == Passed; }
  }

  lemma LockInvStep(s: State, step: Step)
    requires LockInv(s) && Enabled(s, step)
    ensures LockInv(Apply(s, step))
  {
    HolderInvStep(s, step);
    ReadInvStep(s, step);
  }

  lemma QueueInvTake(s: State, i: nat)
    requires QueueInv(s) && Enabled(s, WorkerTake(i))
    ensures QueueInv(Apply(s, WorkerTake(i)))
  {
    if s.tasks != [] {
      assert s.tasks == [s.tasks[0]] + s.tasks[1..];
    }
  }

  lemma QueueInvPush(s: State, c: nat)
    requires QueueInv(s) && Enabled(s, CallPush(c))
    ensures QueueInv(Apply(s, CallPush(c)))
  {
    assert c !in s.accepted;
    assert s.dispatched + (s.tasks + [c]) == s.accepted + [c];
  }

  lemma QueueInvStep(s: State, step: Step)
    requires QueueInv(s) && Enabled(s, step)
    ensures QueueInv(Apply(s, step))
  {
    if step.WorkerTake? {
      QueueInvTake(s, step.i);
    } else if step.CallPush? {
      QueueInvPush(s, step.c);
    }
  }

  lemma WorkInvWorkerStep(s: State, step: Step)
    requires ReadInv(s) && WorkInv(s) && Enabled(s, step) && IsWorkerStep(step)
    ensures WorkInv(Apply(s, step))
  {
    var s' := Apply(s, step);
    forall t: nat
      ensures multiset(s'.completed)[t] + RunningCount(s'.workers, t) == multiset(s'.dispatched)[t]
    {
      SumUpdate(s.workers, step.i, s'.workers[step.i], Carries(t));
      assert s.workers[step.i] in s.workers;
    }
  }

  lemma WorkInvOtherStep(s: State, step: Step)
    requires WorkInv(s) && Enabled(s, step) && !IsWorkerStep(step)
    ensures WorkInv(Apply(s, step))
  {
    var s' := Apply(s, step);
    forall t: nat
      ensures multiset(s'.completed)[t] + RunningCount(s'.workers, t) == multiset(s'.dispatched)[t]
    {
      if step.CallNotify? && step.woken.Some? {
        SumUpdate(s.workers, step.woken.value, WantLock, Carries(t));
      } else if step.DtorNotifyAll? {
        SumWoken(s.workers, Carries(t), 0);
      }
    }
  }

  lemma WorkInvStep(s: State, step: Step)
    requires ReadInv(s) && WorkInv(s) && Enabled(s, step)
    ensures WorkInv(Apply(s, step))
  {
    if IsWorkerStep(step) {
      WorkInvWorkerStep(s, step);
    } else {
      WorkInvOtherStep(s, step);
    }
  }

  lemma WakeInvWorkerStep(s: State, step: Step)
    requires LockInv(s) && WakeInv(s) && Enabled(s, step) && IsWorkerStep(step)
    ensures WakeInv(Apply(s, step))
  {
    var s' := Apply(s, step);
    if AnyAsleep(s') {
      var k :| 0 <= k < |s'.workers| && s'.workers[k] == Asleep;
      SumUpdate(s.workers, step.i, s'.workers[step.i], HeadingOne);
      if s.workers[k] == Asleep { assert AnyAsleep(s); }
      if step.WorkerTake? { assert s.workers[step.i] == Passed; }
    }
  }

  lemma WakeInvCallStep(s: State, step: Step)
    requires WakeInv(s) && Enabled(s, step) && IsCallStep(step)
    ensures WakeInv(Apply(s, step))
  {
    var s' := Apply(s, step);
    if AnyAsleep(s') {
      var k :| 0 <= k < |s'.workers| && s'.workers[k] == Asleep;
      assert s.workers[k] == Asleep;
      if step.CallBegin? {
        SumPush(s.calls, Blocked, PendingOne);
      } else {
        SumUpdate(s.calls, step.c, s'.calls[step.c], PendingOne);
        if step.CallNotify? && step.woken.Some? {
          SumUpdate(s.workers, step.woken.value, WantLock, HeadingOne);
        }
      }
    }
  }

  lemma WakeInvStep(s: State, step: Step)
    requires LockInv(s) && WakeInv(s) && Enabled(s, step)
    ensures WakeInv(Apply(s, step))
  {
    if IsWorkerStep(step) {
      WakeInvWorkerStep(s, step);
    } else if IsCallStep(step) {
      WakeInvCallStep(s, step);
    }
  }

  lemma ShutdownInvWorkerStep(s: State, step: Step)
    requires LockInv(s) && ShutdownInv(s) && Enabled(s, step) && IsWorkerStep(step)
    ensures ShutdownInv(Apply(s, step))
  {
    var s' := Apply(s, step);
    if Exited in s'.workers {
      var i :| 0 <= i < |s'.workers| && s'.workers[i] == Exited;
      if s.workers[i] == Exited { assert Exited in s.workers; }
    }
    if AnyAsleep(s') {
      var i :| 0 <= i < |s'.workers| && s'.workers[i] == Asleep;
      if s.workers[i] == Asleep { assert AnyAsleep(s); }
    }
  }

  lemma ShutdownInvCallStep(s: State, step: Step)
    requires LockInv(s) && ShutdownInv(s) && Enabled(s, step) && IsCallStep(step)
    ensures ShutdownInv(Apply(s, step))
  {
    if step.CallPush? { assert Pushing in s.calls; }
    if step.CallNotify? && step.woken.Some? { assert AnyAsleep(s); }
    var s' := Apply(s, step);
    if Exited in s'.workers {
      var i :| 0 <= i < |s'.workers| && s'.workers[i] == Exited;
      assert s.workers[i] == Exited;
    }
  }

  lemma ShutdownInvStep(s: State, step: Step)
    requires LockInv(s) && ShutdownInv(s) && Enabled(s, step)
    ensures ShutdownInv(Apply(s, step))
  {
    if IsWorkerStep(step) {
      ShutdownInvWorkerStep(s, step);
    } else if IsCallStep(step) {
      ShutdownInvCallStep(s, step);
    } else if step.DtorNotifyAll? {
      var ws := Apply(s, step).workers;
      if Exited in ws {
        var i :| 0 <= i < |ws| && ws[i] == Exited;
        assert s.workers[i] == Exited;
      }
    }
  }

  lemma InvInit(threads: nat)
    ensures Inv(Init(threads))
  {
    var s := Init(threads);
    assert forall w :: w in s.workers ==> w == WantLock;
    forall t: nat ensures RunningCount(s.workers, t) == 0 {
      SumZero(s.workers, Carries(t));
    }
  }

  lemma InvStep(s: State, step: Step)
    requires Inv(s) && Enabled(s, step)
    ensures Inv(Apply(s, step))
  {
    LockInvStep(s, step);
    QueueInvStep(s, step);
    WorkInvStep(s, step);
    WakeInvStep(s, step);
    ShutdownInvStep(s, step);
  }

  lemma WorkersStay(s: State, step: Step)
    requires Enabled(s, step)
    ensures |Apply(s, step).workers| == |s.workers|
  {
  }

  /** The invariant holds in every state of every run; the number of workers is the
      constructor's argument throughout. */
  lemma {:induction false} InvAlways(threads: nat, run: seq<State>, steps: seq<Step>, k: nat)
    requires IsRun(threads, run, steps) && k < |run|
    ensures Inv(run[k]) && |run[k].workers| == threads
  {
    if k == 0 {
      InvInit(threads);
    } else {
      InvAlways(threads, run, steps, k - 1);
      InvStep(run[k - 1], steps[k - 1]);
      WorkersStay(run[k - 1], steps[k - 1]);
    }
  }
}
