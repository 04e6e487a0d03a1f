/** The class of include/ThreadPool.hpp. Each method is one atomic action of one
    thread, written on the class's own fields, and is proved to be the step of the
    transition system of the same name; interleaving is the caller's choice of the
    order of calls. `Valid` is the invariant of all runs, so `front()` and `pop()` in
    `Take` need no test of their own. The further postconditions say what the thread
    that made the step may rely on after it. */
module ThreadPoolClass {
  import opened ThreadPoolModel
  import opened ThreadPoolProofs
  import opened ThreadPoolTheorems
  import opened Sequences

  class ThreadPool {
    var workers: seq<WorkerPhase>   // m_workers, each with its place in the loop
    var tasks: seq<nat>             // m_tasks
    var mutex: Option<Thread>       // m_queue_mutex
    var stop: bool
    var calls: seq<CallPhase>       // the enqueue calls so far
    var dtor: DtorPhase
    const MAX_THREAD_COUNT: nat := 10
    ghost var accepted: seq<nat>
    ghost var dispatched: seq<nat>
    ghost var completed: seq<nat>

    ghost function View(): State
      reads this
    {
      State(workers, calls, dtor, mutex, tasks, stop, false, accepted, dispatched, completed)
    }

    ghost predicate Valid()
      reads this
    {
      Inv(View())
    }

    /** Lines 22-49. `pools` is read once and never advanced, so the cap is without
        effect and the pool has as many workers as were asked for. */
    constructor (threads: nat)
      ensures Valid() && View() == Init(threads)
      ensures |workers| == threads
    {
      workers, tasks, mutex, stop, calls, dtor := [], [], None, false, [], Idle;
      accepted, dispatched, completed := [], [], [];
      new;
      var pools := |workers|;
      var remaining := threads;
      while pools < MAX_THREAD_COUNT && remaining > 0
        invariant pools == 0 && 0 <= remaining <= threads
        invariant workers == seq(threads - remaining, _ => WantLock)
        invariant View().(workers := []) == Init(0).(workers := [])
        decreases remaining
      {
        workers := workers + [WantLock];
        remaining := remaining - 1;
      }
      InvInit(threads);
    }

    method Lock(i: nat)
      requires Valid() && Enabled(View(), WorkerLock(i))
      modifies this
      ensures Valid() && View() == Apply(old(View()), WorkerLock(i))
      ensures forall t :: Inside(View(), t) <==> t == Worker(i)
    {
      InvStep(View(), WorkerLock(i));
      mutex := Some(Worker(i));
      workers := workers[i := Checking];
      HolderIsInside(View());
    }

    /** One evaluation of the predicate inside `wait`, lines 35-37. */
    method Wait(i: nat)
      requires Valid() && Enabled(View(), WorkerTest(i))
      modifies this
      ensures Valid() && View() == Apply(old(View()), WorkerTest(i))
      ensures if stop || tasks != [] then Inside(View(), Worker(i))
              else workers[i] == Asleep && forall t :: !Inside(View(), t)
    {
      ghost var before := View();
      InvStep(before, WorkerTest(i));
      if stop || |tasks| != 0 {
        workers := workers[i := Passed];
      } else {
        workers := workers[i := Asleep];
        mutex := None;
      }
      assert View() == Apply(before, WorkerTest(i));
      HolderIsInside(View());
    }

    /** Lines 39-44. */
    method Take(i: nat)
      requires Valid() && Enabled(View(), WorkerTake(i))
      modifies this
      ensures Valid() && View() == Apply(old(View()), WorkerTake(i))
      ensures if workers[i].Running? then old(tasks) == [workers[i].task] + tasks && IsRunOnce(View(), workers[i].task)
              else workers[i] == Exited && stop && tasks == []
      ensures forall t :: !Inside(View(), t)
    {
      ghost var before := View();
      InvStep(before, WorkerTake(i));
      if stop && |tasks| == 0 {
        workers := workers[i := Exited];
      } else {
        assert workers[i] == Passed;
        var task := tasks[0];
        tasks := tasks[1..];
        assert before.tasks == [task] + tasks;
        workers := workers[i := Running(task)];
        dispatched := dispatched + [task];
      }
      mutex := None;
      assert View() == Apply(before, WorkerTake(i));
      HolderIsInside(View());
      assert workers[i] in workers;
      if workers[i].Running? {
        RunningIsRunOnce(View(), i);
      }
    }

    /** The task returns and the worker goes round its loop, lines 45-46. */
    method Finish(i: nat)
      requires Valid() && Enabled(View(), WorkerFinish(i))
      modifies this
      ensures Valid() && View() == Apply(old(View()), WorkerFinish(i))
      ensures multiset(completed)[old(workers[i].task)] == 1
    {
      InvStep(View(), WorkerFinish(i));
      completed := completed + [workers[i].task];
      workers := workers[i := WantLock];
      EachTaskOnce(View(), old(workers[i].task));
    }

    method WakeSpuriously(i: nat)
      requires Valid() && Enabled(View(), SpuriousWake(i))
      modifies this
      ensures Valid() && View() == Apply(old(View()), SpuriousWake(i))
    {
      InvStep(View(), SpuriousWake(i));
      workers := workers[i := WantLock];
    }

    method EnqueueBegin() returns (c: nat)
      requires Valid()
      modifies this
      ensures Valid() && View() == Apply(old(View()), CallBegin) && c == |old(calls)|
      ensures c !in accepted
    {
      InvStep(View(), CallBegin);
      c := |calls|;
      calls := calls + [Blocked];
    }

    method EnqueueLock(c: nat)
      requires Valid() && Enabled(View(), CallLock(c))
      modifies this
      ensures Valid() && View() == Apply(old(View()), CallLock(c))
      ensures forall t :: Inside(View(), t) <==> t == Caller(c)
    {
      InvStep(View(), CallLock(c));
      mutex := Some(Caller(c));
      calls := calls[c := Testing];
      HolderIsInside(View());
    }

    /** Lines 65-67; the exception releases the lock. */
    method EnqueueTest(c: nat)
      requires Valid() && Enabled(View(), CallTest(c))
      modifies this
      ensures Valid() && View() == Apply(old(View()), CallTest(c))
      ensures if stop then calls[c] == Rejected && forall t :: !Inside(View(), t) else Inside(View(), Caller(c))
      ensures c !in accepted
    {
      InvStep(View(), CallTest(c));
      if stop {
        calls := calls[c := Rejected];
        mutex := None;
      } else {
        calls := calls[c := Pushing];
      }
      HolderIsInside(View());
    }

    /** Lines 69-72. */
    method EnqueuePush(c: nat)
      requires Valid() && Enabled(View(), CallPush(c))
      modifies this
      ensures Valid() && View() == Apply(old(View()), CallPush(c))
      ensures tasks == old(tasks) + [c] && accepted == old(accepted) + [c]
      ensures multiset(accepted)[c] == 1 && !stop
      ensures forall t :: !Inside(View(), t)
    {
      ghost var before := View();
      InvStep(before, CallPush(c));
      tasks := tasks + [c];
      accepted := accepted + [c];
      calls := calls[c := Notifying];
      mutex := None;
      assert View() == Apply(before, CallPush(c));
      HolderIsInside(View());
      DistinctCount(accepted, c);
    }

    /** Line 73: wakes one sleeper if there is one. */
    method EnqueueNotify(c: nat, woken: Option<nat>)
      requires Valid() && Enabled(View(), CallNotify(c, woken))
      modifies this
      ensures Valid() && View() == Apply(old(View()), CallNotify(c, woken))
      ensures c in accepted
      ensures AnyAsleep(View()) ==> |tasks| <= Pending(View()) + Heading(View())
    {
      ghost var before := View();
      InvStep(before, CallNotify(c, woken));
      if woken.Some? {
        workers := workers[woken.value := WantLock];
      }
      calls := calls[c := Returned];
      assert View() == Apply(before, CallNotify(c, woken));
    }

    method DestructorLock()
      requires Valid() && Enabled(View(), DtorLock)
      modifies this
      ensures Valid() && View() == Apply(old(View()), DtorLock)
      ensures forall t :: Inside(View(), t) <==> t == Destroyer
    {
      InvStep(View(), DtorLock);
      mutex := Some(Destroyer);
      dtor := Locked;
      HolderIsInside(View());
    }

    method DestructorStop()
      requires Valid() && Enabled(View(), DtorStop)
      modifies this
      ensures Valid() && View() == Apply(old(View()), DtorStop)
      ensures Pushing !in calls
    {
      InvStep(View(), DtorStop);
      stop := true;
      dtor := StopSet;
    }

    method DestructorUnlock()
      requires Valid() && Enabled(View(), DtorUnlock)
      modifies this
      ensures Valid() && View() == Apply(old(View()), DtorUnlock)
      ensures stop && forall t :: !Inside(View(), t)
    {
      InvStep(View(), DtorUnlock);
      mutex := None;
      dtor := Unlocked;
      HolderIsInside(View());
    }

    method DestructorNotifyAll()
      requires Valid() && Enabled(View(), DtorNotifyAll)
      modifies this
      ensures Valid() && View() == Apply(old(View()), DtorNotifyAll)
      ensures !AnyAsleep(View())
    {
      InvStep(View(), DtorNotifyAll);
      workers := Woken(workers);
      dtor := Joining(0);
    }

    /** One `join` that returns, or the end of the loop of lines 84-86. */
    method DestructorJoin()
      requires Valid() && Enabled(View(), DtorJoin)
      modifies this
      ensures Valid() && View() == Apply(old(View()), DtorJoin)
      ensures dtor == Destroyed && workers != [] ==> tasks == [] && multiset(completed) == multiset(accepted)
    {
      ghost var before := View();
      InvStep(before, DtorJoin);
      if dtor.joined < |workers| {
        dtor := Joining(dtor.joined + 1);
      } else {
        dtor := Destroyed;
      }
      assert View() == Apply(before, DtorJoin);
      if dtor == Destroyed {
        AllExited(View());
      }
    }
  }

  /** Task t was accepted, one worker runs it, and it is neither queued nor done. */
  ghost predicate IsRunOnce(s: State, t: nat) {
    t in s.accepted && RunningCount(s.workers, t) == 1 && t !in s.tasks && t !in s.completed
  }

  lemma RunningIsRunOnce(s: State, i: nat)
    requires Inv(s) && i < |s.workers| && s.workers[i].Running?
    ensures IsRunOnce(s, s.workers[i].task)
  {
    var t := s.workers[i].task;
    SumAtLeast(s.workers, i, Carries(t));
    EachTaskOnce(s, t);
  }
}
