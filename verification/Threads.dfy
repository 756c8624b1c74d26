/** Threads, the scheduler and semaphores as the kernel runs them, in place. A method that switches to another thread
    ends at the switch; Resume is what the thread switched to does first. */
module Threads {
  import opened Common
  import opened Kernels
  import KernelRuns

  class Processor {
    var status: map<Tid, ThreadStatus>
    var point: map<Tid, Point>
    var currentThread: Tid
    var mode: Mode
    var level: IntStatus
    var readyList: seq<Tid>
    var semaphores: seq<Semaphore>
    var threadToBeDestroyed: Option<Tid>
    var halted: bool
    ghost var dispatched: seq<Tid>

    ghost function Now(): Kernel
      reads this
    {
      Kernel(status, point, currentThread, mode, level, readyList, semaphores, threadToBeDestroyed, halted, dispatched)
    }

    constructor (main: Tid, initial: seq<nat>)
      ensures Now() == KernelRuns.Booted(main, initial) && Inv(Now())
    {
      status, point, currentThread, mode, level := map[main := Running], map[], main, Executing, IntOff;
      readyList, threadToBeDestroyed, halted, dispatched := [], None, false, [];
      semaphores := seq(|initial|, i requires 0 <= i < |initial| => Semaphore(initial[i], [], initial[i], 0, 0));
      new;
      KernelRuns.BootedInv(main, initial);
    }

    // -------------------------------------------------------------- Scheduler

    method ReadyToRun(t: Tid)
      modifies this`status, this`readyList
      ensures Now() == Kernels.ReadyToRun(old(Now()), t)
    {
      status := status[t := Ready];
      readyList := readyList + [t];
    }

    method FindNextToRun() returns (next: Option<Tid>)
      modifies this`readyList
      ensures next.Some? <==> !halted && old(readyList) != []
      ensures next.Some? ==> old(readyList) == [next.value] + readyList
      ensures next.None? ==> readyList == old(readyList)
    {
      if halted || readyList == [] {
        return None;
      }
      next := Some(readyList[0]);
      readyList := readyList[1..];
    }

    /** Up to the switch. */
    method Run(next: Tid)
      requires level == IntOff
      modifies this
      ensures Kernels.Run(old(Now()), next) == Next(Now())
    {
      currentThread := next;
      status := status[next := Running];
      mode := Resuming;
      dispatched := dispatched + [next];
    }

    /** After the switch: the rest of Run, or SetupThreadState for a new thread, and then on from the saved point. */
    method Resume()
      requires Inv(Now()) && Enabled(Now(), Step.Resume)
      modifies this
      ensures Inv(Now()) && Take(old(Now()), Step.Resume) == Next(Now())
    {
      hide ReadyListed, BlockedListed, PointsGood, Counted;
      ghost var before := Now();
      KernelRuns.EveryStepIsKept(before, Step.Resume);
      var from := point[currentThread];
      point := point - {currentThread};
      if threadToBeDestroyed.Some? {
        Delete(threadToBeDestroyed.value);
        threadToBeDestroyed := None;
      }
      match from {
        case Fresh =>
          mode, level := Executing, IntOn;
        case InYield(oldLevel) =>
          mode, level := Executing, oldLevel;
        case InP(s, oldLevel) =>
          TestValue(s, oldLevel);
      }
    }

    method Delete(t: Tid)
      requires t != currentThread
      modifies this`status
      ensures status == old(status) - {t}
    {
      status := status - {t};
    }

    // -------------------------------------------------------------- Thread

    method Create(t: Tid)
      requires Inv(Now()) && Enabled(Now(), Step.Create(t))
      modifies this
      ensures Inv(Now()) && Take(old(Now()), Step.Create(t)) == Next(Now())
    {
      hide ReadyListed, BlockedListed, PointsGood, Counted;
      KernelRuns.EveryStepIsKept(Now(), Step.Create(t));
      status := status[t := JustCreated];
    }

    method Start(t: Tid)
      requires Inv(Now()) && Enabled(Now(), Step.Start(t))
      modifies this
      ensures Inv(Now()) && Take(old(Now()), Step.Start(t)) == Next(Now())
    {
      hide ReadyListed, BlockedListed, PointsGood, Counted;
      KernelRuns.EveryStepIsKept(Now(), Step.Start(t));
      assert status[t] == JustCreated;
      point := point[t := Fresh];
      var oldLevel := level;
      level := IntOff;
      ReadyToRun(t);
      level := oldLevel;
    }

    method Yield()
      requires Inv(Now()) && Enabled(Now(), Step.Yield)
      modifies this
      ensures Inv(Now()) && Take(old(Now()), Step.Yield) == Next(Now())
    {
      hide ReadyListed, BlockedListed, PointsGood, Counted;
      KernelRuns.EveryStepIsKept(Now(), Step.Yield);
      var oldLevel := level;
      level := IntOff;
      var next := FindNextToRun();
      if next.Some? {
        ReadyToRun(currentThread);
        point := point[currentThread := InYield(oldLevel)];
        Run(next.value);
      } else {
        level := oldLevel;
      }
    }

    method Finish()
      requires Inv(Now()) && Enabled(Now(), Step.Finish)
      modifies this
      ensures Inv(Now()) && Take(old(Now()), Step.Finish) == Next(Now())
    {
      hide ReadyListed, BlockedListed, PointsGood, Counted;
      KernelRuns.EveryStepIsKept(Now(), Step.Finish);
      level := IntOff;
      assert threadToBeDestroyed == None;
      threadToBeDestroyed := Some(currentThread);
      FallAsleep();
    }

    /** Sleep up to its loop. */
    method FallAsleep()
      requires level == IntOff
      modifies this`status, this`mode
      ensures Kernels.FallAsleep(old(Now())) == Next(Now())
    {
      status := status[currentThread := Blocked];
      mode := Sleeping;
    }

    /** The loop of Sleep, up to the switch. Each call of Idle runs interrupt handlers that do V operations; `idles`
        lists their semaphores for every call that returns. */
    method SleepLoop(idles: seq<seq<nat>>) returns (switched: bool, ghost trace: seq<Step>)
      requires Inv(Now()) && mode == Sleeping
      requires forall i, j :: 0 <= i < |idles| && 0 <= j < |idles[i]| ==> idles[i][j] < |semaphores|
      modifies this
      ensures Inv(Now())
      ensures KernelRuns.Allowed(old(Now()), trace) && KernelRuns.Execute(old(Now()), trace) == Next(Now())
      ensures if switched then mode == Resuming && trace != [] && trace[|trace| - 1] == Dispatch
              else mode == Sleeping && (halted || readyList == [])
    {
      hide Inv, Enabled, Take, KernelRuns.Allowed, KernelRuns.Execute;
      ghost var start, before := Now(), Now();
      trace := [];
      KernelRuns.NoSteps(start);
      var i := 0;
      var next := FindNextToRun();
      while next.None? && i < |idles|
        invariant 0 <= i <= |idles| && Inv(before) && before.mode == Sleeping && |before.sems| == |start.sems|
        invariant KernelRuns.Allowed(start, trace) && KernelRuns.Execute(start, trace) == Next(before)
        invariant next.Some? <==> CanRun(before)
        invariant next.Some? ==> before.ready == [next.value] + readyList
        invariant Now() == before.(ready := if next.Some? then readyList else before.ready)
      {
        trace := Idle(idles[i], start, trace);
        before := Now();
        i := i + 1;
        next := FindNextToRun();
      }
      if next.Some? {
        AsleepAndReady(before);
        KernelRuns.EveryStepIsKept(before, Dispatch);
        KernelRuns.OneMoreStep(start, trace, Dispatch);
        Run(next.value);
        trace := trace + [Dispatch];
      }
      switched := next.Some?;
    }

    /** One call of Idle, as far as threads can see it. */
    method Idle(signalled: seq<nat>, ghost start: Kernel, ghost before: seq<Step>) returns (ghost trace: seq<Step>)
      requires Inv(Now()) && mode == Sleeping
      requires forall j :: 0 <= j < |signalled| ==> signalled[j] < |semaphores|
      requires KernelRuns.Allowed(start, before) && KernelRuns.Execute(start, before) == Next(Now())
      modifies this
      ensures Inv(Now()) && mode == Sleeping && |semaphores| == old(|semaphores|)
      ensures KernelRuns.Allowed(start, trace) && KernelRuns.Execute(start, trace) == Next(Now())
    {
      hide Inv, Enabled, Take, KernelRuns.Allowed, KernelRuns.Execute;
      trace := before;
      var j := 0;
      while j < |signalled|
        invariant 0 <= j <= |signalled|
        invariant Inv(Now()) && mode == Sleeping && |semaphores| == old(|semaphores|)
        invariant KernelRuns.Allowed(start, trace) && KernelRuns.Execute(start, trace) == Next(Now())
      {
        HandlerCanSignal(Now(), signalled[j]);
        KernelRuns.OneMoreStep(start, trace, Step.HandlerV(signalled[j]));
        HandlerV(signalled[j]);
        trace := trace + [Step.HandlerV(signalled[j])];
        j := j + 1;
      }
    }

    // -------------------------------------------------------------- Semaphore

    /** Up to the switch, if there is one. */
    method P(s: nat)
      requires Inv(Now()) && Enabled(Now(), Step.P(s))
      modifies this
      ensures Inv(Now()) && Take(old(Now()), Step.P(s)) == Next(Now())
    {
      hide ReadyListed, BlockedListed, PointsGood;
      KernelRuns.EveryStepIsKept(Now(), Step.P(s));
      var oldLevel := level;
      level := IntOff;
      assert SemaphoreGood(old(Now()), s);
      assert semaphores[s].value >= 0;
      TestValue(s, oldLevel);
    }

    /** One turn of the loop of P, up to the switch, and what follows the loop. */
    method TestValue(s: nat, oldLevel: IntStatus)
      requires s < |semaphores| && level == IntOff
      modifies this
      ensures TryP(old(Now()), s, oldLevel) == Next(Now())
    {
      var sem := semaphores[s];
      if sem.value == 0 {
        semaphores := semaphores[s := sem.(queue := sem.queue + [currentThread])];
        point := point[currentThread := InP(s, oldLevel)];
        FallAsleep();
      } else {
        semaphores := semaphores[s := sem.(value := sem.value - 1, ps := sem.ps + 1)];
        level := oldLevel;
        mode := Executing;
      }
    }

    method V(s: nat)
      requires Inv(Now()) && Enabled(Now(), Step.V(s))
      modifies this
      ensures Inv(Now()) && Take(old(Now()), Step.V(s)) == Next(Now())
    {
      hide ReadyListed, BlockedListed, PointsGood;
      KernelRuns.EveryStepIsKept(Now(), Step.V(s));
      assert SemaphoreGood(Now(), s);
      Signal(s);
    }

    method HandlerV(s: nat)
      requires Inv(Now()) && Enabled(Now(), Step.HandlerV(s))
      modifies this
      ensures Inv(Now()) && Take(old(Now()), Step.HandlerV(s)) == Next(Now())
      ensures mode == old(mode) && |semaphores| == old(|semaphores|)
    {
      hide ReadyListed, BlockedListed, PointsGood;
      KernelRuns.EveryStepIsKept(Now(), Step.HandlerV(s));
      assert SemaphoreGood(Now(), s);
      Signal(s);
    }

    /** The body of V; the assertion on the value is its precondition. */
    method Signal(s: nat)
      requires s < |semaphores| && semaphores[s].value >= 0
      modifies this
      ensures DoV(old(Now()), s) == Next(Now())
    {
      var oldLevel := level;
      level := IntOff;
      var sem := semaphores[s];
      if |sem.queue| > 0 {
        var thread := sem.queue[0];
        sem := sem.(queue := sem.queue[1..]);
        ReadyToRun(thread);
      }
      semaphores := semaphores[s := sem.(value := sem.value + 1, vs := sem.vs + 1)];
      level := oldLevel;
    }
  }

  lemma AsleepAndReady(k: Kernel)
    requires k.mode == Sleeping && CanRun(k)
    ensures Enabled(k, Dispatch) && Take(k, Dispatch) == RunNext(k)
  {
  }

  lemma HandlerCanSignal(k: Kernel, s: nat)
    requires k.mode == Sleeping && s < |k.sems|
    ensures Enabled(k, Step.HandlerV(s))
  {
  }
}
