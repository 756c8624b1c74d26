/** What holds in every run of the kernel. */
module KernelRuns {
  import opened Common
  import opened Kernels
  import opened SemaphoreCounts
  import opened ThreadPlaces

  // ---------------------------------------------------------------- one step

  /** V operations on the semaphore that the step completes. */
  function VsOf(step: Step, s: nat): nat {
    if step == V(s) || step == HandlerV(s) then 1 else 0
  }

  function PsOf(step: Step, s: nat): nat {
    if step == P(s) then 1 else 0
  }

  /** The semaphores, before and after: nothing is lost and nothing appears but what the operations account for. */
  ghost predicate Accounted(k: Kernel, l: Kernel, vs: nat -> nat, ps: nat -> nat) {
    && |l.sems| == |k.sems|
    && forall s :: 0 <= s < |k.sems| ==>
         && l.sems[s].initial == k.sems[s].initial
         && l.sems[s].vs == k.sems[s].vs + vs(s)
         && BegunPs(l, s) == BegunPs(k, s) + ps(s)
  }

  ghost predicate StepAccounted(k: Kernel, l: Kernel, step: Step) {
    Accounted(k, l, s => VsOf(step, s), s => PsOf(step, s))
  }

  ghost predicate StepKept(k: Kernel, step: Step)
    requires Enabled(k, step)
  {
    Take(k, step).Next? && Inv(Take(k, step).kernel) && StepAccounted(k, Take(k, step).kernel, step)
  }

  lemma PKept(k: Kernel, s: nat)
    requires Inv(k) && Enabled(k, P(s))
    ensures StepKept(k, P(s))
  {
    hide ReadyListed, BlockedListed, PointsGood, BegunPs, SemaphoreGood, NoDup;
    assert SemaphoreGood(k, s);
    PCounted(k, s);
    ValueIsNatural(k, s);
    if k.sems[s].value == 0 {
      WaitPlaced(k, s, k.level);
    } else {
      TakeValuePlaced(k, s, k.level);
    }
  }

  lemma ValueIsNatural(k: Kernel, s: nat)
    requires s < |k.sems| && SemaphoreGood(k, s)
    ensures k.sems[s].value >= 0
  {
  }

  lemma VKept(k: Kernel, s: nat, step: Step)
    requires Inv(k) && Enabled(k, step) && (step == V(s) || step == HandlerV(s))
    ensures StepKept(k, step)
  {
    hide ReadyListed, BlockedListed, PointsGood, CurrentPlaced, BegunPs, SemaphoreGood, NoDup;
    ValueIsNatural(k, s);
    WakeCounted(k, s);
    WakePlaced(k, s);
  }

  /** The steps that leave the semaphores alone. */
  lemma OthersKept(k: Kernel, step: Step)
    requires Inv(k) && Enabled(k, step) && !step.P? && !step.V? && !step.HandlerV? && !step.Resume?
    ensures StepKept(k, step)
  {
    hide ReadyListed, BlockedListed, BegunPs, SemaphoreGood, NoDup, WaitsOn;
    OthersPlaced(k, step);
    var l := Take(k, step).kernel;
    forall s: nat, t
      ensures WaitsOn(l, t, s) <==> WaitsOn(k, t, s)
    {
      OthersWait(k, step, t, s);
    }
    AllUntouched(k, l);
  }

  lemma OthersPlaced(k: Kernel, step: Step)
    requires Inv(k) && Enabled(k, step) && !step.P? && !step.V? && !step.HandlerV? && !step.Resume?
    ensures Take(k, step).Next? && Placed(Take(k, step).kernel)
  {
    hide ReadyListed, BlockedListed, PointsGood, SemaphoreGood, NoDup;
    match step
    case Create(t) => CreatePlaced(k, t);
    case Start(t) => StartPlaced(k, t);
    case Yield => YieldPlaced(k);
    case Finish => FinishPlaced(k);
    case Dispatch => DispatchPlaced(k);
    case SetLevel(now) => SetLevelPlaced(k, now);
    case Halt => HaltPlaced(k);
  }

  lemma SetLevelPlaced(k: Kernel, now: IntStatus)
    requires Placed(k) && k.mode == Executing
    ensures Placed(k.(level := now))
  {
    hide NoDup;
  }

  lemma HaltPlaced(k: Kernel)
    requires Placed(k) && k.mode == Executing
    ensures Placed(k.(halted := true))
  {
    hide NoDup;
  }

  lemma OthersWait(k: Kernel, step: Step, t: Tid, s: nat)
    requires Inv(k) && Enabled(k, step) && !step.P? && !step.V? && !step.HandlerV? && !step.Resume?
    requires Take(k, step).Next?
    ensures WaitsOn(Take(k, step).kernel, t, s) <==> WaitsOn(k, t, s)
  {
    hide ReadyListed, BlockedListed, Counted, NoDup;
  }

  lemma ResumeKept(k: Kernel)
    requires Inv(k) && Enabled(k, Resume)
    ensures StepKept(k, Resume)
  {
    hide ReadyListed, BlockedListed, PointsGood, BegunPs, SemaphoreGood, AlmostGood, NoDup, Placed, Counted;
    ResumePlaced(k);
    ResumeCounted(k);
  }

  lemma ResumePlaced(k: Kernel)
    requires Placed(k) && Enabled(k, Resume)
    ensures Take(k, Resume).Next? && Placed(Take(k, Resume).kernel)
  {
    hide ReadyListed, BlockedListed, PointsGood, NoDup, Placed, CurrentPlaced;
    var at := k.point[k.current];
    match at
    case Fresh => BackPlaced(k, IntOn);
    case InYield(oldLevel) => BackPlaced(k, oldLevel);
    case InP(s, oldLevel) =>
      BackPlaced(k, IntOff);
      var b := Back(k, IntOff);
      if b.sems[s].value == 0 {
        WaitPlaced(b, s, oldLevel);
      } else {
        TakeValuePlaced(b, s, oldLevel);
      }
      LevelIsOff(k);
  }

  lemma LevelIsOff(k: Kernel)
    requires Placed(k) && k.mode == Resuming
    ensures k.level == IntOff
  {
  }

  /** Every step that can happen keeps the invariant; none of the assertions in P, V, Yield, Sleep, Finish, Run and
      the destructor of Thread fails. */
  lemma EveryStepIsKept(k: Kernel, step: Step)
    requires Inv(k) && Enabled(k, step)
    ensures Take(k, step).Next? && Inv(Take(k, step).kernel)
    ensures StepAccounted(k, Take(k, step).kernel, step)
  {
    hide Inv, StepAccounted;
    if step.P? {
      PKept(k, step.sem);
    } else if step.V? || step.HandlerV? {
      VKept(k, step.sem, step);
    } else if step.Resume? {
      ResumeKept(k);
    } else {
      OthersKept(k, step);
    }
  }

  // ---------------------------------------------------------------- runs

  /** Each step can happen where it is taken. */
  ghost predicate Allowed(k: Kernel, steps: seq<Step>)
    decreases |steps|
  {
    steps == [] ||
    (Enabled(k, steps[0]) && (Take(k, steps[0]).Next? ==> Allowed(Take(k, steps[0]).kernel, steps[1..])))
  }

  ghost function Execute(k: Kernel, steps: seq<Step>): Outcome
    requires Allowed(k, steps)
    decreases |steps|
  {
    if steps == [] then Next(k)
    else
      match Take(k, steps[0])
      case AssertionFailed => AssertionFailed
      case Next(l) => Execute(l, steps[1..])
  }

  /** In every run no assertion fails and the invariant holds. */
  lemma {:induction false} NoAssertionFails(k: Kernel, steps: seq<Step>)
    requires Inv(k) && Allowed(k, steps)
    ensures Execute(k, steps).Next? && Inv(Execute(k, steps).kernel)
    decreases |steps|
  {
    hide Inv, StepAccounted, Enabled, Take;
    if steps != [] {
      EveryStepIsKept(k, steps[0]);
      NoAssertionFails(Take(k, steps[0]).kernel, steps[1..]);
    }
  }

  function VsIn(steps: seq<Step>, s: nat): nat {
    if steps == [] then 0 else VsOf(steps[0], s) + VsIn(steps[1..], s)
  }

  function PsIn(steps: seq<Step>, s: nat): nat {
    if steps == [] then 0 else PsOf(steps[0], s) + PsIn(steps[1..], s)
  }

  lemma AccountsAdd(k: Kernel, l: Kernel, m: Kernel, steps: seq<Step>)
    requires |steps| > 0 && StepAccounted(k, l, steps[0])
    requires Accounted(l, m, s => VsIn(steps[1..], s), s => PsIn(steps[1..], s))
    ensures Accounted(k, m, s => VsIn(steps, s), s => PsIn(steps, s))
  {
    hide BegunPs;
  }

  /** In every run the value of a semaphore has changed by the V operations less the P operations that were completed,
      and each P operation has been completed or has a thread inside it. */
  lemma {:induction false} RunsAreAccounted(k: Kernel, steps: seq<Step>)
    requires Inv(k) && Allowed(k, steps)
    ensures Execute(k, steps).Next?
    ensures Accounted(k, Execute(k, steps).kernel, s => VsIn(steps, s), s => PsIn(steps, s))
    decreases |steps|
  {
    hide Inv, StepAccounted, Accounted, Enabled, Take;
    if steps == [] {
      NothingAccounted(k);
    } else {
      EveryStepIsKept(k, steps[0]);
      var l := Take(k, steps[0]).kernel;
      RunsAreAccounted(l, steps[1..]);
      AccountsAdd(k, l, Execute(k, steps).kernel, steps);
    }
  }

  lemma NothingAccounted(k: Kernel)
    ensures Accounted(k, k, s => VsIn([], s), s => PsIn([], s))
  {
  }

  // ---------------------------------------------------------------- from the start of the system

  /** The main thread runs with interrupts off; the semaphores have their initial values. */
  function Booted(main: Tid, initial: seq<nat>): Kernel {
    Kernel(map[main := Running], map[], main, Executing, IntOff, [],
           seq(|initial|, i requires 0 <= i < |initial| => Semaphore(initial[i], [], initial[i], 0, 0)),
           None, false, [])
  }

  lemma BootedInv(main: Tid, initial: seq<nat>)
    ensures Inv(Booted(main, initial))
  {
  }

  /** In every reachable state: value = initial value + completed Vs - completed Ps >= 0, where the Vs are the V steps
      of the run and the completed Ps are its P steps but for those with a thread inside. */
  lemma ValueIsConserved(main: Tid, initial: seq<nat>, steps: seq<Step>, s: nat)
    requires Allowed(Booted(main, initial), steps) && s < |initial|
    ensures var r := Execute(Booted(main, initial), steps);
            && r.Next? && |r.kernel.sems| == |initial|
            && 0 <= r.kernel.sems[s].value == initial[s] + VsIn(steps, s) - (PsIn(steps, s) - |Inside(r.kernel, s)|)
  {
    hide ReadyListed, BlockedListed, CurrentPlaced, PointsGood, Enabled, Take, Woken, Inside;
    var k := Booted(main, initial);
    BootedInv(main, initial);
    NoAssertionFails(k, steps);
    RunsAreAccounted(k, steps);
    assert Inside(k, s) == {} by { NobodyInside(main, initial, s); }
    var l := Execute(k, steps).kernel;
    assert SemaphoreGood(l, s);
  }

  lemma NobodyInside(main: Tid, initial: seq<nat>, s: nat)
    ensures Inside(Booted(main, initial), s) == {}
  {
  }

  // ---------------------------------------------------------------- no lost wakeup

  /** A thread that a V has woken: inside P, and on the ready list or just switched to. */
  ghost predicate AboutToTest(k: Kernel, t: Tid, s: nat) {
    WaitsOn(k, t, s) && (t in k.ready || (t == k.current && k.mode == Resuming))
  }

  /** In every reachable state, as long as a thread is queued the value is at most the number of threads that are about
      to test it; so whenever a thread is queued at a positive value, some thread will look at that value. */
  lemma NoLostWakeup(k: Kernel, s: nat)
    requires Inv(k) && s < |k.sems| && |k.sems[s].queue| > 0
    ensures k.sems[s].value <= |Woken(k, s)|
    ensures forall t :: t in Woken(k, s) ==> AboutToTest(k, t, s)
    ensures k.sems[s].value > 0 ==> exists t :: AboutToTest(k, t, s)
  {
    hide NoDup, AboutToTest;
    assert SemaphoreGood(k, s);
    forall t | t in Woken(k, s)
      ensures AboutToTest(k, t, s)
    {
      WokenIsAboutToTest(k, t, s);
    }
    if k.sems[s].value > 0 {
      var t :| t in Woken(k, s);
    }
  }

  lemma WokenIsAboutToTest(k: Kernel, t: Tid, s: nat)
    requires Placed(k) && s < |k.sems| && t in Woken(k, s)
    ensures AboutToTest(k, t, s)
  {
    hide NoDup;
  }

  // ---------------------------------------------------------------- one place for each thread

  datatype Place = OnProcessor | OnReadyList(index: nat) | InQueue(sem: nat, index: nat) | AwaitingDeletion

  ghost predicate At(k: Kernel, t: Tid, place: Place) {
    match place
    case OnProcessor => t == k.current && k.mode != Sleeping
    case OnReadyList(i) => i < |k.ready| && k.ready[i] == t
    case InQueue(s, i) => s < |k.sems| && i < |k.sems[s].queue| && k.sems[s].queue[i] == t
    case AwaitingDeletion => k.toBeDestroyed == Some(t)
  }

  function StatusAt(place: Place): ThreadStatus {
    match place
    case OnProcessor => Running
    case OnReadyList(_) => Ready
    case InQueue(_, _) => Blocked
    case AwaitingDeletion => Blocked
  }

  lemma SomePlace(k: Kernel, t: Tid) returns (place: Place)
    requires Placed(k) && t in k.status && k.status[t] != JustCreated
    ensures At(k, t, place)
  {
    hide NoDup;
    if k.status[t] == Running {
      place := OnProcessor;
    } else if k.status[t] == Ready {
      var i :| 0 <= i < |k.ready| && k.ready[i] == t;
      place := OnReadyList(i);
    } else if k.toBeDestroyed == Some(t) {
      place := AwaitingDeletion;
    } else {
      var s := k.point[t].sem;
      var i :| 0 <= i < |k.sems[s].queue| && k.sems[s].queue[i] == t;
      place := InQueue(s, i);
    }
  }

  lemma PlaceStatus(k: Kernel, t: Tid, place: Place)
    requires Placed(k) && At(k, t, place)
    ensures t in k.status && k.status[t] == StatusAt(place)
  {
    hide NoDup;
  }

  lemma OnlyPlace(k: Kernel, t: Tid, p: Place, q: Place)
    requires Placed(k) && At(k, t, p) && At(k, t, q)
    ensures p == q
  {
    hide CurrentPlaced;
    PlaceStatus(k, t, p);
    PlaceStatus(k, t, q);
    if p.InQueue? && q.InQueue? {
      assert t in k.sems[p.sem].queue && t in k.sems[q.sem].queue;
      assert WaitsOn(k, t, p.sem) && WaitsOn(k, t, q.sem);
    }
  }

  /** Each live thread that has been started is in exactly one place, which its status agrees with. The current
      thread too, except that in the loop of Sleep it does not count as on the processor. */
  lemma ExactlyOnePlace(k: Kernel, t: Tid) returns (place: Place)
    requires Inv(k) && t in k.status && k.status[t] != JustCreated
    ensures At(k, t, place)
    ensures forall p :: At(k, t, p) ==> p == place
    ensures k.status[t] == StatusAt(place)
  {
    hide Counted;
    place := SomePlace(k, t);
    forall p | At(k, t, p)
      ensures p == place
    {
      OnlyPlace(k, t, place, p);
    }
  }

  // ---------------------------------------------------------------- first come, first served

  /** The threads that have been switched to, followed by those in line. */
  function Order(k: Kernel): seq<Tid> {
    k.dispatched + k.ready
  }

  /** No step overtakes: the line is only ever moved on at its front and extended at its end. */
  lemma NoStepOvertakes(k: Kernel, step: Step)
    requires Enabled(k, step) && Take(k, step).Next?
    ensures var l := Take(k, step).kernel;
            Order(k) <= Order(l) && |k.dispatched| <= |l.dispatched|
  {
    var l := Take(k, step).kernel;
    if (step.Dispatch? || step.Yield?) && CanRun(k) {
      assert k.ready == [k.ready[0]] + k.ready[1..];
    }
    assert Order(l)[..|Order(k)|] == Order(k);
  }

  lemma {:induction false} NoRunOvertakes(k: Kernel, steps: seq<Step>)
    requires Allowed(k, steps) && Execute(k, steps).Next?
    ensures var l := Execute(k, steps).kernel;
            Order(k) <= Order(l) && |k.dispatched| <= |l.dispatched|
    decreases |steps|
  {
    hide Enabled, Take, Order;
    if steps != [] {
      NoStepOvertakes(k, steps[0]);
      NoRunOvertakes(Take(k, steps[0]).kernel, steps[1..]);
    }
  }

  /** The thread at index i of the ready list is the one that is switched to at the (i + 1)st later switch, whatever
      steps are taken in between; until then it keeps its place in line. */
  lemma FirstComeFirstServed(k: Kernel, steps: seq<Step>, i: nat)
    requires Inv(k) && Allowed(k, steps) && i < |k.ready|
    ensures Execute(k, steps).Next?
    ensures var l := Execute(k, steps).kernel;
            var switches := |l.dispatched| - |k.dispatched|;
            && 0 <= switches
            && (i < switches ==> l.dispatched[|k.dispatched| + i] == k.ready[i])
            && (switches <= i ==> i - switches < |l.ready| && l.ready[i - switches] == k.ready[i])
  {
    hide Inv, Allowed, Execute;
    NoAssertionFails(k, steps);
    NoRunOvertakes(k, steps);
    var l := Execute(k, steps).kernel;
    var n := |k.dispatched| + i;
    assert Order(k)[n] == k.ready[i];
    assert Order(l)[n] == Order(k)[n];
  }

  /** The switches are made by Yield and by Sleep, when there is a thread to be found, one each. */
  lemma SwitchesAreCounted(k: Kernel, step: Step)
    requires Inv(k) && Enabled(k, step)
    ensures Take(k, step).Next?
    ensures var l := Take(k, step).kernel;
            if !k.halted && k.ready != [] && (step.Yield? || step.Dispatch?)
            then l.dispatched == k.dispatched + [k.ready[0]] && l.current == k.ready[0]
            else l.dispatched == k.dispatched && l.current == k.current
  {
    hide NoDup, ReadyListed, BlockedListed, PointsGood, SemaphoreGood;
    EveryStepIsKept(k, step);
  }

  /** V makes the head of the queue ready, if there is one; all other steps only ever lengthen the queue, by a thread
      that finds the value zero. */
  lemma QueueStep(k: Kernel, step: Step, s: nat)
    requires Inv(k) && Enabled(k, step) && s < |k.sems|
    ensures Take(k, step).Next? && |Take(k, step).kernel.sems| == |k.sems|
    ensures var q, l := k.sems[s].queue, Take(k, step).kernel;
            if VsOf(step, s) == 1
            then (if q == [] then l.sems[s].queue == [] && l.ready == k.ready
                  else l.sems[s].queue == q[1..] && l.ready == k.ready + [q[0]] && l.status[q[0]] == Ready)
            else l.sems[s].queue == q || (l.sems[s].queue == q + [k.current] && k.sems[s].value == 0 && l.mode == Sleeping)
  {
    hide NoDup, ReadyListed, BlockedListed, PointsGood, SemaphoreGood, BegunPs;
    EveryStepIsKept(k, step);
  }

  /** Waiters are woken in the order in which they queued up: the thread at index i of the queue is at its head after
      i later V operations, whatever else happens, and the next V makes it ready. */
  lemma {:induction false} WokenInOrder(k: Kernel, steps: seq<Step>, s: nat, i: nat)
    requires Inv(k) && Allowed(k, steps) && s < |k.sems| && i < |k.sems[s].queue|
    requires VsIn(steps, s) <= i
    ensures Execute(k, steps).Next? && s < |Execute(k, steps).kernel.sems|
    ensures var q := Execute(k, steps).kernel.sems[s].queue;
            i - VsIn(steps, s) < |q| && q[i - VsIn(steps, s)] == k.sems[s].queue[i]
    decreases |steps|
  {
    hide Inv, StepAccounted, Enabled, Take;
    if steps != [] {
      EveryStepIsKept(k, steps[0]);
      QueueStep(k, steps[0], s);
      assert Take(k, steps[0]).kernel.sems[s].queue[i - VsOf(steps[0], s)] == k.sems[s].queue[i];
      WokenInOrder(Take(k, steps[0]).kernel, steps[1..], s, i - VsOf(steps[0], s));
    }
  }

  // ---------------------------------------------------------------- the interrupt level

  /** No step of the run gives thread `t` the processor back. */
  ghost predicate Elsewhere(k: Kernel, steps: seq<Step>, t: Tid)
    requires Allowed(k, steps)
    decreases |steps|
  {
    steps == [] ||
    (!(steps[0] == Resume && k.current == t)
     && (Take(k, steps[0]).Next? ==> Elsewhere(Take(k, steps[0]).kernel, steps[1..], t)))
  }

  lemma PointStays(k: Kernel, step: Step, t: Tid)
    requires Inv(k) && Enabled(k, step) && t in k.point && !(step == Resume && k.current == t)
    ensures Take(k, step).Next?
    ensures var l := Take(k, step).kernel; t in l.point && l.point[t] == k.point[t]
  {
    hide NoDup, ReadyListed, BlockedListed, SemaphoreGood, BegunPs;
    EveryStepIsKept(k, step);
  }

  lemma {:induction false} PointStaysInRun(k: Kernel, steps: seq<Step>, t: Tid)
    requires Inv(k) && Allowed(k, steps) && Elsewhere(k, steps, t) && t in k.point
    ensures Execute(k, steps).Next?
    ensures var l := Execute(k, steps).kernel; t in l.point && l.point[t] == k.point[t]
    decreases |steps|
  {
    hide Inv, StepAccounted, Enabled, Take;
    if steps != [] {
      EveryStepIsKept(k, steps[0]);
      PointStays(k, steps[0], t);
      PointStaysInRun(Take(k, steps[0]).kernel, steps[1..], t);
    }
  }

  /** A thread that yields goes on with interrupts as they were when it did, whatever ran in the meantime. */
  lemma YieldKeepsLevel(k: Kernel, steps: seq<Step>)
    requires Inv(k) && k.mode == Executing && CanRun(k)
    requires Take(k, Yield).Next? && Allowed(Take(k, Yield).kernel, steps)
    requires Elsewhere(Take(k, Yield).kernel, steps, k.current) && Execute(Take(k, Yield).kernel, steps).Next?
    requires var l := Execute(Take(k, Yield).kernel, steps).kernel; l.mode == Resuming && l.current == k.current
    ensures var l := Execute(Take(k, Yield).kernel, steps).kernel;
            && Enabled(l, Resume) && Take(l, Resume).Next?
            && Take(l, Resume).kernel.level == k.level && Take(l, Resume).kernel.mode == Executing
  {
    hide Inv, StepAccounted, Allowed, Execute, Elsewhere;
    EveryStepIsKept(k, Yield);
    var m := Take(k, Yield).kernel;
    PointStaysInRun(m, steps, k.current);
    NoAssertionFails(m, steps);
    EveryStepIsKept(Execute(m, steps).kernel, Resume);
  }

  /** A thread that has to wait in P comes back to its loop, and once it gets a unit of the value it goes on with
      interrupts as they were when it called P. */
  lemma PKeepsLevel(k: Kernel, s: nat, steps: seq<Step>)
    requires Inv(k) && Enabled(k, P(s)) && k.sems[s].value == 0
    requires Take(k, P(s)).Next? && Allowed(Take(k, P(s)).kernel, steps)
    requires Elsewhere(Take(k, P(s)).kernel, steps, k.current) && Execute(Take(k, P(s)).kernel, steps).Next?
    requires var l := Execute(Take(k, P(s)).kernel, steps).kernel; l.mode == Resuming && l.current == k.current
    ensures var l := Execute(Take(k, P(s)).kernel, steps).kernel;
            && s < |l.sems| && Enabled(l, Resume) && Take(l, Resume).Next?
            && var m := Take(l, Resume).kernel;
            if l.sems[s].value > 0
            then m.level == k.level && m.mode == Executing && m.sems[s].value == l.sems[s].value - 1
            else m.mode == Sleeping && k.current in m.point && m.point[k.current] == InP(s, k.level)
  {
    hide Inv, StepAccounted, Allowed, Execute, Elsewhere, SemaphoreGood;
    EveryStepIsKept(k, P(s));
    var m := Take(k, P(s)).kernel;
    PointStaysInRun(m, steps, k.current);
    NoAssertionFails(m, steps);
    var l := Execute(m, steps).kernel;
    ResumeFindsSemaphore(l);
    EveryStepIsKept(l, Resume);
    ValueOf(l, s);
  }

  lemma ResumeFindsSemaphore(k: Kernel)
    requires Inv(k) && k.mode == Resuming
    ensures Enabled(k, Resume)
  {
    hide NoDup, ReadyListed, BlockedListed, SemaphoreGood;
  }

  lemma ValueOf(k: Kernel, s: nat)
    requires Inv(k) && s < |k.sems|
    ensures k.sems[s].value >= 0
  {
    hide Placed;
    assert SemaphoreGood(k, s);
  }

  /** Only SetLevel changes the level of a thread that keeps the processor; a thread that gives it up does so with
      interrupts off. */
  lemma LevelIsKept(k: Kernel, step: Step)
    requires Inv(k) && Enabled(k, step) && k.mode == Executing
    ensures Take(k, step).Next?
    ensures var l := Take(k, step).kernel;
            && (l.mode == Executing ==> l.current == k.current && l.level == if step.SetLevel? then step.now else k.level)
            && (l.mode != Executing ==> l.level == IntOff)
  {
    hide NoDup, ReadyListed, BlockedListed, PointsGood, SemaphoreGood, BegunPs;
    EveryStepIsKept(k, step);
  }

  // ---------------------------------------------------------------- new threads

  lemma CreateStep(k: Kernel, t: Tid)
    requires Enabled(k, Create(t))
    ensures Take(k, Create(t)).Next?
    ensures var l := Take(k, Create(t)).kernel;
            && l.status.Keys == k.status.Keys + {t} && l.status[t] == JustCreated
            && (forall u :: u in k.status ==> l.status[u] == k.status[u])
            && l.ready == k.ready && l.point == k.point && l.sems == k.sems && l.level == k.level
            && l.current == k.current && l.mode == k.mode && l.toBeDestroyed == k.toBeDestroyed && l.dispatched == k.dispatched
  {
  }

  /** A thread that is started is ready, last in line, and will begin at its start; all else is as it was. */
  lemma StartStep(k: Kernel, t: Tid)
    requires Enabled(k, Start(t))
    ensures Take(k, Start(t)).Next?
    ensures var l := Take(k, Start(t)).kernel;
            && l.ready == k.ready + [t]
            && l.status.Keys == k.status.Keys && l.status[t] == Ready && (forall u :: u in k.status && u != t ==> l.status[u] == k.status[u])
            && t in l.point && l.point[t] == Fresh && l.point - {t} == k.point - {t}
            && l.sems == k.sems && l.level == k.level && l.current == k.current && l.mode == k.mode
            && l.toBeDestroyed == k.toBeDestroyed && l.dispatched == k.dispatched && l.halted == k.halted
  {
  }

  /** In every run a started thread is the one that is switched to at the (n + 1)st later switch, where n threads were
      in line before it; until then it moves up one place a switch. */
  lemma StartedThreadIsNext(k: Kernel, t: Tid, steps: seq<Step>)
    requires Inv(k) && Enabled(k, Start(t))
    requires Take(k, Start(t)).Next? && Allowed(Take(k, Start(t)).kernel, steps)
    ensures Execute(Take(k, Start(t)).kernel, steps).Next?
    ensures var l := Execute(Take(k, Start(t)).kernel, steps).kernel;
            var n, switches := |k.ready|, |l.dispatched| - |k.dispatched|;
            && (n < switches ==> l.dispatched[|k.dispatched| + n] == t)
            && (0 <= switches <= n ==> n - switches < |l.ready| && l.ready[n - switches] == t)
  {
    hide Inv, Allowed, Execute, Take, Enabled;
    StartStep(k, t);
    EveryStepIsKept(k, Start(t));
    FirstComeFirstServed(Take(k, Start(t)).kernel, steps, |k.ready|);
  }

  /** When it gets the processor for the first time, it runs with interrupts on. */
  lemma StartedThreadBegins(k: Kernel, t: Tid, steps: seq<Step>)
    requires Inv(k) && Enabled(k, Start(t))
    requires Take(k, Start(t)).Next? && Allowed(Take(k, Start(t)).kernel, steps)
    requires Elsewhere(Take(k, Start(t)).kernel, steps, t) && Execute(Take(k, Start(t)).kernel, steps).Next?
    requires var l := Execute(Take(k, Start(t)).kernel, steps).kernel; l.mode == Resuming && l.current == t
    ensures var l := Execute(Take(k, Start(t)).kernel, steps).kernel;
            && Enabled(l, Resume) && Take(l, Resume).Next?
            && var m := Take(l, Resume).kernel; m.mode == Executing && m.current == t && m.level == IntOn && t !in m.point
  {
    hide Inv, StepAccounted, Allowed, Execute, Elsewhere;
    StartStep(k, t);
    EveryStepIsKept(k, Start(t));
    var m := Take(k, Start(t)).kernel;
    PointStaysInRun(m, steps, t);
    NoAssertionFails(m, steps);
    EveryStepIsKept(Execute(m, steps).kernel, Resume);
  }

  // ---------------------------------------------------------------- halting

  lemma StaysHalted(k: Kernel, step: Step)
    requires Enabled(k, step) && k.halted && Take(k, step).Next?
    ensures var l := Take(k, step).kernel; l.halted && l.dispatched == k.dispatched && l.current == k.current
  {
  }

  lemma {:induction false} HaltedRun(k: Kernel, steps: seq<Step>)
    requires Inv(k) && Allowed(k, steps) && k.halted
    ensures Execute(k, steps).Next?
    ensures var l := Execute(k, steps).kernel; l.dispatched == k.dispatched && l.current == k.current
    decreases |steps|
  {
    hide Inv, StepAccounted, Enabled, Take;
    if steps != [] {
      EveryStepIsKept(k, steps[0]);
      StaysHalted(k, steps[0]);
      HaltedRun(Take(k, steps[0]).kernel, steps[1..]);
    }
  }

  /** Once the scheduler has been stopped there is no switch any more, in any run. */
  lemma HaltStopsSwitching(k: Kernel, steps: seq<Step>)
    requires Inv(k) && Enabled(k, Halt) && Take(k, Halt).Next? && Allowed(Take(k, Halt).kernel, steps)
    ensures Execute(Take(k, Halt).kernel, steps).Next?
    ensures var l := Execute(Take(k, Halt).kernel, steps).kernel; l.dispatched == k.dispatched && l.current == k.current
  {
    hide Inv, StepAccounted;
    EveryStepIsKept(k, Halt);
    HaltedRun(Take(k, Halt).kernel, steps);
  }

  // ---------------------------------------------------------------- progress

  /** The kernel is never stuck: a running thread may do any of its steps, a thread just switched to goes on, a thread
      in the loop of Sleep makes way for a ready one, and handlers may always signal there. */
  lemma AlwaysAStep(k: Kernel, t: Tid, s: nat)
    requires Inv(k)
    ensures k.mode == Executing ==> Enabled(k, Yield) && Enabled(k, Finish) && Enabled(k, Halt) && Enabled(k, SetLevel(IntOn)) && Enabled(k, SetLevel(IntOff))
    ensures k.mode == Executing && s < |k.sems| ==> Enabled(k, P(s)) && Enabled(k, V(s))
    ensures k.mode == Executing && s < |k.sems| && k.level == IntOn ==> Enabled(k, HandlerV(s))
    ensures k.mode == Executing && t !in k.status ==> Enabled(k, Create(t))
    ensures k.mode == Executing && t in k.status && k.status[t] == JustCreated ==> Enabled(k, Start(t))
    ensures k.mode == Resuming ==> Enabled(k, Resume)
    ensures k.mode == Sleeping && !k.halted && k.ready != [] ==> Enabled(k, Dispatch)
    ensures k.mode == Sleeping && s < |k.sems| ==> Enabled(k, HandlerV(s))
  {
    hide NoDup, ReadyListed, BlockedListed, SemaphoreGood;
  }

  // ---------------------------------------------------------------- longer runs

  lemma {:induction false} OneMoreStep(k: Kernel, steps: seq<Step>, step: Step)
    requires Allowed(k, steps) && Execute(k, steps).Next? && Enabled(Execute(k, steps).kernel, step)
    ensures Allowed(k, steps + [step]) && Execute(k, steps + [step]) == Take(Execute(k, steps).kernel, step)
    decreases |steps|
  {
    hide Enabled, Take;
    if steps == [] {
      assert [] + [step] == [step] && [step][1..] == [];
      LastStep(k, step);
    } else {
      assert (steps + [step])[1..] == steps[1..] + [step];
      OneMoreStep(Take(k, steps[0]).kernel, steps[1..], step);
    }
  }

  lemma LastStep(k: Kernel, step: Step)
    requires Enabled(k, step)
    ensures Allowed(k, [step]) && Execute(k, [step]) == Take(k, step)
  {
    hide Enabled, Take;
    assert [step][1..] == [];
  }

  lemma NoSteps(k: Kernel)
    ensures Allowed(k, []) && Execute(k, []) == Next(k)
  {
  }
}
