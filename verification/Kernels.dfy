/** Threads, the scheduler and semaphores on one processor, as a protocol of atomic steps. */
module Kernels {
  import opened Common

  type Tid = nat

  datatype ThreadStatus = JustCreated | Running | Ready | Blocked

  /** Where a thread that does not have the processor goes on when it gets it: at the start of its procedure, in
      the loop of P, or at the end of Yield. */
  datatype Point = Fresh | InP(sem: nat, oldLevel: IntStatus) | InYield(oldLevel: IntStatus)

  /** A semaphore, its initial value, and how many V and P operations on it have been completed. */
  datatype Semaphore = Semaphore(value: int, queue: seq<Tid>, initial: nat, vs: nat, ps: nat)

  /** What the current thread is doing: its own work, the loop of Sleep, or coming back from SWITCH. */
  datatype Mode = Executing | Sleeping | Resuming

  /** `dispatched` lists the threads that Run has switched to, in order. */
  datatype Kernel = Kernel(
    status: map<Tid, ThreadStatus>,
    point: map<Tid, Point>,
    current: Tid,
    mode: Mode,
    level: IntStatus,
    ready: seq<Tid>,
    sems: seq<Semaphore>,
    toBeDestroyed: Option<Tid>,
    halted: bool,
    dispatched: seq<Tid>)

  datatype Step =
    | Create(t: Tid)          // the constructor of Thread
    | Start(t: Tid)
    | P(sem: nat)
    | V(sem: nat)             // by the current thread
    | HandlerV(sem: nat)      // by an interrupt handler
    | Yield                   // by the current thread or on return from an interrupt
    | Finish
    | Dispatch                // the loop of Sleep finds a thread to run
    | Resume                  // the rest of Run, or SetupThreadState, in the thread switched to
    | SetLevel(now: IntStatus)
    | Halt                    // Scheduler::Stop

  /** An assertion of the kernel either holds, or stops the system. */
  datatype Outcome = Next(kernel: Kernel) | AssertionFailed

  // ---------------------------------------------------------------- the parts of the steps

  function ReadyToRun(k: Kernel, t: Tid): Kernel {
    k.(status := k.status[t := Ready], ready := k.ready + [t])
  }

  /** The thread that FindNextToRun takes off the ready list, if it finds one. */
  predicate CanRun(k: Kernel) {
    !k.halted && |k.ready| > 0
  }

  /** Run up to the SWITCH. */
  function Run(k: Kernel, next: Tid): Outcome {
    if k.level != IntOff then AssertionFailed
    else Next(k.(current := next, status := k.status[next := Running], mode := Resuming, dispatched := k.dispatched + [next]))
  }

  /** FindNextToRun, with a thread to be found, and then Run. */
  function RunNext(k: Kernel): Outcome
    requires CanRun(k)
  {
    Run(k.(ready := k.ready[1..]), k.ready[0])
  }

  /** Sleep up to its loop. */
  function FallAsleep(k: Kernel): Outcome {
    if k.level != IntOff then AssertionFailed
    else Next(k.(status := k.status[k.current := Blocked], mode := Sleeping))
  }

  /** The loop of P: wait in the queue, or take the value and go on with interrupts as they were. */
  function TryP(k: Kernel, s: nat, oldLevel: IntStatus): Outcome
    requires s < |k.sems|
  {
    var sem := k.sems[s];
    if sem.value == 0 then
      FallAsleep(k.(sems := k.sems[s := sem.(queue := sem.queue + [k.current])], point := k.point[k.current := InP(s, oldLevel)]))
    else
      Next(k.(sems := k.sems[s := sem.(value := sem.value - 1, ps := sem.ps + 1)], level := oldLevel, mode := Executing))
  }

  function DoP(k: Kernel, s: nat): Outcome
    requires s < |k.sems|
  {
    if k.sems[s].value < 0 then AssertionFailed else TryP(k.(level := IntOff), s, k.level)
  }

  function DoV(k: Kernel, s: nat): Outcome
    requires s < |k.sems|
  {
    var sem := k.sems[s];
    if sem.value < 0 then AssertionFailed
    else
      var raised := sem.(value := sem.value + 1, vs := sem.vs + 1);
      if |sem.queue| == 0 then Next(k.(sems := k.sems[s := raised]))
      else Next(ReadyToRun(k, sem.queue[0]).(sems := k.sems[s := raised.(queue := sem.queue[1..])]))
  }

  function DoYield(k: Kernel): Outcome {
    if !CanRun(k) then Next(k)
    else
      var off := k.(level := IntOff, ready := k.ready[1..]);
      Run(ReadyToRun(off, k.current).(point := k.point[k.current := InYield(k.level)]), k.ready[0])
  }

  function DoFinish(k: Kernel): Outcome {
    if k.toBeDestroyed.Some? then AssertionFailed
    else FallAsleep(k.(level := IntOff, toBeDestroyed := Some(k.current)))
  }

  /** The thread that finished before the switch is deleted, which it may not do itself. */
  function DestroyCarcass(k: Kernel): Outcome {
    match k.toBeDestroyed
    case None => Next(k)
    case Some(t) =>
      if t == k.current then AssertionFailed
      else Next(k.(status := k.status - {t}, toBeDestroyed := None))
  }

  function DoResume(k: Kernel): Outcome
    requires k.current in k.point && (k.point[k.current].InP? ==> k.point[k.current].sem < |k.sems|)
  {
    match DestroyCarcass(k.(point := k.point - {k.current}))
    case AssertionFailed => AssertionFailed
    case Next(c) =>
      match k.point[k.current]
      case Fresh => Next(c.(level := IntOn, mode := Executing))
      case InYield(oldLevel) => Next(c.(level := oldLevel, mode := Executing))
      case InP(s, oldLevel) => TryP(c, s, oldLevel)
  }

  // ---------------------------------------------------------------- steps

  /** The steps that can happen. Handlers run when interrupts are on, and in the loop of Sleep, where one call of Idle
      may run many of them before Sleep looks at the ready list again. */
  predicate Enabled(k: Kernel, step: Step) {
    match step
    case Create(t) => k.mode == Executing && t !in k.status
    case Start(t) => k.mode == Executing && t in k.status && k.status[t] == JustCreated
    case P(s) => k.mode == Executing && s < |k.sems|
    case V(s) => k.mode == Executing && s < |k.sems|
    case HandlerV(s) => s < |k.sems| && ((k.mode == Executing && k.level == IntOn) || k.mode == Sleeping)
    case Yield => k.mode == Executing
    case Finish => k.mode == Executing
    case Dispatch => k.mode == Sleeping && CanRun(k)
    case Resume => k.mode == Resuming && k.current in k.point && (k.point[k.current].InP? ==> k.point[k.current].sem < |k.sems|)
    case SetLevel(_) => k.mode == Executing
    case Halt => k.mode == Executing
  }

  function Take(k: Kernel, step: Step): Outcome
    requires Enabled(k, step)
  {
    match step
    case Create(t) => Next(k.(status := k.status[t := JustCreated]))
    case Start(t) => Next(ReadyToRun(k, t).(point := k.point[t := Fresh]))
    case P(s) => DoP(k, s)
    case V(s) => DoV(k, s)
    case HandlerV(s) => DoV(k, s)
    case Yield => DoYield(k)
    case Finish => DoFinish(k)
    case Dispatch => RunNext(k)
    case Resume => DoResume(k)
    case SetLevel(now) => Next(k.(level := now))
    case Halt => Next(k.(halted := true))
  }

  // ---------------------------------------------------------------- the invariant

  ghost predicate NoDup(s: seq<Tid>) {
    forall i, j :: 0 <= i < j < |s| ==> s[i] != s[j]
  }

  ghost predicate WaitsOn(k: Kernel, t: Tid, s: nat) {
    t in k.point && k.point[t].InP? && k.point[t].sem == s
  }

  /** The ready list holds the ready threads. */
  ghost predicate ReadyListed(k: Kernel) {
    && NoDup(k.ready)
    && (forall t :: t in k.ready ==> t in k.status && k.status[t] == Ready && t in k.point)
    && (forall t :: t in k.status && k.status[t] == Ready ==> t in k.ready)
  }

  /** The semaphore queues and the slot for a finished thread hold the blocked threads. */
  ghost predicate BlockedListed(k: Kernel) {
    && (forall s :: 0 <= s < |k.sems| ==> NoDup(k.sems[s].queue))
    && (forall s, t :: 0 <= s < |k.sems| && t in k.sems[s].queue ==> t in k.status && k.status[t] == Blocked && WaitsOn(k, t, s))
    && (forall t :: t in k.status && k.status[t] == Blocked && k.toBeDestroyed != Some(t) ==>
          t in k.point && k.point[t].InP? && k.point[t].sem < |k.sems| && t in k.sems[k.point[t].sem].queue)
  }

  /** The current thread, as its mode asks for; in the loop of Sleep it may be on any list already. */
  ghost predicate CurrentPlaced(k: Kernel) {
    && k.current in k.status
    && (forall t :: t in k.status && k.status[t] == Running ==> t == k.current && k.mode != Sleeping)
    && (k.mode == Executing ==> k.status[k.current] == Running && k.current !in k.point && k.toBeDestroyed == None)
    && (k.mode == Resuming ==> k.status[k.current] == Running && k.current in k.point && k.level == IntOff && k.toBeDestroyed != Some(k.current))
    && (k.mode == Sleeping ==> k.level == IntOff && (k.status[k.current] == Ready || k.status[k.current] == Blocked)
                               && (k.toBeDestroyed == None || k.toBeDestroyed == Some(k.current)))
  }

  /** Threads that have a point to go on from are started and alive; a finished thread has none. */
  ghost predicate PointsGood(k: Kernel) {
    && (forall t :: t in k.point ==> t in k.status && k.status[t] != JustCreated)
    && (forall t :: t in k.point && k.point[t].InP? ==> k.point[t].sem < |k.sems|)
    && (k.toBeDestroyed.Some? ==>
          k.toBeDestroyed.value in k.status && k.status[k.toBeDestroyed.value] == Blocked && k.toBeDestroyed.value !in k.point)
  }

  /** The threads that a V on the semaphore has woken and that have not tested its value again. */
  ghost function Woken(k: Kernel, s: nat): set<Tid>
    requires s < |k.sems|
  {
    set t | t in k.point && WaitsOn(k, t, s) && t !in k.sems[s].queue
  }

  /** The value counts completed operations, and no wakeup is lost: as long as somebody waits, every unit of the
      value is on its way to a thread that has been woken. */
  ghost predicate SemaphoreGood(k: Kernel, s: nat)
    requires s < |k.sems|
  {
    var sem := k.sems[s];
    && sem.value == sem.initial + sem.vs - sem.ps && sem.value >= 0
    && (|sem.queue| > 0 ==> sem.value <= |Woken(k, s)|)
  }

  ghost predicate Placed(k: Kernel) {
    ReadyListed(k) && BlockedListed(k) && CurrentPlaced(k) && PointsGood(k)
  }

  ghost predicate Counted(k: Kernel) {
    forall s :: 0 <= s < |k.sems| ==> SemaphoreGood(k, s)
  }

  ghost predicate Inv(k: Kernel) {
    Placed(k) && Counted(k)
  }
}
