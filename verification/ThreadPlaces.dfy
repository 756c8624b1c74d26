/** Every step of the kernel keeps every thread in its place. */
module ThreadPlaces {
  import opened Common
  import opened Kernels

  // ---------------------------------------------------------------- lists

  lemma Appended(s: seq<Tid>, t: Tid)
    requires NoDup(s) && t !in s
    ensures NoDup(s + [t])
    ensures forall x :: x in s + [t] <==> x in s || x == t
  {
  }

  lemma Headless(s: seq<Tid>)
    requires NoDup(s) && |s| > 0
    ensures NoDup(s[1..])
    ensures forall x :: x in s[1..] <==> x in s && x != s[0]
  {
    forall x | x in s && x != s[0]
      ensures x in s[1..]
    {
      var i :| 0 <= i < |s| && s[i] == x;
      assert s[1..][i - 1] == x;
    }
  }

  // ---------------------------------------------------------------- steps

  lemma CreatePlaced(k: Kernel, t: Tid)
    requires Placed(k) && Enabled(k, Create(t))
    ensures Placed(k.(status := k.status[t := JustCreated]))
  {
    hide NoDup;
  }

  function Starting(k: Kernel, t: Tid): Kernel {
    ReadyToRun(k, t).(point := k.point[t := Fresh])
  }

  lemma StartReady(k: Kernel, t: Tid)
    requires ReadyListed(k) && PointsGood(k) && Enabled(k, Start(t))
    ensures ReadyListed(Starting(k, t)) && PointsGood(Starting(k, t))
  {
    hide NoDup;
    Appended(k.ready, t);
  }

  lemma StartBlocked(k: Kernel, t: Tid)
    requires BlockedListed(k) && PointsGood(k) && Enabled(k, Start(t))
    ensures BlockedListed(Starting(k, t))
  {
    hide NoDup;
  }

  lemma StartCurrent(k: Kernel, t: Tid)
    requires CurrentPlaced(k) && Enabled(k, Start(t))
    ensures CurrentPlaced(Starting(k, t))
  {
  }

  lemma StartPlaced(k: Kernel, t: Tid)
    requires Placed(k) && Enabled(k, Start(t))
    ensures Placed(Starting(k, t))
  {
    hide ReadyListed, BlockedListed, CurrentPlaced, PointsGood, Starting;
    StartReady(k, t);
    StartBlocked(k, t);
    StartCurrent(k, t);
  }

  /** The current thread gets in line for a semaphore. */
  function Waiting(k: Kernel, s: nat, oldLevel: IntStatus): Kernel
    requires s < |k.sems|
  {
    var sem := k.sems[s];
    k.(level := IntOff, sems := k.sems[s := sem.(queue := sem.queue + [k.current])], point := k.point[k.current := InP(s, oldLevel)],
       status := k.status[k.current := Blocked], mode := Sleeping)
  }

  lemma WaitBlocked(k: Kernel, s: nat, oldLevel: IntStatus)
    requires Placed(k) && k.mode == Executing && s < |k.sems|
    ensures BlockedListed(Waiting(k, s, oldLevel))
  {
    hide NoDup, ReadyListed, PointsGood;
    assert k.current !in k.sems[s].queue;
    Appended(k.sems[s].queue, k.current);
  }

  lemma WaitOthers(k: Kernel, s: nat, oldLevel: IntStatus)
    requires Placed(k) && k.mode == Executing && s < |k.sems|
    ensures var w := Waiting(k, s, oldLevel); ReadyListed(w) && CurrentPlaced(w) && PointsGood(w)
  {
    hide NoDup, BlockedListed;
  }

  lemma WaitPlaced(k: Kernel, s: nat, oldLevel: IntStatus)
    requires Placed(k) && k.mode == Executing && s < |k.sems| && k.sems[s].value == 0
    ensures var r := TryP(k.(level := IntOff), s, oldLevel); r == Next(Waiting(k, s, oldLevel)) && Placed(r.kernel)
  {
    hide ReadyListed, BlockedListed, CurrentPlaced, PointsGood;
    WaitBlocked(k, s, oldLevel);
    WaitOthers(k, s, oldLevel);
  }

  lemma TakeValuePlaced(k: Kernel, s: nat, oldLevel: IntStatus)
    requires Placed(k) && k.mode == Executing && s < |k.sems| && k.sems[s].value != 0
    ensures var r := TryP(k.(level := IntOff), s, oldLevel); r.Next? && Placed(r.kernel)
  {
    hide NoDup;
  }

  /** The head of the queue has been made ready. */
  function Waking(k: Kernel, s: nat): Kernel
    requires s < |k.sems| && |k.sems[s].queue| > 0
  {
    var sem := k.sems[s];
    ReadyToRun(k, sem.queue[0]).(sems := k.sems[s := sem.(queue := sem.queue[1..], value := sem.value + 1, vs := sem.vs + 1)])
  }

  lemma WakeReady(k: Kernel, s: nat)
    requires Placed(k) && s < |k.sems| && |k.sems[s].queue| > 0
    ensures ReadyListed(Waking(k, s))
  {
    hide NoDup, CurrentPlaced, PointsGood;
    var t := k.sems[s].queue[0];
    assert t in k.sems[s].queue;
    Appended(k.ready, t);
  }

  lemma WakeBlocked(k: Kernel, s: nat)
    requires Placed(k) && s < |k.sems| && |k.sems[s].queue| > 0
    ensures BlockedListed(Waking(k, s))
  {
    hide NoDup, CurrentPlaced, PointsGood, ReadyListed;
    var t, w := k.sems[s].queue[0], Waking(k, s);
    assert t in k.sems[s].queue;
    Headless(k.sems[s].queue);
    forall x | x in w.status && w.status[x] == Blocked && w.toBeDestroyed != Some(x)
      ensures x in w.point && w.point[x].InP? && w.point[x].sem < |w.sems| && x in w.sems[w.point[x].sem].queue
    {
      assert x != t && x in k.sems[k.point[x].sem].queue;
    }
    forall r, x | 0 <= r < |w.sems| && x in w.sems[r].queue
      ensures x in w.status && w.status[x] == Blocked && WaitsOn(w, x, r)
    {
      assert x in k.sems[r].queue && WaitsOn(k, x, r) && WaitsOn(k, t, s);
    }
  }

  lemma WakeOthers(k: Kernel, s: nat)
    requires Placed(k) && s < |k.sems| && |k.sems[s].queue| > 0
    ensures CurrentPlaced(Waking(k, s)) && PointsGood(Waking(k, s))
  {
    hide NoDup, ReadyListed;
    assert k.sems[s].queue[0] in k.sems[s].queue;
  }

  lemma RaisePlaced(k: Kernel, s: nat)
    requires Placed(k) && s < |k.sems|
    ensures Placed(k.(sems := k.sems[s := k.sems[s].(value := k.sems[s].value + 1, vs := k.sems[s].vs + 1)]))
  {
    hide NoDup;
  }

  lemma WakePlaced(k: Kernel, s: nat)
    requires Placed(k) && s < |k.sems| && k.sems[s].value >= 0
    ensures DoV(k, s).Next? && Placed(DoV(k, s).kernel)
    ensures var l, queue := DoV(k, s).kernel, k.sems[s].queue;
            if queue == [] then l.ready == k.ready && l.status == k.status && l.sems[s].queue == []
            else l.ready == k.ready + [queue[0]] && l.status == k.status[queue[0] := Ready] && l.sems[s].queue == queue[1..]
  {
    hide ReadyListed, BlockedListed, CurrentPlaced, PointsGood;
    if |k.sems[s].queue| > 0 {
      WakeReady(k, s);
      WakeBlocked(k, s);
      WakeOthers(k, s);
    } else {
      RaisePlaced(k, s);
    }
  }

  /** A thread that gives up the processor but stays ready is one more thread that waits for it. */
  function SteppingDown(k: Kernel): Kernel {
    ReadyToRun(k, k.current).(point := k.point[k.current := InYield(k.level)], level := IntOff, mode := Sleeping)
  }

  lemma SteppingDownReady(k: Kernel)
    requires ReadyListed(k) && CurrentPlaced(k) && PointsGood(k) && k.mode == Executing
    ensures ReadyListed(SteppingDown(k)) && PointsGood(SteppingDown(k)) && CurrentPlaced(SteppingDown(k))
  {
    hide NoDup;
    Appended(k.ready, k.current);
  }

  lemma SteppingDownBlocked(k: Kernel)
    requires BlockedListed(k) && CurrentPlaced(k) && k.mode == Executing
    ensures BlockedListed(SteppingDown(k))
  {
    hide NoDup;
  }

  lemma RunningIsNotReady(k: Kernel)
    requires Placed(k) && k.mode == Executing
    ensures k.current !in k.ready
  {
    hide NoDup, BlockedListed, PointsGood;
  }

  lemma YieldPlaced(k: Kernel)
    requires Placed(k) && k.mode == Executing
    ensures DoYield(k).Next? && Placed(DoYield(k).kernel)
    ensures var l := DoYield(k).kernel;
            if !k.halted && k.ready != []
            then l.current == k.ready[0] && l.ready == k.ready[1..] + [k.current] && l.status[k.current] == Ready
            else l == k
  {
    hide ReadyListed, BlockedListed, CurrentPlaced, PointsGood, NoDup;
    if CanRun(k) {
      var down := SteppingDown(k);
      SteppingDownReady(k);
      SteppingDownBlocked(k);
      RunningIsNotReady(k);
      assert k.ready[0] in k.ready;
      DispatchPlaced(down);
      assert down.ready[1..] == k.ready[1..] + [k.current];
      assert DoYield(k) == RunNext(down);
    }
  }

  function Finishing(k: Kernel): Kernel {
    k.(level := IntOff, toBeDestroyed := Some(k.current), status := k.status[k.current := Blocked], mode := Sleeping)
  }

  lemma FinishReady(k: Kernel)
    requires ReadyListed(k) && CurrentPlaced(k) && PointsGood(k) && k.mode == Executing
    ensures ReadyListed(Finishing(k)) && PointsGood(Finishing(k)) && CurrentPlaced(Finishing(k))
  {
    hide NoDup;
  }

  lemma FinishBlocked(k: Kernel)
    requires BlockedListed(k) && CurrentPlaced(k) && k.mode == Executing
    ensures BlockedListed(Finishing(k))
  {
    hide NoDup;
  }

  lemma FinishPlaced(k: Kernel)
    requires Placed(k) && k.mode == Executing
    ensures DoFinish(k).Next? && Placed(DoFinish(k).kernel)
    ensures k.toBeDestroyed == None && DoFinish(k).kernel.toBeDestroyed == Some(k.current)
    ensures k.current in DoFinish(k).kernel.status && DoFinish(k).kernel.status[k.current] == Blocked
  {
    hide ReadyListed, BlockedListed, PointsGood;
    FinishReady(k);
    FinishBlocked(k);
  }

  lemma DispatchReady(k: Kernel)
    requires Placed(k) && Enabled(k, Dispatch)
    ensures RunNext(k).Next? && ReadyListed(RunNext(k).kernel)
  {
    hide NoDup, BlockedListed, PointsGood;
    assert k.ready[0] in k.ready;
    Headless(k.ready);
  }

  lemma DispatchBlocked(k: Kernel)
    requires Placed(k) && Enabled(k, Dispatch)
    ensures RunNext(k).Next? && BlockedListed(RunNext(k).kernel)
  {
    hide NoDup, PointsGood;
    assert k.ready[0] in k.ready;
  }

  lemma DispatchOthers(k: Kernel)
    requires Placed(k) && Enabled(k, Dispatch)
    ensures RunNext(k).Next? && CurrentPlaced(RunNext(k).kernel) && PointsGood(RunNext(k).kernel)
  {
    hide NoDup, BlockedListed;
    assert k.ready[0] in k.ready;
  }

  lemma DispatchPlaced(k: Kernel)
    requires Placed(k) && Enabled(k, Dispatch)
    ensures RunNext(k).Next? && Placed(RunNext(k).kernel)
    ensures var l := RunNext(k).kernel;
            && l.current == k.ready[0] && l.status == k.status[k.ready[0] := Running] && l.ready == k.ready[1..]
            && l.dispatched == k.dispatched + [k.ready[0]]
  {
    hide ReadyListed, BlockedListed, CurrentPlaced, PointsGood;
    DispatchReady(k);
    DispatchBlocked(k);
    DispatchOthers(k);
  }

  /** Back from SWITCH, the thread has the processor and nothing is left to be destroyed. */
  function Back(k: Kernel, level: IntStatus): Kernel {
    var point := k.point - {k.current};
    match k.toBeDestroyed
    case None => k.(point := point, level := level, mode := Executing)
    case Some(t) => k.(point := point, level := level, mode := Executing, status := k.status - {t}, toBeDestroyed := None)
  }

  lemma BackReady(k: Kernel, level: IntStatus)
    requires ReadyListed(k) && CurrentPlaced(k) && PointsGood(k) && k.mode == Resuming
    ensures ReadyListed(Back(k, level)) && PointsGood(Back(k, level))
  {
    hide NoDup;
  }

  lemma BackCurrent(k: Kernel, level: IntStatus)
    requires CurrentPlaced(k) && k.mode == Resuming
    ensures CurrentPlaced(Back(k, level))
  {
  }

  lemma BackBlocked(k: Kernel, level: IntStatus)
    requires BlockedListed(k) && CurrentPlaced(k) && PointsGood(k) && k.mode == Resuming
    ensures BlockedListed(Back(k, level))
  {
    hide NoDup;
  }

  lemma BackPlaced(k: Kernel, level: IntStatus)
    requires Placed(k) && k.mode == Resuming
    ensures var r := DestroyCarcass(k.(point := k.point - {k.current}));
            r.Next? && r.kernel.(level := level, mode := Executing) == Back(k, level) && Placed(Back(k, level))
  {
    hide ReadyListed, BlockedListed, PointsGood;
    BackReady(k, level);
    BackCurrent(k, level);
    BackBlocked(k, level);
  }
}
