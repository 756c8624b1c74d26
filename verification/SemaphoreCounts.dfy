/** Every step of the kernel keeps the account of every semaphore. */
module SemaphoreCounts {
  import opened Common
  import opened Kernels

  /** The threads that are inside P on the semaphore and do not have the processor back yet. */
  ghost function Inside(k: Kernel, s: nat): set<Tid> {
    set t | t in k.point && WaitsOn(k, t, s)
  }

  /** Operations on the semaphore that have been begun: completed, or with a thread still inside. */
  ghost function BegunPs(k: Kernel, s: nat): nat
    requires s < |k.sems|
  {
    k.sems[s].ps + |Inside(k, s)|
  }

  /** The account of the semaphore while a woken thread is testing its value: that thread has been taken off the
      woken ones already. */
  ghost predicate AlmostGood(k: Kernel, s: nat)
    requires s < |k.sems|
  {
    var sem := k.sems[s];
    && sem.value == sem.initial + sem.vs - sem.ps && sem.value >= 0
    && (|sem.queue| > 0 ==> sem.value <= |Woken(k, s)| + 1)
  }

  /** A semaphore that a step leaves alone. */
  lemma Untouched(k: Kernel, l: Kernel, s: nat)
    requires s < |k.sems| && s < |l.sems| && l.sems[s] == k.sems[s]
    requires forall t :: WaitsOn(l, t, s) <==> WaitsOn(k, t, s)
    ensures Woken(l, s) == Woken(k, s) && Inside(l, s) == Inside(k, s)
    ensures SemaphoreGood(k, s) ==> SemaphoreGood(l, s)
  {
    hide WaitsOn;
    assert forall t :: WaitsOn(l, t, s) ==> t in l.point by { WaitersHavePoints(l, s); }
    assert forall t :: WaitsOn(k, t, s) ==> t in k.point by { WaitersHavePoints(k, s); }
    assert Woken(l, s) == Woken(k, s);
    assert Inside(l, s) == Inside(k, s);
  }

  lemma WaitersHavePoints(k: Kernel, s: nat)
    ensures forall t :: WaitsOn(k, t, s) ==> t in k.point
  {
  }

  lemma AllUntouched(k: Kernel, l: Kernel)
    requires Counted(k) && l.sems == k.sems
    requires forall s, t :: WaitsOn(l, t, s) <==> WaitsOn(k, t, s)
    ensures Counted(l)
    ensures forall s :: 0 <= s < |k.sems| ==> BegunPs(l, s) == BegunPs(k, s)
  {
    hide WaitsOn, SemaphoreGood, Woken, Inside;
    forall s | 0 <= s < |k.sems|
      ensures SemaphoreGood(l, s) && BegunPs(l, s) == BegunPs(k, s)
    {
      Untouched(k, l, s);
    }
  }

  // ---------------------------------------------------------------- the loop of P

  /** The thread finds no value: it is not a woken one, and the value is zero. */
  lemma WaitCounted(k: Kernel, s: nat, oldLevel: IntStatus, l: Kernel)
    requires s < |k.sems| && AlmostGood(k, s) && k.sems[s].value == 0 && k.current !in k.point
    requires l.point == k.point[k.current := InP(s, oldLevel)]
    requires l.sems == k.sems[s := k.sems[s].(queue := k.sems[s].queue + [k.current])]
    ensures SemaphoreGood(l, s) && BegunPs(l, s) == BegunPs(k, s) + 1
  {
    hide WaitsOn, Woken;
    WaitersHavePoints(k, s);
    WaitersAfter(k, l, s, oldLevel);
    assert Inside(l, s) == Inside(k, s) + {k.current};
  }

  lemma WaitersAfter(k: Kernel, l: Kernel, s: nat, oldLevel: IntStatus)
    requires l.point == k.point[k.current := InP(s, oldLevel)]
    ensures forall t :: WaitsOn(l, t, s) <==> WaitsOn(k, t, s) || t == k.current
  {
  }

  lemma TakeCounted(k: Kernel, s: nat, l: Kernel)
    requires s < |k.sems| && AlmostGood(k, s) && k.sems[s].value != 0
    requires l.point == k.point
    requires l.sems == k.sems[s := k.sems[s].(value := k.sems[s].value - 1, ps := k.sems[s].ps + 1)]
    ensures SemaphoreGood(l, s) && BegunPs(l, s) == BegunPs(k, s) + 1
  {
    hide WaitsOn;
    forall t
      ensures WaitsOn(l, t, s) <==> WaitsOn(k, t, s)
    {
      WaitsByPoint(k, l, t, s);
    }
    WaitersHavePoints(k, s);
    WaitersHavePoints(l, s);
    assert Woken(l, s) == Woken(k, s);
    assert Inside(l, s) == Inside(k, s);
  }

  lemma WaitsByPoint(k: Kernel, l: Kernel, t: Tid, s: nat)
    requires (t in k.point) == (t in l.point) && (t in k.point ==> l.point[t] == k.point[t])
    ensures WaitsOn(l, t, s) <==> WaitsOn(k, t, s)
  {
  }

  /** One turn of the loop of P, by a thread that is not inside any P according to its point. */
  lemma TryCounted(k: Kernel, s: nat, oldLevel: IntStatus)
    requires s < |k.sems| && AlmostGood(k, s) && k.level == IntOff && k.current !in k.point
    requires forall r :: 0 <= r < |k.sems| && r != s ==> SemaphoreGood(k, r)
    ensures var r := TryP(k, s, oldLevel);
            && r.Next? && Counted(r.kernel) && |r.kernel.sems| == |k.sems| && BegunPs(r.kernel, s) == BegunPs(k, s) + 1
            && forall q :: 0 <= q < |k.sems| && q != s ==> BegunPs(r.kernel, q) == BegunPs(k, q)
  {
    hide WaitsOn, Woken, Inside, SemaphoreGood, AlmostGood;
    var l := TryP(k, s, oldLevel).kernel;
    if k.sems[s].value == 0 {
      WaitCounted(k, s, oldLevel, l);
    } else {
      TakeCounted(k, s, l);
    }
    forall q | 0 <= q < |k.sems| && q != s
      ensures SemaphoreGood(l, q) && BegunPs(l, q) == BegunPs(k, q)
    {
      forall t
        ensures WaitsOn(l, t, q) <==> WaitsOn(k, t, q)
      {
        if t == k.current && k.sems[s].value == 0 {
          WaitsElsewhere(k, l, t, s, q);
        } else {
          WaitsByPoint(k, l, t, q);
        }
      }
      Untouched(k, l, q);
    }
  }

  lemma WaitsElsewhere(k: Kernel, l: Kernel, t: Tid, s: nat, q: nat)
    requires t !in k.point && t in l.point && l.point[t].InP? && l.point[t].sem == s && q != s
    ensures !WaitsOn(k, t, q) && !WaitsOn(l, t, q)
  {
  }

  lemma PCounted(k: Kernel, s: nat)
    requires Inv(k) && Enabled(k, P(s))
    ensures var r := DoP(k, s);
            && r.Next? && Counted(r.kernel) && |r.kernel.sems| == |k.sems| && BegunPs(r.kernel, s) == BegunPs(k, s) + 1
            && forall q :: 0 <= q < |k.sems| && q != s ==> BegunPs(r.kernel, q) == BegunPs(k, q)
  {
    hide WaitsOn, Woken, Inside, NoDup, ReadyListed, BlockedListed, PointsGood;
    var off := k.(level := IntOff);
    forall t, q: nat
      ensures WaitsOn(off, t, q) <==> WaitsOn(k, t, q)
    {
      WaitsByPoint(k, off, t, q);
    }
    AllUntouched(k, off);
    assert SemaphoreGood(off, s);
    TryCounted(off, s, k.level);
  }

  // ---------------------------------------------------------------- V

  lemma WakeCounted(k: Kernel, s: nat)
    requires Inv(k) && s < |k.sems|
    ensures var r := DoV(k, s);
            && r.Next? && Counted(r.kernel) && |r.kernel.sems| == |k.sems|
            && r.kernel.sems[s].value == k.sems[s].value + 1
            && |Woken(r.kernel, s)| == |Woken(k, s)| + (if k.sems[s].queue == [] then 0 else 1)
            && forall q :: 0 <= q < |k.sems| ==> BegunPs(r.kernel, q) == BegunPs(k, q)
  {
    hide WaitsOn, Woken, Inside, ReadyListed, CurrentPlaced, PointsGood, NoDup, BlockedListed;
    assert SemaphoreGood(k, s);
    var l := DoV(k, s).kernel;
    forall t, q: nat
      ensures WaitsOn(l, t, q) <==> WaitsOn(k, t, q)
    {
      WaitsByPoint(k, l, t, q);
    }
    VCounted(k, s, l);
    forall q | 0 <= q < |k.sems|
      ensures SemaphoreGood(l, q) && BegunPs(l, q) == BegunPs(k, q)
    {
      if q != s {
        Untouched(k, l, q);
      }
    }
  }

  lemma VCounted(k: Kernel, s: nat, l: Kernel)
    requires Inv(k) && s < |k.sems|
    requires DoV(k, s) == Next(l)
    requires forall t :: WaitsOn(l, t, s) <==> WaitsOn(k, t, s)
    ensures SemaphoreGood(l, s) && BegunPs(l, s) == BegunPs(k, s) && l.sems[s].value == k.sems[s].value + 1
    ensures |Woken(l, s)| == |Woken(k, s)| + (if k.sems[s].queue == [] then 0 else 1)
  {
    hide WaitsOn, ReadyListed, CurrentPlaced, PointsGood;
    assert SemaphoreGood(k, s);
    WaitersHavePoints(k, s);
    WaitersHavePoints(l, s);
    assert Inside(l, s) == Inside(k, s);
    var queue := k.sems[s].queue;
    if |queue| > 0 {
      assert queue[0] in queue && WaitsOn(k, queue[0], s);
      assert forall t :: t in queue <==> t == queue[0] || t in queue[1..];
      assert queue[0] !in queue[1..];
      assert Woken(l, s) == Woken(k, s) + {queue[0]};
    } else {
      assert Woken(l, s) == Woken(k, s);
    }
  }

  // ---------------------------------------------------------------- the other steps

  /** The current thread leaves the set of threads with a point to go on from. */
  lemma LeftCounted(k: Kernel, l: Kernel)
    requires Inv(k) && k.mode == Resuming
    requires l.sems == k.sems && l.point == k.point - {k.current}
    ensures var at := k.point[k.current];
            && (forall s :: 0 <= s < |k.sems| && !(at.InP? && at.sem == s) ==> SemaphoreGood(l, s) && BegunPs(l, s) == BegunPs(k, s))
            && (at.InP? ==> at.sem < |k.sems| && AlmostGood(l, at.sem) && BegunPs(l, at.sem) == BegunPs(k, at.sem) - 1)
  {
    hide ReadyListed, NoDup, Woken, Inside, SemaphoreGood, AlmostGood, BegunPs, BlockedListed;
    var at := k.point[k.current];
    forall s | 0 <= s < |k.sems| && !(at.InP? && at.sem == s)
      ensures SemaphoreGood(l, s) && BegunPs(l, s) == BegunPs(k, s)
    {
      Untouched(k, l, s);
      SameBegun(k, l, s);
    }
    if at.InP? {
      TesterCounted(k, l, at.sem);
    }
  }

  lemma SameBegun(k: Kernel, l: Kernel, s: nat)
    requires s < |k.sems| && s < |l.sems| && l.sems[s] == k.sems[s] && Inside(l, s) == Inside(k, s)
    ensures BegunPs(l, s) == BegunPs(k, s)
  {
  }

  lemma TesterCounted(k: Kernel, l: Kernel, s: nat)
    requires Inv(k) && k.mode == Resuming && s < |k.sems|
    requires l.sems == k.sems && l.point == k.point - {k.current}
    requires WaitsOn(k, k.current, s)
    ensures AlmostGood(l, s) && BegunPs(l, s) == BegunPs(k, s) - 1
  {
    hide ReadyListed, NoDup, PointsGood;
    assert SemaphoreGood(k, s);
    assert k.current !in k.sems[s].queue;
    assert Woken(k, s) == Woken(l, s) + {k.current};
    assert Inside(k, s) == Inside(l, s) + {k.current};
  }

  lemma ResumeCounted(k: Kernel)
    requires Inv(k) && Enabled(k, Resume)
    ensures var r := DoResume(k);
            && r.Next? && Counted(r.kernel) && |r.kernel.sems| == |k.sems|
            && forall s :: 0 <= s < |k.sems| ==> BegunPs(r.kernel, s) == BegunPs(k, s)
  {
    hide ReadyListed, BlockedListed, PointsGood, NoDup, Woken, Inside, SemaphoreGood, AlmostGood, BegunPs, WaitsOn;
    var c := DestroyCarcass(k.(point := k.point - {k.current})).kernel;
    LeftCounted(k, c);
    var at := k.point[k.current];
    if at.InP? {
      TryCounted(c, at.sem, at.oldLevel);
    } else {
      var l := DoResume(k).kernel;
      forall s: nat, t
        ensures WaitsOn(l, t, s) <==> WaitsOn(c, t, s)
      {
        WaitsByPoint(c, l, t, s);
      }
      AllUntouched(c, l);
    }
  }
}
