/** Simulated time and the interrupts that devices schedule. */
module Interrupts {
  import opened Common
  import opened Lists

  const UserTick := 1
  const SystemTick := 10

  datatype MachineStatus = IdleMode | SystemMode | UserMode
  datatype IntType = TimerInt | DiskInt | ConsoleWriteInt | ConsoleReadInt | NetworkSendInt | NetworkRecvInt

  /** A scheduled interrupt; `serial` tells all of them apart. */
  datatype PendingInterrupt = PendingInterrupt(serial: nat, when: nat, kind: IntType)

  type Queue = seq<Entry<PendingInterrupt>>

  /** An interrupt that has been handled, the time when it was, and how many had been scheduled before. */
  datatype Firing = Firing(what: PendingInterrupt, at: nat, count: nat)

  /** What a handler asks for: another interrupt, some positive time from now. */
  datatype Wish = Wish(fromNow: nat, kind: IntType)

  // ---------------------------------------------------------------- the history

  function Items(q: Queue): (s: seq<PendingInterrupt>)
    ensures |s| == |q|
  {
    seq(|q|, i requires 0 <= i < |q| => q[i].item)
  }

  function Whats(fired: seq<Firing>): (s: seq<PendingInterrupt>)
    ensures |s| == |fired|
  {
    seq(|fired|, i requires 0 <= i < |fired| => fired[i].what)
  }

  /** Everything that was ever scheduled has fired or is pending, each exactly once. */
  ghost predicate Conserved(scheduled: seq<PendingInterrupt>, fired: seq<Firing>, pending: Queue) {
    && (forall i :: 0 <= i < |scheduled| ==> scheduled[i].serial == i)
    && multiset(scheduled) == multiset(Whats(fired)) + multiset(Items(pending))
  }

  /** Nothing has fired early; interrupts have fired in the order of the times they were scheduled for, at times
      that never go back; and nothing is pending for a time before the last one fired. */
  ghost predicate InOrder(fired: seq<Firing>, pending: Queue, now: nat) {
    && (forall i :: 0 <= i < |fired| ==> fired[i].what.when <= fired[i].at <= now)
    && (forall i, j :: 0 <= i < j < |fired| ==> fired[i].what.when <= fired[j].what.when && fired[i].at <= fired[j].at)
    && (forall i, j :: 0 <= i < |fired| && 0 <= j < |pending| ==> fired[i].what.when <= pending[j].key)
  }

  ghost predicate GoodQueue(pending: Queue) {
    Sorted(pending) && forall i :: 0 <= i < |pending| ==> pending[i].key == pending[i].item.when
  }

  /** How many pending interrupts are due. */
  function CountDue(pending: Queue, now: nat): nat {
    if |pending| == 0 then 0 else (if pending[0].key <= now then 1 else 0) + CountDue(pending[1..], now)
  }

  lemma InsertedItems(pending: Queue, item: PendingInterrupt)
    ensures multiset(Items(Inserted(pending, item, item.when))) == multiset(Items(pending)) + multiset{item}
  {
    var p := Position(pending, item.when, 0);
    InsertedBag(Items(pending), p, item);
    assert Items(Inserted(pending, item, item.when)) == Items(pending)[..p] + [item] + Items(pending)[p..];
  }

  lemma InsertedGood(pending: Queue, item: PendingInterrupt)
    requires GoodQueue(pending)
    ensures GoodQueue(Inserted(pending, item, item.when))
  {
    InsertedSorted(pending, item, item.when);
  }

  /** Taking the first interrupt off a queue and putting it back leaves the same queue up to the order of equal keys. */
  lemma PutBack(pending: Queue)
    requires GoodQueue(pending) && |pending| > 0
    ensures var q := Inserted(pending[1..], pending[0].item, pending[0].key);
            GoodQueue(q) && |q| == |pending| && multiset(Items(q)) == multiset(Items(pending))
            && (forall j :: 0 <= j < |q| ==> q[j].key >= pending[0].key)
  {
    hide Items, Position;
    InsertedItems(pending[1..], pending[0].item);
    InsertedGood(pending[1..], pending[0].item);
    HeadItem(pending);
    KeysFrom(pending);
  }

  lemma KeysFrom(pending: Queue)
    requires GoodQueue(pending) && |pending| > 0
    ensures var q := Inserted(pending[1..], pending[0].item, pending[0].key);
            forall j :: 0 <= j < |q| ==> q[j].key >= pending[0].key
  {
  }

  lemma HeadItem(pending: Queue)
    requires |pending| > 0
    ensures multiset(Items(pending)) == multiset{pending[0].item} + multiset(Items(pending[1..]))
  {
    assert Items(pending) == [pending[0].item] + Items(pending[1..]);
  }

  /** So each scheduled interrupt occurs once among the fired and the pending ones, and nothing else does. */
  lemma ExactlyOnce(scheduled: seq<PendingInterrupt>, fired: seq<Firing>, pending: Queue, item: PendingInterrupt)
    requires Conserved(scheduled, fired, pending)
    ensures multiset(Whats(fired))[item] + multiset(Items(pending))[item] == if item in scheduled then 1 else 0
  {
    if item in scheduled {
      CountDistinct(scheduled, item);
    } else {
      assert item !in multiset(scheduled);
    }
  }

  lemma {:induction false} CountDistinct(s: seq<PendingInterrupt>, item: PendingInterrupt)
    requires forall i :: 0 <= i < |s| ==> s[i].serial == i
    requires item in s
    ensures multiset(s)[item] == 1
  {
    var front, last := s[..|s| - 1], s[|s| - 1];
    assert s == front + [last];
    if item in front {
      CountDistinct(front, item);
    }
  }

  /** A new interrupt is recorded and pending. */
  lemma ScheduledConserved(scheduled: seq<PendingInterrupt>, fired: seq<Firing>, pending: Queue, item: PendingInterrupt)
    requires Conserved(scheduled, fired, pending) && item.serial == |scheduled|
    ensures Conserved(scheduled + [item], fired, Inserted(pending, item, item.when))
  {
    InsertedItems(pending, item);
  }

  lemma ScheduledInOrder(fired: seq<Firing>, pending: Queue, now: nat, item: PendingInterrupt)
    requires InOrder(fired, pending, now) && item.when >= now
    ensures InOrder(fired, Inserted(pending, item, item.when), now)
  {
  }

  /** The first pending interrupt fires. */
  lemma FiredConserved(scheduled: seq<PendingInterrupt>, fired: seq<Firing>, pending: Queue, at: nat)
    requires Conserved(scheduled, fired, pending) && |pending| > 0
    ensures Conserved(scheduled, fired + [Firing(pending[0].item, at, |scheduled|)], pending[1..])
  {
    HeadItem(pending);
    assert Whats(fired + [Firing(pending[0].item, at, |scheduled|)]) == Whats(fired) + [pending[0].item];
  }

  lemma FiredInOrder(fired: seq<Firing>, pending: Queue, now: nat, at: nat, count: nat)
    requires InOrder(fired, pending, now) && GoodQueue(pending) && |pending| > 0
    requires at >= now && at >= pending[0].key
    ensures InOrder(fired + [Firing(pending[0].item, at, count)], pending[1..], at)
  {
  }

  lemma SameItemsConserved(scheduled: seq<PendingInterrupt>, fired: seq<Firing>, p: Queue, q: Queue)
    requires Conserved(scheduled, fired, p) && multiset(Items(p)) == multiset(Items(q))
    ensures Conserved(scheduled, fired, q)
  {
  }

  lemma {:induction false} InsertLater(pending: Queue, item: PendingInterrupt, now: nat)
    requires item.when > now
    ensures CountDue(Inserted(pending, item, item.when), now) == CountDue(pending, now)
  {
    var q := Inserted(pending, item, item.when);
    if |pending| == 0 || item.when < pending[0].key {
      assert q == [Entry(item.when, item)] + pending;
    } else {
      InsertLater(pending[1..], item, now);
      PositionShift(pending, item.when, 1);
      assert q[1..] == Inserted(pending[1..], item, item.when);
    }
  }

  lemma {:induction false} PositionShift(s: Queue, key: int, i: nat)
    requires 1 <= i <= |s|
    ensures Position(s, key, i) == 1 + Position(s[1..], key, i - 1)
    decreases |s| - i
  {
    if i < |s| && key >= s[i].key {
      PositionShift(s, key, i + 1);
    }
  }

  lemma NobodyAsked(handlers: Handlers, fired: seq<Firing>)
    ensures !AskedForYield(handlers, fired, |fired|)
  {
  }

  lemma PutBackInOrder(fired: seq<Firing>, pending: Queue, now: nat, later: nat)
    requires GoodQueue(pending) && |pending| > 0 && InOrder(fired, pending, now) && now <= later
    ensures InOrder(fired, Inserted(pending[1..], pending[0].item, pending[0].key), later)
  {
    KeysFrom(pending);
  }

  lemma OnlyOne(pending: Queue)
    requires GoodQueue(pending) && |pending| == 1
    ensures Inserted(pending[1..], pending[0].item, pending[0].key) == pending
  {
  }

  /** The key of the first entry, the time its interrupt is to occur. */
  function FirstWhen(pending: Queue): (when: nat)
    requires |pending| > 0 && GoodQueue(pending)
    ensures when == pending[0].key
  {
    pending[0].item.when
  }

  ghost predicate NothingDue(pending: Queue, now: nat) {
    forall i :: 0 <= i < |pending| ==> pending[i].key > now
  }

  /** All that is pending is one timer interrupt. */
  predicate LoneTimer(pending: Queue) {
    |pending| == 1 && pending[0].item.kind == TimerInt
  }

  // ---------------------------------------------------------------- handlers

  /** What a handler does, given its interrupt and how many have been scheduled so far: the interrupts it asks for,
      and whether it asks for a yield. */
  type Handlers = (PendingInterrupt, nat) -> (seq<Wish>, bool)

  ghost predicate Positive(wishes: seq<Wish>) {
    forall w :: w in wishes ==> w.fromNow > 0
  }

  /** The interrupts that a handler's wishes come to, asked for at time `now` when `count` have been scheduled. */
  function Wanted(wishes: seq<Wish>, count: nat, now: nat): (s: seq<PendingInterrupt>)
    ensures |s| == |wishes|
  {
    seq(|wishes|, i requires 0 <= i < |wishes| => PendingInterrupt(count + i, now + wishes[i].fromNow, wishes[i].kind))
  }

  /** Some handler that was called from firing `from` on asked for a yield. */
  ghost predicate AskedForYield(handlers: Handlers, fired: seq<Firing>, from: nat) {
    exists i :: from <= i < |fired| && handlers(fired[i].what, fired[i].count).1
  }

  /** One more firing adds the wish of its own handler. */
  lemma AskedOnceMore(handlers: Handlers, fired: seq<Firing>, from: nat, next: Firing)
    requires from <= |fired|
    ensures AskedForYield(handlers, fired + [next], from) <==> AskedForYield(handlers, fired, from) || handlers(next.what, next.count).1
  {
    var longer := fired + [next];
    if AskedForYield(handlers, fired, from) {
      var i :| from <= i < |fired| && handlers(fired[i].what, fired[i].count).1;
      assert longer[i] == fired[i];
    }
    assert longer[|fired|] == next;
    if AskedForYield(handlers, longer, from) && !handlers(next.what, next.count).1 {
      var i :| from <= i < |longer| && handlers(longer[i].what, longer[i].count).1;
      assert fired[i] == longer[i];
    }
  }

  // ---------------------------------------------------------------- the machine idles

  /** The last pending interrupt is a timer interrupt that is due by `now`, and nothing will be scheduled by the
      handlers of those before it, so that it comes to be the only one. */
  ghost predicate TimerComesLast(handlers: Handlers, pending: Queue, count: nat, now: nat) {
    && |pending| > 0
    && pending[|pending| - 1].item.kind == TimerInt && pending[|pending| - 1].key <= now
    && forall i :: 0 <= i < |pending| - 1 ==> handlers(pending[i].item, count).0 == []
  }

  /** Firing the first interrupt, unless it is a lone timer, does not change that; `after` is what is pending then. */
  lemma FiringKeepsTimerLast(handlers: Handlers, before: Queue, after: Queue, count: nat, later: nat, now: nat)
    requires |before| > 0 && !LoneTimer(before)
    requires handlers(before[0].item, count).0 == [] ==> after == before[1..] && later == count
    requires handlers(before[0].item, count).0 != [] ==> |after| > 0 && after[|after| - 1].key > now
    ensures TimerComesLast(handlers, after, later, now) <==> TimerComesLast(handlers, before, count, now)
  {
    if handlers(before[0].item, count).0 == [] && |before| > 1 {
      assert after[|after| - 1] == before[|before| - 1];
      if TimerComesLast(handlers, after, later, now) {
        forall i | 0 <= i < |before| - 1
          ensures handlers(before[i].item, count).0 == []
        {
          assert i > 0 ==> before[i] == after[i - 1];
        }
      }
    }
  }

  /** When firing stops, the timer is what is left due, if anything is. */
  lemma WhatIsLeftDue(handlers: Handlers, pending: Queue, count: nat, now: nat)
    requires GoodQueue(pending)
    requires NothingDue(pending, now) || LoneTimer(pending)
    ensures NothingDue(pending, now) <==> !TimerComesLast(handlers, pending, count, now)
  {
  }

  lemma FirstIsLater(pending: Queue, now: nat)
    requires GoodQueue(pending) && (|pending| == 0 || pending[0].key > now)
    ensures NothingDue(pending, now)
  {
  }

  /** Something scheduled for later than `now` puts the last time of the queue after `now`. */
  lemma InsertedLast(pending: Queue, item: PendingInterrupt, now: nat)
    requires GoodQueue(pending) && item.when > now
    ensures var q := Inserted(pending, item, item.when); |q| > 0 && q[|q| - 1].key > now
  {
    InsertedGood(pending, item);
    var p := Position(pending, item.when, 0);
    assert Inserted(pending, item, item.when)[p].key == item.when;
  }

  // ---------------------------------------------------------------- the class

  class Interrupt {
    const handlers: Handlers
    var level: IntStatus
    var pending: Queue
    var inHandler: bool
    var yieldOnReturn: bool
    var status: MachineStatus
    var totalTicks: nat
    var idleTicks: nat
    var systemTicks: nat
    var userTicks: nat
    var allocations: nat
    ghost var scheduled: seq<PendingInterrupt>
    ghost var fired: seq<Firing>

    ghost predicate Valid()
      reads this
    {
      && (forall p, n :: Positive(handlers(p, n).0))
      && GoodQueue(pending) && allocations == |scheduled|
      && Conserved(scheduled, fired, pending)
      && InOrder(fired, pending, totalTicks)
      && totalTicks == idleTicks + systemTicks + userTicks
    }

    constructor (handlers: Handlers)
      requires forall p, n :: Positive(handlers(p, n).0)
      ensures Valid() && level == IntOff && !inHandler && !yieldOnReturn && status == SystemMode
      ensures totalTicks == 0 && pending == [] && scheduled == [] && fired == [] && this.handlers == handlers
    {
      this.handlers := handlers;
      level, pending, inHandler, yieldOnReturn, status := IntOff, [], false, false, SystemMode;
      totalTicks, idleTicks, systemTicks, userTicks := 0, 0, 0, 0;
      allocations, scheduled, fired := 0, [], [];
    }

    method Schedule(fromNow: nat, kind: IntType)
      requires Valid() && fromNow > 0
      modifies this`pending, this`scheduled, this`allocations
      ensures Valid()
      ensures var item := PendingInterrupt(|old(scheduled)|, totalTicks + fromNow, kind);
              scheduled == old(scheduled) + [item] && pending == Inserted(old(pending), item, item.when)
    {
      hide Conserved, InOrder, GoodQueue, Inserted;
      var when := totalTicks + fromNow;
      var toOccur := PendingInterrupt(allocations, when, kind);
      InsertedGood(pending, toOccur);
      ScheduledConserved(scheduled, fired, pending, toOccur);
      ScheduledInOrder(fired, pending, totalTicks, toOccur);
      pending := Inserted(pending, toOccur, when);
      scheduled := scheduled + [toOccur];
      allocations := allocations + 1;
    }

    /** The call of a handler: it may schedule interrupts and ask for a yield. */
    method CallHandler(toOccur: PendingInterrupt, count: nat)
      requires Valid()
      modifies this`pending, this`scheduled, this`allocations, this`yieldOnReturn
      ensures Valid() && old(scheduled) <= scheduled
      ensures CountDue(pending, totalTicks) == CountDue(old(pending), totalTicks)
      ensures scheduled == old(scheduled) + Wanted(handlers(toOccur, count).0, |old(scheduled)|, totalTicks)
      ensures handlers(toOccur, count).0 == [] ==> pending == old(pending)
      ensures handlers(toOccur, count).0 != [] ==> |pending| > 0 && pending[|pending| - 1].key > totalTicks
      ensures yieldOnReturn <==> old(yieldOnReturn) || handlers(toOccur, count).1
    {
      hide Conserved, InOrder, GoodQueue, Inserted;
      var (wishes, mustYield) := handlers(toOccur, count);
      assert Positive(handlers(toOccur, count).0);
      for i := 0 to |wishes|
        invariant Valid() && scheduled == old(scheduled) + Wanted(wishes[..i], |old(scheduled)|, totalTicks)
        invariant CountDue(pending, totalTicks) == CountDue(old(pending), totalTicks)
        invariant yieldOnReturn == old(yieldOnReturn)
        invariant if i == 0 then pending == old(pending) else |pending| > 0 && pending[|pending| - 1].key > totalTicks
      {
        assert wishes[i] in wishes;
        ghost var item := PendingInterrupt(|scheduled|, totalTicks + wishes[i].fromNow, wishes[i].kind);
        InsertLater(pending, item, totalTicks);
        InsertedLast(pending, item, totalTicks);
        Schedule(wishes[i].fromNow, wishes[i].kind);
        assert Wanted(wishes[..i + 1], |old(scheduled)|, totalTicks) == Wanted(wishes[..i], |old(scheduled)|, totalTicks) + [item];
      }
      assert wishes[..|wishes|] == wishes;
      if mustYield {
        yieldOnReturn := true;
      }
    }

    /** `before` is the queue that Valid speaks of, while its first interrupt is in the hands of CheckIfDue. */
    ghost predicate HoldsFirst(before: Queue, now: nat)
      reads this
    {
      && (forall p, n :: Positive(handlers(p, n).0))
      && |before| > 0 && pending == before[1..] && GoodQueue(before) && allocations == |scheduled|
      && Conserved(scheduled, fired, before) && InOrder(fired, before, now) && now <= totalTicks
      && totalTicks == idleTicks + systemTicks + userTicks
    }

    /** Not this time: the interrupt goes back on the list. */
    method PutItBack(toOccur: PendingInterrupt, when: nat, ghost before: Queue, ghost now: nat)
      requires HoldsFirst(before, now) && toOccur == before[0].item && when == before[0].key
      modifies this`pending
      ensures Valid() && |pending| == |before|
      ensures forall j :: 0 <= j < |pending| ==> pending[j].key >= when
      ensures |before| == 1 ==> pending == before
      ensures multiset(Items(pending)) == multiset(Items(before))
    {
      hide Conserved, InOrder, Inserted, Items;
      PutBack(before);
      PutBackInOrder(fired, before, now, totalTicks);
      if |before| == 1 {
        OnlyOne(before);
      }
      pending := Inserted(pending, toOccur, when);
      SameItemsConserved(scheduled, fired, before, pending);
    }

    /** The interrupt fires. */
    method Fire(toOccur: PendingInterrupt, ghost before: Queue, ghost now: nat)
      requires HoldsFirst(before, now) && toOccur == before[0].item && before[0].key <= totalTicks
      modifies this
      ensures Valid() && level == old(level) && status == old(status) && !inHandler
      ensures totalTicks == old(totalTicks) && idleTicks == old(idleTicks)
      ensures systemTicks == old(systemTicks) && userTicks == old(userTicks)
      ensures old(scheduled) <= scheduled && fired == old(fired) + [Firing(toOccur, totalTicks, |old(scheduled)|)]
      ensures scheduled == old(scheduled) + Wanted(handlers(toOccur, |old(scheduled)|).0, |old(scheduled)|, totalTicks)
      ensures CountDue(pending, totalTicks) == CountDue(before, totalTicks) - 1
      ensures yieldOnReturn <==> old(yieldOnReturn) || handlers(toOccur, |old(scheduled)|).1
      ensures !LoneTimer(before) ==>
                (TimerComesLast(handlers, pending, |scheduled|, totalTicks)
                 <==> TimerComesLast(handlers, before, |old(scheduled)|, totalTicks))
    {
      hide Conserved, InOrder, Items, TimerComesLast;
      var interrupted := status;
      FiredConserved(scheduled, fired, before, totalTicks);
      FiredInOrder(fired, before, now, totalTicks, |scheduled|);
      fired := fired + [Firing(toOccur, totalTicks, |scheduled|)];
      inHandler := true;
      status := SystemMode;
      CallHandler(toOccur, allocations);
      status := interrupted;
      inHandler := false;
      if !LoneTimer(before) {
        FiringKeepsTimerLast(handlers, before, pending, |old(scheduled)|, |scheduled|, totalTicks);
      }
    }

    /** Fires the first pending interrupt exactly if it is due, or the clock may be advanced to it, and it is not a
        lone timer interrupt on an idle machine. */
    method CheckIfDue(advanceClock: bool) returns (fires: bool)
      requires Valid() && level == IntOff
      modifies this
      ensures Valid() && level == IntOff && status == old(status)
      ensures systemTicks == old(systemTicks) && userTicks == old(userTicks)
      ensures var q := old(pending);
              && (fires <==> |q| > 0 && (advanceClock || q[0].key <= old(totalTicks)) && !(status == IdleMode && LoneTimer(q)))
              && totalTicks == if advanceClock && |q| > 0 && q[0].key > old(totalTicks) then q[0].key else old(totalTicks)
      ensures old(scheduled) <= scheduled
      ensures fires ==>
                && fired == old(fired) + [Firing(old(pending)[0].item, totalTicks, |old(scheduled)|)] && !inHandler
                && (yieldOnReturn <==> old(yieldOnReturn) || handlers(old(pending)[0].item, |old(scheduled)|).1)
                && scheduled == old(scheduled) + Wanted(handlers(old(pending)[0].item, |old(scheduled)|).0, |old(scheduled)|, totalTicks)
      ensures !fires ==> fired == old(fired) && scheduled == old(scheduled) && inHandler == old(inHandler) && yieldOnReturn == old(yieldOnReturn)
      ensures !advanceClock && fires ==> CountDue(pending, totalTicks) < CountDue(old(pending), totalTicks)
      ensures !fires ==> if status == IdleMode && LoneTimer(old(pending)) then pending == old(pending)
                         else NothingDue(pending, totalTicks) && multiset(Items(pending)) == multiset(Items(old(pending)))
      ensures fires && !LoneTimer(old(pending)) ==>
                (TimerComesLast(handlers, pending, |scheduled|, totalTicks)
                 <==> TimerComesLast(handlers, old(pending), |old(scheduled)|, totalTicks))
    {
      hide Conserved, InOrder, GoodQueue, CountDue, TimerComesLast;
      if |pending| == 0 {
        return false;
      }
      ghost var before, now := pending, totalTicks;
      var toOccur, when := pending[0].item, FirstWhen(pending);
      pending := pending[1..];
      if advanceClock && when > totalTicks {
        idleTicks := idleTicks + (when - totalTicks);
        totalTicks := when;
      } else if when > totalTicks {
        PutItBack(toOccur, when, before, now);
        return false;
      }
      if status == IdleMode && toOccur.kind == TimerInt && |pending| == 0 {
        PutItBack(toOccur, when, before, now);
        return false;
      }
      Fire(toOccur, before, now);
      fires := true;
    }

    /** The drain loop of OneTick and Idle: it ends, because every handler asks for later interrupts only. */
    method Drain()
      requires Valid() && level == IntOff
      modifies this
      ensures Valid() && level == IntOff && status == old(status) && totalTicks == old(totalTicks)
      ensures systemTicks == old(systemTicks) && userTicks == old(userTicks) && idleTicks == old(idleTicks)
      ensures old(fired) <= fired && old(scheduled) <= scheduled && (old(!inHandler) ==> !inHandler)
      ensures NothingDue(pending, totalTicks)
              <==> !(status == IdleMode && TimerComesLast(handlers, old(pending), |old(scheduled)|, totalTicks))
      ensures NothingDue(pending, totalTicks) || LoneTimer(pending)
      ensures yieldOnReturn <==> old(yieldOnReturn) || AskedForYield(handlers, fired, |old(fired)|)
    {
      hide Conserved, InOrder, GoodQueue, CountDue, TimerComesLast, AskedForYield;
      var more := true;
      NobodyAsked(handlers, fired);
      while more
        invariant Valid() && level == IntOff && status == old(status) && totalTicks == old(totalTicks)
        invariant systemTicks == old(systemTicks) && userTicks == old(userTicks)
        invariant old(fired) <= fired && old(scheduled) <= scheduled && (old(!inHandler) ==> !inHandler)
        invariant !more ==> NothingDue(pending, totalTicks) || (status == IdleMode && LoneTimer(pending))
        invariant status == IdleMode ==>
                    (TimerComesLast(handlers, pending, |scheduled|, totalTicks)
                     <==> TimerComesLast(handlers, old(pending), |old(scheduled)|, totalTicks))
        invariant yieldOnReturn <==> old(yieldOnReturn) || AskedForYield(handlers, fired, |old(fired)|)
        decreases more, CountDue(pending, totalTicks)
      {
        ghost var was, q, count := fired, pending, |scheduled|;
        more := CheckIfDue(false);
        if more {
          AskedOnceMore(handlers, was, |old(fired)|, Firing(q[0].item, totalTicks, count));
        } else if !LoneTimer(q) {
          FirstIsLater(q, totalTicks);
          WhatIsLeftDue(handlers, q, count, totalTicks);
          WhatIsLeftDue(handlers, pending, count, totalTicks);
        }
      }
      WhatIsLeftDue(handlers, pending, |scheduled|, totalTicks);
    }

    /** Advances the time by one tick of the current mode and fires all that is due. Returns whether a handler
        asked for a context switch, which is to be made now. */
    method OneTick() returns (mustYield: bool)
      requires Valid() && level == IntOn && !inHandler && status != IdleMode
      modifies this
      ensures Valid() && level == IntOn && !inHandler && status == old(status)
      ensures totalTicks == old(totalTicks) + (if old(status) == SystemMode then 10 else 1)
      ensures idleTicks == old(idleTicks)
      ensures NothingDue(pending, totalTicks)
      ensures old(fired) <= fired && old(scheduled) <= scheduled && !yieldOnReturn
      ensures mustYield <==> old(yieldOnReturn) || AskedForYield(handlers, fired, |old(fired)|)
    {
      hide Conserved, GoodQueue, CountDue, AskedForYield, TimerComesLast;
      if status == SystemMode {
        totalTicks := totalTicks + SystemTick;
        systemTicks := systemTicks + SystemTick;
      } else {
        totalTicks := totalTicks + UserTick;
        userTicks := userTicks + UserTick;
      }
      level := IntOff;
      Drain();
      level := IntOn;
      mustYield := yieldOnReturn;
      yieldOnReturn := false;
    }

    /** Changes the interrupt level; switching interrupts on lets time pass. Handlers may not do that. */
    method SetLevel(now: IntStatus) returns (was: IntStatus, mustYield: bool)
      requires Valid() && (now == IntOff || !inHandler) && status != IdleMode
      modifies this
      ensures Valid() && level == now && was == old(level) && totalTicks >= old(totalTicks)
      ensures status == old(status) && inHandler == old(inHandler)
      ensures now == IntOff || was == IntOn ==> totalTicks == old(totalTicks) && fired == old(fired) && !mustYield
      ensures now == IntOn && was == IntOff ==>
                && totalTicks > old(totalTicks) && NothingDue(pending, totalTicks) && !yieldOnReturn
                && (mustYield <==> old(yieldOnReturn) || AskedForYield(handlers, fired, |old(fired)|))
      ensures old(fired) <= fired && old(scheduled) <= scheduled
    {
      hide Conserved, InOrder, GoodQueue, AskedForYield;
      was, mustYield := level, false;
      level := now;
      if now == IntOn && was == IntOff {
        mustYield := OneTick();
      }
    }

    /** There is nothing to run: the clock goes on to the next interrupt. False when the machine is to stop, which is
        exactly when nothing is pending but perhaps one timer interrupt. Otherwise everything that is due by then is
        fired, except exactly for a timer interrupt that comes last. */
    method Idle() returns (goesOn: bool)
      requires Valid() && level == IntOff && !inHandler
      modifies this
      ensures Valid() && level == IntOff && !inHandler
      ensures goesOn <==> !(old(pending) == [] || LoneTimer(old(pending)))
      ensures !goesOn ==> fired == old(fired) && pending == old(pending) && status == IdleMode
      ensures var q := old(pending);
              totalTicks == if |q| > 0 && q[0].key > old(totalTicks) then q[0].key else old(totalTicks)
      ensures goesOn ==> |fired| > |old(fired)| && status == SystemMode && !yieldOnReturn
      ensures goesOn ==>
                && (NothingDue(pending, totalTicks) <==> !TimerComesLast(handlers, old(pending), |old(scheduled)|, totalTicks))
                && (NothingDue(pending, totalTicks) || LoneTimer(pending))
      ensures old(fired) <= fired && old(scheduled) <= scheduled
      ensures systemTicks == old(systemTicks) && userTicks == old(userTicks)
    {
      hide Conserved, InOrder, GoodQueue, CountDue, TimerComesLast, AskedForYield;
      status := IdleMode;
      goesOn := CheckIfDue(true);
      if goesOn {
        Drain();
        yieldOnReturn := false;
        status := SystemMode;
      }
    }
  }

  /** A run in which Idle leaves an interrupt due: a disk and a timer interrupt at the same time, and handlers that
      schedule nothing. */
  method IdleLeavesTimer() returns (goesOn: bool, left: Queue, now: nat)
    ensures goesOn && LoneTimer(left) && left[0].key <= now
  {
    hide Conserved, InOrder;
    var interrupt := new Interrupt((p, n) => ([], false));
    interrupt.Schedule(10, DiskInt);
    var disk := PendingInterrupt(0, 10, DiskInt);
    assert interrupt.pending == [Entry(10, disk)];
    interrupt.Schedule(10, TimerInt);
    assert Position([Entry(10, disk)], 10, 1) == 1;
    assert interrupt.pending == [Entry(10, disk), Entry(10, PendingInterrupt(1, 10, TimerInt))];
    goesOn := interrupt.Idle();
    left, now := interrupt.pending, interrupt.totalTicks;
  }

  // ---------------------------------------------------------------- runs

  /** What the rest of the machine does with the clock. */
  datatype Operation =
    | Tick
    | Level(now: IntStatus)
    | Wait                                  // there is nothing to run
    | Later(fromNow: nat, kind: IntType)    // a device is started
    | Mode(status: MachineStatus)           // to user code and back

  /** Time passes only with interrupts on, and the machine idles only with interrupts off. */
  predicate Legal(ops: seq<Operation>, level: IntStatus)
    decreases |ops|
  {
    |ops| == 0 ||
    match ops[0]
    case Tick => level == IntOn && Legal(ops[1..], level)
    case Level(now) => Legal(ops[1..], now)
    case Wait => level == IntOff && Legal(ops[1..], level)
    case Later(fromNow, _) => fromNow > 0 && Legal(ops[1..], level)
    case Mode(status) => status != IdleMode && Legal(ops[1..], level)
  }

  /** Any run, until the machine stops for want of interrupts: every interrupt that was scheduled has fired once or is
      pending once; none fired before its time; they fired in the order of their times, at times that do not go back. */
  method RunClock(interrupt: Interrupt, ops: seq<Operation>) returns (stopped: bool)
    requires interrupt.Valid() && !interrupt.inHandler && interrupt.status != IdleMode && Legal(ops, interrupt.level)
    modifies interrupt
    ensures interrupt.Valid() && interrupt.totalTicks >= old(interrupt.totalTicks)
    ensures interrupt.totalTicks == interrupt.idleTicks + interrupt.systemTicks + interrupt.userTicks
    ensures old(interrupt.fired) <= interrupt.fired && old(interrupt.scheduled) <= interrupt.scheduled
    ensures forall p :: p in interrupt.scheduled ==>
              multiset(Whats(interrupt.fired))[p] + multiset(Items(interrupt.pending))[p] == 1
    ensures forall i :: 0 <= i < |interrupt.fired| ==>
              interrupt.fired[i].what in interrupt.scheduled && interrupt.fired[i].what.when <= interrupt.fired[i].at
    ensures forall i, j :: 0 <= i < j < |interrupt.fired| ==>
              interrupt.fired[i].what.when <= interrupt.fired[j].what.when && interrupt.fired[i].at <= interrupt.fired[j].at
    ensures stopped ==> interrupt.pending == [] || LoneTimer(interrupt.pending)
  {
    hide Conserved, InOrder, GoodQueue;
    stopped := false;
    var n := 0;
    while n < |ops| && !stopped
      invariant 0 <= n <= |ops| && interrupt.Valid() && !interrupt.inHandler
      invariant !stopped ==> interrupt.status != IdleMode && Legal(ops[n..], interrupt.level)
      invariant interrupt.totalTicks >= old(interrupt.totalTicks)
      invariant old(interrupt.fired) <= interrupt.fired && old(interrupt.scheduled) <= interrupt.scheduled
      invariant stopped ==> interrupt.pending == [] || LoneTimer(interrupt.pending)
    {
      assert ops[n..][1..] == ops[n + 1..];
      stopped := Operate(interrupt, ops[n]);
      n := n + 1;
    }
    FiringsAreGood(interrupt.scheduled, interrupt.fired, interrupt.pending, interrupt.totalTicks);
  }

  method Operate(interrupt: Interrupt, op: Operation) returns (stopped: bool)
    requires interrupt.Valid() && !interrupt.inHandler && interrupt.status != IdleMode && Legal([op], interrupt.level)
    modifies interrupt
    ensures interrupt.Valid() && !interrupt.inHandler && interrupt.totalTicks >= old(interrupt.totalTicks)
    ensures interrupt.level == if op.Level? then op.now else old(interrupt.level)
    ensures old(interrupt.fired) <= interrupt.fired && old(interrupt.scheduled) <= interrupt.scheduled
    ensures if stopped then interrupt.pending == [] || LoneTimer(interrupt.pending) else interrupt.status != IdleMode
  {
    hide Conserved, InOrder, GoodQueue, NothingDue;
    stopped := false;
    match op {
      case Tick =>
        var mustYield := interrupt.OneTick();
      case Level(now) =>
        var was, mustYield := interrupt.SetLevel(now);
      case Wait =>
        var goesOn := interrupt.Idle();
        stopped := !goesOn;
      case Later(fromNow, kind) =>
        interrupt.Schedule(fromNow, kind);
      case Mode(status) =>
        interrupt.status := status;
    }
  }

  lemma FiringsAreGood(scheduled: seq<PendingInterrupt>, fired: seq<Firing>, pending: Queue, now: nat)
    requires Conserved(scheduled, fired, pending) && InOrder(fired, pending, now)
    ensures forall p :: p in scheduled ==> multiset(Whats(fired))[p] + multiset(Items(pending))[p] == 1
    ensures forall i :: 0 <= i < |fired| ==> fired[i].what in scheduled && fired[i].what.when <= fired[i].at
    ensures forall i, j :: 0 <= i < j < |fired| ==> fired[i].what.when <= fired[j].what.when && fired[i].at <= fired[j].at
  {
    forall p
      ensures multiset(Whats(fired))[p] + multiset(Items(pending))[p] == if p in scheduled then 1 else 0
    {
      ExactlyOnce(scheduled, fired, pending, p);
    }
    forall i | 0 <= i < |fired|
      ensures fired[i].what in scheduled
    {
      assert Whats(fired)[i] in multiset(Whats(fired));
    }
  }
}
