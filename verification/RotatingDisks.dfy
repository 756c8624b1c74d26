/** The timing of the simulated disk: seeks, rotation, and a track buffer that may answer reads early. */
module RotatingDisks {

  const SectorsPerTrack := 32
  const NumTracks := 32
  const NumSectors := SectorsPerTrack * NumTracks
  const RotationTime := 500
  const SeekTime := 500

  function TrackOf(sector: nat): nat {
    sector / SectorsPerTrack
  }

  function Abs(x: int): nat {
    if x < 0 then -x else x
  }

  // ---------------------------------------------------------------- the physical disk

  /** The sector boundary at which the sector `sector` of a track begins to pass under the head. */
  predicate Begins(sector: nat, t: nat) {
    t % RotationTime == 0 && t / RotationTime % SectorsPerTrack == sector % SectorsPerTrack
  }

  /** A movement of the head: it leaves at `at` and is on track `to` from `at + seek` on. */
  datatype Move = Move(at: nat, seek: nat, to: nat)

  /** The head rests on `track` at time `t`; it starts out on track 0. */
  predicate OnTrack(moves: seq<Move>, t: nat, track: nat)
    decreases |moves|
  {
    if |moves| == 0 then track == 0
    else
      var last := moves[|moves| - 1];
      if t < last.at then OnTrack(moves[..|moves| - 1], t, track) else t >= last.at + last.seek && track == last.to
  }

  /** The track that the head is on, or on its way to, after the movements. */
  function HeadTrack(moves: seq<Move>): nat {
    if |moves| == 0 then 0 else moves[|moves| - 1].to
  }

  function TracksApart(a: nat, b: nat): nat {
    if a < b then b - a else a - b
  }

  /** The arm needs SeekTime for each track that it crosses, from where the movement before has taken it. */
  ghost predicate RealMoves(moves: seq<Move>) {
    forall i :: 0 <= i < |moves| ==> moves[i].seek == SeekTime * TracksApart(HeadTrack(moves[..i]), moves[i].to)
  }

  lemma OneMoreMove(moves: seq<Move>, move: Move)
    requires RealMoves(moves) && move.seek == SeekTime * TracksApart(HeadTrack(moves), move.to)
    ensures RealMoves(moves + [move]) && HeadTrack(moves + [move]) == move.to
  {
    var longer := moves + [move];
    forall i | 0 <= i < |longer|
      ensures longer[i].seek == SeekTime * TracksApart(HeadTrack(longer[..i]), longer[i].to)
    {
      if i < |moves| {
        assert longer[..i] == moves[..i];
      } else {
        assert longer[..i] == moves;
      }
    }
  }

  /** The whole of `sector` has passed under the head, on its track, in the `RotationTime` ticks from `t` on. */
  ghost predicate Passed(moves: seq<Move>, sector: nat, t: nat) {
    Begins(sector, t) && forall u :: t <= u < t + RotationTime ==> OnTrack(moves, u, TrackOf(sector))
  }

  // ---------------------------------------------------------------- the computations of the controller

  /** TimeToSeek: the seek time, and the wait from its end to the next sector boundary. */
  function TimeToSeek(lastSector: nat, newSector: nat, now: nat): (r: (nat, nat))
    ensures r.1 < RotationTime && (now + r.0 + r.1) % RotationTime == 0
    ensures lastSector < NumSectors && newSector < NumSectors ==> r.0 <= (NumTracks - 1) * SeekTime
  {
    var seek := Abs(TrackOf(newSector) - TrackOf(lastSector)) * SeekTime;
    var over := (now + seek) % RotationTime;
    (seek, if over > 0 then RotationTime - over else 0)
  }

  /** The seek takes SeekTime a track: nothing on the same track, 500 ticks to the next one, and as long as to any
      track in between and on from there. */
  lemma SeekIsByTracks(lastSector: nat, newSector: nat, between: nat, now: nat, later: nat)
    ensures TimeToSeek(lastSector, newSector, now).0 == SeekTime * TracksApart(TrackOf(lastSector), TrackOf(newSector))
    ensures TimeToSeek(lastSector, newSector, now).0 == 0 <==> lastSector / 32 == newSector / 32
    ensures lastSector / 32 + 1 == newSector / 32 || newSector / 32 + 1 == lastSector / 32 ==> TimeToSeek(lastSector, newSector, now).0 == 500
    ensures lastSector <= between <= newSector || newSector <= between <= lastSector ==>
              TimeToSeek(lastSector, newSector, now).0
              == TimeToSeek(lastSector, between, now).0 + TimeToSeek(between, newSector, later).0
  {
  }

  function ModuloDiff(to: nat, from: nat): (d: nat)
    ensures d < SectorsPerTrack
  {
    ((to % SectorsPerTrack - from % SectorsPerTrack) + SectorsPerTrack) % SectorsPerTrack
  }

  /** The test for a read that the track buffer answers. */
  predicate BufferHit(lastSector: nat, bufferInit: nat, newSector: nat, writing: bool, now: nat)
  {
    var (seek, rotation) := TimeToSeek(lastSector, newSector, now);
    var timeAfter := now + seek + rotation;
    !writing && seek == 0 && timeAfter >= bufferInit
    && (timeAfter - bufferInit) / RotationTime > ModuloDiff(newSector, bufferInit / RotationTime)
  }

  function ComputeLatency(lastSector: nat, bufferInit: nat, newSector: nat, writing: bool, now: nat): (latency: nat) {
    var (seek, rotation) := TimeToSeek(lastSector, newSector, now);
    var timeAfter := now + seek + rotation;
    if BufferHit(lastSector, bufferInit, newSector, writing, now) then RotationTime
    else seek + (rotation + ModuloDiff(newSector, timeAfter / RotationTime) * RotationTime) + RotationTime
  }

  /** ModuloDiff is the number of sectors until `to` comes round, seen from `from`, and the least such number. */
  lemma ModuloDiffIsDistance(to: nat, from: nat, k: nat)
    ensures (from + ModuloDiff(to, from)) % SectorsPerTrack == to % SectorsPerTrack
    ensures k < ModuloDiff(to, from) ==> (from + k) % SectorsPerTrack != to % SectorsPerTrack
  {
  }

  /** Counting `k` sectors on from a sector boundary. */
  lemma BoundaryPlus(t: nat, k: nat)
    requires t % RotationTime == 0
    ensures (t + k * RotationTime) % RotationTime == 0 && (t + k * RotationTime) / RotationTime == t / RotationTime + k
  {
  }

  /** Between two sector boundaries there is a whole number of sectors. */
  lemma BoundaryGap(t: nat, u: nat)
    requires t % RotationTime == 0 && u % RotationTime == 0 && t <= u
    ensures u == t + (u - t) / RotationTime * RotationTime
  {
  }

  /** For a write, or a read that the buffer does not answer, the transfer begins at the first moment after the
      seek at which the target sector begins to pass under the head. */
  lemma LatencyIsLeast(lastSector: nat, bufferInit: nat, newSector: nat, writing: bool, now: nat, u: nat)
    requires !BufferHit(lastSector, bufferInit, newSector, writing, now)
    ensures var seek := TimeToSeek(lastSector, newSector, now).0;
            var latency := ComputeLatency(lastSector, bufferInit, newSector, writing, now);
            && latency >= seek + RotationTime
            && Begins(newSector, now + latency - RotationTime)
            && (now + seek <= u < now + latency - RotationTime ==> !Begins(newSector, u))
  {
    hide BufferHit, ModuloDiff;
    var (seek, rotation) := TimeToSeek(lastSector, newSector, now);
    var timeAfter := now + seek + rotation;
    var d := ModuloDiff(newSector, timeAfter / RotationTime);
    BoundaryPlus(timeAfter, d);
    ModuloDiffIsDistance(newSector, timeAfter / RotationTime, 0);
    if now + seek <= u < timeAfter + d * RotationTime && u % RotationTime == 0 {
      NoBoundaryBefore(now + seek, rotation, u);
      BoundaryGap(timeAfter, u);
      var k := (u - timeAfter) / RotationTime;
      BoundaryPlus(timeAfter, k);
      ModuloDiffIsDistance(newSector, timeAfter / RotationTime, k);
    }
  }

  lemma NoBoundaryBefore(t: nat, rotation: nat, u: nat)
    requires rotation < RotationTime && (t + rotation) % RotationTime == 0
    requires t <= u && u % RotationTime == 0
    ensures u >= t + rotation
  {
  }

  /** The latency exactly: 500 ticks out of the buffer; otherwise the seek, the wait for the sector, which is the time
      to the boundary and less than a turn, and 500 ticks. */
  lemma LatencyExactly(lastSector: nat, bufferInit: nat, newSector: nat, writing: bool, now: nat)
    ensures var latency := ComputeLatency(lastSector, bufferInit, newSector, writing, now);
            var seek := SeekTime * TracksApart(TrackOf(lastSector), TrackOf(newSector));
            if BufferHit(lastSector, bufferInit, newSector, writing, now) then latency == 500
            else
              && seek + 500 <= latency < seek + 500 + SectorsPerTrack * RotationTime
              && Begins(newSector, now + latency - 500)
  {
    hide BufferHit, ModuloDiff;
    SeekIsByTracks(lastSector, newSector, newSector, now, now);
    if !BufferHit(lastSector, bufferInit, newSector, writing, now) {
      LatencyIsLeast(lastSector, bufferInit, newSector, writing, now, 0);
    }
  }

  /** So every request takes between one sector time and a seek over the disk plus a whole turn. */
  lemma LatencyBounds(lastSector: nat, bufferInit: nat, newSector: nat, writing: bool, now: nat)
    requires lastSector < NumSectors && newSector < NumSectors
    ensures RotationTime <= ComputeLatency(lastSector, bufferInit, newSector, writing, now) <= 31999
  {
    hide BufferHit, ModuloDiff;
  }

  // ---------------------------------------------------------------- what has passed under the head

  /** The buffer answers exactly the reads on the current track whose whole sector has gone by since the buffer began
      to fill, up to the sector boundary at hand. */
  lemma BufferHitExactly(lastSector: nat, bufferInit: nat, newSector: nat, writing: bool, now: nat)
    requires bufferInit % RotationTime == 0
    ensures var timeAfter := now + TimeToSeek(lastSector, newSector, now).1;
            BufferHit(lastSector, bufferInit, newSector, writing, now) <==>
            && !writing && TrackOf(lastSector) == TrackOf(newSector)
            && exists t :: bufferInit <= t && t + RotationTime <= timeAfter && Begins(newSector, t)
  {
    hide ModuloDiff;
    SeekIsByTracks(lastSector, newSector, newSector, now, now);
    var timeAfter := now + TimeToSeek(lastSector, newSector, now).1;
    var d := ModuloDiff(newSector, bufferInit / RotationTime);
    BoundaryPlus(bufferInit, d);
    ModuloDiffIsDistance(newSector, bufferInit / RotationTime, 0);
    var first := bufferInit + d * RotationTime;
    assert Begins(newSector, first);
    forall t | bufferInit <= t && t + RotationTime <= timeAfter && Begins(newSector, t)
      ensures first <= t
    {
      BoundaryGap(bufferInit, t);
      var k := (t - bufferInit) / RotationTime;
      BoundaryPlus(bufferInit, k);
      ModuloDiffIsDistance(newSector, bufferInit / RotationTime, k);
    }
    if timeAfter >= bufferInit {
      GoneByExactly(timeAfter, bufferInit, d);
    }
  }

  lemma GoneByExactly(timeAfter: nat, bufferInit: nat, d: nat)
    requires timeAfter >= bufferInit
    ensures (timeAfter - bufferInit) / RotationTime > d <==> bufferInit + (d + 1) * RotationTime <= timeAfter
  {
  }

  /** A read that the buffer answers: the sector has gone by since the buffer began to fill. */
  lemma BufferHolds(moves: seq<Move>, lastSector: nat, bufferInit: nat, newSector: nat, now: nat)
    requires bufferInit % RotationTime == 0
    requires forall t :: t >= bufferInit ==> OnTrack(moves, t, TrackOf(newSector))
    requires BufferHit(lastSector, bufferInit, newSector, false, now)
    ensures exists t :: bufferInit <= t && t + RotationTime <= now + RotationTime && Passed(moves, newSector, t)
  {
    hide ModuloDiff, OnTrack;
    var (seek, rotation) := TimeToSeek(lastSector, newSector, now);
    var d := ModuloDiff(newSector, bufferInit / RotationTime);
    var t := bufferInit + d * RotationTime;
    BoundaryPlus(bufferInit, d);
    ModuloDiffIsDistance(newSector, bufferInit / RotationTime, 0);
    assert Passed(moves, newSector, t);
    GoneBy(now + rotation, bufferInit, d);
  }

  lemma GoneBy(timeAfter: nat, bufferInit: nat, d: nat)
    requires timeAfter >= bufferInit && (timeAfter - bufferInit) / RotationTime > d
    ensures bufferInit + (d + 1) * RotationTime <= timeAfter
  {
  }

  /** Any other request: the sector goes by in the last sector time of the request. */
  lemma HeadPasses(moves: seq<Move>, lastSector: nat, bufferInit: nat, newInit: nat, newSector: nat, writing: bool, now: nat)
    requires bufferInit <= now && !BufferHit(lastSector, bufferInit, newSector, writing, now)
    requires forall t :: t >= newInit ==> OnTrack(moves, t, TrackOf(newSector))
    requires var (seek, rotation) := TimeToSeek(lastSector, newSector, now);
             newInit == if seek != 0 then now + seek + rotation else bufferInit
    ensures var t := now + ComputeLatency(lastSector, bufferInit, newSector, writing, now) - RotationTime;
            newInit <= t && Passed(moves, newSector, t)
  {
    hide ModuloDiff, OnTrack;
    LatencyIsLeast(lastSector, bufferInit, newSector, writing, now, 0);
  }

  /** At most one movement, at time `now`, has been added. */
  ghost predicate MovedAt(before: seq<Move>, after: seq<Move>, now: nat) {
    after == before || (|after| == |before| + 1 && after[..|before|] == before && after[|before|].at == now)
  }

  /** What has passed under the head by the time of a movement has passed. */
  lemma StillPassed(before: seq<Move>, after: seq<Move>, now: nat, sector: nat, t: nat)
    requires MovedAt(before, after, now) && t + RotationTime <= now && Passed(before, sector, t)
    ensures Passed(after, sector, t)
  {
  }

  // ---------------------------------------------------------------- the controller

  class Disk {
    var active: bool
    var lastSector: nat
    var bufferInit: nat
    ghost var moves: seq<Move>
    ghost var due: nat

    /** Since `bufferInit`, a sector boundary, the head has been on the track of the last request; that moment is
        past unless a request is under way, and then it is before the request completes. */
    ghost predicate Valid(now: nat)
      reads this
    {
      && lastSector < NumSectors
      && bufferInit % RotationTime == 0
      && RealMoves(moves) && HeadTrack(moves) == TrackOf(lastSector)
      && (forall t :: t >= bufferInit ==> OnTrack(moves, t, TrackOf(lastSector)))
      && (if active then bufferInit <= due else bufferInit <= now)
    }

    /** No movement of the head has been recorded for later than `now`. */
    ghost predicate MovesPast(now: nat)
      reads this
    {
      forall m :: m in moves ==> m.at <= now
    }

    constructor (now: nat)
      ensures Valid(now) && !active && lastSector == 0 && bufferInit == 0 && moves == []
    {
      active, lastSector, bufferInit := false, 0, 0;
      moves, due := [], 0;
    }

    method UpdateLast(newSector: nat, now: nat)
      requires newSector < NumSectors && bufferInit % RotationTime == 0 && MovesPast(now)
      requires RealMoves(moves) && HeadTrack(moves) == TrackOf(lastSector)
      requires forall t :: t >= bufferInit ==> OnTrack(moves, t, TrackOf(lastSector))
      modifies this`lastSector, this`bufferInit, this`moves
      ensures lastSector == newSector && bufferInit % RotationTime == 0
      ensures forall t :: t >= bufferInit ==> OnTrack(moves, t, TrackOf(newSector))
      ensures var (seek, rotation) := TimeToSeek(old(lastSector), newSector, now);
              bufferInit == if seek != 0 then now + seek + rotation else old(bufferInit)
      ensures MovesPast(now) && MovedAt(old(moves), moves, now)
      ensures RealMoves(moves) && HeadTrack(moves) == TrackOf(newSector)
    {
      hide RealMoves;
      SeekIsByTracks(lastSector, newSector, newSector, now, now);
      var (seek, rotate) := TimeToSeek(lastSector, newSector, now);
      if seek != 0 {
        OneMoreMove(moves, Move(now, seek, TrackOf(newSector)));
        bufferInit := now + seek + rotate;
        moves := moves + [Move(now, seek, TrackOf(newSector))];
      }
      lastSector := newSector;
    }

    /** What ReadRequest and WriteRequest share: the latency is computed, the request becomes active, and an
        interrupt is to come after `ticks`. By then the whole target sector has passed under the head since the
        buffer began to fill; when the buffer answers, that was before the request was made or is so anyway. */
    method Request(newSector: nat, writing: bool, now: nat) returns (ticks: nat)
      requires Valid(now) && !active && newSector < NumSectors && MovesPast(now)
      modifies this
      ensures Valid(now) && active && lastSector == newSector && due == now + ticks && MovesPast(now) && MovedAt(old(moves), moves, now)
      ensures ticks == ComputeLatency(old(lastSector), old(bufferInit), newSector, writing, now)
      ensures exists t :: bufferInit <= t && t + RotationTime <= now + ticks && Passed(moves, newSector, t)
      ensures ticks >= RotationTime && (writing ==> Passed(moves, newSector, now + ticks - RotationTime))
    {
      hide OnTrack, ModuloDiff, Passed, RealMoves;
      ghost var last, init := lastSector, bufferInit;
      ticks := ComputeLatency(lastSector, bufferInit, newSector, writing, now);
      LatencyBounds(lastSector, bufferInit, newSector, writing, now);
      active := true;
      UpdateLast(newSector, now);
      due := now + ticks;
      if BufferHit(last, init, newSector, writing, now) {
        BufferHolds(moves, last, init, newSector, now);
      } else {
        HeadPasses(moves, last, init, bufferInit, newSector, writing, now);
      }
    }

    method ReadRequest(sectorNumber: nat, now: nat) returns (ticks: nat)
      requires Valid(now) && !active && sectorNumber < NumSectors && MovesPast(now)
      modifies this
      ensures Valid(now) && active && lastSector == sectorNumber && due == now + ticks && MovesPast(now) && MovedAt(old(moves), moves, now)
      ensures ticks == ComputeLatency(old(lastSector), old(bufferInit), sectorNumber, false, now)
      ensures exists t :: bufferInit <= t && t + RotationTime <= now + ticks && Passed(moves, sectorNumber, t)
    {
      ticks := Request(sectorNumber, false, now);
    }

    method WriteRequest(sectorNumber: nat, now: nat) returns (ticks: nat)
      requires Valid(now) && !active && sectorNumber < NumSectors && MovesPast(now)
      modifies this
      ensures Valid(now) && active && lastSector == sectorNumber && due == now + ticks && MovesPast(now) && MovedAt(old(moves), moves, now)
      ensures ticks == ComputeLatency(old(lastSector), old(bufferInit), sectorNumber, true, now)
      ensures ticks >= RotationTime && Passed(moves, sectorNumber, now + ticks - RotationTime)
    {
      LatencyBounds(lastSector, bufferInit, sectorNumber, true, now);
      ticks := Request(sectorNumber, true, now);
    }

    /** The completion interrupt, which never comes early. */
    method HandleInterrupt(now: nat)
      requires Valid(now) && active && now >= due
      modifies this`active
      ensures Valid(now) && !active
    {
      active := false;
    }
  }

  /** A request, how long the disk is left idle before it, and how late its interrupt is handled. */
  datatype DiskRequest = DiskRequest(sector: nat, writing: bool, idle: nat, late: nat)

  /** The sector of each request served has passed under the head by the time the request, made at `issues[i]`, is
      completed `latencies[i]` later; `passes` tells when. */
  ghost predicate AllPassed(moves: seq<Move>, requests: seq<DiskRequest>, passes: seq<nat>, issues: seq<nat>, latencies: seq<nat>) {
    && |passes| == |issues| == |latencies| <= |requests|
    && forall i :: 0 <= i < |passes| ==>
         Passed(moves, requests[i].sector, passes[i]) && passes[i] + RotationTime <= issues[i] + latencies[i]
  }

  /** Each request is made so long after the interrupt of the one before it has been handled. */
  function IssueTime(requests: seq<DiskRequest>, issues: seq<nat>, latencies: seq<nat>, start: nat, i: nat): nat
    requires i < |requests| && i <= |issues| && i <= |latencies|
  {
    (if i == 0 then start else issues[i - 1] + latencies[i - 1] + requests[i - 1].late) + requests[i].idle
  }

  /** The times of the requests served, and latencies in bounds. */
  ghost predicate WellTimed(requests: seq<DiskRequest>, issues: seq<nat>, latencies: seq<nat>, start: nat) {
    && |issues| == |latencies| <= |requests|
    && forall i :: 0 <= i < |issues| ==>
         issues[i] == IssueTime(requests, issues, latencies, start, i) && RotationTime <= latencies[i] <= 31999
  }

  /** The interrupt of the last request served has been handled at `end`. */
  ghost predicate HandledBy(requests: seq<DiskRequest>, issues: seq<nat>, latencies: seq<nat>, start: nat, end: nat) {
    && |issues| == |latencies| <= |requests|
    && (forall i :: 0 <= i < |issues| ==> issues[i] + latencies[i] <= end)
    && end == if |issues| == 0 then start else issues[|issues| - 1] + latencies[|issues| - 1] + requests[|issues| - 1].late
  }

  lemma OneMoreTimed(requests: seq<DiskRequest>, issues: seq<nat>, latencies: seq<nat>, start: nat, end: nat, now: nat, latency: nat)
    requires WellTimed(requests, issues, latencies, start) && HandledBy(requests, issues, latencies, start, end)
    requires |issues| < |requests| && now == end + requests[|issues|].idle && RotationTime <= latency <= 31999
    ensures WellTimed(requests, issues + [now], latencies + [latency], start)
    ensures HandledBy(requests, issues + [now], latencies + [latency], start, now + latency + requests[|issues|].late)
  {
    hide IssueTime;
    var issues', latencies' := issues + [now], latencies + [latency];
    forall i | 0 <= i < |issues'|
      ensures issues'[i] == IssueTime(requests, issues', latencies', start, i) && RotationTime <= latencies'[i] <= 31999
    {
      EarlierTimes(requests, issues, latencies, start, i, now, latency);
      if i == |issues| {
        NextTime(requests, issues, latencies, start, end);
      }
    }
  }

  lemma EarlierTimes(requests: seq<DiskRequest>, issues: seq<nat>, latencies: seq<nat>, start: nat, i: nat, now: nat, latency: nat)
    requires i < |requests| && i <= |issues| == |latencies|
    ensures IssueTime(requests, issues + [now], latencies + [latency], start, i) == IssueTime(requests, issues, latencies, start, i)
  {
  }

  lemma NextTime(requests: seq<DiskRequest>, issues: seq<nat>, latencies: seq<nat>, start: nat, end: nat)
    requires HandledBy(requests, issues, latencies, start, end) && |issues| < |requests|
    ensures IssueTime(requests, issues, latencies, start, |issues|) == end + requests[|issues|].idle
  {
  }

  lemma OneMorePassed(before: seq<Move>, after: seq<Move>, requests: seq<DiskRequest>, passes: seq<nat>, issues: seq<nat>,
                      latencies: seq<nat>, t: nat, start: nat, end: nat, now: nat, latency: nat)
    requires AllPassed(before, requests, passes, issues, latencies) && |passes| < |requests|
    requires MovedAt(before, after, now) && HandledBy(requests, issues, latencies, start, end) && end <= now
    requires Passed(after, requests[|passes|].sector, t) && t + RotationTime <= now + latency
    ensures AllPassed(after, requests, passes + [t], issues + [now], latencies + [latency])
  {
    hide Passed, MovedAt;
    forall i | 0 <= i < |passes|
      ensures Passed(after, requests[i].sector, passes[i])
    {
      StillPassed(before, after, now, requests[i].sector, passes[i]);
    }
  }

  /** One request, from when it is made until its interrupt has been handled. */
  method ServeOne(disk: Disk, r: DiskRequest, now: nat) returns (ticks: nat, ghost t: nat)
    requires disk.Valid(now) && !disk.active && disk.MovesPast(now) && r.sector < NumSectors
    modifies disk
    ensures disk.Valid(now + ticks + r.late) && !disk.active && disk.MovesPast(now + ticks + r.late)
    ensures MovedAt(old(disk.moves), disk.moves, now) && RotationTime <= ticks <= 31999
    ensures Passed(disk.moves, r.sector, t) && t + RotationTime <= now + ticks
  {
    hide OnTrack, ComputeLatency, Passed, MovedAt, RealMoves;
    LatencyBounds(disk.lastSector, disk.bufferInit, r.sector, r.writing, now);
    if r.writing {
      ticks := disk.WriteRequest(r.sector, now);
      t := now + ticks - RotationTime;
    } else {
      ticks := disk.ReadRequest(r.sector, now);
      t :| t + RotationTime <= now + ticks && Passed(disk.moves, r.sector, t);
    }
    disk.HandleInterrupt(now + ticks + r.late);
  }

  /** Any sequence of requests, one at a time, none of whose interrupts comes early: by the time each is completed
      its whole sector has passed under the head. */
  method ServeAll(disk: Disk, requests: seq<DiskRequest>, start: nat)
      returns (issues: seq<nat>, latencies: seq<nat>, end: nat, ghost passes: seq<nat>)
    requires disk.Valid(start) && !disk.active && disk.MovesPast(start)
    requires forall r :: r in requests ==> r.sector < NumSectors
    modifies disk
    ensures disk.Valid(end) && !disk.active && disk.bufferInit <= end && RealMoves(disk.moves)
    ensures |issues| == |requests| && WellTimed(requests, issues, latencies, start)
    ensures AllPassed(disk.moves, requests, passes, issues, latencies)
  {
    hide OnTrack, Passed, MovedAt, RealMoves, WellTimed, HandledBy, AllPassed;
    issues, latencies, end, passes := [], [], start, [];
    NothingServed(disk.moves, requests, start);
    for i := 0 to |requests|
      invariant disk.Valid(end) && !disk.active && disk.MovesPast(end)
      invariant |issues| == |passes| == i && AllPassed(disk.moves, requests, passes, issues, latencies)
      invariant WellTimed(requests, issues, latencies, start) && HandledBy(requests, issues, latencies, start, end)
    {
      var r := requests[i];
      var now := end + r.idle;
      ghost var before := disk.moves;
      var ticks, t := ServeOne(disk, r, now);
      OneMorePassed(before, disk.moves, requests, passes, issues, latencies, t, start, end, now, ticks);
      OneMoreTimed(requests, issues, latencies, start, end, now, ticks);
      issues, latencies, passes := issues + [now], latencies + [ticks], passes + [t];
      end := now + ticks + r.late;
    }
  }

  lemma NothingServed(moves: seq<Move>, requests: seq<DiskRequest>, start: nat)
    ensures AllPassed(moves, requests, [], [], []) && WellTimed(requests, [], [], start) && HandledBy(requests, [], [], start, start)
  {
  }
}
