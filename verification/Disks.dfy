/**
 The disk of machine/disk.cc: how long a request takes, and the one-request protocol.  The latency
 is compared with the rotation itself: sector s starts to pass under the head at the multiples of
 RotationTime whose number is s modulo SectorsPerTrack, and has passed RotationTime later.
 */
module Disks {
  const RotationTime: nat := 500
  const SeekTime: nat := 500
  const SectorSize: nat := 128
  const SectorsPerTrack: nat := 32
  const NumTracks: nat := 32
  const NumSectors: nat := SectorsPerTrack * NumTracks

  function Track(sector: nat): nat {
    sector / SectorsPerTrack
  }

  /** The sector begins to pass under the head at time t. */
  predicate Passing(sector: nat, t: nat) {
    t % RotationTime == 0 && (t / RotationTime) % SectorsPerTrack == sector % SectorsPerTrack
  }

  // ---------------------------------------------------------------- the computations

  function Seek(lastSector: nat, newSector: nat): nat {
    var newTrack, oldTrack := Track(newSector), Track(lastSector);
    (if newTrack < oldTrack then oldTrack - newTrack else newTrack - oldTrack) * SeekTime
  }

  /** From the end of the seek to the next sector boundary. */
  function Rotation(now: nat, seek: nat): nat {
    var over := (now + seek) % RotationTime;
    if over > 0 then RotationTime - over else 0
  }

  function ModuloDiff(to: nat, from: nat): nat {
    (to % SectorsPerTrack - from % SectorsPerTrack + SectorsPerTrack) % SectorsPerTrack
  }

  /** The time of the first sector boundary after the seek. */
  function TimeAfter(lastSector: nat, newSector: nat, now: nat): nat {
    var seek := Seek(lastSector, newSector);
    now + seek + Rotation(now, seek)
  }

  /** The test of the track buffer. */
  predicate Hit(lastSector: nat, bufferInit: nat, newSector: nat, writing: bool, now: nat) {
    && !writing && Seek(lastSector, newSector) == 0
    && (TimeAfter(lastSector, newSector, now) - bufferInit) / RotationTime > ModuloDiff(newSector, bufferInit / RotationTime)
  }

  function Latency(lastSector: nat, bufferInit: nat, newSector: nat, writing: bool, now: nat): nat {
    if Hit(lastSector, bufferInit, newSector, writing, now) then RotationTime
    else
      var seek := Seek(lastSector, newSector);
      var timeAfter := TimeAfter(lastSector, newSector, now);
      seek + Rotation(now, seek) + ModuloDiff(newSector, timeAfter / RotationTime) * RotationTime + RotationTime
  }

  // ---------------------------------------------------------------- what they mean

  /** The tracks lie that many apart. */
  predicate TracksApart(sector: nat, other: nat, tracks: nat) {
    Track(other) == Track(sector) + tracks || Track(sector) == Track(other) + tracks
  }

  predicate Between(a: nat, b: nat, c: nat) {
    Track(a) <= Track(b) <= Track(c) || Track(c) <= Track(b) <= Track(a)
  }

  /** The head moves one track in 500 ticks, in either direction, and a longer way is the sum of its parts. */
  lemma SeekIsByTracks(a: nat, b: nat, c: nat)
    ensures Track(a) == Track(b) ==> Seek(a, b) == 0
    ensures TracksApart(a, b, 1) ==> Seek(a, b) == 500
    ensures Between(a, b, c) ==> Seek(a, c) == Seek(a, b) + Seek(b, c)
  {}

  lemma {:induction false} SeekOf(sector: nat, other: nat, tracks: nat)
    requires TracksApart(sector, other, tracks)
    ensures Seek(sector, other) == 500 * tracks
    decreases tracks
  {
    if tracks == 0 {
      SeekIsByTracks(sector, other, other);
    } else {
      var b := if Track(other) == Track(sector) + tracks then other - SectorsPerTrack else other + SectorsPerTrack;
      SeekIsByTracks(sector, b, other);
      SeekIsByTracks(b, other, other);
      SeekOf(sector, b, tracks - 1);
    }
  }

  lemma ModuloDiffReaches(to: nat, from: nat)
    ensures ModuloDiff(to, from) < SectorsPerTrack
    ensures (from + ModuloDiff(to, from)) % SectorsPerTrack == to % SectorsPerTrack
  {}

  /** ModuloDiff counts to the first sector boundary of that number. */
  lemma ModuloDiffLeast(to: nat, from: nat, m: nat)
    requires from <= m && m % SectorsPerTrack == to % SectorsPerTrack
    ensures from + ModuloDiff(to, from) <= m
  {}

  lemma Boundary(now: nat, seek: nat)
    ensures var b := now + seek + Rotation(now, seek);
            b % RotationTime == 0 && now + seek <= b < now + seek + RotationTime
  {}

  /** The first time after start, a sector boundary, that the sector begins to pass. */
  lemma FirstPassing(sector: nat, start: nat)
    requires start % RotationTime == 0
    ensures var first := start + ModuloDiff(sector, start / RotationTime) * RotationTime;
            && Passing(sector, first) && start <= first < start + SectorsPerTrack * RotationTime
            && forall t: nat :: start <= t && Passing(sector, t) ==> first <= t
  {
    var m := start / RotationTime;
    var d := ModuloDiff(sector, m);
    var first := start + d * RotationTime;
    ModuloDiffReaches(sector, m);
    assert first == (m + d) * RotationTime;
    assert first / RotationTime == m + d;
    forall t: nat | start <= t && Passing(sector, t) ensures first <= t {
      ModuloDiffLeast(sector, m, t / RotationTime);
    }
  }

  /** The first time after a seek that the sector passes. */
  lemma FirstAfterSeek(newSector: nat, now: nat, seek: nat, start: nat, first: nat)
    requires start == now + seek + Rotation(now, seek) && first == start + ModuloDiff(newSector, start / RotationTime) * RotationTime
    ensures now + seek <= first && Passing(newSector, first) && first < now + seek + (SectorsPerTrack + 1) * RotationTime
    ensures forall t: nat :: now + seek <= t && Passing(newSector, t) ==> first <= t
  {
    Boundary(now, seek);
    FirstPassing(newSector, start);
    forall t: nat | now + seek <= t && Passing(newSector, t) ensures first <= t {
      assert start <= t;
    }
  }

  /** Without a track-buffer hit the head first moves to the track, and the request ends just when the sector
      has then passed for the first time. */
  lemma LatencyIsExact(lastSector: nat, bufferInit: nat, newSector: nat, writing: bool, now: nat, tracks: nat)
    requires !Hit(lastSector, bufferInit, newSector, writing, now) && TracksApart(lastSector, newSector, tracks)
    ensures var end := now + Latency(lastSector, bufferInit, newSector, writing, now);
            var seekEnd := now + 500 * tracks;
            && seekEnd == now + Seek(lastSector, newSector)
            && seekEnd <= end - RotationTime && Passing(newSector, end - RotationTime)
            && (forall t: nat :: seekEnd <= t && Passing(newSector, t) ==> end - RotationTime <= t)
            && end < seekEnd + (SectorsPerTrack + 2) * RotationTime
  {
    SeekOf(lastSector, newSector, tracks);
    var seek, start := Seek(lastSector, newSector), TimeAfter(lastSector, newSector, now);
    var first := start + ModuloDiff(newSector, start / RotationTime) * RotationTime;
    FirstAfterSeek(newSector, now, seek, start, first);
    assert now + Latency(lastSector, bufferInit, newSector, writing, now) == first + RotationTime;
  }

  /** A request that the track buffer can serve takes the time of one sector. */
  lemma HitTakesOneSector(lastSector: nat, bufferInit: nat, newSector: nat, writing: bool, now: nat)
    requires Hit(lastSector, bufferInit, newSector, writing, now)
    ensures Latency(lastSector, bufferInit, newSector, writing, now) == 500
  {}

  function Tracks(sector: nat, other: nat): (tracks: nat)
    ensures TracksApart(sector, other, tracks)
  {
    if Track(sector) < Track(other) then Track(other) - Track(sector) else Track(sector) - Track(other)
  }

  /** A hit means that the whole sector passed between the filling of the buffer and the current
      time, rounded up to a sector boundary. */
  lemma HitIsExact(lastSector: nat, bufferInit: nat, newSector: nat, writing: bool, now: nat)
    requires bufferInit % RotationTime == 0
    ensures Hit(lastSector, bufferInit, newSector, writing, now) <==>
              && !writing && Track(newSector) == Track(lastSector)
              && exists t: nat :: Passing(newSector, t) && bufferInit <= t && t + RotationTime <= now + Rotation(now, 0)
  {
    var seek := Seek(lastSector, newSector);
    assert seek == 0 <==> Track(newSector) == Track(lastSector);
    FirstPassing(newSector, bufferInit);
    var d := ModuloDiff(newSector, bufferInit / RotationTime);
    var first := bufferInit + d * RotationTime;
    Boundary(now, 0);
    var end := now + Rotation(now, 0);
    if seek == 0 {
      assert (end - bufferInit) / RotationTime > d <==> first + RotationTime <= end;
    }
  }

  lemma LatencyIsPositive(lastSector: nat, bufferInit: nat, newSector: nat, writing: bool, now: nat)
    ensures Latency(lastSector, bufferInit, newSector, writing, now) >= RotationTime
  {}

  // ---------------------------------------------------------------- the disk over a run

  /** arrived is when the head reached the track it is on; doneAt is when the request under way ends. */
  datatype State = State(active: bool, lastSector: nat, bufferInit: nat, now: nat, arrived: nat, doneAt: nat)

  function Initial(): State {
    State(false, 0, 0, 0, 0, 0)
  }

  /** ReadRequest or WriteRequest: the latency is computed first, then UpdateLast. */
  function Requested(s: State, newSector: nat, writing: bool): State {
    var seek := Seek(s.lastSector, newSector);
    var bufferInit := if seek != 0 then s.now + seek + Rotation(s.now, seek) else s.bufferInit;
    State(true, newSector, bufferInit, s.now, if seek != 0 then s.now + seek else s.arrived,
          s.now + Latency(s.lastSector, s.bufferInit, newSector, writing, s.now))
  }

  datatype Step = Advance(ticks: nat) | Request(newSector: nat, writing: bool) | Interrupt

  /** The interrupt comes no earlier than scheduled; a request is made only when the disk is idle. */
  predicate Enabled(s: State, e: Step) {
    match e
    case Advance(_) => true
    case Request(newSector, _) => !s.active && newSector < NumSectors
    case Interrupt => s.active && s.doneAt <= s.now
  }

  function Next(s: State, e: Step): State
    requires Enabled(s, e)
  {
    match e
    case Advance(ticks) => s.(now := s.now + ticks)
    case Request(newSector, writing) => Requested(s, newSector, writing)
    case Interrupt => s.(active := false)
  }

  predicate Legal(s: State, es: seq<Step>)
    decreases |es|
  {
    es == [] || (Enabled(s, es[0]) && Legal(Next(s, es[0]), es[1..]))
  }

  function After(s: State, es: seq<Step>): State
    requires Legal(s, es)
    decreases |es|
  {
    if es == [] then s else After(Next(s, es[0]), es[1..])
  }

  /** The buffer begins at the first sector boundary after the head reached its track, which is over
      before the next request. */
  predicate Inv(s: State) {
    && s.lastSector < NumSectors && s.bufferInit % RotationTime == 0
    && s.arrived <= s.bufferInit < s.arrived + RotationTime
    && s.bufferInit <= if s.active then s.doneAt else s.now
  }

  lemma StepInv(s: State, e: Step)
    requires Inv(s) && Enabled(s, e)
    ensures Inv(Next(s, e))
  {
    if e.Request? {
      Boundary(s.now, Seek(s.lastSector, e.newSector));
      if !Hit(s.lastSector, s.bufferInit, e.newSector, e.writing, s.now) {
        LatencyIsExact(s.lastSector, s.bufferInit, e.newSector, e.writing, s.now, Tracks(s.lastSector, e.newSector));
      }
    }
  }

  lemma {:induction false} RunInv(s: State, es: seq<Step>)
    requires Inv(s) && Legal(s, es)
    ensures Inv(After(s, es))
    decreases |es|
  {
    if es == [] {
    } else {
      StepInv(s, es[0]);
      RunInv(Next(s, es[0]), es[1..]);
    }
  }

  /** In every run, a request served from the track buffer is for a sector that passed entirely under
      the head while the head was on its track; any other ends just when the sector has passed. */
  lemma RequestIsServedBySector(es: seq<Step>, newSector: nat, writing: bool)
    requires Legal(Initial(), es) && Enabled(After(Initial(), es), Request(newSector, writing))
    ensures var s := After(Initial(), es);
            var s' := Next(s, Request(newSector, writing));
            && s.now < s'.doneAt
            && exists t: nat ::
                 && Passing(newSector, t)
                 && (if Hit(s.lastSector, s.bufferInit, newSector, writing, s.now)
                     then !writing && Track(newSector) == Track(s.lastSector)
                          && s.arrived <= t && t + RotationTime <= s'.doneAt && s'.doneAt == s.now + 500
                     else s.now <= t && s'.arrived <= t && t + RotationTime == s'.doneAt)
  {
    RunInv(Initial(), es);
    var s := After(Initial(), es);
    if Hit(s.lastSector, s.bufferInit, newSector, writing, s.now) {
      HitIsExact(s.lastSector, s.bufferInit, newSector, writing, s.now);
      Boundary(s.now, 0);
      var t: nat :| Passing(newSector, t) && s.bufferInit <= t && t + RotationTime <= s.now + Rotation(s.now, 0);
    } else {
      LatencyIsExact(s.lastSector, s.bufferInit, newSector, writing, s.now, Tracks(s.lastSector, newSector));
      var s' := Next(s, Request(newSector, writing));
      assert Passing(newSector, s'.doneAt - RotationTime);
    }
  }

  // ---------------------------------------------------------------- the class

  class Disk {
    var active: bool
    var lastSector: nat
    var bufferInit: nat
    const file: array2<bv8>       // one row for each sector
    ghost var arrived: nat
    ghost var doneAt: nat

    ghost predicate Valid() {
      file.Length0 == NumSectors && file.Length1 == SectorSize
    }

    ghost function View(now: nat): State
      reads this
    {
      State(active, lastSector, bufferInit, now, arrived, doneAt)
    }

    constructor ()
      ensures Valid() && View(0) == Initial()
    {
      file := new bv8[NumSectors, SectorSize];
      active, lastSector, bufferInit, arrived, doneAt := false, 0, 0, 0, 0;
    }

    method TimeToSeek(newSector: nat, now: nat) returns (seek: nat, rotation: nat)
      ensures seek == Seek(lastSector, newSector) && rotation == Rotation(now, seek)
    {
      var newTrack, oldTrack := newSector / SectorsPerTrack, lastSector / SectorsPerTrack;
      seek := (if newTrack - oldTrack < 0 then -(newTrack - oldTrack) else newTrack - oldTrack) * SeekTime;
      var over := (now + seek) % RotationTime;
      rotation := 0;
      if over > 0 { rotation := RotationTime - over; }
    }

    method ComputeLatency(newSector: nat, writing: bool, now: nat) returns (ticks: nat)
      ensures ticks == Latency(lastSector, bufferInit, newSector, writing, now)
    {
      var seek, rotation := TimeToSeek(newSector, now);
      var timeAfter := now + seek + rotation;
      if !writing && seek == 0 && (timeAfter - bufferInit) / RotationTime > ModuloDiff(newSector, bufferInit / RotationTime) {
        return RotationTime;
      }
      rotation := rotation + ModuloDiff(newSector, timeAfter / RotationTime) * RotationTime;
      return seek + rotation + RotationTime;
    }

    method UpdateLast(newSector: nat, now: nat)
      modifies this`bufferInit, this`lastSector, this`arrived
      ensures lastSector == newSector
      ensures var seek := Seek(old(lastSector), newSector);
              && bufferInit == (if seek != 0 then now + seek + Rotation(now, seek) else old(bufferInit))
              && arrived == (if seek != 0 then now + seek else old(arrived))
    {
      var seek, rotate := TimeToSeek(newSector, now);
      if seek != 0 {
        bufferInit, arrived := now + seek + rotate, now + seek;
      }
      lastSector := newSector;
    }

    /** The interrupt is scheduled ticks from now. */
    method ReadRequest(sectorNumber: nat, data: array<bv8>, now: nat) returns (ticks: nat)
      requires Valid() && data.Length == SectorSize && Enabled(View(now), Request(sectorNumber, false))
      modifies this, data
      ensures View(now) == Next(old(View(now)), Request(sectorNumber, false)) && ticks == doneAt - now
      ensures forall j :: 0 <= j < SectorSize ==> data[j] == file[sectorNumber, j]
    {
      ticks := ComputeLatency(sectorNumber, false, now);
      forall j | 0 <= j < SectorSize { data[j] := file[sectorNumber, j]; }
      active := true;
      UpdateLast(sectorNumber, now);
      doneAt := now + ticks;
    }

    method WriteRequest(sectorNumber: nat, data: array<bv8>, now: nat) returns (ticks: nat)
      requires Valid() && data.Length == SectorSize && Enabled(View(now), Request(sectorNumber, true))
      modifies this, file
      ensures View(now) == Next(old(View(now)), Request(sectorNumber, true)) && ticks == doneAt - now
      ensures forall i, j :: 0 <= i < NumSectors && 0 <= j < SectorSize ==>
                file[i, j] == if i == sectorNumber then data[j] else old(file[i, j])
    {
      ticks := ComputeLatency(sectorNumber, true, now);
      forall j | 0 <= j < SectorSize { file[sectorNumber, j] := data[j]; }
      active := true;
      UpdateLast(sectorNumber, now);
      doneAt := now + ticks;
    }

    method HandleInterrupt(now: nat)
      requires Enabled(View(now), Interrupt)
      modifies this`active
      ensures View(now) == Next(old(View(now)), Interrupt)
    {
      active := false;
    }
  }
}
