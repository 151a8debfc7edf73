/** The class Interrupt of machine/interrupt.cc, with its draining loops, proved against module Clock;
    what every run of its methods keeps is Clock.RunsKeepTime. */
module Interrupts {
  import opened Lists
  import opened Options
  import opened Clock

  class Interrupt {
    const devices: Devices
    const pending: List<PendingInterrupt>
    var level: IntStatus
    var inHandler: bool
    var yieldOnReturn: bool
    var status: MachineStatus
    var totalTicks: int
    var idleTicks: int
    var systemTicks: int
    var userTicks: int
    var calls: nat                                       // handlers called so far
    ghost var scheduled: seq<Asked>
    ghost var fired: seq<Entry<PendingInterrupt>>
    ghost var firedAt: seq<int>

    /** What the clock shows, if its list is a list. */
    ghost function Now(): Option<State>
      reads this, pending, pending.repr
    {
      if pending.Valid() then
        Some(State(level, status, yieldOnReturn, pending.View(), totalTicks, idleTicks, systemTicks, userTicks,
                   scheduled, fired, firedAt))
      else None
    }

    ghost predicate Ready()
      reads this
    {
      InFuture(devices) && calls == |fired| && !inHandler
    }

    constructor (devices: Devices)
      requires InFuture(devices)
      ensures Ready() && Now() == Some(Boot()) && this.devices == devices && fresh(pending) && fresh(pending.repr)
    {
      this.devices := devices;
      pending := new List();
      level, inHandler, yieldOnReturn, status := IntOff, false, false, SystemMode;
      totalTicks, idleTicks, systemTicks, userTicks, calls := 0, 0, 0, 0, 0;
      scheduled, fired, firedAt := [], [], [];
    }

    method Schedule(r: Request, ghost c: State)
      requires r.fromNow > 0 && Now() == Some(c)
      modifies this`scheduled, pending, pending.repr
      ensures Now() == Some(Clock.Schedule(c, r)) && fresh(pending.repr - old(pending.repr))
    {
      var when := totalTicks + r.fromNow;
      pending.SortedInsert(r.what, when);
      scheduled := scheduled + [Asked(r, totalTicks)];
    }

    /** What a handler does to the clock: it schedules, one request after the other. */
    method ScheduleRequests(rs: seq<Request>, ghost c: State)
      requires Now() == Some(c) && forall i :: 0 <= i < |rs| ==> rs[i].fromNow > 0
      modifies this`scheduled, pending, pending.repr
      ensures Now() == Some(ScheduleAll(c, rs)) && fresh(pending.repr - old(pending.repr))
    {
      ghost var c' := c;
      for i := 0 to |rs|
        invariant Now() == Some(c') && ScheduleAll(c', rs[i..]) == ScheduleAll(c, rs)
        invariant fresh(pending.repr - old(pending.repr))
      {
        assert rs[i..][1..] == rs[i + 1..];
        Schedule(rs[i], c');
        c' := Clock.Schedule(c', rs[i]);
      }
    }

    /** What the handler asks for, and the record of its call. */
    method Record(e: Entry<PendingInterrupt>, ghost c: State) returns (requests: seq<Request>)
      requires calls == |fired| && Now() == Some(c)
      modifies this`calls, this`fired, this`firedAt, this`yieldOnReturn
      ensures calls == |fired| && requests == devices(|c.fired|).requests
      ensures Now() == Some(c.(fired := c.fired + [e], firedAt := c.firedAt + [c.totalTicks],
                               yieldOnReturn := c.yieldOnReturn || devices(|c.fired|).wantsYield))
    {
      var effect := devices(calls);
      calls, fired, firedAt := calls + 1, fired + [e], firedAt + [totalTicks];
      yieldOnReturn := yieldOnReturn || effect.wantsYield;
      requests := effect.requests;
    }

    method RunHandler(e: Entry<PendingInterrupt>, ghost c: State)
      requires InFuture(devices) && calls == |fired| && Now() == Some(c)
      modifies this`calls, this`fired, this`firedAt, this`yieldOnReturn, this`scheduled, pending, pending.repr
      ensures calls == |fired| && Now() == Some(Fire(devices, c, e)) && fresh(pending.repr - old(pending.repr))
    {
      var requests := Record(e, c);
      ScheduleRequests(requests, c.(fired := c.fired + [e], firedAt := c.firedAt + [c.totalTicks],
                                    yieldOnReturn := c.yieldOnReturn || devices(|c.fired|).wantsYield));
    }

    /** The kernel runs while the handler does, whatever the machine was doing. */
    method CallHandler(e: Entry<PendingInterrupt>, ghost c: State)
      requires Ready() && Now() == Some(c)
      modifies this, pending, pending.repr
      ensures Ready() && Now() == Some(Fire(devices, c, e)) && fresh(pending.repr - old(pending.repr))
    {
      var before := status;
      FireStatus(devices, c, e, SystemMode);
      inHandler, status := true, SystemMode;
      RunHandler(e, c.(status := SystemMode));
      status, inHandler := before, false;
    }

    method CheckIfDue(advanceClock: bool, ghost c: State) returns (firedOne: bool)
      requires Ready() && level == IntOff && Now() == Some(c)
      modifies this, pending, pending.repr
      ensures Ready() && Now() == Some(Clock.CheckIfDue(devices, c, advanceClock).0)
      ensures firedOne == Clock.CheckIfDue(devices, c, advanceClock).1 && fresh(pending.repr - old(pending.repr))
    {
      var first := pending.SortedRemove();
      if first.None? { return false; }
      var toOccur := first.value;
      var when := toOccur.1;
      if advanceClock && when > totalTicks {
        idleTicks := idleTicks + (when - totalTicks);
        totalTicks := when;
      } else if when > totalTicks {
        pending.SortedInsert(toOccur.0, when);
        return false;
      }
      firedOne := Occur(toOccur, AdvanceTo(c, when).(pending := c.pending[1..]));
    }

    /** The end of CheckIfDue, for an interrupt whose time has come: an idle machine waits for more than the timer. */
    method Occur(e: Entry<PendingInterrupt>, ghost c: State) returns (firedOne: bool)
      requires Ready() && Now() == Some(c)
      modifies this, pending, pending.repr
      ensures Ready() && fresh(pending.repr - old(pending.repr))
      ensures firedOne <==> !(c.status.IdleMode? && e.0.kind.TimerInt? && c.pending == [])
      ensures Now() == Some(if firedOne then Fire(devices, c, e) else c.(pending := Inserted(c.pending, e.0, e.1)))
    {
      var last := pending.IsEmpty();
      if status == IdleMode && e.0.kind == TimerInt && last {
        pending.SortedInsert(e.0, e.1);
        return false;
      }
      CallHandler(e, c);
      return true;
    }

    /** The loop in OneTick and Idle; it ends although handlers schedule new interrupts. */
    method DrainDue(ghost c: State)
      requires Ready() && level == IntOff && Now() == Some(c)
      modifies this, pending, pending.repr
      ensures Ready() && Now() == Some(Drain(devices, c)) && fresh(pending.repr - old(pending.repr))
    {
      var more := true;
      ghost var c' := c;
      while more
        invariant Ready() && level == IntOff && Now() == Some(c')
        invariant Drain(devices, c) == if more then Drain(devices, c') else c'
        invariant fresh(pending.repr - old(pending.repr))
        decreases more, Due(c'.pending, c'.totalTicks)
      {
        CheckKeepsStatus(devices, c', false);
        more := CheckIfDue(false, c');
        if more { FiringReducesDue(devices, c'); }
        c' := Clock.CheckIfDue(devices, c', false).0;
      }
    }

    method AdvanceTime(ghost c: State)
      requires Now() == Some(c)
      modifies this`totalTicks, this`systemTicks, this`userTicks
      ensures Now() == Some(Advance(c))
    {
      if status == SystemMode {
        totalTicks := totalTicks + SystemTick;
        systemTicks := systemTicks + SystemTick;
      } else {
        totalTicks := totalTicks + UserTick;
        userTicks := userTicks + UserTick;
      }
    }

    /** Returns whether the interrupted thread has to yield. */
    method OneTick(ghost c: State) returns (yielding: bool)
      requires Ready() && Now() == Some(c)
      modifies this, pending, pending.repr
      ensures Ready() && Now() == Some(Clock.OneTick(devices, c).0) && yielding == Clock.OneTick(devices, c).1
      ensures fresh(pending.repr - old(pending.repr))
    {
      AdvanceTime(c);
      level := IntOff;
      DrainDue(Advance(c).(level := IntOff));
      level := IntOn;
      yielding := yieldOnReturn;
      yieldOnReturn := false;
    }

    /** Returns false when there is nothing left to wait for and the machine halts. */
    method Idle(ghost c: State) returns (running: bool)
      requires Ready() && level == IntOff && Now() == Some(c)
      modifies this, pending, pending.repr
      ensures Ready() && Now() == Some(Clock.Idle(devices, c).0) && running == Clock.Idle(devices, c).1
      ensures fresh(pending.repr - old(pending.repr))
    {
      status := IdleMode;
      ghost var c0 := c.(status := IdleMode);
      CheckKeepsStatus(devices, c0, true);
      running := CheckIfDue(true, c0);
      if running { WakeUp(Clock.CheckIfDue(devices, c0, true).0); }
    }

    /** The end of Idle. */
    method WakeUp(ghost c: State)
      requires Ready() && level == IntOff && Now() == Some(c)
      modifies this, pending, pending.repr
      ensures Ready() && Now() == Some(Drain(devices, c).(yieldOnReturn := false, status := SystemMode))
      ensures fresh(pending.repr - old(pending.repr))
    {
      DrainDue(c);
      yieldOnReturn := false;
      status := SystemMode;
    }

    method SetLevel(now: IntStatus, ghost c: State) returns (was: IntStatus, yielding: bool)
      requires Ready() && Now() == Some(c)
      modifies this, pending, pending.repr
      ensures Ready() && was == c.level && Now() == Some(Clock.SetLevel(devices, c, now).0)
      ensures yielding == Clock.SetLevel(devices, c, now).1 && fresh(pending.repr - old(pending.repr))
    {
      was, yielding := level, false;
      level := now;
      if now == IntOn && was == IntOff { yielding := OneTick(c.(level := now)); }
    }
  }

  lemma {:induction false} ScheduleAllStatus(c: State, rs: seq<Request>, status: MachineStatus)
    ensures ScheduleAll(c.(status := status), rs) == ScheduleAll(c, rs).(status := status)
    decreases |rs|
  {
    if rs == [] {
    } else {
      ScheduleAllStatus(Clock.Schedule(c, rs[0]), rs[1..], status);
    }
  }

  /** What a handler does to the clock does not depend on the machine status. */
  lemma FireStatus(h: Devices, c: State, e: Entry<PendingInterrupt>, status: MachineStatus)
    requires InFuture(h)
    ensures Fire(h, c.(status := status), e).(status := c.status) == Fire(h, c, e)
  {
    var effect := h(|c.fired|);
    var c1 := c.(fired := c.fired + [e], firedAt := c.firedAt + [c.totalTicks],
                 yieldOnReturn := c.yieldOnReturn || effect.wantsYield);
    ScheduleAllStatus(c1, effect.requests, status);
    ScheduleAllFrame(c1, effect.requests);
  }
}
