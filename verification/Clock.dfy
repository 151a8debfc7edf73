/**
 Simulated time and hardware interrupts (machine/interrupt.cc): what one operation does to the
 clock, and what every run of operations keeps.  A device is only visible through what its handler
 does here: the interrupts it schedules and whether it asks for a yield.  Handlers may remember
 anything, so their behaviour is given per call, as a function of how many calls came before.
 */
module Clock {
  import opened Lists

  datatype IntStatus = IntOff | IntOn
  datatype MachineStatus = IdleMode | SystemMode | UserMode
  datatype IntType = TimerInt | DiskInt | ConsoleWriteInt | ConsoleReadInt | NetworkSendInt | NetworkRecvInt

  datatype PendingInterrupt = PendingInterrupt(handler: nat, arg: int, kind: IntType)

  datatype Request = Request(what: PendingInterrupt, fromNow: int)
  datatype Effect = Effect(requests: seq<Request>, wantsYield: bool)
  type Devices = nat -> Effect

  /** A request, and when it was made. */
  datatype Asked = Asked(request: Request, at: int)

  const UserTick := 1
  const SystemTick := 10

  /** The ASSERT(fromNow > 0) of Schedule, for everything a handler schedules. */
  ghost predicate InFuture(h: Devices) {
    forall n: nat, i :: 0 <= i < |h(n).requests| ==> h(n).requests[i].fromNow > 0
  }

  datatype State = State(
    level: IntStatus,
    status: MachineStatus,
    yieldOnReturn: bool,
    pending: seq<Entry<PendingInterrupt>>,   // sorted by the time it is due
    totalTicks: int,
    idleTicks: int,
    systemTicks: int,
    userTicks: int,
    scheduled: seq<Asked>,                   // every request ever made
    fired: seq<Entry<PendingInterrupt>>,     // every interrupt whose handler was called, in order
    firedAt: seq<int>)                       // and when

  /** The interrupt that a request asks for: its delay counts from when it is made. */
  function Wanted(a: Asked): Entry<PendingInterrupt> {
    (a.request.what, a.at + a.request.fromNow)
  }

  function AllWanted(s: seq<Asked>): (es: seq<Entry<PendingInterrupt>>)
    ensures |es| == |s| && forall i :: 0 <= i < |s| ==> es[i] == Wanted(s[i])
  {
    seq(|s|, i requires 0 <= i < |s| => Wanted(s[i]))
  }

  /** How many of the pending interrupts are due. */
  function Due(s: seq<Entry<PendingInterrupt>>, now: int): nat {
    if s == [] then 0 else (if s[0].1 <= now then 1 else 0) + Due(s[1..], now)
  }

  lemma {:induction false} InsertedDue(s: seq<Entry<PendingInterrupt>>, x: PendingInterrupt, key: int, now: int)
    ensures Due(Inserted(s, x, key), now) == Due(s, now) + (if key <= now then 1 else 0)
  {
    if s != [] && s[0].1 <= key {
      InsertedDue(s[1..], x, key, now);
    }
  }

  lemma {:induction false} NoneDue(s: seq<Entry<PendingInterrupt>>, now: int)
    requires Sorted(s) && (s == [] || now < s[0].1)
    ensures Due(s, now) == 0
  {
    if s == [] {
    } else {
      NoneDue(s[1..], now);
    }
  }

  // ---------------------------------------------------------------- the operations

  function Schedule(c: State, r: Request): State {
    var when := c.totalTicks + r.fromNow;
    c.(pending := Inserted(c.pending, r.what, when), scheduled := c.scheduled + [Asked(r, c.totalTicks)])
  }

  function ScheduleAll(c: State, rs: seq<Request>): State
    decreases |rs|
  {
    if rs == [] then c else ScheduleAll(Schedule(c, rs[0]), rs[1..])
  }

  /** The call of a handler, and the status it leaves behind. */
  function Fire(h: Devices, c: State, e: Entry<PendingInterrupt>): State {
    var effect := h(|c.fired|);
    var c1 := c.(fired := c.fired + [e], firedAt := c.firedAt + [c.totalTicks],
                 yieldOnReturn := c.yieldOnReturn || effect.wantsYield);
    ScheduleAll(c1, effect.requests)
  }

  /** The clock at the time of the next interrupt, if that lies ahead. */
  function AdvanceTo(c: State, when: int): State {
    if when > c.totalTicks then c.(idleTicks := c.idleTicks + (when - c.totalTicks), totalTicks := when) else c
  }

  function CheckIfDue(h: Devices, c: State, advanceClock: bool): (State, bool)
    requires c.level.IntOff?
  {
    if c.pending == [] then (c, false)
    else
      var e, rest := c.pending[0], c.pending[1..];
      var early := e.1 > c.totalTicks;
      if early && !advanceClock then (c.(pending := Inserted(rest, e.0, e.1)), false)
      else
        var c1 := AdvanceTo(c, e.1);
        if c.status.IdleMode? && e.0.kind.TimerInt? && rest == [] then (c1.(pending := Inserted(rest, e.0, e.1)), false)
        else (Fire(h, c1.(pending := rest), e), true)
  }

  lemma {:induction false} ScheduleAllFrame(c: State, rs: seq<Request>)
    requires forall i :: 0 <= i < |rs| ==> rs[i].fromNow > 0
    ensures var c' := ScheduleAll(c, rs);
            && c' == c.(pending := c'.pending, scheduled := c'.scheduled)
            && Due(c'.pending, c.totalTicks) == Due(c.pending, c.totalTicks)
    decreases |rs|
  {
    if rs == [] {
    } else {
      InsertedDue(c.pending, rs[0].what, c.totalTicks + rs[0].fromNow, c.totalTicks);
      ScheduleAllFrame(Schedule(c, rs[0]), rs[1..]);
    }
  }

  /** Each handler called leaves one interrupt less that is due: handlers cannot advance time, and
      what they schedule lies strictly in the future. */
  lemma FiringReducesDue(h: Devices, c: State)
    requires InFuture(h) && c.level.IntOff? && CheckIfDue(h, c, false).1
    ensures var c' := CheckIfDue(h, c, false).0;
            c'.level == c.level && c'.totalTicks == c.totalTicks && Due(c'.pending, c'.totalTicks) < Due(c.pending, c.totalTicks)
  {
    var effect := h(|c.fired|);
    var c1 := c.(pending := c.pending[1..], fired := c.fired + [c.pending[0]], firedAt := c.firedAt + [c.totalTicks],
                 yieldOnReturn := c.yieldOnReturn || effect.wantsYield);
    ScheduleAllFrame(c1, effect.requests);
  }

  /** while (CheckIfDue(FALSE)) ; */
  ghost function Drain(h: Devices, c: State): State
    requires InFuture(h) && c.level.IntOff?
    decreases Due(c.pending, c.totalTicks)
  {
    var (c', fired) := CheckIfDue(h, c, false);
    if fired then FiringReducesDue(h, c); Drain(h, c') else c'
  }

  function Advance(c: State): State {
    if c.status.SystemMode?
    then c.(totalTicks := c.totalTicks + SystemTick, systemTicks := c.systemTicks + SystemTick)
    else c.(totalTicks := c.totalTicks + UserTick, userTicks := c.userTicks + UserTick)
  }

  /** OneTick up to the point where it yields; the flag says whether it then yields. */
  ghost function OneTick(h: Devices, c: State): (State, bool)
    requires InFuture(h)
  {
    var c1 := Drain(h, Advance(c).(level := IntOff));
    (c1.(level := IntOn, yieldOnReturn := false), c1.yieldOnReturn)
  }

  /** Idle; the flag is false when the machine halts. */
  ghost function Idle(h: Devices, c: State): (State, bool)
    requires InFuture(h) && c.level.IntOff?
  {
    var (c1, fired) := CheckIfDue(h, c.(status := IdleMode), true);
    if fired then CheckKeepsStatus(h, c.(status := IdleMode), true); (Drain(h, c1).(yieldOnReturn := false, status := SystemMode), true) else (c1, false)
  }

  ghost function SetLevel(h: Devices, c: State, now: IntStatus): (State, bool)
    requires InFuture(h)
  {
    if now.IntOn? && c.level.IntOff? then OneTick(h, c.(level := now)) else (c.(level := now), false)
  }

  // ---------------------------------------------------------------- what every run keeps

  datatype Op = Tick | IdleOp | Level(now: IntStatus) | Mode(status: MachineStatus) | Device(r: Request)

  /** The assertions of Schedule and CheckIfDue, as conditions on the caller. */
  predicate Allowed(c: State, op: Op) {
    match op
    case IdleOp => c.level.IntOff?
    case Device(r) => r.fromNow > 0
    case _ => true
  }

  ghost function Step(h: Devices, c: State, op: Op): State
    requires InFuture(h) && Allowed(c, op)
  {
    match op
    case Tick => OneTick(h, c).0
    case IdleOp => Idle(h, c).0
    case Level(now) => SetLevel(h, c, now).0
    case Mode(status) => c.(status := status)
    case Device(r) => Schedule(c, r)
  }

  ghost predicate Legal(h: Devices, c: State, ops: seq<Op>)
    requires InFuture(h)
    decreases |ops|
  {
    ops == [] || (Allowed(c, ops[0]) && Legal(h, Step(h, c, ops[0]), ops[1..]))
  }

  ghost function After(h: Devices, c: State, ops: seq<Op>): State
    requires InFuture(h) && Legal(h, c, ops)
    decreases |ops|
  {
    if ops == [] then c else After(h, Step(h, c, ops[0]), ops[1..])
  }

  ghost predicate InTurn(fired: seq<Entry<PendingInterrupt>>, firedAt: seq<int>, i: nat, j: nat) {
    i < j < |fired| && j < |firedAt| ==> fired[i].1 <= fired[j].1 && firedAt[i] <= firedAt[j]
  }

  ghost predicate NotEarly(fired: seq<Entry<PendingInterrupt>>, firedAt: seq<int>, i: nat) {
    i < |fired| && i < |firedAt| ==> fired[i].1 <= firedAt[i]
  }

  /** Handlers were called in the order in which they were due, and none before its time. */
  ghost predicate RecordOk(fired: seq<Entry<PendingInterrupt>>, firedAt: seq<int>, now: int) {
    && |fired| == |firedAt| && (firedAt != [] ==> firedAt[|firedAt| - 1] <= now)
    && (forall i: nat, j: nat {:trigger InTurn(fired, firedAt, i, j)} :: InTurn(fired, firedAt, i, j))
    && (forall i: nat {:trigger NotEarly(fired, firedAt, i)} :: NotEarly(fired, firedAt, i))
  }

  /** No pending interrupt should have fired before the last one that did. */
  ghost predicate InOrder(fired: seq<Entry<PendingInterrupt>>, pending: seq<Entry<PendingInterrupt>>) {
    fired != [] ==> AtLeast(pending, fired[|fired| - 1].1)
  }

  /** Sorted pending list; ticks accounted for; every interrupt either pending or fired, once;
      handlers called in order and not early. */
  ghost predicate Inv(c: State) {
    && Sorted(c.pending)
    && c.totalTicks == c.idleTicks + c.systemTicks + c.userTicks
    && AllThere(AllWanted(c.scheduled), c.pending, c.fired)
    && RecordOk(c.fired, c.firedAt, c.totalTicks)
    && InOrder(c.fired, c.pending)
  }

  function Boot(): State {
    State(IntOff, SystemMode, false, [], 0, 0, 0, 0, [], [], [])
  }

  /** Time and the record of fired handlers only grow. */
  ghost predicate Grows(c: State, c': State) {
    c.totalTicks <= c'.totalTicks && c.fired <= c'.fired && c.firedAt <= c'.firedAt
  }

  lemma BootInv()
    ensures Inv(Boot())
  {}

  lemma OneMoreWanted(s: seq<Asked>, a: Asked)
    ensures AllWanted(s + [a]) == AllWanted(s) + [Wanted(a)]
  {}

  lemma FirstMoves(pending: seq<Entry<PendingInterrupt>>, fired: seq<Entry<PendingInterrupt>>)
    requires pending != []
    ensures multiset(pending[1..]) + multiset(fired + [pending[0]]) == multiset(pending) + multiset(fired)
  {
    assert pending == [pending[0]] + pending[1..];
  }

  /** Every interrupt asked for is pending or fired. */
  ghost predicate AllThere(all: seq<Entry<PendingInterrupt>>, pending: seq<Entry<PendingInterrupt>>, fired: seq<Entry<PendingInterrupt>>) {
    multiset(all) == multiset(pending) + multiset(fired)
  }

  lemma InsertThere(all: seq<Entry<PendingInterrupt>>, pending: seq<Entry<PendingInterrupt>>, fired: seq<Entry<PendingInterrupt>>,
                    x: PendingInterrupt, when: int)
    requires AllThere(all, pending, fired)
    ensures AllThere(all + [(x, when)], Inserted(pending, x, when), fired)
  {
    InsertedAdds(pending, x, when);
  }

  lemma InsertInOrder(pending: seq<Entry<PendingInterrupt>>, fired: seq<Entry<PendingInterrupt>>, x: PendingInterrupt, when: int)
    requires Sorted(pending) && InOrder(fired, pending) && (fired != [] ==> fired[|fired| - 1].1 <= when)
    ensures Sorted(Inserted(pending, x, when)) && InOrder(fired, Inserted(pending, x, when))
  {
    InsertedStaysSorted(pending, x, when);
    if fired != [] { InsertedAtLeast(pending, x, when, fired[|fired| - 1].1); }
  }

  lemma ScheduleInv(c: State, r: Request)
    requires Inv(c) && r.fromNow > 0
    ensures Inv(Schedule(c, r)) && Grows(c, Schedule(c, r))
  {
    var when := c.totalTicks + r.fromNow;
    var c' := Schedule(c, r);
    assert AllThere(AllWanted(c'.scheduled), c'.pending, c'.fired) by {
      OneMoreWanted(c.scheduled, Asked(r, c.totalTicks));
      InsertThere(AllWanted(c.scheduled), c.pending, c.fired, r.what, when);
    }
    assert Sorted(c'.pending) && InOrder(c'.fired, c'.pending) by {
      if c.fired != [] { LastIsPast(c.fired, c.firedAt, c.totalTicks); }
      InsertInOrder(c.pending, c.fired, r.what, when);
    }
  }

  lemma {:induction false} ScheduleAllInv(c: State, rs: seq<Request>)
    requires Inv(c) && forall i :: 0 <= i < |rs| ==> rs[i].fromNow > 0
    ensures Inv(ScheduleAll(c, rs)) && Grows(c, ScheduleAll(c, rs))
    decreases |rs|
  {
    if rs == [] {
    } else {
      ScheduleInv(c, rs[0]);
      ScheduleAllInv(Schedule(c, rs[0]), rs[1..]);
    }
  }

  lemma RecordGrows(fired: seq<Entry<PendingInterrupt>>, firedAt: seq<int>, now: int, e: Entry<PendingInterrupt>)
    requires RecordOk(fired, firedAt, now) && (fired != [] ==> fired[|fired| - 1].1 <= e.1) && e.1 <= now
    ensures RecordOk(fired + [e], firedAt + [now], now)
  {
    var n := |fired|;
    forall i: nat, j: nat ensures InTurn(fired + [e], firedAt + [now], i, j) {
      assert InTurn(fired, firedAt, i, j);
      if i < n - 1 { assert InTurn(fired, firedAt, i, n - 1); }
    }
    forall i: nat ensures NotEarly(fired + [e], firedAt + [now], i) { assert NotEarly(fired, firedAt, i); }
  }

  lemma LastIsPast(fired: seq<Entry<PendingInterrupt>>, firedAt: seq<int>, now: int)
    requires RecordOk(fired, firedAt, now) && fired != []
    ensures fired[|fired| - 1].1 <= now
  {
    assert NotEarly(fired, firedAt, |fired| - 1);
  }

  /** The interrupt at the head of the list, due by now, moves to the record. */
  lemma FireInv(h: Devices, c: State)
    requires InFuture(h) && Inv(c) && c.pending != [] && c.pending[0].1 <= c.totalTicks
    ensures var c' := Fire(h, c.(pending := c.pending[1..]), c.pending[0]); Inv(c') && Grows(c, c')
  {
    var e, rest, effect := c.pending[0], c.pending[1..], h(|c.fired|);
    var c1 := c.(pending := rest, fired := c.fired + [e], firedAt := c.firedAt + [c.totalTicks],
                 yieldOnReturn := c.yieldOnReturn || effect.wantsYield);
    FirstMoves(c.pending, c.fired);
    RecordGrows(c.fired, c.firedAt, c.totalTicks, e);
    ScheduleAllInv(c1, effect.requests);
  }

  /** Putting the head back leaves a sorted list with the same entries. */
  lemma PutBack(s: seq<Entry<PendingInterrupt>>, low: int)
    requires Sorted(s) && s != []
    ensures var s' := Inserted(s[1..], s[0].0, s[0].1);
            Sorted(s') && multiset(s') == multiset(s) && (AtLeast(s, low) ==> AtLeast(s', low))
  {
    var e, rest := s[0], s[1..];
    InsertedAdds(rest, e.0, e.1);
    InsertedStaysSorted(rest, e.0, e.1);
    assert multiset(s) == multiset(rest) + multiset{(e.0, e.1)} by { assert s == [e] + rest; }
    if AtLeast(s, low) { InsertedAtLeast(rest, e.0, e.1, low); }
  }

  lemma PutBackInv(c: State)
    requires Inv(c) && c.pending != []
    ensures Inv(c.(pending := Inserted(c.pending[1..], c.pending[0].0, c.pending[0].1)))
  {
    PutBack(c.pending, if c.fired == [] then 0 else c.fired[|c.fired| - 1].1);
  }

  lemma AdvanceToInv(c: State, when: int)
    requires Inv(c)
    ensures Inv(AdvanceTo(c, when)) && Grows(c, AdvanceTo(c, when))
  {}

  lemma CheckInv(h: Devices, c: State, advanceClock: bool)
    requires InFuture(h) && Inv(c) && c.level.IntOff?
    ensures var c' := CheckIfDue(h, c, advanceClock).0; Inv(c') && Grows(c, c')
  {
    if c.pending != [] {
      var when := c.pending[0].1;
      if when > c.totalTicks && !advanceClock {
        PutBackInv(c);
      } else {
        var c1 := AdvanceTo(c, when);
        AdvanceToInv(c, when);
        PutBackInv(c1);
        FireInv(h, c1);
      }
    }
  }

  lemma {:induction false} DrainInv(h: Devices, c: State)
    requires InFuture(h) && Inv(c) && c.level.IntOff?
    ensures Inv(Drain(h, c)) && Grows(c, Drain(h, c)) && Drain(h, c).totalTicks == c.totalTicks
    decreases Due(c.pending, c.totalTicks)
  {
    CheckInv(h, c, false);
    if CheckIfDue(h, c, false).1 {
      FiringReducesDue(h, c);
      DrainInv(h, CheckIfDue(h, c, false).0);
    }
  }

  lemma AdvanceInv(c: State)
    requires Inv(c)
    ensures Inv(Advance(c).(level := IntOff)) && Grows(c, Advance(c).(level := IntOff))
  {}

  lemma TickInv(h: Devices, c: State)
    requires InFuture(h) && Inv(c)
    ensures Inv(OneTick(h, c).0) && Grows(c, OneTick(h, c).0)
  {
    AdvanceInv(c);
    DrainInv(h, Advance(c).(level := IntOff));
  }

  lemma IdleInv(h: Devices, c: State)
    requires InFuture(h) && Inv(c) && c.level.IntOff?
    ensures Inv(Idle(h, c).0) && Grows(c, Idle(h, c).0)
  {
    var c0 := c.(status := IdleMode);
    CheckInv(h, c0, true);
    CheckKeepsStatus(h, c0, true);
    var (c1, fired) := CheckIfDue(h, c0, true);
    if fired { DrainInv(h, c1); }
  }

  lemma StepInv(h: Devices, c: State, op: Op)
    requires InFuture(h) && Inv(c) && Allowed(c, op)
    ensures Inv(Step(h, c, op)) && Grows(c, Step(h, c, op))
  {
    match op
    case Tick => TickInv(h, c);
    case IdleOp => IdleInv(h, c);
    case Level(now) => TickInv(h, c.(level := now));
    case Mode(_) =>
    case Device(r) => ScheduleInv(c, r);
  }

  /** Over every run: the pending list is sorted, the ticks add up, no interrupt is lost or fired
      twice, none fires early, handlers are called in the order of their times, and time and the
      record only grow. */
  lemma {:induction false} RunsKeepTime(h: Devices, c: State, ops: seq<Op>)
    requires InFuture(h) && Inv(c) && Legal(h, c, ops)
    ensures Inv(After(h, c, ops)) && Grows(c, After(h, c, ops))
    decreases |ops|
  {
    if ops == [] {
    } else {
      StepInv(h, c, ops[0]);
      RunsKeepTime(h, Step(h, c, ops[0]), ops[1..]);
    }
  }

  /** A lone timer interrupt, which CheckIfDue does not fire on an idle machine. */
  predicate OnlyTimer(c: State) {
    c.status.IdleMode? && |c.pending| == 1 && c.pending[0].0.kind.TimerInt?
  }

  lemma CheckKeepsStatus(h: Devices, c: State, advanceClock: bool)
    requires InFuture(h) && c.level.IntOff?
    ensures var c' := CheckIfDue(h, c, advanceClock).0; c'.status == c.status && c'.level == c.level
  {
    if c.pending != [] {
      var e := c.pending[0];
      var c1 := AdvanceTo(c, e.1);
      var effect := h(|c.fired|);
      ScheduleAllFrame(c1.(pending := c.pending[1..], fired := c.fired + [e], firedAt := c.firedAt + [c1.totalTicks],
                           yieldOnReturn := c.yieldOnReturn || effect.wantsYield), effect.requests);
    }
  }

  /** Draining fires everything that is due, except a lone timer on an idle machine. */
  lemma {:induction false} DrainFiresAllDue(h: Devices, c: State)
    requires InFuture(h) && Inv(c) && c.level.IntOff?
    ensures var c' := Drain(h, c); c'.status == c.status && c'.level == c.level && (Due(c'.pending, c'.totalTicks) == 0 || OnlyTimer(c'))
    decreases Due(c.pending, c.totalTicks)
  {
    CheckInv(h, c, false);
    CheckKeepsStatus(h, c, false);
    var (c', fired) := CheckIfDue(h, c, false);
    if fired {
      FiringReducesDue(h, c);
      DrainFiresAllDue(h, c');
    } else if c.pending != [] && c.pending[0].1 > c.totalTicks {
      NoneDue(c.pending, c.totalTicks);
      InsertedDue(c.pending[1..], c.pending[0].0, c.pending[0].1, c.totalTicks);
    }
  }

  /** After a tick in the kernel or in user code nothing that is due is left pending. */
  lemma TickFiresAllDue(h: Devices, c: State)
    requires InFuture(h) && Inv(c) && !c.status.IdleMode?
    ensures var c' := OneTick(h, c).0; Due(c'.pending, c'.totalTicks) == 0 && !c'.yieldOnReturn
  {
    AdvanceInv(c);
    DrainFiresAllDue(h, Advance(c).(level := IntOff));
  }

  /** The machine halts exactly when nothing but the timer could ever interrupt it; otherwise the
      clock moves to the next interrupt, if that lies ahead, and the time passed is idle time. */
  lemma IdleHaltsExactly(h: Devices, c: State)
    requires InFuture(h) && Inv(c) && c.level.IntOff?
    ensures Idle(h, c).1 <==> c.pending != [] && !(|c.pending| == 1 && c.pending[0].0.kind.TimerInt?)
    ensures c.pending != [] ==>
              var c' := Idle(h, c).0;
              && c'.totalTicks == (if c.pending[0].1 > c.totalTicks then c.pending[0].1 else c.totalTicks)
              && c'.idleTicks - c.idleTicks == c'.totalTicks - c.totalTicks
              && c'.systemTicks == c.systemTicks && c'.userTicks == c.userTicks
  {
    var c0 := c.(status := IdleMode);
    CheckInv(h, c0, true);
    var (c1, fired) := CheckIfDue(h, c0, true);
    if c.pending != [] {
      var e := c.pending[0];
      var c2 := AdvanceTo(c0, e.1);
      var effect := h(|c.fired|);
      ScheduleAllFrame(c2.(pending := c.pending[1..], fired := c.fired + [e], firedAt := c.firedAt + [c2.totalTicks],
                           yieldOnReturn := c.yieldOnReturn || effect.wantsYield), effect.requests);
      if fired {
        DrainInv(h, c1);
        DrainTicks(h, c1);
      }
    }
  }

  /** A machine that does not halt is back in the kernel, with no yield due and nothing left that is due but
      perhaps the timer, which it will not wait for alone. */
  lemma IdleLeaves(h: Devices, c: State)
    requires InFuture(h) && Inv(c) && c.level.IntOff? && Idle(h, c).1
    ensures var c' := Idle(h, c).0;
            && c'.status.SystemMode? && c'.level.IntOff? && !c'.yieldOnReturn
            && (Due(c'.pending, c'.totalTicks) == 0 || (|c'.pending| == 1 && c'.pending[0].0.kind.TimerInt?))
  {
    var c0 := c.(status := IdleMode);
    CheckInv(h, c0, true);
    CheckKeepsStatus(h, c0, true);
    DrainInv(h, CheckIfDue(h, c0, true).0);
    DrainFiresAllDue(h, CheckIfDue(h, c0, true).0);
  }

  /** Turning interrupts on takes a tick, and nothing else does: not leaving them on, nor turning them off. */
  lemma LevelMeans(h: Devices, c: State, now: IntStatus)
    requires InFuture(h) && Inv(c)
    ensures var (c', yielding) := SetLevel(h, c, now);
            && c'.level == now
            && (c'.totalTicks > c.totalTicks <==> c.level.IntOff? && now.IntOn?)
            && (c'.totalTicks == c.totalTicks ==> c' == c.(level := now) && !yielding)
  {
    TickMeans(h, c.(level := now));
  }

  lemma {:induction false} DrainTicks(h: Devices, c: State)
    requires InFuture(h) && c.level.IntOff?
    ensures var c' := Drain(h, c);
            c'.idleTicks == c.idleTicks && c'.systemTicks == c.systemTicks && c'.userTicks == c.userTicks
    decreases Due(c.pending, c.totalTicks)
  {
    if CheckIfDue(h, c, false).1 {
      FiringReducesDue(h, c);
      var effect := h(|c.fired|);
      ScheduleAllFrame(c.(pending := c.pending[1..], fired := c.fired + [c.pending[0]],
                          firedAt := c.firedAt + [c.totalTicks],
                          yieldOnReturn := c.yieldOnReturn || effect.wantsYield), effect.requests);
      DrainTicks(h, CheckIfDue(h, c, false).0);
    }
  }

  // ---------------------------------------------------------------- requests and their handlers

  /** A request adds the one interrupt it asks for, at its time, and changes nothing else. */
  lemma ScheduleMeans(c: State, r: Request)
    ensures var c' := Schedule(c, r);
            && multiset(c'.pending) == multiset(c.pending) + multiset{(r.what, c.totalTicks + r.fromNow)}
            && c' == c.(pending := c'.pending, scheduled := c.scheduled + [Asked(r, c.totalTicks)])
  {
    InsertedAdds(c.pending, r.what, c.totalTicks + r.fromNow);
  }

  /** A handler's requests are made one after the other, all at the time of the call. */
  lemma {:induction false} HandlerAsks(c: State, rs: seq<Request>, i: nat)
    ensures var s' := ScheduleAll(c, rs).scheduled;
            && |s'| == |c.scheduled| + |rs| && c.scheduled <= s'
            && (i < |rs| ==> s'[|c.scheduled| + i] == Asked(rs[i], c.totalTicks))
    decreases |rs|
  {
    if rs == [] {
    } else {
      HandlerAsks(Schedule(c, rs[0]), rs[1..], if i == 0 then 0 else i - 1);
    }
  }

  lemma MemberOf(s: seq<Asked>, e: Entry<PendingInterrupt>) returns (a: Asked)
    requires e in multiset(AllWanted(s))
    ensures a in s && Wanted(a) == e
  {
    var es := AllWanted(s);
    assert e in es;
    var i :| 0 <= i < |es| && es[i] == e;
    a := s[i];
  }

  /** Over any run every handler that was called was asked for, with its argument, and never before its delay
      had passed since the request. */
  lemma NeverEarly(h: Devices, c: State, ops: seq<Op>, i: nat) returns (a: Asked)
    requires InFuture(h) && Inv(c) && Legal(h, c, ops) && i < |After(h, c, ops).fired|
    ensures var c' := After(h, c, ops);
            && |c'.firedAt| == |c'.fired| && a in c'.scheduled
            && a.request.what == c'.fired[i].0 && a.at + a.request.fromNow <= c'.firedAt[i]
  {
    RunsKeepTime(h, c, ops);
    var c' := After(h, c, ops);
    assert c'.fired[i] in multiset(c'.fired);
    a := MemberOf(c'.scheduled, c'.fired[i]);
    assert NotEarly(c'.fired, c'.firedAt, i);
  }

  lemma {:induction false} DueMeans(s: seq<Entry<PendingInterrupt>>, now: int, e: Entry<PendingInterrupt>)
    requires Due(s, now) == 0 && e in s
    ensures now < e.1
  {
    if e == s[0] {
    } else {
      DueMeans(s[1..], now, e);
    }
  }

  /** And after any run that ends with a tick, in the kernel or in user code, every request whose delay has
      passed has had its handler called. */
  lemma NeverLate(h: Devices, c: State, ops: seq<Op>, a: Asked)
    requires InFuture(h) && Inv(c) && Legal(h, c, ops) && !After(h, c, ops).status.IdleMode?
    requires var c' := Step(h, After(h, c, ops), Tick); a in c'.scheduled && a.at + a.request.fromNow <= c'.totalTicks
    ensures var c' := Step(h, After(h, c, ops), Tick); Wanted(a) in c'.fired && Wanted(a) !in c'.pending
  {
    RunsKeepTime(h, c, ops);
    TickInv(h, After(h, c, ops));
    TickFiresAllDue(h, After(h, c, ops));
    var c' := Step(h, After(h, c, ops), Tick);
    if Wanted(a) in c'.pending { DueMeans(c'.pending, c'.totalTicks, Wanted(a)); }
    var i :| 0 <= i < |c'.scheduled| && c'.scheduled[i] == a;
    assert AllWanted(c'.scheduled)[i] == Wanted(a);
    assert Wanted(a) in multiset(AllWanted(c'.scheduled));
  }

  // ---------------------------------------------------------------- the length of a tick, and the time slice

  /** A handler called since c asked for a yield. */
  predicate YieldAsked(h: Devices, from: nat, to: nat) {
    exists n: nat :: from <= n < to && h(n).wantsYield
  }

  lemma FireYields(h: Devices, c: State, e: Entry<PendingInterrupt>)
    requires InFuture(h)
    ensures var c' := Fire(h, c, e);
            |c'.fired| == |c.fired| + 1 && c'.yieldOnReturn == (c.yieldOnReturn || h(|c.fired|).wantsYield)
  {
    var effect := h(|c.fired|);
    ScheduleAllFrame(c.(fired := c.fired + [e], firedAt := c.firedAt + [c.totalTicks],
                        yieldOnReturn := c.yieldOnReturn || effect.wantsYield), effect.requests);
  }

  lemma {:induction false} DrainYields(h: Devices, c: State)
    requires InFuture(h) && c.level.IntOff?
    ensures var c' := Drain(h, c);
            && |c.fired| <= |c'.fired|
            && (c'.yieldOnReturn <==> c.yieldOnReturn || YieldAsked(h, |c.fired|, |c'.fired|))
    decreases Due(c.pending, c.totalTicks)
  {
    if CheckIfDue(h, c, false).1 {
      var c1 := CheckIfDue(h, c, false).0;
      FiringReducesDue(h, c);
      FireYields(h, c.(pending := c.pending[1..]), c.pending[0]);
      DrainYields(h, c1);
      var last := |Drain(h, c).fired|;
      assert YieldAsked(h, |c.fired|, last) <==> h(|c.fired|).wantsYield || YieldAsked(h, |c.fired| + 1, last);
    } else {
    }
  }

  /** A tick is ten units of system time in the kernel and one unit of user time otherwise, and ends in a yield
      exactly if one was due or a handler that it called asked for one. */
  lemma TickMeans(h: Devices, c: State)
    requires InFuture(h) && Inv(c)
    ensures var (c', yielding) := OneTick(h, c);
            && c'.totalTicks - c.totalTicks == (if c.status.SystemMode? then 10 else 1)
            && c'.systemTicks - c.systemTicks == (if c.status.SystemMode? then 10 else 0)
            && c'.userTicks - c.userTicks == (if c.status.SystemMode? then 0 else 1) && c'.idleTicks == c.idleTicks
            && c'.level.IntOn? && !c'.yieldOnReturn
            && (yielding <==> c.yieldOnReturn || YieldAsked(h, |c.fired|, |c'.fired|))
  {
    AdvanceInv(c);
    DrainInv(h, Advance(c).(level := IntOff));
    DrainTicks(h, Advance(c).(level := IntOff));
    DrainYields(h, Advance(c).(level := IntOff));
  }
}
