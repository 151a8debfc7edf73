/** Every run of the actions of module InterruptLevels is a run of module Kernel. */
module LevelProofs {
  import opened Kernel
  import opened InterruptLevels
  import C = Clock

  // ---------------------------------------------------------------- actions that are no step of Kernel

  lemma StutterP(m: Micro, s: nat, p: PAt)
    requires m.k.current in m.k.threads && m.pc == InP(s, p) && !p.PTake? && !p.PQueue?
    ensures Abs(ExecP(m, s, p)) == Abs(m)
  {}

  lemma StutterV(m: Micro, s: nat, v: VAt, after: Pc)
    requires m.pc == InV(s, v, after) && !v.VRemove?
    ensures Abs(ExecV(m, s, v, after)) == Abs(m)
  {}

  /** Here the level counts: the Release inside Wait finds interrupts off and leaves them off. */
  lemma StutterWait(m: Micro, c: nat, l: nat, w: WaitAt, th: Thread)
    requires m.pc == Waiting(c, l, w) && WaitOk(m, th, l, w) && !w.WaitQueue?
    ensures Abs(ExecWait(m, c, l, w)) == Abs(m)
  {}

  lemma StutterSignal(m: Micro, c: nat, l: nat, g: SignalAt)
    requires m.pc == InSignal(c, l, g) && !g.SignalRemove?
    ensures Abs(ExecSignal(m, c, l, g)) == Abs(m)
  {}

  lemma WakeIsPopReady(k: State, q: QueueId)
    requires Inv(k) && Queue(k, q) != []
    ensures WakeAll(Wake(k, q), q) == WakeAll(k, q)
    ensures Wake(k, q) == Readied(Pop(k, q), Queue(k, q)[0])
  {
    assert QueueOk(k, q);
    Kernel.WakeThenAll(k, q);
  }

  lemma StutterBroadcast(m: Micro, c: nat, l: nat, b: BroadcastAt)
    requires m.pc == InBroadcast(c, l, b) && !b.BroadcastOff? && (b.BroadcastLoop? ==> Inv(m.k))
    ensures Abs(ExecBroadcast(m, c, l, b)) == Abs(m)
  {
    if b.BroadcastLoop? && Queue(m.k, CondQueue(c)) != [] { WakeIsPopReady(m.k, CondQueue(c)); }
  }

  lemma StutterYield(m: Micro, why: Why, y: YieldAt, after: Pc)
    requires m.k.current in m.k.threads && m.pc == InYield(why, y, after) && !y.YieldFind?
    ensures Abs(ExecYield(m, why, y, after)) == Abs(m)
  {}

  /** SWITCH: the thread that comes back deletes the carcass, a fresh one does not. */
  lemma StutterSwitch(m: Micro, back: Pc, next: Tid)
    requires m.k.current in m.k.threads && m.pc == Switch(back, next) && CanExec(m) && PcOk(m) && Parked(m)
    ensures Abs(Switched(m, back, next)) == Abs(m)
  {
    if next != m.k.current { assert FrameOk(m, next); }
  }

  // ---------------------------------------------------------------- actions that are one step

  lemma VIsWhole(k: State, s: nat)
    requires Wf(k)
    ensures var q := Queue(k, SemQueue(s));
            (if q == [] then AddOne(k, s) else AddOne(Readied(Pop(k, SemQueue(s)), q[0]), s)) == PostV(k, s)
  {}

  lemma CommitP(m: Micro, s: nat, p: PAt)
    requires m.k.current in m.k.threads && Wf(m.k) && (p.PTake? || p.PQueue?) && POk(m, m.k.threads[m.k.current], s, p)
    ensures Kernel.Enabled(m.k, P(s)) && Abs(ExecP(m, s, p)) == Step(m.k, P(s))
  {}

  lemma VMayCome(m: Micro, s: nat, after: Pc)
    requires m.k.current in m.k.threads && Wf(m.k) && VOk(m, m.k.threads[m.k.current], VRemove, after)
    ensures Kernel.Enabled(m.k, if after == User then V(s) else HandlerV(s))
  {}

  lemma CommitV(m: Micro, s: nat, after: Pc)
    requires Wf(m.k)
    ensures Abs(ExecV(m, s, VRemove, after)) == PostV(m.k, s)
  {
    VIsWhole(m.k, s);
  }

  lemma CommitWait(m: Micro, c: nat, l: nat)
    requires m.k.current in m.k.threads && Wf(m.k) && WaitOk(m, m.k.threads[m.k.current], l, WaitQueue)
    ensures Kernel.Enabled(m.k, Wait(c, l)) && Abs(ExecWait(m, c, l, WaitQueue)) == Step(m.k, Wait(c, l))
  {}

  lemma CommitSignal(m: Micro, c: nat, l: nat)
    requires m.k.current in m.k.threads && Wf(m.k) && SignalOk(m, m.k.threads[m.k.current], c, l, SignalRemove)
    ensures Kernel.Enabled(m.k, Signal(c, l)) && Abs(ExecSignal(m, c, l, SignalRemove)) == Step(m.k, Signal(c, l))
  {}

  lemma CommitBroadcast(m: Micro, c: nat, l: nat)
    requires m.k.current in m.k.threads && Wf(m.k) && BroadcastOk(m, m.k.threads[m.k.current], l, BroadcastOff)
    ensures Kernel.Enabled(m.k, Broadcast(c, l)) && Abs(ExecBroadcast(m, c, l, BroadcastOff)) == Step(m.k, Broadcast(c, l))
  {}

  lemma CommitFinish(m: Micro)
    requires m.k.current in m.k.threads && Wf(m.k) && m.k.threads[m.k.current] == Thread(Running, Free)
    ensures Kernel.Enabled(m.k, Finish) && Abs(ExecFinish(m, FinishMark)) == Step(m.k, Finish)
  {}

  lemma CommitYield(m: Micro, why: Why, after: Pc)
    requires m.k.current in m.k.threads && Wf(m.k) && YieldOk(m, m.k.threads[m.k.current], why, YieldFind, after)
    ensures Abs(ExecYield(m, why, YieldFind, after)) == YieldCpu(if why.ByLock? then SetAt(m.k, TestLock(why.lock)) else m.k)
  {}

  lemma CommitDispatch(m: Micro, back: Pc)
    requires m.k.current in m.k.threads && Wf(m.k) && CanExec(m) && m.pc == Asleep(back) && PcOk(m)
    ensures Kernel.Enabled(m.k, Dispatch) && Abs(Executed(m)) == Step(m.k, Dispatch)
  {}

  // ---------------------------------------------------------------- the level and the saved levels stay right

  lemma KeepP(m: Micro, s: nat, p: PAt)
    requires m.k.current in m.k.threads && POk(m, m.k.threads[m.k.current], s, p)
    ensures var m' := ExecP(m, s, p); m'.k.current in m'.k.threads && PcOk(m') == true
  {}

  lemma KeepV(m: Micro, s: nat, v: VAt, after: Pc)
    requires m.k.current in m.k.threads && VOk(m, m.k.threads[m.k.current], v, after) && !v.VReady?
    requires v.VRemove? ==> QueueOk(m.k, SemQueue(s))
    ensures var m' := ExecV(m, s, v, after); m'.k.current in m'.k.threads && PcOk(m') == true
  {}

  /** In the idle loop the thread that is made ready may be the sleeping one itself. */
  lemma KeepVReady(m: Micro, s: nat, t: Tid, after: Pc)
    requires m.k.current in m.k.threads && VOk(m, m.k.threads[m.k.current], VReady(t), after)
    ensures var m' := ExecV(m, s, VReady(t), after); m'.k.current in m'.k.threads && PcOk(m') == true
  {
    if t == m.k.current { assert after.Asleep?; }
  }

  lemma KeepAcquire(m: Micro, l: nat, a: LockAt)
    requires m.k.current in m.k.threads && AcquireOk(m, m.k.threads[m.k.current], l, a)
    ensures var m' := ExecAcquire(m, l, a); m'.k.current in m'.k.threads && PcOk(m') == true
  {}

  lemma KeepRelease(m: Micro, l: nat, r: ReleaseAt)
    requires m.k.current in m.k.threads && ReleaseOk(m, m.k.threads[m.k.current], l, r)
    ensures var m' := ExecRelease(m, l, r); m'.k.current in m'.k.threads && PcOk(m') == true
  {}

  lemma KeepWait(m: Micro, c: nat, l: nat, w: WaitAt)
    requires m.k.current in m.k.threads && WaitOk(m, m.k.threads[m.k.current], l, w)
    ensures var m' := ExecWait(m, c, l, w); m'.k.current in m'.k.threads && PcOk(m') == true
  {}

  lemma KeepSignal(m: Micro, c: nat, l: nat, g: SignalAt)
    requires m.k.current in m.k.threads && SignalOk(m, m.k.threads[m.k.current], c, l, g)
    requires g.SignalRemove? ==> QueueOk(m.k, CondQueue(c))
    ensures var m' := ExecSignal(m, c, l, g); m'.k.current in m'.k.threads && PcOk(m') == true
  {}

  lemma KeepBroadcast(m: Micro, c: nat, l: nat, b: BroadcastAt)
    requires m.k.current in m.k.threads && BroadcastOk(m, m.k.threads[m.k.current], l, b) && (b.BroadcastOff? ==> Inv(m.k))
    ensures var m' := ExecBroadcast(m, c, l, b); m'.k.current in m'.k.threads && PcOk(m') == true
  {
    if b.BroadcastLoop? && Queue(m.k, CondQueue(c)) != [] {
      assert QueueOk(m.k, CondQueue(c));
      WakeIsPopReady(m.k, CondQueue(c));
      WakeInv(m.k, CondQueue(c));
    }
  }

  lemma KeepYield(m: Micro, why: Why, y: YieldAt, after: Pc)
    requires m.k.current in m.k.threads && YieldOk(m, m.k.threads[m.k.current], why, y, after)
    requires y.YieldFind? && m.k.ready != [] ==> Runnable(m.k, m.k.ready[0])
    ensures var m' := ExecYield(m, why, y, after); m'.k.current in m'.k.threads && PcOk(m') == true
  {}

  lemma KeepSwitch(m: Micro, back: Pc, next: Tid)
    requires m.k.current in m.k.threads && m.pc == Switch(back, next) && CanExec(m) && PcOk(m) && Parked(m)
    ensures var m' := Switched(m, back, next); m'.k.current in m'.k.threads && PcOk(m') == true && Parked(m')
  {
    var m' := Switched(m, back, next);
    if next != m.k.current { assert FrameOk(m, next); }
    forall t | t in m'.k.threads && t != m'.k.current ensures FrameOk(m', t) {
      if t != m.k.current { assert FrameOk(m, t); }
    }
  }

  lemma KeepLevel(m: Micro)
    requires CanExec(m) && PcOk(m) && (m.pc.Start? || m.pc.Restoring? || m.pc.LevelOn?)
    ensures var m' := Executed(m); m'.k.current in m'.k.threads && PcOk(m') == true && Abs(m') == m.k
  {}

  lemma KeepForkFinish(m: Micro)
    requires CanExec(m) && PcOk(m) && (m.pc.InFork? || m.pc.InFinish?)
    ensures var m' := Executed(m); m'.k.current in m'.k.threads && PcOk(m') == true
  {}

  lemma KeepAsleep(m: Micro)
    requires CanExec(m) && PcOk(m) && m.pc.Asleep? && Runnable(m.k, m.k.ready[0])
    ensures var m' := Executed(m); m'.k.current in m'.k.threads && PcOk(m') == true
  {}

  lemma KeepBack(m: Micro)
    requires CanExec(m) && PcOk(m) && (m.pc.BackInYield? || m.pc.BackInP?) && m.k.current in Reap(m.k).threads
    ensures var m' := Executed(m); m'.k.current in m'.k.threads && PcOk(m') == true && Abs(m') == Reap(m.k)
  {}

  /** Nothing but the running thread's record, statuses and the set of threads has changed. */
  lemma SameFrames(m: Micro, m': Micro)
    requires Parked(m) && m'.parked == m.parked && m'.k.current == m.k.current
    requires forall t <- m'.k.threads :: t != m.k.current ==> t in m.k.threads && m'.k.threads[t].at == m.k.threads[t].at
    ensures Parked(m')
  {
    forall t | t in m'.k.threads && t != m'.k.current ensures FrameOk(m', t) { assert FrameOk(m, t); }
  }

  // ---------------------------------------------------------------- one micro-step

  /** The step of Kernel that an action is, if it is one. */
  function ExecEvents(m: Micro): seq<Event> {
    match m.pc
    case InP(s, p) => if p.PTake? || p.PQueue? then [P(s)] else []
    case InV(s, v, after) => if v.VRemove? then [if after == User then V(s) else HandlerV(s)] else []
    case InAcquire(l, a) =>
      if a.LockSet? then [TakeLock(l)]
      else if a.LockTest? && !(l in m.k.owner && m.k.owner[l] != m.k.current) then [Acquire(l)] else []
    case InRelease(l, r) => if r.ReleaseClear? then [Release(l)] else []
    case Waiting(c, l, w) => if w.WaitQueue? then [Wait(c, l)] else []
    case InSignal(c, l, g) => if g.SignalRemove? then [Signal(c, l)] else []
    case InBroadcast(c, l, b) => if b.BroadcastOff? then [Broadcast(c, l)] else []
    case InFork(t, off) => if off then [Fork(t)] else []
    case InFinish(f) => if f.FinishMark? then [Finish] else []
    case InYield(why, y, _) => if y.YieldFind? then [if why.ByLock? then Acquire(why.lock) else Yield] else []
    case Asleep(_) => [Dispatch]
    case _ => []
  }

  /** k' is k after no event, or after the one event in es. */
  predicate OneEvent(k: State, es: seq<Event>, k': State) {
    if es == [] then k' == k else |es| == 1 && Wf(k) && Kernel.Enabled(k, es[0]) && k' == Step(k, es[0])
  }

  lemma AbsP(m: Micro, s: nat, p: PAt)
    requires m.k.current in m.k.threads && m.pc == InP(s, p) && POk(m, m.k.threads[m.k.current], s, p) && Wf(Abs(m))
    ensures OneEvent(Abs(m), ExecEvents(m), Abs(ExecP(m, s, p)))
  {
    if p.PTake? || p.PQueue? { CommitP(m, s, p); } else { StutterP(m, s, p); }
  }

  lemma AbsOfV(m: Micro, s: nat, v: VAt, after: Pc)
    requires m.k.current in m.k.threads && m.pc == InV(s, v, after) && VOk(m, m.k.threads[m.k.current], v, after) && Wf(Abs(m))
    ensures OneEvent(Abs(m), ExecEvents(m), Abs(ExecV(m, s, v, after)))
  {
    if v.VRemove? { VMayCome(m, s, after); CommitV(m, s, after); } else { StutterV(m, s, v, after); }
  }

  lemma AbsAcquire(m: Micro, l: nat, a: LockAt)
    requires m.k.current in m.k.threads && m.pc == InAcquire(l, a) && AcquireOk(m, m.k.threads[m.k.current], l, a) && Wf(m.k)
    ensures OneEvent(m.k, ExecEvents(m), Abs(ExecAcquire(m, l, a)))
  {}

  lemma AbsRelease(m: Micro, l: nat, r: ReleaseAt)
    requires m.k.current in m.k.threads && m.pc == InRelease(l, r) && ReleaseOk(m, m.k.threads[m.k.current], l, r) && Wf(m.k)
    ensures OneEvent(m.k, ExecEvents(m), Abs(ExecRelease(m, l, r)))
  {}

  lemma AbsOfWait(m: Micro, c: nat, l: nat, w: WaitAt)
    requires m.k.current in m.k.threads && m.pc == Waiting(c, l, w) && WaitOk(m, m.k.threads[m.k.current], l, w) && Wf(Abs(m))
    ensures OneEvent(Abs(m), ExecEvents(m), Abs(ExecWait(m, c, l, w)))
  {
    if w.WaitQueue? { CommitWait(m, c, l); } else { StutterWait(m, c, l, w, m.k.threads[m.k.current]); }
  }

  lemma AbsSignal(m: Micro, c: nat, l: nat, g: SignalAt)
    requires m.k.current in m.k.threads && m.pc == InSignal(c, l, g) && SignalOk(m, m.k.threads[m.k.current], c, l, g) && Wf(Abs(m))
    ensures OneEvent(Abs(m), ExecEvents(m), Abs(ExecSignal(m, c, l, g)))
  {
    if g.SignalRemove? { CommitSignal(m, c, l); } else { StutterSignal(m, c, l, g); }
  }

  lemma AbsOfBroadcast(m: Micro, c: nat, l: nat, b: BroadcastAt)
    requires m.k.current in m.k.threads && m.pc == InBroadcast(c, l, b) && BroadcastOk(m, m.k.threads[m.k.current], l, b) && Wf(Abs(m))
    ensures OneEvent(Abs(m), ExecEvents(m), Abs(ExecBroadcast(m, c, l, b)))
  {
    if b.BroadcastOff? { CommitBroadcast(m, c, l); } else { StutterBroadcast(m, c, l, b); }
  }

  lemma AbsFinish(m: Micro, f: FinishAt)
    requires m.k.current in m.k.threads && m.pc == InFinish(f) && PcOk(m) && Wf(Abs(m))
    ensures OneEvent(Abs(m), ExecEvents(m), Abs(ExecFinish(m, f)))
  {
    if f.FinishMark? { CommitFinish(m); }
  }

  lemma AbsFork(m: Micro)
    requires CanExec(m) && m.pc.InFork? && PcOk(m) && Wf(m.k)
    ensures OneEvent(m.k, ExecEvents(m), Abs(Executed(m)))
  {}

  lemma AbsYield(m: Micro, why: Why, y: YieldAt, after: Pc)
    requires m.k.current in m.k.threads && m.pc == InYield(why, y, after) && YieldOk(m, m.k.threads[m.k.current], why, y, after) && Wf(Abs(m))
    ensures OneEvent(Abs(m), ExecEvents(m), Abs(ExecYield(m, why, y, after)))
  {
    if y.YieldFind? { CommitYield(m, why, after); } else { StutterYield(m, why, y, after); }
  }

  lemma ReadyIsRunnable(k: State)
    requires Inv(k) && k.ready != []
    ensures Runnable(k, k.ready[0])
  {
    assert ThreadOk(k, k.ready[0]);
  }

  /** m' keeps what the micro-steps keep, and is es away from m.  Where it stands in a contract as an
      equation with true, it is passed on whole instead of one conjunct at a time. */
  ghost predicate Moved(m: Micro, es: seq<Event>, m': Micro) {
    m'.k.current in m'.k.threads && PcOk(m') && Parked(m') && OneEvent(Abs(m), es, Abs(m'))
  }

  lemma SimP(m: Micro, s: nat, p: PAt)
    requires MInv(m) == true && m.pc == InP(s, p) && CanExec(m)
    ensures Moved(m, ExecEvents(m), ExecP(m, s, p)) == true
  {
    AbsP(m, s, p);
    KeepP(m, s, p);
    SameFrames(m, ExecP(m, s, p));
  }

  lemma SimV(m: Micro, s: nat, v: VAt, after: Pc)
    requires MInv(m) == true && m.pc == InV(s, v, after) && CanExec(m)
    ensures Moved(m, ExecEvents(m), ExecV(m, s, v, after)) == true
  {
    AbsOfV(m, s, v, after);
    if v.VRemove? { assert QueueOk(m.k, SemQueue(s)); }
    if v.VReady? { KeepVReady(m, s, v.t, after); } else { KeepV(m, s, v, after); }
    SameFrames(m, ExecV(m, s, v, after));
  }

  lemma SimAcquire(m: Micro, l: nat, a: LockAt)
    requires MInv(m) == true && m.pc == InAcquire(l, a) && CanExec(m)
    ensures Moved(m, ExecEvents(m), ExecAcquire(m, l, a)) == true
  {
    AbsAcquire(m, l, a);
    KeepAcquire(m, l, a);
    SameFrames(m, ExecAcquire(m, l, a));
  }

  lemma SimRelease(m: Micro, l: nat, r: ReleaseAt)
    requires MInv(m) == true && m.pc == InRelease(l, r) && CanExec(m)
    ensures Moved(m, ExecEvents(m), ExecRelease(m, l, r)) == true
  {
    AbsRelease(m, l, r);
    KeepRelease(m, l, r);
    SameFrames(m, ExecRelease(m, l, r));
  }

  lemma SimWait(m: Micro, c: nat, l: nat, w: WaitAt)
    requires MInv(m) == true && m.pc == Waiting(c, l, w) && CanExec(m)
    ensures Moved(m, ExecEvents(m), ExecWait(m, c, l, w)) == true
  {
    AbsOfWait(m, c, l, w);
    KeepWait(m, c, l, w);
    SameFrames(m, ExecWait(m, c, l, w));
  }

  lemma SimSignal(m: Micro, c: nat, l: nat, g: SignalAt)
    requires MInv(m) == true && m.pc == InSignal(c, l, g) && CanExec(m)
    ensures Moved(m, ExecEvents(m), ExecSignal(m, c, l, g)) == true
  {
    AbsSignal(m, c, l, g);
    if g.SignalRemove? { assert QueueOk(m.k, CondQueue(c)); }
    KeepSignal(m, c, l, g);
    SameFrames(m, ExecSignal(m, c, l, g));
  }

  lemma SimBroadcast(m: Micro, c: nat, l: nat, b: BroadcastAt)
    requires MInv(m) == true && m.pc == InBroadcast(c, l, b) && CanExec(m)
    ensures Moved(m, ExecEvents(m), ExecBroadcast(m, c, l, b)) == true
  {
    AbsOfBroadcast(m, c, l, b);
    KeepBroadcast(m, c, l, b);
    SameFrames(m, ExecBroadcast(m, c, l, b));
  }

  lemma SimYield(m: Micro, why: Why, y: YieldAt, after: Pc)
    requires MInv(m) == true && m.pc == InYield(why, y, after) && CanExec(m)
    ensures Moved(m, ExecEvents(m), ExecYield(m, why, y, after)) == true
  {
    AbsYield(m, why, y, after);
    if y.YieldFind? && m.k.ready != [] { ReadyIsRunnable(m.k); }
    KeepYield(m, why, y, after);
    SameFrames(m, ExecYield(m, why, y, after));
  }

  lemma SimForkFinish(m: Micro)
    requires MInv(m) == true && CanExec(m) && (m.pc.InFork? || m.pc.InFinish?)
    ensures Moved(m, ExecEvents(m), Executed(m)) == true
  {
    if m.pc.InFork? { AbsFork(m); } else { AbsFinish(m, m.pc.f); }
    KeepForkFinish(m);
    SameFrames(m, Executed(m));
  }

  lemma SimSwitch(m: Micro, back: Pc, next: Tid)
    requires MInv(m) == true && CanExec(m) && m.pc == Switch(back, next)
    ensures Moved(m, [], Switched(m, back, next)) == true
  {
    KeepSwitch(m, back, next);
    StutterSwitch(m, back, next);
  }

  lemma SimAsleep(m: Micro, back: Pc)
    requires MInv(m) == true && CanExec(m) && m.pc == Asleep(back)
    ensures Moved(m, [Dispatch], Executed(m)) == true
  {
    ReadyIsRunnable(m.k);
    KeepAsleep(m);
    CommitDispatch(m, back);
    SameFrames(m, Executed(m));
  }

  lemma SimBack(m: Micro)
    requires MInv(m) == true && CanExec(m) && (m.pc.BackInYield? || m.pc.BackInP?)
    ensures Moved(m, [], Executed(m)) == true
  {
    KeepBack(m);
    SameFrames(m, Executed(m));
  }

  lemma SimLevel(m: Micro)
    requires MInv(m) == true && CanExec(m) && (m.pc.Start? || m.pc.Restoring? || m.pc.LevelOn?)
    ensures Moved(m, [], Executed(m)) == true
  {
    KeepLevel(m);
    SameFrames(m, Executed(m));
  }

  lemma SimExec(m: Micro)
    requires MInv(m) == true && CanExec(m)
    ensures Moved(m, ExecEvents(m), Executed(m)) == true
  {
    match m.pc
    case InP(s, p) => SimP(m, s, p);
    case InV(s, v, after) => SimV(m, s, v, after);
    case InAcquire(l, a) => SimAcquire(m, l, a);
    case InRelease(l, r) => SimRelease(m, l, r);
    case Waiting(c, l, w) => SimWait(m, c, l, w);
    case InSignal(c, l, g) => SimSignal(m, c, l, g);
    case InBroadcast(c, l, b) => SimBroadcast(m, c, l, b);
    case InFork(t, off) => SimForkFinish(m);
    case InFinish(f) => SimForkFinish(m);
    case InYield(why, y, after) => SimYield(m, why, y, after);
    case Switch(back, next) => SimSwitch(m, back, next);
    case Asleep(back) => SimAsleep(m, back);
    case BackInYield(after) => SimBack(m);
    case BackInP(s) => SimBack(m);
    case Start => SimLevel(m);
    case Restoring(after) => SimLevel(m);
    case LevelOn(after) => SimLevel(m);
  }

  lemma SimCalls(m: Micro, pc: Pc)
    requires MInv(m) == true && CanStep(m, Calls(pc))
    ensures Moved(m, [], m.(pc := pc)) == true
  {
    SameFrames(m, m.(pc := pc));
  }

  lemma SimCreates(m: Micro, t: Tid)
    requires MInv(m) == true && CanStep(m, Creates(t))
    ensures Moved(m, [New(t)], Next(m, Creates(t))) == true
  {
    var m' := Next(m, Creates(t));
    forall u | u in m'.k.threads && u != m'.k.current ensures FrameOk(m', u) {
      if u in m.k.threads { assert FrameOk(m, u); }
    }
  }

  lemma SimTick(m: Micro, step: MicroStep)
    requires MInv(m) == true && CanStep(m, step) && (step.Instruction? || step.Pass? || step.Slice? || step.Handler?)
    ensures Moved(m, [], Next(m, step)) == true
  {
    SameFrames(m, Next(m, step));
  }

  function Events(m: Micro, step: MicroStep): seq<Event> {
    match step
    case Creates(t) => [New(t)]
    case Exec => ExecEvents(m)
    case _ => []
  }

  lemma SimStep(m: Micro, step: MicroStep)
    requires MInv(m) == true && CanStep(m, step)
    ensures Moved(m, Events(m, step), Next(m, step)) == true
  {
    match step
    case Calls(pc) => SimCalls(m, pc);
    case Creates(t) => SimCreates(m, t);
    case Exec => SimExec(m);
    case _ => SimTick(m, step);
  }

  /** One micro-step is no step or one step of Kernel, and keeps the invariant. */
  lemma StepProjects(m: Micro, step: MicroStep)
    requires MInv(m) && CanStep(m, step)
    ensures MInv(Next(m, step)) && OneEvent(Abs(m), Events(m, step), Abs(Next(m, step)))
  {
    SimStep(m, step);
    var es := Events(m, step);
    if es != [] { StepInv(Abs(m), es[0]); }
  }

  // ---------------------------------------------------------------- every run

  predicate Legal(m: Micro, steps: seq<MicroStep>)
    decreases |steps|
  {
    steps == [] || (CanStep(m, steps[0]) && Legal(Next(m, steps[0]), steps[1..]))
  }

  function After(m: Micro, steps: seq<MicroStep>): Micro
    requires Legal(m, steps)
    decreases |steps|
  {
    if steps == [] then m else After(Next(m, steps[0]), steps[1..])
  }

  /** The events of a run, in order. */
  function Trace(m: Micro, steps: seq<MicroStep>): seq<Event>
    requires Legal(m, steps)
    decreases |steps|
  {
    if steps == [] then [] else Events(m, steps[0]) + Trace(Next(m, steps[0]), steps[1..])
  }

  function Boot(value: map<nat, nat>): Micro {
    Micro(Kernel.Boot(value), C.IntOn, [], User, map[])
  }

  lemma BootMInv(value: map<nat, nat>)
    ensures MInv(Boot(value))
  {
    BootInv(value);
  }

  lemma TraceLegal(k: State, es: seq<Event>, k': State, rest: seq<Event>)
    requires OneEvent(k, es, k') && Wf(k) && Kernel.Legal(k', rest)
    ensures Kernel.Legal(k, es + rest) && Kernel.After(k, es + rest) == Kernel.After(k', rest)
  {
    if es == [] {
      assert es + rest == rest;
    } else {
      assert (es + rest)[1..] == rest && (es + rest)[0] == es[0];
    }
  }

  /** Every interleaving of micro-steps, with handlers and slices wherever interrupts go from off to
      on, is a legal run of Kernel. */
  lemma {:induction false} RunProjects(m: Micro, steps: seq<MicroStep>)
    requires MInv(m) && Legal(m, steps)
    ensures MInv(After(m, steps))
    ensures Kernel.Legal(Abs(m), Trace(m, steps)) && Kernel.After(Abs(m), Trace(m, steps)) == Abs(After(m, steps))
    decreases |steps|
  {
    if steps == [] {
    } else {
      StepProjects(m, steps[0]);
      RunProjects(Next(m, steps[0]), steps[1..]);
      TraceLegal(Abs(m), Events(m, steps[0]), Abs(Next(m, steps[0])), Trace(Next(m, steps[0]), steps[1..]));
    }
  }
}
