/** What turning interrupts off buys, over every run of the routines of module InterruptLevels. */
module InterruptSafety {
  import opened Kernel
  import opened InterruptLevels
  import L = LevelProofs
  import C = Clock

  /** m comes up in some run of the machine. */
  ghost predicate Reachable(m: Micro) {
    exists value, steps :: L.Legal(L.Boot(value), steps) && L.After(L.Boot(value), steps) == m
  }

  /** Whatever the routines do, with handlers and time slices wherever they can come in, is a run of Kernel. */
  lemma RoutinesRefineKernel(value: map<nat, nat>, steps: seq<MicroStep>)
    requires L.Legal(L.Boot(value), steps)
    ensures var es := L.Trace(L.Boot(value), steps);
            Legal(Boot(value), es) && After(Boot(value), es) == Abs(L.After(L.Boot(value), steps))
  {
    L.BootMInv(value);
    L.RunProjects(L.Boot(value), steps);
  }

  lemma ReachableInv(m: Micro)
    requires Reachable(m)
    ensures MInv(m)
  {
    var value, steps :| L.Legal(L.Boot(value), steps) && L.After(L.Boot(value), steps) == m;
    L.BootMInv(value);
    L.RunProjects(L.Boot(value), steps);
  }

  /** Time advances only with interrupts on, between the routines or in Acquire before its test. */
  lemma TimeAdvancesAtTickPoints(m: Micro)
    requires Reachable(m) && (m.pc.Ticking? || m.pc.User?)
    ensures m.level.IntOn? && m.saved == [] && Abs(m) == m.k && m.k.current in m.k.threads
    ensures TickPoint(m.k.threads[m.k.current])
  {
    ReachableInv(m);
  }

  /** With interrupts off nothing can come in; only a processor without a ready thread waits for a handler. */
  lemma OffIsIndivisible(m: Micro, step: MicroStep)
    requires Reachable(m) && m.level.IntOff? && CanStep(m, step)
    ensures step.Exec? || (step.Handler? && m.pc.Asleep? && m.k.ready == [])
  {
    ReachableInv(m);
  }

  /** A thread inside a routine can always take its next action; only an idle processor has to wait. */
  lemma NeverStuck(m: Micro)
    requires Reachable(m) && !m.pc.User? && !m.pc.Ticking?
    ensures CanExec(m) <==> !(m.pc.Asleep? && m.k.ready == [])
  {
    ReachableInv(m);
    if m.pc.Switch? && m.pc.next != m.k.current { assert FrameOk(m, m.pc.next); }
  }

  /** The data that the threads share: all but the points at which threads go on. */
  predicate SameData(k: State, k': State) {
    && k'.current == k.current && k'.ready == k.ready && k'.waiting == k.waiting && k'.value == k.value
    && k'.owner == k.owner && k'.toBeDestroyed == k.toBeDestroyed && k'.threads.Keys == k.threads.Keys
    && forall t <- k.threads :: k'.threads[t].status == k.threads[t].status
  }

  lemma OnLeavesData(m: Micro)
    requires CanExec(m) && PcOk(m) == true && m.level.IntOn?
    ensures SameData(m.k, Executed(m).k)
  {}

  /** Shared data change with interrupts off only. */
  lemma DataChangeWithInterruptsOff(m: Micro)
    requires Reachable(m) && CanExec(m) && !SameData(m.k, Executed(m).k)
    ensures m.level.IntOff?
  {
    ReachableInv(m);
    if m.level.IntOn? { OnLeavesData(m); }
  }

  /** The assertion of Sleep: a thread goes to sleep, and looks for the next thread to run, with interrupts off. */
  lemma SleepsWithInterruptsOff(m: Micro)
    requires Reachable(m) && CanExec(m)
    requires m.pc.Asleep? || m.pc.Switch? || Executed(m).pc.Asleep?
    ensures m.level.IntOff?
  {
    ReachableInv(m);
  }

  /** pc is in an interrupt handler. */
  predicate InHandler(pc: Pc) {
    (pc.InV? || pc.Restoring?) && (pc.after.LevelOn? || pc.after.Asleep?)
  }

  /** The assertion of SetLevel: no handler turns interrupts on. */
  lemma HandlersKeepInterruptsOff(m: Micro)
    requires Reachable(m) && InHandler(m.pc)
    ensures m.level.IntOff? && CanExec(m) && Executed(m).level.IntOff?
  {
    ReachableInv(m);
  }

  /** Acquire tests the lock with interrupts on, yet nothing comes in before the lock is taken. */
  lemma TestAndSetIsIndivisible(m: Micro, l: nat, step: MicroStep)
    requires Reachable(m) && (m.pc == InAcquire(l, LockOff) || m.pc == InAcquire(l, LockSet)) && CanStep(m, step)
    ensures step.Exec? && (l in m.k.owner ==> m.k.owner[l] == m.k.current)
    ensures m.pc.a.LockSet? ==> Holds(Next(m, step).k, l, m.k.current)
  {
    ReachableInv(m);
    assert ThreadOk(m.k, m.k.current);
  }

  /** From the moment it is on the queue until it sleeps nothing but the waiting thread acts. */
  lemma WaitIsIndivisible(m: Micro, step: MicroStep)
    requires Reachable(m) && m.pc.Waiting? && m.level.IntOff? && CanStep(m, step)
    ensures step.Exec? && var m' := Next(m, step); m'.k.current == m.k.current && m'.level.IntOff? && (m'.pc.Waiting? || m'.pc.Asleep?)
  {
    ReachableInv(m);
  }

  function Execs(n: nat): seq<MicroStep> {
    seq(n, _ => Exec)
  }

  lemma OneMore(m: Micro, w: WaitAt, n: nat)
    requires m.k.current in m.k.threads && m.pc.Waiting? && m.pc.w == w && (w.InnerRestore? ==> m.saved != [])
    requires L.Legal(ExecWait(m, m.pc.c, m.pc.l, w), Execs(n))
    ensures L.Legal(m, Execs(n + 1))
    ensures L.After(m, Execs(n + 1)) == L.After(ExecWait(m, m.pc.c, m.pc.l, w), Execs(n))
  {
    assert Execs(n + 1)[1..] == Execs(n);
  }

  lemma QueueThenCheck(m: Micro, c: nat, l: nat, n: nat)
    requires m.k.current in m.k.threads && m.pc == Waiting(c, l, WaitQueue) && Holds(m.k, l, m.k.current)
    requires L.Legal(m.(k := Push(m.k, CondQueue(c)), pc := Waiting(c, l, InnerOff)), Execs(n))
    ensures L.Legal(m, Execs(n + 2))
    ensures L.After(m, Execs(n + 2)) == L.After(m.(k := Push(m.k, CondQueue(c)), pc := Waiting(c, l, InnerOff)), Execs(n))
  {
    OneMore(ExecWait(m, c, l, WaitQueue), InnerCheck, n);
    OneMore(m, WaitQueue, n + 1);
  }

  lemma OffThenClear(m: Micro, c: nat, l: nat, n: nat)
    requires m.k.current in m.k.threads && m.pc == Waiting(c, l, InnerOff) && m.level.IntOff?
    requires L.Legal(m.(k := Unlock(m.k, l), saved := [C.IntOff] + m.saved, pc := Waiting(c, l, InnerRestore)), Execs(n))
    ensures L.Legal(m, Execs(n + 2))
    ensures L.After(m, Execs(n + 2)) ==
              L.After(m.(k := Unlock(m.k, l), saved := [C.IntOff] + m.saved, pc := Waiting(c, l, InnerRestore)), Execs(n))
  {
    OneMore(ExecWait(m, c, l, InnerOff), InnerClear, n);
    OneMore(m, InnerOff, n + 1);
  }

  lemma RestoreThenBlock(m: Micro, c: nat, l: nat)
    requires m.k.current in m.k.threads && m.pc == Waiting(c, l, InnerRestore) && m.level.IntOff?
    requires m.saved != [] && m.saved[0].IntOff?
    ensures L.Legal(m, Execs(2))
    ensures var m' := L.After(m, Execs(2)); m'.k == BlockSelf(m.k, InWait(c, l)) && m'.pc.Asleep?
  {
    OneMore(ExecWait(m, c, l, InnerRestore), WaitBlock, 0);
    OneMore(m, InnerRestore, 1);
  }

  lemma AtWaitQueue(m: Micro, c: nat, l: nat)
    requires Reachable(m) && m.pc == Waiting(c, l, WaitQueue)
    ensures m.level.IntOff? && Inv(m.k) && m.k.threads[m.k.current] == Thread(Running, Free) && Holds(m.k, l, m.k.current)
  {
    ReachableInv(m);
  }

  /** Six actions take a thread from the queue operation of Wait to sleep, and what they do together is
      the one step Wait of Kernel: on the queue, lock free, not running. */
  lemma WaitRunsThrough(m: Micro, c: nat, l: nat)
    requires Reachable(m) && m.pc == Waiting(c, l, WaitQueue)
    ensures Inv(m.k) && Enabled(m.k, Wait(c, l)) && Holds(m.k, l, m.k.current)
    ensures L.Legal(m, Execs(6)) && var m' := L.After(m, Execs(6)); m'.pc.Asleep? && m'.k == Step(m.k, Wait(c, l))
  {
    AtWaitQueue(m, c, l);
    var m2 := m.(k := Push(m.k, CondQueue(c)), pc := Waiting(c, l, InnerOff));
    var m4 := m2.(k := Unlock(m2.k, l), saved := [C.IntOff] + m.saved, pc := Waiting(c, l, InnerRestore));
    RestoreThenBlock(m4, c, l);
    OffThenClear(m2, c, l, 2);
    QueueThenCheck(m, c, l, 4);
  }

  /** The micro-steps tick exactly where Clock does: SetLevel advances time exactly when interrupts go from
      off to on, and otherwise sets the level and calls no handler. */
  lemma LevelsTickLikeTheClock(h: C.Devices, c: C.State, m: Micro, now: Level, saved: seq<Level>, after: Pc)
    requires C.InFuture(h) && C.Inv(c) && c.level == m.level && !after.Ticking?
    ensures var m' := Set(m, now, saved, after);
            var (c', yielding) := C.SetLevel(h, c, now);
            && c'.level == m'.level
            && (m'.pc.Ticking? <==> c.totalTicks < c'.totalTicks)
            && (!m'.pc.Ticking? ==> c' == c.(level := now) && !yielding)
  {
    var c1 := C.Advance(c.(level := now)).(level := C.IntOff);
    C.AdvanceInv(c.(level := now));
    C.DrainInv(h, c1);
  }
}
