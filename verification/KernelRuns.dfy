/** What every run of the thread kernel keeps: one place per thread, deletion, locks,
    condition queues and semaphores. */
module KernelRuns {
  import opened Options
  import opened Kernel

  lemma {:induction false} RunInv(k: State, es: seq<Event>)
    requires Inv(k) && Legal(k, es)
    ensures Inv(After(k, es))
    decreases |es|
  {
    if es == [] {
    } else {
      StepInv(k, es[0]);
      RunInv(Step(k, es[0]), es[1..]);
    }
  }

  // ---------------------------------------------------------------- one place per thread

  datatype Place = OnCpu | OnReadyList | OnQueue(q: QueueId) | NotYetForked | Finished

  /** How often t occurs at a place. */
  function Count(k: State, t: Tid, p: Place): nat {
    match p
    case OnCpu => if t == k.current && t in k.threads && k.threads[t].status.Running? then 1 else 0
    case OnReadyList => multiset(k.ready)[t]
    case OnQueue(q) => multiset(Queue(k, q))[t]
    case NotYetForked => if t in k.threads && k.threads[t].status.JustCreated? then 1 else 0
    case Finished => if t in k.threads && k.threads[t].at.Gone? then 1 else 0
  }

  lemma {:induction false} NoDupCount(s: seq<Tid>, t: Tid)
    requires NoDup(s)
    ensures multiset(s)[t] == if t in s then 1 else 0
  {
    if s == [] {
    } else {
      NoDupCount(s[1..], t);
      assert s == [s[0]] + s[1..];
    }
  }

  function PlaceOf(th: Thread): Place {
    match th.status
    case JustCreated => NotYetForked
    case Running => OnCpu
    case Ready => OnReadyList
    case Blocked => if th.at.WaitsOn().Some? then OnQueue(th.at.WaitsOn().value) else Finished
  }

  /** In every reachable state each allocated thread is at exactly one place, exactly once, and a
      deleted thread is nowhere. */
  lemma ExactlyOnePlace(value: map<nat, nat>, es: seq<Event>, t: Tid, p: Place)
    requires Legal(Boot(value), es)
    ensures var k := After(Boot(value), es);
            Count(k, t, p) == if t in k.threads && p == PlaceOf(k.threads[t]) then 1 else 0
  {
    var k := After(Boot(value), es);
    BootInv(value);
    RunInv(Boot(value), es);
    if t in k.threads { assert ThreadOk(k, t); }
    match p
    case OnReadyList => NoDupCount(k.ready, t);
    case OnQueue(q) =>
      if q in k.waiting { assert QueueOk(k, q); }
      NoDupCount(Queue(k, q), t);
    case _ =>
  }

  // ---------------------------------------------------------------- finishing and deletion

  /** The processor passes to the head of the ready list. */
  predicate Switches(k: State, e: Event) {
    && k.ready != []
    && (e.Dispatch? || e.Yield? || (e.Acquire? && e.l in k.owner && k.owner[e.l] != k.current))
  }

  /** ... and that thread deletes the carcass, because it has run before. */
  predicate Reaps(k: State, e: Event)
    requires Wf(k)
  {
    Switches(k, e) && k.toBeDestroyed.Some? && !k.threads[k.ready[0]].at.Fresh?
  }

  lemma StepReaper(k: State, e: Event)
    requires Wf(k) && Enabled(k, e)
    ensures var k' := Step(k, e);
            && k'.current == (if Switches(k, e) then k.ready[0] else k.current)
            && k'.toBeDestroyed == (if e.Finish? then Some(k.current) else if Reaps(k, e) then None else k.toBeDestroyed)
  {}

  lemma RunThreads(k: State, next: Tid, t: Tid)
    requires next in k.threads
    ensures t in Run(k, next).threads <==>
              t in k.threads && !(k.toBeDestroyed == Some(t) && !k.threads[next].at.Fresh?)
  {}

  /** Which threads a step leaves allocated. */
  lemma StepThreads(k: State, e: Event, t: Tid)
    requires Wf(k) && Enabled(k, e)
    ensures var k' := Step(k, e);
            && (t in k'.born <==> t in k.born || e == New(t))
            && (t in k'.threads <==>
                  (t in k.threads || e == New(t)) && !(Reaps(k, e) && k.toBeDestroyed == Some(t)))
  {
    match e
    case Dispatch => RunThreads(k.(ready := k.ready[1..]), k.ready[0], t);
    case Yield =>
      if k.ready != [] { RunThreads(ReadyToRun(k.(ready := k.ready[1..]), k.current), k.ready[0], t); }
    case Acquire(l) =>
      if Switches(k, e) {
        RunThreads(ReadyToRun(SetAt(k, TestLock(l)).(ready := k.ready[1..]), k.current), k.ready[0], t);
      }
    case _ =>
  }

  /** A step deletes a thread only when that thread has finished, was named by
      threadToBeDestroyed, and is not the one running after the step. */
  lemma DeletionIsSafe(k: State, e: Event, t: Tid)
    requires Inv(k) && Enabled(k, e)
    requires t in k.threads && t !in Step(k, e).threads
    ensures k.threads[t].at.Gone? && k.toBeDestroyed == Some(t) && t != Step(k, e).current
  {
    StepThreads(k, e, t);
    StepReaper(k, e);
    assert ThreadOk(k, t);
  }

  lemma {:induction false} DeletedStaysDeleted(k: State, es: seq<Event>, t: Tid)
    requires Legal(k, es) && t in k.born && t !in k.threads
    ensures t in After(k, es).born && t !in After(k, es).threads
    decreases |es|
  {
    if es == [] {
    } else {
      StepThreads(k, es[0], t);
      DeletedStaysDeleted(Step(k, es[0]), es[1..], t);
    }
  }

  /** e takes t off a wait queue. */
  predicate Wakes(k: State, e: Event, t: Tid) {
    match e
    case V(s) => Queue(k, SemQueue(s)) != [] && t == Queue(k, SemQueue(s))[0]
    case HandlerV(s) => Queue(k, SemQueue(s)) != [] && t == Queue(k, SemQueue(s))[0]
    case Signal(c, l) => Holds(k, l, k.current) && Queue(k, CondQueue(c)) != [] && t == Queue(k, CondQueue(c))[0]
    case Broadcast(c, l) => Holds(k, l, k.current) && t in Queue(k, CondQueue(c))
    case _ => false
  }

  /** What the running thread does to itself. */
  function OwnMove(k: State, e: Event): Thread
    requires Wf(k)
  {
    var me := k.threads[k.current];
    match e
    case Yield => if k.ready == [] then me else me.(status := Ready)
    case P(s) => if Value(k, s) > 0 then Thread(Running, Free) else Thread(Blocked, RetestSem(s))
    case Acquire(l) =>
      if Switches(k, e) then Thread(Ready, TestLock(l))
      else if l in k.owner && k.owner[l] != k.current then Thread(Running, TestLock(l))
      else Thread(Running, SetLock(l))
    case TakeLock(_) => Thread(Running, Free)
    case Wait(c, l) => if Holds(k, l, k.current) then Thread(Blocked, InWait(c, l)) else me
    case Finish => Thread(Blocked, Gone)
    case _ => me
  }

  /** A step as one thread sees it. */
  function Seen(k: State, e: Event, t: Tid): Thread
    requires Wf(k) && t in k.threads
  {
    if Switches(k, e) && t == k.ready[0] then Thread(Running, Resumed(k.threads[t].at))
    else if Wakes(k, e, t) || e == Fork(t) then k.threads[t].(status := Ready)
    else if t == k.current then OwnMove(k, e)
    else k.threads[t]
  }

  lemma RunSeen(k: State, next: Tid, t: Tid)
    requires next in k.threads && t in Run(k, next).threads
    ensures t in k.threads
    ensures Run(k, next).threads[t] == if t == next then Thread(Running, Resumed(k.threads[t].at)) else k.threads[t]
  {}

  lemma SwitchSeen(k: State, e: Event, t: Tid)
    requires Inv(k) && Enabled(k, e) && t in k.threads && t in Step(k, e).threads
    requires e.Dispatch? || e.Yield? || e.Acquire?
    ensures Step(k, e).threads[t] == Seen(k, e, t)
  {
    assert ThreadOk(k, t);
    assert ThreadOk(k, k.current);
    match e
    case Dispatch => RunSeen(k.(ready := k.ready[1..]), k.ready[0], t);
    case Yield =>
      if k.ready != [] { RunSeen(ReadyToRun(k.(ready := k.ready[1..]), k.current), k.ready[0], t); }
    case Acquire(l) =>
      if Switches(k, e) {
        RunSeen(ReadyToRun(SetAt(k, TestLock(l)).(ready := k.ready[1..]), k.current), k.ready[0], t);
      }
  }

  lemma ThreadStep(k: State, e: Event, t: Tid)
    requires Inv(k) && Enabled(k, e) && t in k.threads && t in Step(k, e).threads
    ensures Step(k, e).threads[t] == Seen(k, e, t)
  {
    assert ThreadOk(k, t);
    if e.Dispatch? || e.Yield? || e.Acquire? { SwitchSeen(k, e, t); }
  }

  /** Only blocked threads, on the queue they wait on, are woken. */
  lemma WakesBlocked(k: State, e: Event, t: Tid)
    requires Inv(k) && Wakes(k, e, t)
    ensures t in k.threads && k.threads[t].status.Blocked? && k.threads[t].at.WaitsOn().Some?
    ensures e.V? || e.HandlerV? ==> k.threads[t].at == RetestSem(e.s)
    ensures e.Signal? || e.Broadcast? ==> k.threads[t].at.InWait? && k.threads[t].at.cond == e.c
  {
    var q := if e.V? || e.HandlerV? then SemQueue(e.s) else CondQueue(e.c);
    assert QueueOk(k, q);
  }

  lemma GoneStep(k: State, e: Event, t: Tid)
    requires Inv(k) && Enabled(k, e) && t in k.threads && k.threads[t].at.Gone?
    ensures var k' := Step(k, e); t in k'.born && (t in k'.threads ==> k'.threads[t] == k.threads[t])
  {
    assert ThreadOk(k, t);
    StepThreads(k, e, t);
    if t in Step(k, e).threads {
      ThreadStep(k, e, t);
      if Wakes(k, e, t) { WakesBlocked(k, e, t); }
    }
  }

  /** A finished thread never runs again, whatever follows. */
  lemma {:induction false} FinishedNeverRuns(k: State, es: seq<Event>, t: Tid)
    requires Inv(k) && Legal(k, es) && t in k.threads && k.threads[t].at.Gone?
    ensures var k' := After(k, es); t in k'.threads ==> k'.threads[t] == Thread(Blocked, Gone)
    decreases |es|
  {
    assert ThreadOk(k, t);
    if es == [] {
    } else {
      StepInv(k, es[0]);
      GoneStep(k, es[0], t);
      var k1 := Step(k, es[0]);
      if t in k1.threads {
        FinishedNeverRuns(k1, es[1..], t);
      } else {
        DeletedStaysDeleted(k1, es[1..], t);
      }
    }
  }

  /** What becomes of a carcass in one step: it is deleted exactly when the processor passes to a
      thread that has run before, and it is forgotten exactly when another thread finishes. */
  lemma CarcassFate(k: State, e: Event, d: Tid)
    requires Inv(k) && Enabled(k, e) && k.toBeDestroyed == Some(d)
    ensures d !in Step(k, e).threads <==> Reaps(k, e)
    ensures d in Step(k, e).threads && Step(k, e).toBeDestroyed != Some(d) <==> e.Finish?
  {
    StepThreads(k, e, d);
    StepReaper(k, e);
    assert ThreadOk(k, d);
  }

  predicate Leaked(k: State, d: Tid) {
    d in k.threads && k.threads[d].at.Gone? && k.toBeDestroyed != Some(d)
  }

  lemma {:induction false} LeakIsForever(k: State, es: seq<Event>, d: Tid)
    requires Inv(k) && Legal(k, es) && Leaked(k, d)
    ensures Leaked(After(k, es), d)
    decreases |es|
  {
    if es == [] {
    } else {
      assert ThreadOk(k, d);
      StepInv(k, es[0]);
      StepThreads(k, es[0], d);
      StepReaper(k, es[0]);
      GoneStep(k, es[0], d);
      LeakIsForever(Step(k, es[0]), es[1..], d);
    }
  }

  /** A switch to a thread that has run before comes before the next Finish. */
  predicate ReapedFirst(k: State, es: seq<Event>)
    requires Legal(k, es)
    decreases |es|
  {
    es != [] && (Reaps(k, es[0]) || (!es[0].Finish? && ReapedFirst(Step(k, es[0]), es[1..])))
  }

  /** The next Finish comes before such a switch. */
  predicate FinishedFirst(k: State, es: seq<Event>)
    requires Legal(k, es)
    decreases |es|
  {
    es != [] && (es[0].Finish? || (!Reaps(k, es[0]) && FinishedFirst(Step(k, es[0]), es[1..])))
  }

  /** Over any run a carcass is deleted exactly if a switch to a thread that has run before comes before the
      next Finish, and leaked exactly if the next Finish comes first. */
  lemma {:induction false} CarcassFateOverRuns(k: State, es: seq<Event>, d: Tid)
    requires Inv(k) && Legal(k, es) && k.toBeDestroyed == Some(d)
    ensures d !in After(k, es).threads <==> ReapedFirst(k, es)
    ensures Leaked(After(k, es), d) <==> FinishedFirst(k, es)
    decreases |es|
  {
    assert ThreadOk(k, d);
    if es == [] {
    } else {
      var k1 := Step(k, es[0]);
      StepInv(k, es[0]);
      StepThreads(k, es[0], d);
      StepReaper(k, es[0]);
      CarcassFate(k, es[0], d);
      GoneStep(k, es[0], d);
      if Reaps(k, es[0]) {
        DeletedStaysDeleted(k1, es[1..], d);
      } else if es[0].Finish? {
        LeakIsForever(k1, es[1..], d);
      } else {
        CarcassFateOverRuns(k1, es[1..], d);
      }
    }
  }

  lemma {:induction false} Concat(k: State, a: seq<Event>, b: seq<Event>)
    requires Legal(k, a) && Legal(After(k, a), b)
    ensures Legal(k, a + b) && After(k, a + b) == After(After(k, a), b)
    decreases |a|
  {
    if a == [] {
      assert a + b == b;
    } else {
      assert (a + b)[1..] == a[1..] + b;
      Concat(Step(k, a[0]), a[1..], b);
    }
  }

  const TwoForked := State(map[0 := Thread(Running, Free), 1 := Thread(Ready, Fresh), 2 := Thread(Ready, Fresh)],
                           {0, 1, 2}, 0, [1, 2], None, map[], map[], map[])

  const FirstRuns := State(map[0 := Thread(Ready, Free), 1 := Thread(Running, Free), 2 := Thread(Ready, Fresh)],
                           {0, 1, 2}, 1, [2, 0], None, map[], map[], map[])

  lemma ForkTwo()
    ensures var es := [New(1), Fork(1), New(2), Fork(2)];
            Legal(Boot(map[]), es) && After(Boot(map[]), es) == TwoForked
  {
    var es := [New(1), Fork(1), New(2), Fork(2)];
    assert es[1..] == [Fork(1), New(2), Fork(2)] && es[1..][1..] == [New(2), Fork(2)] && es[1..][1..][1..] == [Fork(2)];
    var k1 := Step(Boot(map[]), New(1));
    var k2 := Step(k1, Fork(1));
    var k3 := Step(k2, New(2));
    assert k3.threads == map[0 := Thread(Running, Free), 1 := Thread(Ready, Fresh), 2 := Thread(JustCreated, Fresh)];
    assert Step(k3, Fork(2)) == TwoForked;
    assert Legal(k3, [Fork(2)]) && After(k3, [Fork(2)]) == TwoForked;
  }

  lemma FirstChildRuns()
    ensures Legal(TwoForked, [Yield]) && After(TwoForked, [Yield]) == FirstRuns
  {
    assert YieldCpu(TwoForked) == FirstRuns;
  }

  lemma BothFinish()
    ensures Legal(FirstRuns, [Finish, Dispatch, Finish]) && Leaked(After(FirstRuns, [Finish, Dispatch, Finish]), 1)
  {
    var es := [Finish, Dispatch, Finish];
    assert es[1..] == [Dispatch, Finish] && es[1..][1..] == [Finish];
    var k1 := Step(FirstRuns, Finish);
    var k2 := Step(k1, Dispatch);
    assert k2.current == 2 && k2.threads[2] == Thread(Running, Free);
    assert Legal(k2, [Finish]) && After(k2, [Finish]) == Step(k2, Finish);
  }

  /** Such a run exists: the first child finishes into the second, fresh one, which finishes too. */
  lemma CarcassCanLeak()
    ensures exists es :: Legal(Boot(map[]), es) && Leaked(After(Boot(map[]), es), 1)
  {
    ForkTwo();
    FirstChildRuns();
    BothFinish();
    var a := [New(1), Fork(1), New(2), Fork(2)];
    Concat(TwoForked, [Yield], [Finish, Dispatch, Finish]);
    Concat(Boot(map[]), a, [Yield] + [Finish, Dispatch, Finish]);
  }

  // ---------------------------------------------------------------- locks

  predicate GivesUp(k: State, e: Event, l: nat, t: Tid) {
    k.current == t && (e.Release? || e.Wait?) && e.l == l
  }

  /** A lock leaves its owner by the owner's own Release or Wait, and by nothing else. */
  lemma LockLeavesOwner(k: State, e: Event, l: nat, t: Tid)
    requires Inv(k) && Enabled(k, e) && Holds(k, l, t)
    ensures Holds(Step(k, e), l, t) <==> !GivesUp(k, e, l, t)
  {
    assert ThreadOk(k, k.current);
  }

  /** A lock is taken only when it is free, although Acquire tests it before interrupts are off. */
  lemma LockTakenWhenFree(k: State, e: Event, l: nat, t: Tid)
    requires Inv(k) && Enabled(k, e) && !Holds(k, l, t) && Holds(Step(k, e), l, t)
    ensures e == TakeLock(l) && t == k.current && l !in k.owner
  {
    assert ThreadOk(k, k.current);
  }

  predicate NeverGivesUp(k: State, es: seq<Event>, l: nat, t: Tid)
    requires Legal(k, es)
    decreases |es|
  {
    es == [] || (!GivesUp(k, es[0], l, t) && NeverGivesUp(Step(k, es[0]), es[1..], l, t))
  }

  lemma {:induction false} OwnershipIsStable(k: State, es: seq<Event>, l: nat, t: Tid)
    requires Inv(k) && Legal(k, es) && Holds(k, l, t) && NeverGivesUp(k, es, l, t)
    ensures Holds(After(k, es), l, t)
    decreases |es|
  {
    if es == [] {
    } else {
      StepInv(k, es[0]);
      LockLeavesOwner(k, es[0], l, t);
      OwnershipIsStable(Step(k, es[0]), es[1..], l, t);
    }
  }

  /** The lock is re-entrant but does not count: after a nested Acquire one Release frees it. */
  lemma NestedAcquireIsNotCounted(k: State, l: nat)
    requires Inv(k) && Holds(k, l, k.current) && k.threads[k.current] == Thread(Running, Free)
    ensures Enabled(k, Acquire(l))
    ensures var k1 := Step(k, Acquire(l)); Wf(k1) && Enabled(k1, TakeLock(l))
    ensures var k2 := Step(Step(k, Acquire(l)), TakeLock(l));
            Wf(k2) && Enabled(k2, Release(l)) && Holds(k2, l, k.current) && l !in Step(k2, Release(l)).owner
  {
    StepInv(k, Acquire(l));
    StepInv(Step(k, Acquire(l)), TakeLock(l));
  }

  const BeforeSet := State(map[0 := Thread(Running, SetLock(7)), 1 := Thread(Ready, Free)],
                           {0, 1}, 0, [1], None, map[], map[], map[])

  const OtherHolds := State(map[0 := Thread(Running, SetLock(7)), 1 := Thread(Ready, Free)],
                            {0, 1}, 0, [1], None, map[], map[], map[7 := 1])

  const OtherRuns := State(map[0 := Thread(Ready, SetLock(7)), 1 := Thread(Running, Free)],
                           {0, 1}, 1, [0], None, map[], map[], map[])

  lemma OtherTakesLock()
    ensures Wf(OtherRuns) && Enabled(OtherRuns, Acquire(7))
    ensures var k1 := Step(OtherRuns, Acquire(7));
            Wf(k1) && Enabled(k1, TakeLock(7)) && YieldCpu(Step(k1, TakeLock(7))) == OtherHolds
  {
    var k2 := Step(Step(OtherRuns, Acquire(7)), TakeLock(7));
    assert k2.threads == OtherRuns.threads && k2.owner == map[7 := 1] && k2.ready == [0];
    assert YieldCpu(k2).threads == OtherHolds.threads;
  }

  const OneForked := State(map[0 := Thread(Running, Free), 1 := Thread(Ready, Fresh)],
                           {0, 1}, 0, [1], None, map[], map[], map[])

  const ChildRuns := State(map[0 := Thread(Ready, Free), 1 := Thread(Running, Free)],
                           {0, 1}, 1, [0], None, map[], map[], map[])

  const ParentRuns := State(map[0 := Thread(Running, Free), 1 := Thread(Ready, Free)],
                            {0, 1}, 0, [1], None, map[], map[], map[])

  lemma ForkOne()
    ensures Legal(Boot(map[]), [New(1), Fork(1)]) && After(Boot(map[]), [New(1), Fork(1)]) == OneForked
  {
    var es := [New(1), Fork(1)];
    assert es[1..] == [Fork(1)];
    var k1 := Step(Boot(map[]), New(1));
    assert Step(k1, Fork(1)) == OneForked;
    assert Legal(k1, [Fork(1)]) && After(k1, [Fork(1)]) == OneForked;
  }

  lemma TwoYields()
    ensures Legal(OneForked, [Yield, Yield, Acquire(7)]) && After(OneForked, [Yield, Yield, Acquire(7)]) == BeforeSet
  {
    var es := [Yield, Yield, Acquire(7)];
    assert es[1..] == [Yield, Acquire(7)] && es[1..][1..] == [Acquire(7)];
    assert YieldCpu(OneForked) == ChildRuns;
    assert YieldCpu(ChildRuns) == ParentRuns;
    assert Step(ParentRuns, Acquire(7)) == BeforeSet;
    assert Legal(ParentRuns, [Acquire(7)]) && After(ParentRuns, [Acquire(7)]) == BeforeSet;
    assert Legal(ChildRuns, [Yield, Acquire(7)]) && After(ChildRuns, [Yield, Acquire(7)]) == BeforeSet;
  }

  lemma BeforeSetReached()
    ensures exists es :: Legal(Boot(map[]), es) && After(Boot(map[]), es) == BeforeSet
  {
    ForkOne();
    TwoYields();
    Concat(Boot(map[]), [New(1), Fork(1)], [Yield, Yield, Acquire(7)]);
  }

  lemma SliceBeforeSet()
    ensures YieldCpu(BeforeSet) == OtherRuns
  {
    assert YieldCpu(BeforeSet).threads == OtherRuns.threads;
  }

  /** The same code where a time slice may fall between the test and the assignment, as on real
      hardware (machine/interrupt.h:23-28): thread 1 takes the lock and goes on, and thread 0,
      which had already found the lock free, takes it away from thread 1. */
  lemma LockNeedsSimulatedTime()
    ensures exists es :: Legal(Boot(map[]), es) && After(Boot(map[]), es) == BeforeSet
    ensures BeforeSet.threads[BeforeSet.current].at == SetLock(7)
    ensures YieldCpu(BeforeSet) == OtherRuns && Wf(OtherRuns) && Enabled(OtherRuns, Acquire(7))
    ensures var k1 := Step(OtherRuns, Acquire(7));
            Wf(k1) && Enabled(k1, TakeLock(7)) && YieldCpu(Step(k1, TakeLock(7))) == OtherHolds
    ensures Holds(OtherHolds, 7, 1) && Wf(OtherHolds) && Enabled(OtherHolds, TakeLock(7))
    ensures Holds(Step(OtherHolds, TakeLock(7)), 7, 0)
  {
    BeforeSetReached();
    SliceBeforeSet();
    OtherTakesLock();
  }

  // ---------------------------------------------------------------- condition variables

  predicate Signals(k: State, e: Event, c: nat) {
    e.Signal? && e.c == c && Holds(k, e.l, k.current)
  }

  /** Signals on c made by a thread that holds the lock it passes. */
  function SignalCount(k: State, es: seq<Event>, c: nat): nat
    requires Legal(k, es)
    decreases |es|
  {
    if es == [] then 0
    else (if Signals(k, es[0], c) then 1 else 0) + SignalCount(Step(k, es[0]), es[1..], c)
  }

  predicate NoBroadcast(es: seq<Event>, c: nat) {
    forall e <- es :: !(e.Broadcast? && e.c == c)
  }

  lemma QueueStep(k: State, e: Event, c: nat)
    requires Wf(k) && Enabled(k, e)
    ensures var q, q' := Queue(k, CondQueue(c)), Queue(Step(k, e), CondQueue(c));
            q' == if Signals(k, e, c) && q != [] then q[1..]
                  else if e.Broadcast? && e.c == c && Holds(k, e.l, k.current) then []
                  else if e.Wait? && e.c == c && Holds(k, e.l, k.current) then q + [k.current]
                  else q
  {}

  /** A waiter moves up one place with every signal and with nothing else. */
  lemma {:induction false} WaiterMovesUp(k: State, es: seq<Event>, c: nat, i: nat)
    requires Legal(k, es) && NoBroadcast(es, c)
    requires i < |Queue(k, CondQueue(c))| && SignalCount(k, es, c) <= i
    ensures var n, q' := SignalCount(k, es, c), Queue(After(k, es), CondQueue(c));
            i - n < |q'| && q'[i - n] == Queue(k, CondQueue(c))[i]
    decreases |es|
  {
    if es == [] {
    } else {
      QueueStep(k, es[0], c);
      WaiterMovesUp(Step(k, es[0]), es[1..], c, if Signals(k, es[0], c) then i - 1 else i);
    }
  }

  /** No signal is lost: whatever runs in between, the waiter that was i-th in the queue is put
      on the ready list by the (i+1)-st signal of a lock holder, and not before. */
  lemma SignalReachesWaiter(k: State, es: seq<Event>, c: nat, l: nat, i: nat)
    requires Inv(k) && Legal(k, es) && NoBroadcast(es, c) && i < |Queue(k, CondQueue(c))|
    requires SignalCount(k, es, c) == i
    requires var k1 := After(k, es); Wf(k1) && Enabled(k1, Signal(c, l)) && Holds(k1, l, k1.current)
    ensures var t := Queue(k, CondQueue(c))[i];
            && t in Queue(After(k, es), CondQueue(c))
            && t !in Queue(Step(After(k, es), Signal(c, l)), CondQueue(c))
            && t in Step(After(k, es), Signal(c, l)).ready
  {
    WaiterMovesUp(k, es, c, i);
    RunInv(k, es);
    assert QueueOk(After(k, es), CondQueue(c));
  }

  // ---------------------------------------------------------------- turns

  /** The threads that a step makes ready, in the order in which they get there. */
  function MadeReady(k: State, e: Event): seq<Tid> {
    match e
    case Fork(t) => [t]
    case Yield => if k.ready == [] then [] else [k.current]
    case Acquire(l) => if k.ready != [] && l in k.owner && k.owner[l] != k.current then [k.current] else []
    case V(s) => First(Queue(k, SemQueue(s)))
    case HandlerV(s) => First(Queue(k, SemQueue(s)))
    case Signal(c, l) => if Holds(k, l, k.current) then First(Queue(k, CondQueue(c))) else []
    case Broadcast(c, l) => if Holds(k, l, k.current) then Queue(k, CondQueue(c)) else []
    case _ => []
  }

  function First(q: seq<Tid>): seq<Tid> {
    if q == [] then [] else [q[0]]
  }

  lemma WakingStep(k: State, e: Event)
    requires Wf(k) && Enabled(k, e) && (e.V? || e.HandlerV? || e.Signal? || e.Broadcast?)
    ensures Step(k, e).ready == k.ready + MadeReady(k, e)
  {}

  lemma SwitchingStep(k: State, e: Event)
    requires Wf(k) && Enabled(k, e) && (e.Yield? || e.Dispatch? || e.Acquire?)
    ensures Step(k, e).ready == (if Switches(k, e) then k.ready[1..] else k.ready) + MadeReady(k, e)
  {}

  /** The ready list is first in, first out: a step takes its head exactly if it switches, and puts what it
      makes ready behind all that were there. */
  lemma ReadyStep(k: State, e: Event)
    requires Wf(k) && Enabled(k, e)
    ensures Step(k, e).ready == (if Switches(k, e) then k.ready[1..] else k.ready) + MadeReady(k, e)
  {
    if e.V? || e.HandlerV? || e.Signal? || e.Broadcast? {
      WakingStep(k, e);
    } else if e.Yield? || e.Dispatch? || e.Acquire? {
      SwitchingStep(k, e);
    }
  }

  function SwitchCount(k: State, es: seq<Event>): nat
    requires Legal(k, es)
    decreases |es|
  {
    if es == [] then 0 else (if Switches(k, es[0]) then 1 else 0) + SwitchCount(Step(k, es[0]), es[1..])
  }

  /** A ready thread moves up one place with every switch and with nothing else. */
  lemma {:induction false} ReadyMovesUp(k: State, es: seq<Event>, i: nat)
    requires Legal(k, es) && i < |k.ready| && SwitchCount(k, es) <= i
    ensures var n, ready' := SwitchCount(k, es), After(k, es).ready; i - n < |ready'| && ready'[i - n] == k.ready[i]
    decreases |es|
  {
    if es == [] {
    } else {
      ReadyStep(k, es[0]);
      ReadyMovesUp(Step(k, es[0]), es[1..], if Switches(k, es[0]) then i - 1 else i);
    }
  }

  /** Nobody is passed over: whatever runs in between, the thread at place i of the ready list stays ready until
      the (i+1)-st switch, and that switch gives it the processor. */
  lemma TurnComes(k: State, es: seq<Event>, i: nat, e: Event)
    requires Inv(k) && Legal(k, es) && i < |k.ready|
    requires Wf(After(k, es)) && Enabled(After(k, es), e)
    ensures SwitchCount(k, es) <= i ==>
              var k1 := After(k, es); k.ready[i] in k1.threads && k1.threads[k.ready[i]].status.Ready?
    ensures SwitchCount(k, es) == i && Switches(After(k, es), e) ==>
              Step(After(k, es), e).current == k.ready[i]
  {
    RunInv(k, es);
    var k1, t := After(k, es), k.ready[i];
    if SwitchCount(k, es) <= i {
      ReadyMovesUp(k, es, i);
      assert t in k1.ready;
      assert ThreadOk(k1, t);
      StepReaper(k1, e);
    }
  }

  // ---------------------------------------------------------------- semaphores

  function VCount(es: seq<Event>, s: nat): nat
    decreases |es|
  {
    if es == [] then 0 else (if es[0] == V(s) || es[0] == HandlerV(s) then 1 else 0) + VCount(es[1..], s)
  }

  /** Calls of P that got past the test. */
  function PCount(k: State, es: seq<Event>, s: nat): nat
    requires Legal(k, es)
    decreases |es|
  {
    if es == [] then 0
    else (if es[0] == P(s) && Value(k, s) > 0 then 1 else 0) + PCount(Step(k, es[0]), es[1..], s)
  }

  lemma ValueStep(k: State, e: Event, s: nat)
    requires Wf(k) && Enabled(k, e)
    ensures Value(Step(k, e), s) == Value(k, s) + (if e == V(s) || e == HandlerV(s) then 1 else 0)
                                    - (if e == P(s) && Value(k, s) > 0 then 1 else 0)
  {}

  /** Conservation: the value is what was put in minus what was taken out. */
  lemma {:induction false} SemaphoreConserved(k: State, es: seq<Event>, s: nat)
    requires Legal(k, es)
    ensures Value(After(k, es), s) + PCount(k, es, s) == Value(k, s) + VCount(es, s)
    decreases |es|
  {
    if es == [] {
    } else {
      ValueStep(k, es[0], s);
      SemaphoreConserved(Step(k, es[0]), es[1..], s);
    }
  }

  /** Threads woken from the semaphore's queue that have not tested the value again. */
  function Woken(k: State, s: nat): set<Tid> {
    set t | t in k.threads && IsWoken(k, s, t)
  }

  predicate NoLostWakeup(k: State, s: nat) {
    Queue(k, SemQueue(s)) != [] ==> Value(k, s) <= |Woken(k, s)|
  }

  predicate IsWoken(k: State, s: nat, t: Tid) {
    t in k.threads && k.threads[t].at == RetestSem(s) && !k.threads[t].status.Blocked?
  }

  predicate Releases(k: State, e: Event, s: nat) {
    (e == V(s) || e == HandlerV(s)) && Queue(k, SemQueue(s)) != []
  }

  /** A V wakes the head of its queue, a test of P takes the tester out; nothing else matters. */
  lemma WokenStep(k: State, e: Event, s: nat, t: Tid)
    requires Inv(k) && Enabled(k, e)
    ensures IsWoken(Step(k, e), s, t) <==>
              || (IsWoken(k, s, t) && !(e == P(s) && t == k.current))
              || (Releases(k, e, s) && t == Queue(k, SemQueue(s))[0])
  {
    var k' := Step(k, e);
    StepThreads(k, e, t);
    if t in k.threads {
      assert ThreadOk(k, t);
      if Wakes(k, e, t) { WakesBlocked(k, e, t); }
      if t in k'.threads { ThreadStep(k, e, t); } else { DeletionIsSafe(k, e, t); }
      WokenSeen(k, e, s, t);
    } else {
      if Releases(k, e, s) { assert QueueOk(k, SemQueue(s)); }
      if t in k'.threads { NewIsFresh(k, e, t); }
    }
  }

  lemma NewIsFresh(k: State, e: Event, t: Tid)
    requires Wf(k) && Enabled(k, e) && t !in k.threads && t in Step(k, e).threads
    ensures e == New(t) && Step(k, e).threads[t] == Thread(JustCreated, Fresh)
  {
    StepThreads(k, e, t);
  }

  lemma WokenSeen(k: State, e: Event, s: nat, t: Tid)
    requires Inv(k) && Enabled(k, e) && t in k.threads
    ensures Seen(k, e, t).at == RetestSem(s) && !Seen(k, e, t).status.Blocked? <==>
              || (IsWoken(k, s, t) && !(e == P(s) && t == k.current))
              || (Releases(k, e, s) && t == Queue(k, SemQueue(s))[0])
  {
    assert ThreadOk(k, t);
    assert ThreadOk(k, k.current);
    if Wakes(k, e, t) { WakesBlocked(k, e, t); }
  }

  lemma WakeupStep(k: State, e: Event, s: nat)
    requires Inv(k) && Enabled(k, e) && NoLostWakeup(k, s)
    ensures NoLostWakeup(Step(k, e), s)
  {
    var k', w, q := Step(k, e), Woken(k, s), Queue(k, SemQueue(s));
    var w' := Woken(k', s);
    forall t ensures t in w' <==> (t in w && !(e == P(s) && t == k.current)) || (Releases(k, e, s) && t == q[0]) {
      WokenStep(k, e, s, t);
    }
    ValueStep(k, e, s);
    SemQueueStep(k, e, s);
    if Releases(k, e, s) {
      assert QueueOk(k, SemQueue(s)) && q[0] !in w;
      assert w' == w + {q[0]};
    } else if e == P(s) {
      assert w' == w - {k.current};
    } else {
      assert w' == w;
    }
  }

  lemma SemQueueStep(k: State, e: Event, s: nat)
    requires Wf(k) && Enabled(k, e)
    ensures var q, q' := Queue(k, SemQueue(s)), Queue(Step(k, e), SemQueue(s));
            q' == if Releases(k, e, s) then q[1..]
                  else if e == P(s) && Value(k, s) == 0 then q + [k.current]
                  else q
  {}

  /** No lost wakeups: in every reachable state, if threads are queued on a semaphore, its value is
      at most the number of woken threads that have yet to test it. */
  lemma {:induction false} SemaphoreLosesNoWakeup(k: State, es: seq<Event>, s: nat)
    requires Inv(k) && Legal(k, es) && NoLostWakeup(k, s)
    ensures NoLostWakeup(After(k, es), s)
    decreases |es|
  {
    if es == [] {
    } else {
      StepInv(k, es[0]);
      WakeupStep(k, es[0], s);
      SemaphoreLosesNoWakeup(Step(k, es[0]), es[1..], s);
    }
  }

  // ---------------------------------------------------------------- a step, for the protocols above

  function OwnerAfter(k: State, e: Event): map<nat, Tid> {
    match e
    case TakeLock(l) => k.owner[l := k.current]
    case Release(l) => if Holds(k, l, k.current) then k.owner - {l} else k.owner
    case Wait(_, l) => if Holds(k, l, k.current) then k.owner - {l} else k.owner
    case _ => k.owner
  }

  /** Everything a protocol built on the kernel needs to know about one of its steps. */
  predicate Effect(k: State, e: Event, k': State)
    requires Wf(k)
  {
    && Inv(k')
    && k'.owner == OwnerAfter(k, e)
    && k'.current == (if Switches(k, e) then k.ready[0] else k.current)
    && (forall t <- k.threads :: t in k'.threads || k.threads[t].at.Gone?)
    && (forall t <- k'.threads ::
          k'.threads[t] == if t in k.threads then Seen(k, e, t) else Thread(JustCreated, Fresh))
  }

  lemma OwnerStep(k: State, e: Event)
    requires Wf(k) && Enabled(k, e)
    ensures Step(k, e).owner == OwnerAfter(k, e)
  {}

  lemma StepEffect(k: State, e: Event)
    requires Inv(k) && Enabled(k, e)
    ensures Effect(k, e, Step(k, e))
  {
    var k' := Step(k, e);
    StepInv(k, e);
    OwnerStep(k, e);
    StepReaper(k, e);
    forall t <- k.threads ensures t in k'.threads || k.threads[t].at.Gone? {
      if t !in k'.threads { DeletionIsSafe(k, e, t); }
    }
    forall t <- k'.threads
      ensures k'.threads[t] == if t in k.threads then Seen(k, e, t) else Thread(JustCreated, Fresh)
    {
      if t in k.threads { ThreadStep(k, e, t); } else { NewIsFresh(k, e, t); }
    }
  }
}
