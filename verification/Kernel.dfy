/**
 The thread kernel of Nachos (threads/thread.cc, threads/scheduler.cc, threads/synch.cc) as a
 step machine.  Nachos runs on one simulated processor and a context switch happens only where
 simulated time advances or at an explicit Yield or Sleep (machine/interrupt.h:17-21), so every
 step below is one stretch of code between two such points.

 The one place where the source is not protected by disabled interrupts is kept visible:
 Lock::Acquire tests heldThread first and sets it later, and these are two separate steps.
 */
module Kernel {
  import opened Options

  type Tid = nat

  datatype Status = JustCreated | Running | Ready | Blocked

  datatype QueueId = SemQueue(sem: nat) | CondQueue(cond: nat)

  /** Where a thread goes on when it is next given the processor. */
  datatype Resume =
    | Fresh                         // ThreadRoot: it has never run
    | Free                          // code outside the synchronization routines
    | RetestSem(sem: nat)           // in Semaphore::P, after Sleep, before the next test of value
    | TestLock(lock: nat)           // in Lock::Acquire, before the next test of heldThread
    | SetLock(lock: nat)            // in Lock::Acquire, after the test, before heldThread is set
    | InWait(cond: nat, lock: nat)  // in Condition::Wait, asleep or just signalled
    | Gone                          // in Thread::Finish, after Sleep: never reached
  {
    function WaitsOn(): Option<QueueId> {
      match this
      case RetestSem(s) => Some(SemQueue(s))
      case InWait(c, _) => Some(CondQueue(c))
      case _ => None
    }
  }

  datatype Thread = Thread(status: Status, at: Resume)

  datatype State = State(
    threads: map<Tid, Thread>,       // the threads allocated and not yet deleted
    born: set<Tid>,                  // every thread ever allocated
    current: Tid,
    ready: seq<Tid>,
    toBeDestroyed: Option<Tid>,
    waiting: map<QueueId, seq<Tid>>,
    value: map<nat, nat>,            // semaphore values, 0 when absent
    owner: map<nat, Tid>)            // heldThread of each lock, NULL when absent

  function Queue(k: State, q: QueueId): seq<Tid> {
    if q in k.waiting then k.waiting[q] else []
  }

  function Value(k: State, s: nat): nat {
    if s in k.value then k.value[s] else 0
  }

  predicate Holds(k: State, l: nat, t: Tid) {
    l in k.owner && k.owner[l] == t
  }

  /** A freshly started kernel: the main thread runs, nothing else exists. */
  function Boot(value: map<nat, nat>): State {
    State(map[0 := Thread(Running, Free)], {0}, 0, [], None, map[], value, map[])
  }

  // ---------------------------------------------------------------- scheduler.cc, thread.cc

  /** Every thread on a list is allocated. */
  predicate Wf(k: State) {
    && k.current in k.threads
    && (forall t <- k.ready :: t in k.threads)
    && (forall q <- k.waiting, t <- k.waiting[q] :: t in k.threads)
  }

  function ReadyToRun(k: State, t: Tid): State
    requires t in k.threads
  {
    k.(threads := k.threads[t := k.threads[t].(status := Ready)], ready := k.ready + [t])
  }

  function Resumed(at: Resume): Resume {
    match at
    case Fresh => Free
    case InWait(_, l) => TestLock(l)
    case _ => at
  }

  /** The end of Scheduler::Run: the carcass of a finished thread is deleted. */
  function Reap(k: State): State {
    if k.toBeDestroyed.None? then k
    else k.(threads := k.threads - {k.toBeDestroyed.value}, toBeDestroyed := None)
  }

  /** Scheduler::Run.  A thread that has run before comes back inside Run and deletes the
      carcass; a fresh thread starts in ThreadRoot and does not. */
  function Run(k: State, next: Tid): State
    requires next in k.threads
  {
    var at := k.threads[next].at;
    var k1 := k.(threads := k.threads[next := Thread(Running, Resumed(at))], current := next);
    if at.Fresh? then k1 else Reap(k1)
  }

  function SetAt(k: State, at: Resume): State
    requires k.current in k.threads
  {
    k.(threads := k.threads[k.current := k.threads[k.current].(at := at)])
  }

  function YieldCpu(k: State): State
    requires Wf(k)
  {
    if k.ready == [] then k
    else Run(ReadyToRun(k.(ready := k.ready[1..]), k.current), k.ready[0])
  }

  /** The first half of Thread::Sleep, with the caller's enqueue: the thread is blocked and the
      processor looks for another one (the Dispatch event). */
  function Block(k: State, q: QueueId, at: Resume): State {
    k.(threads := k.threads[k.current := Thread(Blocked, at)],
       waiting := k.waiting[q := Queue(k, q) + [k.current]])
  }

  function Wake(k: State, q: QueueId): State
    requires Wf(k)
  {
    if Queue(k, q) == [] then k
    else ReadyToRun(k.(waiting := k.waiting[q := Queue(k, q)[1..]]), Queue(k, q)[0])
  }

  function WakeAll(k: State, q: QueueId): State {
    if Queue(k, q) == [] then k
    else k.(threads := map t | t in k.threads ::
                         if t in Queue(k, q) then k.threads[t].(status := Ready) else k.threads[t],
            ready := k.ready + Queue(k, q),
            waiting := k.waiting[q := []])
  }

  // ---------------------------------------------------------------- events

  datatype Event =
    | New(t: Tid)
    | Fork(t: Tid)
    | Yield                          // a call of Thread::Yield, or a time slice at a tick
    | Dispatch                       // the rest of Thread::Sleep
    | P(s: nat)
    | V(s: nat)
    | HandlerV(s: nat)               // Semaphore::V from an interrupt handler
    | Acquire(l: nat)
    | TakeLock(l: nat)
    | Release(l: nat)
    | Wait(c: nat, l: nat)
    | Signal(c: nat, l: nat)
    | Broadcast(c: nat, l: nat)
    | Finish

  /** Points of the running thread where simulated time can advance. */
  predicate TickPoint(th: Thread) {
    th.status.Running? && (th.at.Free? || th.at.TestLock?)
  }

  predicate Enabled(k: State, e: Event)
    requires Wf(k)
  {
    var me := k.threads[k.current];
    match e
    case New(t) => me == Thread(Running, Free) && t !in k.born
    case Fork(t) => me == Thread(Running, Free) && t in k.threads && k.threads[t].status.JustCreated?
    case Yield => TickPoint(me)
    case Dispatch => !me.status.Running? && k.ready != []
    case P(s) => me == Thread(Running, Free) || me == Thread(Running, RetestSem(s))
    case HandlerV(_) => TickPoint(me) || !me.status.Running?
    case Acquire(l) => me == Thread(Running, Free) || me == Thread(Running, TestLock(l))
    case TakeLock(l) => me == Thread(Running, SetLock(l))
    case _ => me == Thread(Running, Free)
  }

  function Step(k: State, e: Event): State
    requires Wf(k) && Enabled(k, e)
  {
    match e
    case New(t) => k.(threads := k.threads[t := Thread(JustCreated, Fresh)], born := k.born + {t})
    case Fork(t) => ReadyToRun(k, t)
    case Yield => YieldCpu(k)
    case Dispatch => Run(k.(ready := k.ready[1..]), k.ready[0])
    case P(s) =>
      if Value(k, s) > 0 then SetAt(k.(value := k.value[s := Value(k, s) - 1]), Free)
      else Block(k, SemQueue(s), RetestSem(s))
    case V(s) => PostV(k, s)
    case HandlerV(s) => PostV(k, s)
    case Acquire(l) =>
      if l in k.owner && k.owner[l] != k.current then YieldCpu(SetAt(k, TestLock(l)))
      else SetAt(k, SetLock(l))
    case TakeLock(l) => SetAt(k.(owner := k.owner[l := k.current]), Free)
    case Release(l) => if Holds(k, l, k.current) then k.(owner := k.owner - {l}) else k
    case Wait(c, l) =>
      if Holds(k, l, k.current) then Block(k.(owner := k.owner - {l}), CondQueue(c), InWait(c, l)) else k
    case Signal(c, l) => if Holds(k, l, k.current) then Wake(k, CondQueue(c)) else k
    case Broadcast(c, l) => if Holds(k, l, k.current) then WakeAll(k, CondQueue(c)) else k
    case Finish => k.(threads := k.threads[k.current := Thread(Blocked, Gone)], toBeDestroyed := Some(k.current))
  }

  function PostV(k: State, s: nat): State
    requires Wf(k)
  {
    Wake(k, SemQueue(s)).(value := k.value[s := Value(k, s) + 1])
  }

  /** es can be performed one after the other from k. */
  predicate Legal(k: State, es: seq<Event>)
    decreases |es|
  {
    es == [] || (Wf(k) && Enabled(k, es[0]) && Legal(Step(k, es[0]), es[1..]))
  }

  function After(k: State, es: seq<Event>): State
    requires Legal(k, es)
    decreases |es|
  {
    if es == [] then k else After(Step(k, es[0]), es[1..])
  }

  // ---------------------------------------------------------------- the invariant

  predicate NoDup(s: seq<Tid>) {
    forall i, j :: 0 <= i < j < |s| ==> s[i] != s[j]
  }

  predicate StatusOk(th: Thread) {
    match th.status
    case JustCreated => th.at.Fresh?
    case Running => th.at.Free? || th.at.RetestSem? || th.at.TestLock? || th.at.SetLock?
    case Ready => !th.at.SetLock? && !th.at.Gone?
    case Blocked => th.at.Gone? || th.at.WaitsOn().Some?
  }

  predicate ThreadOk(k: State, t: Tid)
    requires t in k.threads
  {
    var th := k.threads[t];
    && StatusOk(th)
    && (th.status.Running? ==> t == k.current)
    && (th.status.Ready? <==> t in k.ready)
    && (th.at.SetLock? ==> th.at.lock !in k.owner || k.owner[th.at.lock] == t)
    && (th.status.Blocked? && !th.at.Gone? ==> t in Queue(k, th.at.WaitsOn().value))
  }

  predicate QueueOk(k: State, q: QueueId) {
    && NoDup(Queue(k, q))
    && forall t <- Queue(k, q) ::
         t in k.threads && k.threads[t].status.Blocked? && k.threads[t].at.WaitsOn() == Some(q)
  }

  predicate ReaperOk(k: State) {
    && (k.toBeDestroyed.Some? ==>
          k.toBeDestroyed.value in k.threads && k.threads[k.toBeDestroyed.value].at.Gone?)
    && (k.current in k.threads && k.threads[k.current].at.Gone? ==> k.toBeDestroyed == Some(k.current))
  }

  predicate Inv(k: State) {
    && Wf(k)
    && k.threads.Keys <= k.born
    && !k.threads[k.current].status.JustCreated?
    && NoDup(k.ready)
    && ReaperOk(k)
    && (forall q {:trigger QueueOk(k, q)} :: q in k.waiting ==> QueueOk(k, q))
    && (forall t {:trigger ThreadOk(k, t)} :: t in k.threads ==> ThreadOk(k, t))
  }

  lemma BootInv(value: map<nat, nat>)
    ensures Inv(Boot(value))
  {}

  /** The invariant of k', thread by thread and queue by queue. */
  lemma Assemble(k: State)
    requires k.current in k.threads && k.threads.Keys <= k.born && NoDup(k.ready) && ReaperOk(k)
    requires !k.threads[k.current].status.JustCreated?
    requires forall t <- k.ready :: t in k.threads
    requires forall q {:trigger QueueOk(k, q)} :: q in k.waiting ==> QueueOk(k, q)
    requires forall t {:trigger ThreadOk(k, t)} :: t in k.threads ==> ThreadOk(k, t)
    ensures Inv(k)
  {
    forall q <- k.waiting, t <- k.waiting[q] ensures t in k.threads {
      assert QueueOk(k, q);
    }
  }

  lemma ReapInv(k: State)
    requires Inv(k) && !k.threads[k.current].at.Gone?
    ensures Inv(Reap(k))
  {
    if k.toBeDestroyed.Some? {
      var k', d := Reap(k), k.toBeDestroyed.value;
      assert ThreadOk(k, d);
      forall t <- k'.threads ensures ThreadOk(k', t) {
        assert ThreadOk(k, t);
      }
      forall q <- k'.waiting ensures QueueOk(k', q) {
        assert QueueOk(k, q);
      }
    }
  }

  lemma DispatchInv(k: State)
    requires Inv(k) && Enabled(k, Dispatch)
    ensures Inv(Step(k, Dispatch))
  {
    var next := k.ready[0];
    var at := k.threads[next].at;
    var k1 := k.(threads := k.threads[next := Thread(Running, Resumed(at))], current := next, ready := k.ready[1..]);
    assert ThreadOk(k, next);
    forall t <- k1.threads ensures ThreadOk(k1, t) {
      assert ThreadOk(k, t);
    }
    forall q <- k1.waiting ensures QueueOk(k1, q) {
      assert QueueOk(k, q);
    }
    Assemble(k1);
    ReapInv(k1);
  }

  /** Putting a thread on the ready list, from nowhere or from the processor. */
  lemma ReadyInv(k: State, t: Tid)
    requires Inv(k) && t in k.threads
    requires k.threads[t].status.JustCreated? || TickPoint(k.threads[t])
    ensures Inv(ReadyToRun(k, t))
  {
    var k' := ReadyToRun(k, t);
    forall u <- k'.threads ensures ThreadOk(k', u) {
      assert ThreadOk(k, u);
    }
    forall q <- k'.waiting ensures QueueOk(k', q) {
      assert QueueOk(k, q);
    }
    assert ThreadOk(k, t);
  }

  lemma YieldInv(k: State)
    requires Inv(k) && TickPoint(k.threads[k.current])
    ensures Inv(YieldCpu(k))
  {
    if k.ready != [] {
      var k1 := ReadyToRun(k, k.current);
      ReadyInv(k, k.current);
      DispatchInv(k1);
      assert k1.ready[1..] == k.ready[1..] + [k.current];
    }
  }

  lemma WakeInv(k: State, q: QueueId)
    requires Inv(k)
    ensures Inv(Wake(k, q))
  {
    if Queue(k, q) != [] {
      var k', w := Wake(k, q), Queue(k, q)[0];
      assert QueueOk(k, q);
      assert ThreadOk(k, w);
      forall t <- k'.threads ensures ThreadOk(k', t) {
        assert ThreadOk(k, t);
      }
      forall p <- k'.waiting ensures QueueOk(k', p) {
        assert p in k.waiting && QueueOk(k, p);
      }
      Assemble(k');
    }
  }

  lemma PostVInv(k: State, s: nat)
    requires Inv(k)
    ensures Inv(PostV(k, s))
  {
    var k1, k' := Wake(k, SemQueue(s)), PostV(k, s);
    WakeInv(k, SemQueue(s));
    forall t <- k'.threads ensures ThreadOk(k', t) {
      assert ThreadOk(k1, t);
    }
    forall q <- k'.waiting ensures QueueOk(k', q) {
      assert QueueOk(k1, q);
    }
  }

  lemma WakeAllInv(k: State, q: QueueId)
    requires Inv(k)
    ensures Inv(WakeAll(k, q))
  {
    var k' := WakeAll(k, q);
    assert QueueOk(k, q);
    forall t <- k'.threads ensures ThreadOk(k', t) {
      assert ThreadOk(k, t);
    }
    forall p <- k'.waiting ensures QueueOk(k', p) {
      assert QueueOk(k, p);
    }
    assert NoDup(k'.ready) by {
      forall i, j | 0 <= i < |k.ready| <= j < |k'.ready| ensures k'.ready[i] != k'.ready[j] {
        assert ThreadOk(k, k.ready[i]);
        assert k'.ready[j] in Queue(k, q);
      }
    }
    Assemble(k');
  }

  lemma BlockInv(k: State, q: QueueId, at: Resume)
    requires Inv(k) && k.threads[k.current].status.Running? && at.WaitsOn() == Some(q)
    ensures Inv(Block(k, q, at))
  {
    var k' := Block(k, q, at);
    assert QueueOk(k, q);
    assert ThreadOk(k, k.current);
    forall t <- k'.threads ensures ThreadOk(k', t) {
      assert ThreadOk(k, t);
    }
    forall p <- k'.waiting ensures QueueOk(k', p) {
      assert QueueOk(k, p);
    }
    Assemble(k');
  }

  lemma SameQueues(k: State, k': State)
    requires Inv(k) && k'.waiting == k.waiting
    requires forall t <- k.threads :: k.threads[t].status.Blocked? ==> t in k'.threads && k'.threads[t] == k.threads[t]
    ensures forall q <- k'.waiting :: QueueOk(k', q)
  {
    forall q <- k'.waiting ensures QueueOk(k', q) {
      assert QueueOk(k, q);
    }
  }

  /** The steps that only move the running thread on, or change a lock or a semaphore. */
  lemma LocalInv(k: State, e: Event)
    requires Inv(k) && Enabled(k, e)
    requires e.New? || e.TakeLock? || e.Release? || e.Finish? || (e.P? && Value(k, e.s) > 0)
    ensures Inv(Step(k, e))
  {
    var k' := Step(k, e);
    assert ThreadOk(k, k.current);
    SameQueues(k, k');
    forall t <- k'.threads ensures ThreadOk(k', t) {
      if t in k.threads { assert ThreadOk(k, t); }
    }
    Assemble(k');
  }

  lemma AcquireInv(k: State, l: nat)
    requires Inv(k) && Enabled(k, Acquire(l))
    ensures Inv(Step(k, Acquire(l)))
  {
    var k1 := SetAt(k, if l in k.owner && k.owner[l] != k.current then TestLock(l) else SetLock(l));
    SameQueues(k, k1);
    forall t <- k1.threads ensures ThreadOk(k1, t) {
      assert ThreadOk(k, t);
    }
    Assemble(k1);
    if l in k.owner && k.owner[l] != k.current { YieldInv(k1); }
  }

  /** Every step of the kernel keeps the invariant. */
  lemma StepInv(k: State, e: Event)
    requires Inv(k) && Enabled(k, e)
    ensures Inv(Step(k, e))
  {
    match e
    case Yield => YieldInv(k);
    case Dispatch => DispatchInv(k);
    case P(s) => if Value(k, s) == 0 { BlockInv(k, SemQueue(s), RetestSem(s)); } else { LocalInv(k, e); }
    case V(s) => PostVInv(k, s);
    case HandlerV(s) => PostVInv(k, s);
    case Acquire(l) => AcquireInv(k, l);
    case Fork(t) => ReadyInv(k, t);
    case Wait(c, l) =>
      if Holds(k, l, k.current) {
        LocalInv(k, Release(l));
        BlockInv(k.(owner := k.owner - {l}), CondQueue(c), InWait(c, l));
      }
    case Signal(c, _) => WakeInv(k, CondQueue(c));
    case Broadcast(c, _) => WakeAllInv(k, CondQueue(c));
    case _ => LocalInv(k, e);
  }

  lemma WakeThenAllThreads(k: State, q: QueueId)
    requires Wf(k) && Queue(k, q) != []
    ensures WakeAll(Wake(k, q), q).threads == WakeAll(k, q).threads
  {
    assert Queue(k, q) == [Queue(k, q)[0]] + Queue(Wake(k, q), q);
  }

  /** Waking one waiter and then all that are left is waking all. */
  lemma WakeThenAll(k: State, q: QueueId)
    requires Wf(k) && Queue(k, q) != []
    ensures WakeAll(Wake(k, q), q) == WakeAll(k, q)
  {
    var k1 := Wake(k, q);
    WakeThenAllThreads(k, q);
    assert k.ready + [Queue(k, q)[0]] + Queue(k1, q) == k.ready + Queue(k, q);
  }
}
