/**
 The synchronized list (threads/synchlist.cc) as a protocol on the thread kernel: any number of
 threads call Append and Remove, with Mesa condition variables and barging, and any other kernel
 activity that does not touch the list's private lock and condition happens around them.
 */
module SynchLists {
  import opened Kernel
  import Runs = KernelRuns
  import Sets

  type Item = nat              // 0 is NULL

  const ListLock: nat := 0
  const ListEmpty: nat := 0    // the condition variable

  /** How far a caller is inside Append or Remove. */
  datatype Phase =
    | Appending(item: Item)    // in lock->Acquire()
    | ToAppend(item: Item)     // before list->Append(item)
    | ToSignal                 // before listEmpty->Signal(lock)
    | ToRelease                // before lock->Release()
    | Removing                 // in lock->Acquire()
    | Checking(again: bool)    // before the test of list->IsEmpty(), again if it has waited
    | ToWait                   // behind the test, which found the list empty
    | ToTake(again: bool)      // behind the test, which found an item, before list->Remove()
    | Sleeping                 // in listEmpty->Wait(lock)
    | Got(item: Item, n: nat)  // before lock->Release(), with the n-th item removed
  {
    predicate Inside() { !Appending? && !Removing? && !Sleeping? }
  }

  datatype Sys = Sys(
    k: State,
    calls: map<Tid, Phase>,
    list: seq<Item>,
    appended: seq<Item>,       // every item ever appended, in order
    removed: seq<Item>)        // every item ever removed, in order

  datatype Action =
    | EnterAppend(item: Item)
    | EnterRemove
    | DoAppend
    | Test
    | Take
    | Kern(e: Event)

  predicate Ticks(e: Event) {
    e.Yield? || e.Dispatch? || e.HandlerV?
  }

  predicate Private(e: Event) {
    || ((e.Acquire? || e.Release? || e.Wait? || e.Signal? || e.Broadcast?) && e.l == ListLock)
    || ((e.Wait? || e.Signal? || e.Broadcast?) && e.c == ListEmpty)
  }

  /** The kernel steps that the code of SynchList and the privacy of its lock and condition allow. */
  predicate Allowed(s: Sys, e: Event) {
    || Ticks(e)
    || (if s.k.current in s.calls then
          match s.calls[s.k.current]
          case ToSignal => e == Signal(ListEmpty, ListLock)
          case ToWait => e == Wait(ListEmpty, ListLock)
          case Checking(_) => false
          case ToTake(_) => false
          case ToRelease => e == Release(ListLock)
          case Got(_, _) => e == Release(ListLock)
          case ToAppend(_) => false
          case _ => e == Acquire(ListLock) || e == TakeLock(ListLock)
        else !Private(e))
  }

  predicate Enabled(s: Sys, a: Action) {
    && Wf(s.k)
    && var me := s.k.threads[s.k.current];
       match a
       case EnterAppend(item) => me == Thread(Running, Free) && s.k.current !in s.calls && item != 0
       case EnterRemove => me == Thread(Running, Free) && s.k.current !in s.calls
       case DoAppend => me == Thread(Running, Free) && s.k.current in s.calls && s.calls[s.k.current].ToAppend?
       case Test => me == Thread(Running, Free) && s.k.current in s.calls && s.calls[s.k.current].Checking?
       case Take => me == Thread(Running, Free) && s.k.current in s.calls && s.calls[s.k.current].ToTake?
       case Kern(e) => Kernel.Enabled(s.k, e) && Allowed(s, e)
  }

  /** Where the running caller stands after its kernel step. */
  function Moved(s: Sys, e: Event): map<Tid, Phase> {
    var me := s.k.current;
    if me !in s.calls then s.calls
    else if e == TakeLock(ListLock) then
      match s.calls[me]
      case Appending(item) => s.calls[me := ToAppend(item)]
      case Removing => s.calls[me := Checking(false)]
      case Sleeping => s.calls[me := Checking(true)]
      case _ => s.calls
    else if e == Signal(ListEmpty, ListLock) then s.calls[me := ToRelease]
    else if e == Wait(ListEmpty, ListLock) then s.calls[me := Sleeping]
    else if e == Release(ListLock) then s.calls - {me}
    else s.calls
  }

  function Next(s: Sys, a: Action): Sys
    requires Enabled(s, a)
  {
    var me := s.k.current;
    match a
    case EnterAppend(item) => s.(calls := s.calls[me := Appending(item)])
    case EnterRemove => s.(calls := s.calls[me := Removing])
    case DoAppend =>
      var item := s.calls[me].item;
      s.(calls := s.calls[me := ToSignal], list := s.list + [item], appended := s.appended + [item])
    case Test => s.(calls := s.calls[me := if s.list == [] then ToWait else ToTake(s.calls[me].again)])
    case Take =>
      if s.list == [] then s.(calls := s.calls[me := Got(0, |s.removed|)])       // the list returns NULL
      else s.(calls := s.calls[me := Got(s.list[0], |s.removed|)], list := s.list[1..], removed := s.removed + [s.list[0]])
    case Kern(e) => s.(k := Step(s.k, e), calls := Moved(s, e))
  }

  predicate Legal(s: Sys, acts: seq<Action>)
    decreases |acts|
  {
    acts == [] || (Enabled(s, acts[0]) && Legal(Next(s, acts[0]), acts[1..]))
  }

  function After(s: Sys, acts: seq<Action>): Sys
    requires Legal(s, acts)
    decreases |acts|
  {
    if acts == [] then s else After(Next(s, acts[0]), acts[1..])
  }

  predicate Initial(s: Sys) {
    && Kernel.Inv(s.k) && s.calls == map[] && s.list == s.appended == s.removed == []
    && ListLock !in s.k.owner
    && forall t <- s.k.threads :: Stranger(s.k.threads[t].at)
  }

  // ---------------------------------------------------------------- the invariant

  predicate Stranger(at: Resume) {
    && at != TestLock(ListLock) && at != SetLock(ListLock)
    && !(at.InWait? && (at.lock == ListLock || at.cond == ListEmpty))
  }

  predicate CallOk(s: Sys, t: Tid)
    requires t in s.calls
  {
    && t in s.k.threads
    && var at := s.k.threads[t].at;
       && (s.calls[t].Inside() <==> Holds(s.k, ListLock, t))
       && (s.calls[t].Inside() ==> at.Free?)
       && (s.calls[t].Appending? || s.calls[t].Removing? ==> at == Free || at == TestLock(ListLock) || at == SetLock(ListLock))
       && (s.calls[t].Sleeping? ==> at == InWait(ListEmpty, ListLock) || at == TestLock(ListLock) || at == SetLock(ListLock))
       && (s.calls[t].Appending? || s.calls[t].ToAppend? ==> s.calls[t].item != 0)
       && (s.calls[t].ToWait? ==> s.list == []) && (s.calls[t].ToTake? ==> s.list != [])
       && (s.calls[t].Got? ==> s.calls[t].n < |s.removed| && s.removed[s.calls[t].n] == s.calls[t].item)
  }

  /** A waiter that has been signalled and has not yet taken an item or found none. */
  predicate WokenWaiter(s: Sys, t: Tid) {
    && t in s.calls && t in s.k.threads
    && (s.calls[t] == Checking(true) || s.calls[t] == ToTake(true) || (s.calls[t].Sleeping? && !s.k.threads[t].status.Blocked?))
  }

  function Woken(s: Sys): set<Tid> {
    set t | t in s.calls && WokenWaiter(s, t)
  }

  /** The running Append has put its item in and has not yet signalled. */
  predicate SignalDue(s: Sys) {
    ListLock in s.k.owner && s.k.owner[ListLock] in s.calls && s.calls[s.k.owner[ListLock]].ToSignal?
  }

  predicate NoLostWakeup(s: Sys) {
    Queue(s.k, CondQueue(ListEmpty)) != [] ==> |s.list| <= |Woken(s)| + (if SignalDue(s) then 1 else 0)
  }

  predicate Inv(s: Sys) {
    && Kernel.Inv(s.k)
    && (forall t {:trigger CallOk(s, t)} :: t in s.calls ==> CallOk(s, t))
    && (forall t <- s.k.threads :: t in s.calls || Stranger(s.k.threads[t].at))
    && (ListLock in s.k.owner ==> s.k.owner[ListLock] in s.calls)
    && s.appended == s.removed + s.list
    && 0 !in s.appended
    && NoLostWakeup(s)
  }

  lemma InitialInv(s: Sys)
    requires Initial(s)
    ensures Inv(s)
  {
    var q := CondQueue(ListEmpty);
    if Queue(s.k, q) != [] {
      assert QueueOk(s.k, q);
    }
  }

  // ---------------------------------------------------------------- one thread in one kernel step

  lemma Bystander(s: Sys, e: Event, t: Tid)
    requires Wf(s.k) && Kernel.Enabled(s.k, e) && t in s.calls && CallOk(s, t) && t != s.k.current
    requires ThreadOk(s.k, t)
    ensures var th, th' := s.k.threads[t], Runs.Seen(s.k, e, t);
            th'.at == th.at || (th.at == InWait(ListEmpty, ListLock) && th'.at == TestLock(ListLock))
    ensures s.k.threads[t].status.Blocked? || !Runs.Seen(s.k, e, t).status.Blocked?
  {
  }

  /** k' agrees with the step e of the kernel on thread t and on the locks. */
  predicate Moves(s: Sys, e: Event, k': State, t: Tid)
    requires Wf(s.k) && t in s.k.threads
  {
    && t in k'.threads && k'.threads[t] == Runs.Seen(s.k, e, t)
    && k'.owner == Runs.OwnerAfter(s.k, e)
  }

  lemma CallerMoves(s: Sys, e: Event, k': State, t: Tid)
    requires Inv(s) && t in s.calls && Runs.Effect(s.k, e, k')
    ensures t in s.k.threads && Moves(s, e, k', t)
  {
    assert CallOk(s, t);
  }

  lemma OthersOk(s: Sys, e: Event, k': State, t: Tid)
    requires Enabled(s, Kern(e)) && t in s.calls && CallOk(s, t) && t != s.k.current
    requires s.k.current in s.calls ==> CallOk(s, s.k.current)
    requires ThreadOk(s.k, t) && Moves(s, e, k', t)
    requires e == TakeLock(ListLock) ==> ListLock !in s.k.owner
    ensures CallOk(s.(k := k', calls := Moved(s, e)), t)
  {
    Bystander(s, e, t);
  }

  lemma MineOk(s: Sys, e: Event, k': State)
    requires Enabled(s, Kern(e)) && s.k.current in s.calls && CallOk(s, s.k.current)
    requires ThreadOk(s.k, s.k.current) && Moves(s, e, k', s.k.current)
    ensures s.k.current in Moved(s, e) ==> CallOk(s.(k := k', calls := Moved(s, e)), s.k.current)
  {
  }

  lemma CallsOk(s: Sys, e: Event, k': State, t: Tid)
    requires Inv(s) && Enabled(s, Kern(e)) && t in Moved(s, e)
    requires t in s.k.threads ==> Moves(s, e, k', t)
    ensures CallOk(s.(k := k', calls := Moved(s, e)), t)
  {
    var me := s.k.current;
    assert ThreadOk(s.k, me);
    if me in s.calls { assert CallOk(s, me); }
    assert CallOk(s, t) && ThreadOk(s.k, t);
    if t == me { MineOk(s, e, k'); } else { OthersOk(s, e, k', t); }
  }

  lemma StrangerStays(s: Sys, e: Event, t: Tid)
    requires Enabled(s, Kern(e)) && t in s.k.threads && t !in s.calls && Stranger(s.k.threads[t].at)
    ensures Stranger(Runs.Seen(s.k, e, t).at)
  {
  }

  lemma LeaverIsStranger(s: Sys, e: Event)
    requires Enabled(s, Kern(e)) && s.k.current in s.calls && CallOk(s, s.k.current)
    requires s.k.current !in Moved(s, e)
    ensures Stranger(Runs.Seen(s.k, e, s.k.current).at)
  {
  }

  lemma StrangersOk(s: Sys, e: Event, t: Tid)
    requires Inv(s) && Enabled(s, Kern(e)) && t in s.k.threads && t !in Moved(s, e)
    ensures Stranger(Runs.Seen(s.k, e, t).at)
  {
    if t in s.calls {
      assert CallOk(s, t);
      LeaverIsStranger(s, e);
    } else {
      StrangerStays(s, e, t);
    }
  }

  lemma OwnerOk(s: Sys, e: Event)
    requires Inv(s) && Enabled(s, Kern(e))
    ensures var o := Runs.OwnerAfter(s.k, e); ListLock in o ==> o[ListLock] in Moved(s, e)
  {
    assert ThreadOk(s.k, s.k.current);
    if s.k.current in s.calls { assert CallOk(s, s.k.current); }
  }

  // ---------------------------------------------------------------- wakeups

  /** No step of the kernel but its own next Wait ends a thread's being a woken waiter. */
  lemma WokenStays(s: Sys, e: Event, k': State, t: Tid)
    requires Inv(s) && Enabled(s, Kern(e)) && t in s.calls && t in s.k.threads && Moves(s, e, k', t)
    requires e != Wait(ListEmpty, ListLock)
    requires WokenWaiter(s, t) || (e == Signal(ListEmpty, ListLock) && Runs.Wakes(s.k, e, t))
    ensures WokenWaiter(s.(k := k', calls := Moved(s, e)), t)
  {
    assert CallOk(s, t) && ThreadOk(s.k, t);
    if t != s.k.current { Bystander(s, e, t); }
    if Runs.Wakes(s.k, e, t) { Runs.WakesBlocked(s.k, e, t); }
  }

  lemma HeadIsWaiter(s: Sys)
    requires Inv(s) && Queue(s.k, CondQueue(ListEmpty)) != []
    ensures var h := Queue(s.k, CondQueue(ListEmpty))[0];
            h in s.calls && h in s.k.threads && s.calls[h].Sleeping? && !WokenWaiter(s, h)
  {
    var h := Queue(s.k, CondQueue(ListEmpty))[0];
    assert QueueOk(s.k, CondQueue(ListEmpty));
    assert ThreadOk(s.k, h);
    assert h in s.calls && CallOk(s, h);
  }

  lemma SignalStaysDue(s: Sys, e: Event, k': State)
    requires Inv(s) && Enabled(s, Kern(e)) && k'.owner == Runs.OwnerAfter(s.k, e)
    requires SignalDue(s) && e != Signal(ListEmpty, ListLock)
    ensures SignalDue(s.(k := k', calls := Moved(s, e)))
  {
    assert ThreadOk(s.k, s.k.current);
    assert CallOk(s, s.k.owner[ListLock]);
    if s.k.current in s.calls { assert CallOk(s, s.k.current); }
  }

  lemma WokenGrows(s: Sys, e: Event, k': State)
    requires Inv(s) && Enabled(s, Kern(e)) && Runs.Effect(s.k, e, k')
    requires e != Wait(ListEmpty, ListLock) && Queue(s.k, CondQueue(ListEmpty)) != []
    ensures var s' := s.(k := k', calls := Moved(s, e));
            |Woken(s)| + (if e == Signal(ListEmpty, ListLock) then 1 else 0) <= |Woken(s')|
  {
    var s', h := s.(k := k', calls := Moved(s, e)), Queue(s.k, CondQueue(ListEmpty))[0];
    if s.k.current in s.calls { assert CallOk(s, s.k.current); }
    HeadIsWaiter(s);
    var grown := Woken(s) + (if e == Signal(ListEmpty, ListLock) then {h} else {});
    forall t | t in grown ensures t in Woken(s') {
      CallerMoves(s, e, k', t);
      WokenStays(s, e, k', t);
    }
    Sets.SubsetSize(grown, Woken(s'));
  }

  lemma KernWakeup(s: Sys, e: Event, k': State)
    requires Inv(s) && Enabled(s, Kern(e)) && Runs.Effect(s.k, e, k')
    requires var q, q' := Queue(s.k, CondQueue(ListEmpty)), Queue(k', CondQueue(ListEmpty));
             || e == Wait(ListEmpty, ListLock)
             || (if e == Signal(ListEmpty, ListLock) && q != [] then q' == q[1..] else q' == q)
    ensures NoLostWakeup(s.(k := k', calls := Moved(s, e)))
  {
    if s.k.current in s.calls { assert CallOk(s, s.k.current); }
    if e != Wait(ListEmpty, ListLock) && Queue(s.k, CondQueue(ListEmpty)) != [] {
      WokenGrows(s, e, k');
      if SignalDue(s) && e != Signal(ListEmpty, ListLock) { SignalStaysDue(s, e, k'); }
    }
  }

  lemma KernInv(s: Sys, e: Event, k': State)
    requires Inv(s) && Enabled(s, Kern(e)) && Runs.Effect(s.k, e, k')
    requires NoLostWakeup(s.(k := k', calls := Moved(s, e)))
    ensures Inv(s.(k := k', calls := Moved(s, e)))
  {
    var s' := s.(k := k', calls := Moved(s, e));
    forall t | t in s'.calls ensures CallOk(s', t) {
      CallerMoves(s, e, k', t);
      CallsOk(s, e, k', t);
    }
    forall t <- k'.threads ensures t in s'.calls || Stranger(k'.threads[t].at) {
      if t !in s'.calls && t in s.k.threads { StrangersOk(s, e, t); }
    }
    OwnerOk(s, e);
  }

  /** The steps that are not steps of the kernel. */
  lemma ListStepWakeup(s: Sys, a: Action)
    requires Inv(s) && Enabled(s, a) && !a.Kern?
    ensures NoLostWakeup(Next(s, a))
  {
    var s', me := Next(s, a), s.k.current;
    forall t | t in Woken(s) && !((a.Take? || a.Test?) && t == me) ensures t in Woken(s') {
      assert CallOk(s, t);
    }
    if me in s.calls { assert CallOk(s, me); }
    if a.Test? && s.list != [] {
      Sets.SubsetSize(Woken(s), Woken(s'));
    } else if !a.Test? {
      Sets.SubsetSize(Woken(s) - (if a.Take? then {me} else {}), Woken(s'));
    }
  }

  lemma ListStepInv(s: Sys, a: Action)
    requires Inv(s) && Enabled(s, a) && !a.Kern?
    ensures Inv(Next(s, a))
  {
    var s', me := Next(s, a), s.k.current;
    if me in s.calls { assert CallOk(s, me); }
    forall t | t in s'.calls ensures CallOk(s', t) {
      if t in s.calls { assert CallOk(s, t); }
    }
    ListStepWakeup(s, a);
    if a.Take? {
      assert s.list == [s.list[0]] + s.list[1..];
    }
  }

  lemma StepInv(s: Sys, a: Action)
    requires Inv(s) && Enabled(s, a)
    ensures Inv(Next(s, a))
  {
    if a.Kern? {
      Runs.StepEffect(s.k, a.e);
      Runs.QueueStep(s.k, a.e, ListEmpty);
      if s.k.current in s.calls { assert CallOk(s, s.k.current); }
      KernWakeup(s, a.e, Step(s.k, a.e));
      KernInv(s, a.e, Step(s.k, a.e));
    } else {
      ListStepInv(s, a);
    }
  }

  // ---------------------------------------------------------------- what every run keeps

  lemma {:induction false} RunInv(s: Sys, acts: seq<Action>)
    requires Inv(s) && Legal(s, acts)
    ensures Inv(After(s, acts))
    decreases |acts|
  {
    if acts == [] {
    } else {
      StepInv(s, acts[0]);
      RunInv(Next(s, acts[0]), acts[1..]);
    }
  }

  /** Items come out in the order in which they went in, each exactly once, and a call of Remove
      returns the item that its own removal took. */
  lemma FirstInFirstOut(s: Sys, acts: seq<Action>, t: Tid)
    requires Initial(s) && Legal(s, acts)
    ensures var s' := After(s, acts);
            && s'.appended == s'.removed + s'.list
            && (t in s'.calls && s'.calls[t].Got? ==>
                  s'.calls[t].n < |s'.removed| && s'.appended[s'.calls[t].n] == s'.calls[t].item)
  {
    InitialInv(s);
    RunInv(s, acts);
    if t in After(s, acts).calls { assert CallOk(After(s, acts), t); }
  }

  /** t is inside Append(item), which has not yet put the item into the list. */
  predicate HasToAppend(s: Sys, t: Tid, item: Item) {
    t in s.calls && (s.calls[t] == Appending(item) || s.calls[t] == ToAppend(item))
  }

  /** In this run t puts the item at the end of the list. */
  predicate Appends(s: Sys, acts: seq<Action>, t: Tid, item: Item)
    requires Legal(s, acts)
    decreases |acts|
  {
    && acts != []
    && var s' := Next(s, acts[0]);
       (s.k.current == t && acts[0].DoAppend? && s'.list == s.list + [item]) || Appends(s', acts[1..], t, item)
  }

  lemma {:induction false} AppendLater(s: Sys, acts: seq<Action>, t: Tid, item: Item)
    requires Legal(s, acts) && HasToAppend(s, t, item)
    ensures HasToAppend(After(s, acts), t, item) || Appends(s, acts, t, item)
    decreases |acts|
  {
    if acts == [] {
    } else if s.k.current == t && acts[0].DoAppend? {
    } else {
      AppendLater(Next(s, acts[0]), acts[1..], t, item);
    }
  }

  /** A call of Append puts in the item that it was called with: whatever runs in between, it still has to, or it
      has done so. */
  lemma AppendKeepsItsItem(s: Sys, acts: seq<Action>, item: Item)
    requires Enabled(s, EnterAppend(item)) && Legal(Next(s, EnterAppend(item)), acts)
    ensures var s' := Next(s, EnterAppend(item));
            HasToAppend(After(s', acts), s.k.current, item) || Appends(s', acts, s.k.current, item)
  {
    AppendLater(Next(s, EnterAppend(item)), acts, s.k.current, item);
  }

  /** The ASSERT(item != NULL) of Remove never fires: whatever runs between the test and the removal, the
      item that was found is still there. */
  lemma RemovedItemIsNotNull(s: Sys, acts: seq<Action>)
    requires Initial(s) && Legal(s, acts) && Enabled(After(s, acts), Take)
    ensures var s' := After(s, acts); s'.list != [] && s'.list[0] != 0
  {
    InitialInv(s);
    RunInv(s, acts);
    var s' := After(s, acts);
    assert CallOk(s', s'.k.current);
    assert s'.list[0] == s'.appended[|s'.removed|];
  }

  /** No item waits while its consumers sleep: with the lock free, if threads are queued on the
      condition then there are at least as many woken waiters as items. */
  lemma NoItemForgotten(s: Sys, acts: seq<Action>)
    requires Initial(s) && Legal(s, acts)
    ensures var s' := After(s, acts);
            ListLock !in s'.k.owner && Queue(s'.k, CondQueue(ListEmpty)) != [] ==> |s'.list| <= |Woken(s')|
  {
    InitialInv(s);
    RunInv(s, acts);
  }

  /** At most one thread is inside the monitor. */
  lemma MonitorIsExclusive(s: Sys, acts: seq<Action>, t: Tid, u: Tid)
    requires Initial(s) && Legal(s, acts)
    requires var s' := After(s, acts);
             t in s'.calls && u in s'.calls && s'.calls[t].Inside() && s'.calls[u].Inside()
    ensures t == u
  {
    InitialInv(s);
    RunInv(s, acts);
    assert CallOk(After(s, acts), t) && CallOk(After(s, acts), u);
  }
}
