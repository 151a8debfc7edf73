/**
 The synchronous disk (filesys/synchdisk.cc over machine/disk.cc) as a protocol on the thread
 kernel: any number of threads call ReadSector and WriteSector, any other kernel activity that
 does not touch the disk's private lock and semaphore happens around them, and the disk
 interrupt arrives at any point where simulated time can advance.
 */
module SynchDisks {
  import opened Kernel
  import Runs = KernelRuns

  type Data = seq<bv8>

  const DiskLock: nat := 0
  const DiskSem: nat := 0

  datatype Op = Read(sector: nat) | Write(sector: nat, data: Data)

  /** How far a caller is inside ReadSector or WriteSector. */
  datatype Phase =
    | Locking(op: Op)                        // in lock->Acquire()
    | Locked(op: Op)                         // before disk->ReadRequest / WriteRequest
    | Issued(op: Op, id: nat, buffer: Data)  // in semaphore->P(), for request number id
    | Served(op: Op, id: nat, buffer: Data)  // before lock->Release()
  {
    predicate Inside() { !Locking? }
  }

  datatype Sys = Sys(
    k: State,
    calls: map<Tid, Phase>,   // the threads inside SynchDisk
    active: bool,             // Disk::active
    issued: nat,              // requests handed to the raw disk so far
    completed: nat,           // disk interrupts so far
    disk: seq<Data>)          // the raw contents

  datatype Action =
    | Enter(op: Op)
    | Request
    | Interrupt
    | Kern(e: Event)

  predicate Ticks(e: Event) {
    e.Yield? || e.Dispatch? || (e.HandlerV? && e.s != DiskSem)
  }

  /** The kernel steps that the code of SynchDisk and the privacy of its lock and semaphore allow. */
  predicate Allowed(s: Sys, e: Event) {
    || Ticks(e)
    || (if s.k.current in s.calls then
          match s.calls[s.k.current]
          case Locking(_) => e == Acquire(DiskLock) || e == TakeLock(DiskLock)
          case Locked(_) => false
          case Issued(_, _, _) => e == P(DiskSem)
          case Served(_, _, _) => e == Release(DiskLock)
        else
          && !(e.Acquire? && e.l == DiskLock) && !(e.Release? && e.l == DiskLock)
          && !(e.Wait? && e.l == DiskLock) && !(e.Signal? && e.l == DiskLock)
          && !(e.Broadcast? && e.l == DiskLock)
          && !(e.P? && e.s == DiskSem) && !(e.V? && e.s == DiskSem) && !e.HandlerV?)
  }

  predicate Enabled(s: Sys, a: Action) {
    && Wf(s.k)
    && var me := s.k.threads[s.k.current];
       match a
       case Enter(op) =>
         && me == Thread(Running, Free) && s.k.current !in s.calls
         && op.sector < |s.disk|                    // the range ASSERT of the raw disk
       case Request =>
         me == Thread(Running, Free) && s.k.current in s.calls && s.calls[s.k.current].Locked?
       case Interrupt => s.active && Kernel.Enabled(s.k, HandlerV(DiskSem))
       case Kern(e) => Kernel.Enabled(s.k, e) && Allowed(s, e)
  }

  /** What a request leaves in the caller's buffer or on the disk. */
  function Apply(disk: seq<Data>, op: Op): seq<Data> {
    if op.Write? && op.sector < |disk| then disk[op.sector := op.data] else disk
  }

  function Next(s: Sys, a: Action): Sys
    requires Enabled(s, a)
  {
    match a
    case Enter(op) => s.(calls := s.calls[s.k.current := Locking(op)])
    case Request =>
      var op := s.calls[s.k.current].op;
      var disk := Apply(s.disk, op);
      var buffer := if op.Write? then op.data else if op.sector < |disk| then disk[op.sector] else [];
      s.(calls := s.calls[s.k.current := Issued(op, s.issued, buffer)],
         active := true, issued := s.issued + 1, disk := disk)
    case Interrupt =>
      s.(k := Step(s.k, HandlerV(DiskSem)), active := false, completed := s.completed + 1)
    case Kern(e) => s.(k := Step(s.k, e), calls := Moved(s, e))
  }

  /** Where the running caller stands after its kernel step. */
  function Moved(s: Sys, e: Event): map<Tid, Phase> {
    var me := s.k.current;
    if me !in s.calls then s.calls
    else match s.calls[me]
      case Locking(op) => if e == TakeLock(DiskLock) then s.calls[me := Locked(op)] else s.calls
      case Issued(op, id, buffer) =>
        if e == P(DiskSem) && Value(s.k, DiskSem) > 0 then s.calls[me := Served(op, id, buffer)] else s.calls
      case Served(_, _, _) => if e == Release(DiskLock) then s.calls - {me} else s.calls
      case _ => s.calls
  }

  predicate Legal(s: Sys, acts: seq<Action>)
    decreases |acts|
  {
    acts == [] || (Enabled(s, acts[0]) && Legal(Next(s, acts[0]), acts[1..]))
  }

  function After(s: Sys, acts: seq<Action>): Sys
    requires Legal(s, acts)
    decreases |acts|
  {
    if acts == [] then s else After(Next(s, acts[0]), acts[1..])
  }

  /** A kernel in which nobody has used the disk's lock and semaphore yet. */
  predicate Initial(s: Sys) {
    && Kernel.Inv(s.k) && s.calls == map[] && !s.active && s.issued == s.completed == 0
    && DiskLock !in s.k.owner && Value(s.k, DiskSem) == 0
    && forall t <- s.k.threads :: Stranger(s.k.threads[t].at)
  }

  // ---------------------------------------------------------------- the invariant

  predicate Stranger(at: Resume) {
    && at != TestLock(DiskLock) && at != SetLock(DiskLock) && at != RetestSem(DiskSem)
    && !(at.InWait? && at.lock == DiskLock)
  }

  predicate Quiet(s: Sys) {
    !s.active && Value(s.k, DiskSem) == 0 && s.issued == s.completed
  }

  /** The request has been carried out: a read has the sector in its buffer, a write its data in the sector. */
  predicate Carried(disk: seq<Data>, op: Op, buffer: Data) {
    && op.sector < |disk|
    && (op.Read? ==> buffer == disk[op.sector])
    && (op.Write? ==> disk[op.sector] == op.data)
  }

  predicate CallOk(s: Sys, t: Tid)
    requires t in s.calls
  {
    && t in s.k.threads
    && var th := s.k.threads[t];
       && (s.calls[t].Inside() <==> Holds(s.k, DiskLock, t))
       && s.calls[t].op.sector < |s.disk|
       && match s.calls[t]
          case Locking(_) => th.at == Free || th.at == TestLock(DiskLock) || th.at == SetLock(DiskLock)
          case Locked(_) => th.at == Free && Quiet(s)
          case Issued(op, id, buffer) =>
            && (th.at == Free || th.at == RetestSem(DiskSem))
            && s.issued == id + 1 && Carried(s.disk, op, buffer)
            && (if s.active then Value(s.k, DiskSem) == 0 && s.completed == id
                else Value(s.k, DiskSem) == 1 && s.completed == id + 1 && !th.status.Blocked?)
          case Served(op, id, buffer) =>
            th.at == Free && Quiet(s) && s.completed == id + 1 && Carried(s.disk, op, buffer)
  }

  predicate Inv(s: Sys) {
    && Kernel.Inv(s.k)
    && (forall t {:trigger CallOk(s, t)} :: t in s.calls ==> CallOk(s, t))
    && (forall t <- s.k.threads :: t in s.calls || Stranger(s.k.threads[t].at))
    && (DiskLock in s.k.owner ==> s.k.owner[DiskLock] in s.calls)
    && (DiskLock !in s.k.owner ==> Quiet(s))
  }

  lemma InitialInv(s: Sys)
    requires Initial(s)
    ensures Inv(s)
  {}

  /** What the step e of the kernel does to the disk's lock and semaphore, and to thread t. */
  predicate Moves(s: Sys, e: Event, k': State, t: Tid)
    requires Wf(s.k) && t in s.k.threads
  {
    && t in k'.threads && k'.threads[t] == Runs.Seen(s.k, e, t)
    && k'.owner == Runs.OwnerAfter(s.k, e)
    && Value(k', DiskSem) == Value(s.k, DiskSem) + (if e == HandlerV(DiskSem) then 1 else 0)
                             - (if e == P(DiskSem) && Value(s.k, DiskSem) > 0 then 1 else 0)
  }

  /** A caller that is not running keeps its place in the code, and does not fall asleep. */
  lemma Bystander(s: Sys, e: Event, t: Tid)
    requires Wf(s.k) && Kernel.Enabled(s.k, e) && t in s.calls && CallOk(s, t) && t != s.k.current
    requires !s.k.threads[t].status.JustCreated?
    ensures Runs.Seen(s.k, e, t).at == s.k.threads[t].at
    ensures s.k.threads[t].status.Blocked? || !Runs.Seen(s.k, e, t).status.Blocked?
  {
  }

  lemma CallerMoves(s: Sys, e: Event, k': State, t: Tid)
    requires Inv(s) && Kernel.Enabled(s.k, e) && t in s.calls && Runs.Effect(s.k, e, k')
    requires Value(k', DiskSem) == Value(s.k, DiskSem) + (if e == HandlerV(DiskSem) then 1 else 0)
               - (if e == P(DiskSem) && Value(s.k, DiskSem) > 0 then 1 else 0)
    ensures t in s.k.threads && Moves(s, e, k', t)
  {
    assert CallOk(s, t);
  }

  lemma OthersOk(s: Sys, e: Event, k': State, t: Tid)
    requires Enabled(s, Kern(e)) && t in s.calls && CallOk(s, t) && t != s.k.current
    requires s.k.current in s.calls ==> CallOk(s, s.k.current)
    requires !s.k.threads[t].status.JustCreated? && Moves(s, e, k', t)
    requires e == TakeLock(DiskLock) ==> DiskLock !in s.k.owner
    ensures CallOk(s.(k := k', calls := Moved(s, e)), t)
  {
    Bystander(s, e, t);
  }

  lemma MineOk(s: Sys, e: Event, k': State)
    requires Enabled(s, Kern(e)) && s.k.current in s.calls && CallOk(s, s.k.current)
    requires StatusOk(s.k.threads[s.k.current]) && Moves(s, e, k', s.k.current)
    requires e == TakeLock(DiskLock) ==> DiskLock !in s.k.owner
    requires DiskLock !in s.k.owner ==> Quiet(s)
    ensures s.k.current in Moved(s, e) ==> CallOk(s.(k := k', calls := Moved(s, e)), s.k.current)
  {
  }

  lemma StrangerStays(s: Sys, e: Event, t: Tid)
    requires Enabled(s, Kern(e)) && t in s.k.threads && t !in s.calls && Stranger(s.k.threads[t].at)
    ensures Stranger(Runs.Seen(s.k, e, t).at)
  {
  }

  lemma LeaverIsStranger(s: Sys, e: Event)
    requires Enabled(s, Kern(e)) && s.k.current in s.calls && CallOk(s, s.k.current)
    requires s.k.current !in Moved(s, e)
    ensures Stranger(Runs.Seen(s.k, e, s.k.current).at)
  {
  }

  lemma OwnerOk(s: Sys, e: Event, k': State)
    requires Enabled(s, Kern(e)) && k'.owner == Runs.OwnerAfter(s.k, e)
    requires s.k.current in s.calls ==> CallOk(s, s.k.current)
    requires s.k.threads[s.k.current].at == SetLock(DiskLock) ==> s.k.current in s.calls
    requires DiskLock in s.k.owner ==> s.k.owner[DiskLock] in s.calls
    requires DiskLock !in s.k.owner ==> Quiet(s)
    requires Value(k', DiskSem) == Value(s.k, DiskSem)
               - (if e == P(DiskSem) && Value(s.k, DiskSem) > 0 then 1 else 0)
    ensures DiskLock in k'.owner ==> k'.owner[DiskLock] in Moved(s, e)
    ensures DiskLock !in k'.owner ==> Quiet(s.(k := k', calls := Moved(s, e)))
  {
  }

  lemma CallsOk(s: Sys, e: Event, k': State, t: Tid)
    requires Inv(s) && Enabled(s, Kern(e)) && t in Moved(s, e)
    requires t in s.k.threads ==> Moves(s, e, k', t)
    ensures CallOk(s.(k := k', calls := Moved(s, e)), t)
  {
    var me := s.k.current;
    assert Kernel.ThreadOk(s.k, me);
    if me in s.calls { assert CallOk(s, me); }
    assert CallOk(s, t) && Kernel.ThreadOk(s.k, t);
    if t == me { MineOk(s, e, k'); } else { OthersOk(s, e, k', t); }
  }

  lemma StrangersOk(s: Sys, e: Event, t: Tid)
    requires Inv(s) && Enabled(s, Kern(e)) && t in s.k.threads && t !in Moved(s, e)
    ensures Stranger(Runs.Seen(s.k, e, t).at)
  {
    if t in s.calls {
      assert CallOk(s, t);
      LeaverIsStranger(s, e);
    } else {
      StrangerStays(s, e, t);
    }
  }

  /** A kernel step of the running thread, whether it is inside the disk code or not. */
  lemma KernInv(s: Sys, e: Event, k': State)
    requires Inv(s) && Enabled(s, Kern(e)) && Runs.Effect(s.k, e, k')
    requires Value(k', DiskSem) == Value(s.k, DiskSem)
               - (if e == P(DiskSem) && Value(s.k, DiskSem) > 0 then 1 else 0)
    ensures Inv(s.(k := k', calls := Moved(s, e)))
  {
    var s', me := s.(k := k', calls := Moved(s, e)), s.k.current;
    forall t <- s'.calls ensures CallOk(s', t) {
      CallerMoves(s, e, k', t);
      CallsOk(s, e, k', t);
    }
    forall t <- k'.threads ensures t in s'.calls || Stranger(k'.threads[t].at) {
      if t !in s'.calls && t in s.k.threads { StrangersOk(s, e, t); }
    }
    if me in s.calls { assert CallOk(s, me); }
    OwnerOk(s, e, k');
  }

  /** The interrupt's V finds the holder of the lock, and nobody else, on the queue. */
  lemma HolderWoken(s: Sys, holder: Tid)
    requires Inv(s) && s.active && Holds(s.k, DiskLock, holder)
    ensures holder in s.calls && s.calls[holder].Issued? && holder in s.k.threads
    ensures s.k.threads[holder].status.Blocked? ==> Runs.Wakes(s.k, HandlerV(DiskSem), holder)
    ensures forall t :: Runs.Wakes(s.k, HandlerV(DiskSem), t) ==> t == holder
  {
    assert CallOk(s, holder) && Kernel.ThreadOk(s.k, holder);
    var q := Queue(s.k, SemQueue(DiskSem));
    forall i | 0 <= i < |q| ensures q[i] == holder {
      assert QueueOk(s.k, SemQueue(DiskSem));
      assert q[i] in s.calls && CallOk(s, q[i]);
    }
  }

  lemma InterruptInv(s: Sys, k': State)
    requires Inv(s) && Enabled(s, Interrupt) && Runs.Effect(s.k, HandlerV(DiskSem), k')
    requires Value(k', DiskSem) == Value(s.k, DiskSem) + 1
    ensures Inv(s.(k := k', active := false, completed := s.completed + 1))
  {
    var s' := s.(k := k', active := false, completed := s.completed + 1);
    var holder := s.k.owner[DiskLock];
    assert CallOk(s, holder);
    HolderWoken(s, holder);
    forall t <- s'.calls ensures CallOk(s', t) {
      assert CallOk(s, t);
    }
  }

  lemma EnterRequestInv(s: Sys, a: Action)
    requires Inv(s) && Enabled(s, a) && (a.Enter? || a.Request?)
    ensures Inv(Next(s, a))
  {
    var s' := Next(s, a);
    if a.Request? { assert CallOk(s, s.k.current); }
    forall t <- s'.calls ensures CallOk(s', t) {
      if t in s.calls { assert CallOk(s, t); }
    }
  }

  lemma StepInv(s: Sys, a: Action)
    requires Inv(s) && Enabled(s, a)
    ensures Inv(Next(s, a))
  {
    match a
    case Enter(op) => EnterRequestInv(s, a);
    case Request => EnterRequestInv(s, a);
    case Interrupt =>
      Runs.StepEffect(s.k, HandlerV(DiskSem));
      Runs.ValueStep(s.k, HandlerV(DiskSem), DiskSem);
      InterruptInv(s, Step(s.k, HandlerV(DiskSem)));
    case Kern(e) =>
      Runs.StepEffect(s.k, e);
      Runs.ValueStep(s.k, e, DiskSem);
      KernInv(s, e, Step(s.k, e));
  }

  // ---------------------------------------------------------------- what every run keeps

  lemma {:induction false} RunInv(s: Sys, acts: seq<Action>)
    requires Inv(s) && Legal(s, acts)
    ensures Inv(After(s, acts))
    decreases |acts|
  {
    if acts == [] {
    } else {
      StepInv(s, acts[0]);
      RunInv(Next(s, acts[0]), acts[1..]);
    }
  }

  /** The raw disk is never given a request while one is active: the ASSERT(!active) of
      ReadRequest and WriteRequest never fires, on any interleaving. */
  lemma OneRequestAtATime(s: Sys, acts: seq<Action>)
    requires Initial(s) && Legal(s, acts) && Enabled(After(s, acts), Request)
    ensures !After(s, acts).active
  {
    RunInv(s, acts);
    var s' := After(s, acts);
    assert CallOk(s', s'.k.current);
  }

  /** A call returns only after the interrupt of its own request, a read with the sector's contents in its
      buffer, a write with its data in the sector. */
  lemma ReturnsAfterOwnCompletion(s: Sys, acts: seq<Action>)
    requires Initial(s) && Legal(s, acts)
    requires var s' := After(s, acts);
             Enabled(s', Kern(Release(DiskLock))) && s'.k.current in s'.calls && s'.calls[s'.k.current].Served?
    ensures var s' := After(s, acts);
            var call := s'.calls[s'.k.current];
            && call.id < s'.completed && s'.completed == s'.issued
            && call.op.sector < |s'.disk|
            && (call.op.Read? ==> call.buffer == s'.disk[call.op.sector])
            && (call.op.Write? ==> s'.disk[call.op.sector] == call.op.data)
            && DiskLock !in Next(s', Kern(Release(DiskLock))).k.owner
  {
    RunInv(s, acts);
    var s' := After(s, acts);
    assert CallOk(s', s'.k.current);
  }

  predicate Calls(s: Sys, t: Tid, op: Op) {
    t in s.calls && s.calls[t].op == op
  }

  /** In this run t returns from its call, which is served. */
  predicate Returns(s: Sys, acts: seq<Action>, t: Tid, op: Op)
    requires Legal(s, acts)
    decreases |acts|
  {
    && acts != []
    && ((s.k.current == t && acts[0] == Kern(Release(DiskLock)) && Calls(s, t, op) && s.calls[t].Served?)
        || Returns(Next(s, acts[0]), acts[1..], t, op))
  }

  lemma {:induction false} ReturnLater(s: Sys, acts: seq<Action>, t: Tid, op: Op)
    requires Legal(s, acts) && Calls(s, t, op)
    ensures Calls(After(s, acts), t, op) || Returns(s, acts, t, op)
    decreases |acts|
  {
    if acts == [] {
    } else if s.k.current == t && acts[0] == Kern(Release(DiskLock)) && s.calls[t].Served? {
    } else {
      ReturnLater(Next(s, acts[0]), acts[1..], t, op);
    }
  }

  /** A call is for the sector and the data that it was made with, whatever runs in between, and ends only by being
      served. */
  lemma CallKeepsItsRequest(s: Sys, acts: seq<Action>, op: Op)
    requires Enabled(s, Enter(op)) && Legal(Next(s, Enter(op)), acts)
    ensures var s' := Next(s, Enter(op));
            Calls(After(s', acts), s.k.current, op) || Returns(s', acts, s.k.current, op)
  {
    ReturnLater(Next(s, Enter(op)), acts, s.k.current, op);
  }

  /** A sector changes only by the request of a write to it, made by the holder of the lock, to the data of that write. */
  lemma OnlyTheHolderWrites(s: Sys, acts: seq<Action>, a: Action, i: nat)
    requires Initial(s) && Legal(s, acts) && Enabled(After(s, acts), a) && i < |After(s, acts).disk|
    ensures var s' := After(s, acts);
            var disk' := Next(s', a).disk;
            && |disk'| == |s'.disk|
            && (disk'[i] != s'.disk[i] ==>
                  && a.Request? && Holds(s'.k, DiskLock, s'.k.current)
                  && s'.calls[s'.k.current].op == Write(i, disk'[i]))
  {
    RunInv(s, acts);
    var s' := After(s, acts);
    if a.Request? { assert CallOk(s', s'.k.current); }
  }

  /** Whenever the lock is free, the semaphore is at 0 and the disk is idle. */
  lemma FreeLockMeansQuiet(s: Sys, acts: seq<Action>)
    requires Initial(s) && Legal(s, acts) && DiskLock !in After(s, acts).k.owner
    ensures Quiet(After(s, acts))
  {
    RunInv(s, acts);
  }

  /** A caller asleep in P has its interrupt still to come, so it is not forgotten. */
  lemma SleeperHasInterruptComing(s: Sys, acts: seq<Action>, t: Tid)
    requires Initial(s) && Legal(s, acts)
    requires var s' := After(s, acts); t in s'.k.threads && s'.k.threads[t] == Thread(Blocked, RetestSem(DiskSem))
    ensures var s' := After(s, acts); s'.active && Runs.Wakes(s'.k, HandlerV(DiskSem), t)
  {
    RunInv(s, acts);
    var s' := After(s, acts);
    assert t in s'.calls && CallOk(s', t);
    HolderWoken(s', t);
  }

  /** At most one thread is between Acquire and Release. */
  lemma OneCallerInside(s: Sys, acts: seq<Action>, t: Tid, u: Tid)
    requires Initial(s) && Legal(s, acts)
    requires var s' := After(s, acts);
             t in s'.calls && u in s'.calls && s'.calls[t].Inside() && s'.calls[u].Inside()
    ensures t == u
  {
    RunInv(s, acts);
    assert CallOk(After(s, acts), t) && CallOk(After(s, acts), u);
  }
}
