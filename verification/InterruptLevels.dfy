/**
 The routines of threads/thread.cc, threads/scheduler.cc and threads/synch.cc, one primitive action at a
 time, with the interrupt level and the levels that the routines save.  The only points where an
 interrupt handler or a time slice can come in are those where SetLevel turns interrupts from off to on
 (machine/interrupt.cc:114-127), a user instruction, and the idle loop of Sleep.
 */
module InterruptLevels {
  import opened Options
  import opened Kernel
  import C = Clock

  type Level = C.IntStatus

  // Where a thread is inside a routine, named after the action that comes next.
  datatype PAt = PEnter | PTest | PTake | PQueue | PBlock
  datatype VAt = VEnter | VRemove | VReady(t: Tid) | VCount
  datatype LockAt = LockTest | LockOff | LockSet
  datatype ReleaseAt = ReleaseCheck | ReleaseOff | ReleaseClear
  datatype WaitAt = WaitCheck | WaitOff | WaitQueue | InnerCheck | InnerOff | InnerClear | InnerRestore | WaitBlock
  datatype SignalAt = SignalCheck | SignalOff | SignalRemove | SignalReady(t: Tid)
  datatype BroadcastAt = BroadcastCheck | BroadcastOff | BroadcastLoop | BroadcastReady(t: Tid)
  datatype FinishAt = FinishOff | FinishMark | FinishBlock
  datatype YieldAt = YieldOff | YieldFind | YieldReady(next: Tid)

  /** Why a thread yields. */
  datatype Why = ByCall | BySlice | ByLock(lock: nat)

  /** Where the running thread is; after is where it goes on. */
  datatype Pc =
    | User                                        // outside the routines
    | Start                                       // ThreadRoot, before InterruptEnable
    | Restoring(after: Pc)                        // before SetLevel(oldLevel)
    | LevelOn(after: Pc)                          // in OneTick, before interrupts go on again
    | Ticking(after: Pc)                          // in OneTick: handlers and a time slice may come
    | InP(s: nat, p: PAt)
    | InV(s: nat, v: VAt, after: Pc)
    | InAcquire(l: nat, a: LockAt)
    | InRelease(l: nat, r: ReleaseAt)
    | Waiting(c: nat, l: nat, w: WaitAt)
    | InSignal(c: nat, l: nat, g: SignalAt)
    | InBroadcast(c: nat, l: nat, b: BroadcastAt)
    | InFork(t: Tid, off: bool)
    | InFinish(f: FinishAt)
    | InYield(why: Why, y: YieldAt, after: Pc)
    | Switch(back: Pc, next: Tid)                 // before SWITCH; back is where the thread comes back
    | Asleep(back: Pc)                            // in the loop of Sleep
    | BackInYield(after: Pc)                      // after SWITCH, in Run
    | BackInP(s: nat)
    | Dead

  /** What a thread that is switched out keeps: its saved levels and where it comes back. */
  datatype Frame = Frame(saved: seq<Level>, pc: Pc)

  datatype Micro = Micro(k: State, level: Level, saved: seq<Level>, pc: Pc, parked: map<Tid, Frame>)

  datatype MicroStep =
    | Calls(pc: Pc)             // user code calls a routine
    | Creates(t: Tid)           // new Thread
    | Exec                      // the next action of the running thread
    | Instruction               // a user instruction, which advances time
    | Pass                      // no interrupt, or no more
    | Slice                     // the timer asked for a yield
    | Handler(s: nat)           // an interrupt handler calls V, in OneTick or in Idle

  // ---------------------------------------------------------------- the primitive actions

  /** oldLevel = SetLevel(IntOff), which never ticks. */
  function Off(m: Micro, pc: Pc): Micro {
    m.(level := C.IntOff, saved := [m.level] + m.saved, pc := pc)
  }

  /** SetLevel(now): a tick exactly when interrupts go from off to on. */
  function Set(m: Micro, now: Level, saved: seq<Level>, after: Pc): Micro {
    m.(level := now, saved := saved, pc := if m.level.IntOff? && now.IntOn? then Ticking(after) else after)
  }

  function Pop(k: State, q: QueueId): State {
    if Queue(k, q) == [] then k else k.(waiting := k.waiting[q := Queue(k, q)[1..]])
  }

  function Push(k: State, q: QueueId): State {
    k.(waiting := k.waiting[q := Queue(k, q) + [k.current]])
  }

  function BlockSelf(k: State, at: Resume): State {
    k.(threads := k.threads[k.current := Thread(Blocked, at)])
  }

  function Readied(k: State, t: Tid): State {
    if t in k.threads then ReadyToRun(k, t) else k
  }

  function Dispatched(k: State, next: Tid): State {
    if next in k.threads then Run(k, next) else k
  }

  function AddOne(k: State, s: nat): State {
    k.(value := k.value[s := Value(k, s) + 1])
  }

  function Unlock(k: State, l: nat): State {
    k.(owner := k.owner - {l})
  }

  // ---------------------------------------------------------------- the routines, action by action

  function ExecP(m: Micro, s: nat, p: PAt): Micro
    requires m.k.current in m.k.threads && (p.PTake? ==> Value(m.k, s) > 0)
  {
    var k := m.k;
    match p
    case PEnter => Off(m, InP(s, PTest))
    case PTest => m.(pc := InP(s, if Value(k, s) == 0 then PQueue else PTake))
    case PTake => m.(k := SetAt(k.(value := k.value[s := Value(k, s) - 1]), Free), pc := Restoring(User))
    case PQueue => m.(k := Push(k, SemQueue(s)), pc := InP(s, PBlock))
    case PBlock => m.(k := BlockSelf(k, RetestSem(s)), pc := Asleep(BackInP(s)))
  }

  function ExecV(m: Micro, s: nat, v: VAt, after: Pc): Micro {
    var k := m.k;
    var q := Queue(k, SemQueue(s));
    match v
    case VEnter => Off(m, InV(s, VRemove, after))
    case VRemove => if q == [] then m.(pc := InV(s, VCount, after)) else m.(k := Pop(k, SemQueue(s)), pc := InV(s, VReady(q[0]), after))
    case VReady(t) => m.(k := Readied(k, t), pc := InV(s, VCount, after))
    case VCount => m.(k := AddOne(k, s), pc := Restoring(after))
  }

  function ExecAcquire(m: Micro, l: nat, a: LockAt): Micro
    requires m.k.current in m.k.threads
  {
    var k := m.k;
    match a
    case LockTest => if l in k.owner && k.owner[l] != k.current then m.(pc := InYield(ByLock(l), YieldOff, InAcquire(l, LockTest)))
                     else m.(k := SetAt(k, SetLock(l)), pc := InAcquire(l, LockOff))
    case LockOff => Off(m, InAcquire(l, LockSet))
    case LockSet => m.(k := SetAt(k.(owner := k.owner[l := k.current]), Free), pc := Restoring(User))
  }

  function ExecRelease(m: Micro, l: nat, r: ReleaseAt): Micro {
    match r
    case ReleaseCheck => m.(pc := if Holds(m.k, l, m.k.current) then InRelease(l, ReleaseOff) else User)
    case ReleaseOff => Off(m, InRelease(l, ReleaseClear))
    case ReleaseClear => m.(k := Unlock(m.k, l), pc := Restoring(User))
  }

  /** Wait calls Release, which turns interrupts off and back to what it found, between its own two calls of SetLevel. */
  function ExecWait(m: Micro, c: nat, l: nat, w: WaitAt): Micro
    requires w.InnerRestore? ==> m.saved != []
  {
    var k := m.k;
    match w
    case WaitCheck => m.(pc := if Holds(k, l, k.current) then Waiting(c, l, WaitOff) else User)
    case WaitOff => Off(m, Waiting(c, l, WaitQueue))
    case WaitQueue => m.(k := Push(k, CondQueue(c)), pc := Waiting(c, l, InnerCheck))
    case InnerCheck => m.(pc := Waiting(c, l, if Holds(k, l, k.current) then InnerOff else WaitBlock))
    case InnerOff => Off(m, Waiting(c, l, InnerClear))
    case InnerClear => m.(k := Unlock(k, l), pc := Waiting(c, l, InnerRestore))
    case InnerRestore => Set(m, m.saved[0], m.saved[1..], Waiting(c, l, WaitBlock))
    case WaitBlock => m.(k := BlockSelf(k, InWait(c, l)), pc := Asleep(BackInYield(InAcquire(l, LockTest))))
  }

  function ExecSignal(m: Micro, c: nat, l: nat, g: SignalAt): Micro {
    var k := m.k;
    var q := Queue(k, CondQueue(c));
    match g
    case SignalCheck => m.(pc := if !Holds(k, l, k.current) || q == [] then User else InSignal(c, l, SignalOff))
    case SignalOff => Off(m, InSignal(c, l, SignalRemove))
    case SignalRemove => if q == [] then m.(pc := Restoring(User)) else m.(k := Pop(k, CondQueue(c)), pc := InSignal(c, l, SignalReady(q[0])))
    case SignalReady(t) => m.(k := Readied(k, t), pc := Restoring(User))
  }

  function ExecBroadcast(m: Micro, c: nat, l: nat, b: BroadcastAt): Micro {
    var k := m.k;
    var q := Queue(k, CondQueue(c));
    match b
    case BroadcastCheck => m.(pc := if Holds(k, l, k.current) then InBroadcast(c, l, BroadcastOff) else User)
    case BroadcastOff => Off(m, InBroadcast(c, l, BroadcastLoop))
    case BroadcastLoop => if q == [] then m.(pc := Restoring(User)) else m.(k := Pop(k, CondQueue(c)), pc := InBroadcast(c, l, BroadcastReady(q[0])))
    case BroadcastReady(t) => m.(k := Readied(k, t), pc := InBroadcast(c, l, BroadcastLoop))
  }

  function ExecFinish(m: Micro, f: FinishAt): Micro {
    match f
    case FinishOff => Off(m, InFinish(FinishMark))
    case FinishMark => m.(k := m.k.(toBeDestroyed := Some(m.k.current)), pc := InFinish(FinishBlock))
    case FinishBlock => m.(k := BlockSelf(m.k, Gone), pc := Asleep(Dead))
  }

  function ExecYield(m: Micro, why: Why, y: YieldAt, after: Pc): Micro
    requires m.k.current in m.k.threads
  {
    var k := m.k;
    match y
    case YieldOff => Off(m, InYield(why, YieldFind, after))
    case YieldFind =>
      var k1 := if why.ByLock? then SetAt(k, TestLock(why.lock)) else k;
      if k.ready == [] then m.(k := k1, pc := Restoring(after))
      else m.(k := k1.(ready := k.ready[1..]), pc := InYield(why, YieldReady(k.ready[0]), after))
    case YieldReady(next) => m.(k := Readied(k, k.current), pc := Switch(BackInYield(after), next))
  }

  /** The thread is switched out and next goes on where it was switched out before, or starts. */
  function Switched(m: Micro, back: Pc, next: Tid): Micro
    requires next in m.k.threads && (next == m.k.current || next in m.parked)
  {
    var parked := m.parked[m.k.current := Frame(m.saved, back)];
    var at := m.k.threads[next].at;
    Micro(m.k.(threads := m.k.threads[next := Thread(Running, Resumed(at))], current := next),
          m.level, parked[next].saved, parked[next].pc, parked)
  }

  predicate CanExec(m: Micro) {
    && m.k.current in m.k.threads
    && match m.pc
       case User => false
       case Ticking(_) => false
       case Dead => false
       case Restoring(_) => m.saved != []
       case Waiting(_, _, w) => w.InnerRestore? ==> m.saved != []
       case InP(s, p) => p.PTake? ==> Value(m.k, s) > 0
       case Switch(_, next) => next in m.k.threads && (next == m.k.current || next in m.parked)
       case Asleep(_) => m.k.ready != []
       case _ => true
  }

  function Executed(m: Micro): Micro
    requires CanExec(m)
  {
    match m.pc
    case InP(s, p) => ExecP(m, s, p)
    case InV(s, v, after) => ExecV(m, s, v, after)
    case InAcquire(l, a) => ExecAcquire(m, l, a)
    case InRelease(l, r) => ExecRelease(m, l, r)
    case Waiting(c, l, w) => ExecWait(m, c, l, w)
    case InSignal(c, l, g) => ExecSignal(m, c, l, g)
    case InBroadcast(c, l, b) => ExecBroadcast(m, c, l, b)
    case InFork(t, off) => if off then m.(k := Readied(m.k, t), pc := Restoring(User)) else Off(m, InFork(t, true))
    case InFinish(f) => ExecFinish(m, f)
    case InYield(why, y, after) => ExecYield(m, why, y, after)
    case Start => Set(m, C.IntOn, m.saved, User)
    case Restoring(after) => Set(m, m.saved[0], m.saved[1..], after)
    case LevelOn(after) => m.(level := C.IntOn, pc := after)          // ChangeLevel, which does not tick
    case Switch(back, next) => Switched(m, back, next)
    case Asleep(back) => m.(k := m.k.(ready := m.k.ready[1..]), pc := Switch(back, m.k.ready[0]))
    case BackInYield(after) => m.(k := Reap(m.k), pc := Restoring(after))
    case BackInP(s) => m.(k := Reap(m.k), pc := InP(s, PTest))
    case _ => m
  }

  /** The first action of each routine. */
  predicate Entry(k: State, pc: Pc) {
    match pc
    case InP(_, p) => p.PEnter?
    case InV(_, v, after) => v.VEnter? && after == User
    case InAcquire(_, a) => a.LockTest?
    case InRelease(_, r) => r.ReleaseCheck?
    case Waiting(_, _, w) => w.WaitCheck?
    case InSignal(_, _, g) => g.SignalCheck?
    case InBroadcast(_, _, b) => b.BroadcastCheck?
    case InFork(t, off) => !off && t in k.threads && k.threads[t].status.JustCreated?
    case InFinish(f) => f.FinishOff?
    case InYield(why, y, after) => why.ByCall? && y.YieldOff? && after == User
    case _ => false
  }

  predicate CanStep(m: Micro, step: MicroStep) {
    match step
    case Calls(pc) => m.pc == User && Entry(m.k, pc)
    case Creates(t) => m.pc == User && t !in m.k.born
    case Exec => CanExec(m)
    case Instruction => m.pc == User
    case Pass => m.pc.Ticking?
    case Slice => m.pc.Ticking?
    case Handler(_) => m.pc.Ticking? || (m.pc.Asleep? && m.k.ready == [])
  }

  function Next(m: Micro, step: MicroStep): Micro
    requires CanStep(m, step)
  {
    match step
    case Calls(pc) => m.(pc := pc)
    case Creates(t) => m.(k := m.k.(threads := m.k.threads[t := Thread(JustCreated, Fresh)], born := m.k.born + {t}),
                          parked := m.parked[t := Frame([], Start)])
    case Exec => Executed(m)
    case Instruction => m.(pc := Ticking(User))
    case Pass => m.(pc := m.pc.after)
    case Slice => m.(pc := InYield(BySlice, YieldOff, m.pc.after))
    case Handler(s) =>
      if m.pc.Asleep? then m.(pc := InV(s, VEnter, m.pc))
      else m.(level := C.IntOff, pc := InV(s, VEnter, LevelOn(m.pc)))
  }

  // ---------------------------------------------------------------- the state of Kernel that a micro-state stands for

  function AbsWait(k: State, c: nat, l: nat, w: WaitAt): State {
    if w.InnerCheck? || w.InnerOff? || w.InnerClear? then BlockSelf(Unlock(k, l), InWait(c, l))
    else if w.InnerRestore? || w.WaitBlock? then BlockSelf(k, InWait(c, l))
    else k
  }

  function AbsV(k: State, s: nat, v: VAt): State {
    match v
    case VReady(t) => AddOne(Readied(k, t), s)
    case VCount => AddOne(k, s)
    case _ => k
  }

  function AbsBroadcast(k: State, c: nat, b: BroadcastAt): State {
    match b
    case BroadcastLoop => WakeAll(k, CondQueue(c))
    case BroadcastReady(t) => WakeAll(Readied(k, t), CondQueue(c))
    case _ => k
  }

  /** The actions begun with interrupts off are taken as done. */
  function Abs(m: Micro): State {
    match m.pc
    case InV(s, v, _) => AbsV(m.k, s, v)
    case InP(s, p) => if p.PBlock? then BlockSelf(m.k, RetestSem(s)) else m.k
    case Waiting(c, l, w) => AbsWait(m.k, c, l, w)
    case InSignal(_, _, g) => if g.SignalReady? then Readied(m.k, g.t) else m.k
    case InBroadcast(c, _, b) => AbsBroadcast(m.k, c, b)
    case InFinish(f) => if f.FinishBlock? then BlockSelf(m.k, Gone) else m.k
    case InYield(_, y, _) => if y.YieldReady? then Dispatched(Readied(m.k, m.k.current), y.next) else m.k
    case Switch(_, next) => Dispatched(m.k, next)
    case BackInYield(_) => Reap(m.k)
    case BackInP(_) => Reap(m.k)
    case _ => m.k
  }

  // ---------------------------------------------------------------- the invariant

  /** Where time can advance in the running thread. */
  predicate TickOk(after: Pc, th: Thread) {
    (after == User && th == Thread(Running, Free)) || (after.InAcquire? && after.a.LockTest? && th == Thread(Running, TestLock(after.l)))
  }

  /** What a thread that is not running has kept, by where it is. */
  predicate ParkedOk(f: Frame, at: Resume) {
    match at
    case Fresh => f == Frame([], Start)
    case Free => f == Frame([C.IntOn], BackInYield(User))
    case TestLock(l) => f == Frame([C.IntOn], BackInYield(InAcquire(l, LockTest)))
    case SetLock(_) => false
    case RetestSem(s) => f == Frame([C.IntOn], BackInP(s))
    case InWait(_, l) => f == Frame([C.IntOn], BackInYield(InAcquire(l, LockTest)))
    case Gone => true
  }

  predicate SleepOk(back: Pc, saved: seq<Level>, th: Thread) {
    !th.status.Running? && ParkedOk(Frame(saved, back), th.at)
  }

  /** The level and the saved levels under which a routine was called that goes on at after. */
  predicate CallerOk(after: Pc, level: Level, saved: seq<Level>, th: Thread) {
    match after
    case LevelOn(tick) => level.IntOff? && saved == [] && tick.Ticking? && TickOk(tick.after, th)
    case Asleep(back) => level.IntOff? && SleepOk(back, saved, th)
    case _ => level.IntOn? && saved == [] && TickOk(after, th)
  }

  /** Called with interrupts on, and after its call of SetLevel(IntOff). */
  predicate At(m: Micro, off: bool, th: Thread, at: Resume) {
    th == Thread(Running, at) && if off then m.level.IntOff? && m.saved == [C.IntOn] else m.level.IntOn? && m.saved == []
  }

  predicate Saved(m: Micro, after: Pc, th: Thread) {
    m.level.IntOff? && m.saved != [] && CallerOk(after, m.saved[0], m.saved[1..], th)
  }

  predicate Sleeping(k: State, t: Tid) {
    t in k.threads && k.threads[t].status.Blocked?
  }

  predicate POk(m: Micro, th: Thread, s: nat, p: PAt) {
    match p
    case PEnter => At(m, false, th, Free)
    case PTest => At(m, true, th, Free) || At(m, true, th, RetestSem(s))
    case PTake => (At(m, true, th, Free) || At(m, true, th, RetestSem(s))) && Value(m.k, s) > 0
    case PQueue => (At(m, true, th, Free) || At(m, true, th, RetestSem(s))) && Value(m.k, s) == 0
    case PBlock => m.level.IntOff? && m.saved == [C.IntOn]
  }

  predicate VOk(m: Micro, th: Thread, v: VAt, after: Pc) {
    match v
    case VEnter => CallerOk(after, m.level, m.saved, th)
    case VReady(t) => Saved(m, after, th) && Sleeping(m.k, t)
    case _ => Saved(m, after, th)
  }

  predicate AcquireOk(m: Micro, th: Thread, l: nat, a: LockAt) {
    match a
    case LockTest => At(m, false, th, Free) || At(m, false, th, TestLock(l))
    case LockOff => At(m, false, th, SetLock(l))
    case LockSet => At(m, true, th, SetLock(l))
  }

  predicate ReleaseOk(m: Micro, th: Thread, l: nat, r: ReleaseAt) {
    At(m, r.ReleaseClear?, th, Free) && (!r.ReleaseCheck? ==> Holds(m.k, l, m.k.current))
  }

  predicate WaitOk(m: Micro, th: Thread, l: nat, w: WaitAt) {
    match w
    case WaitCheck => At(m, false, th, Free)
    case WaitOff => At(m, false, th, Free) && Holds(m.k, l, m.k.current)
    case WaitQueue => At(m, true, th, Free) && Holds(m.k, l, m.k.current)
    case InnerCheck => At(m, true, th, Free) && Holds(m.k, l, m.k.current)
    case InnerOff => At(m, true, th, Free)
    case InnerClear => m.level.IntOff? && m.saved == [C.IntOff, C.IntOn]
    case InnerRestore => m.level.IntOff? && m.saved == [C.IntOff, C.IntOn]
    case WaitBlock => m.level.IntOff? && m.saved == [C.IntOn]
  }

  predicate SignalOk(m: Micro, th: Thread, c: nat, l: nat, g: SignalAt) {
    match g
    case SignalCheck => At(m, false, th, Free)
    case SignalOff => At(m, false, th, Free) && Holds(m.k, l, m.k.current)
    case SignalRemove => At(m, true, th, Free) && Holds(m.k, l, m.k.current)
    case SignalReady(t) => At(m, true, th, Free) && Sleeping(m.k, t)
  }

  predicate BroadcastOk(m: Micro, th: Thread, l: nat, b: BroadcastAt) {
    match b
    case BroadcastCheck => At(m, false, th, Free)
    case BroadcastOff => At(m, false, th, Free) && Holds(m.k, l, m.k.current)
    case BroadcastLoop => At(m, true, th, Free) && Inv(m.k)
    case BroadcastReady(t) => At(m, true, th, Free) && Sleeping(m.k, t) && Inv(Readied(m.k, t))
  }

  predicate YieldWhy(k: State, why: Why, after: Pc, th: Thread) {
    if why.ByLock? then
      && after == InAcquire(why.lock, LockTest) && (th == Thread(Running, Free) || th == Thread(Running, TestLock(why.lock)))
      && why.lock in k.owner && k.owner[why.lock] != k.current
    else TickOk(after, th)
  }

  predicate Runnable(k: State, t: Tid) {
    t in k.threads && !k.threads[t].at.Gone?
  }

  predicate YieldOk(m: Micro, th: Thread, why: Why, y: YieldAt, after: Pc) {
    match y
    case YieldOff => m.level.IntOn? && m.saved == [] && YieldWhy(m.k, why, after, th)
    case YieldFind => m.level.IntOff? && m.saved == [C.IntOn] && YieldWhy(m.k, why, after, th)
    case YieldReady(next) => m.level.IntOff? && m.saved == [C.IntOn] && TickOk(after, th) && Runnable(m.k, next)
  }

  predicate PcOk(m: Micro)
    requires m.k.current in m.k.threads
  {
    var th := m.k.threads[m.k.current];
    match m.pc
    case User => At(m, false, th, Free)
    case Start => m.level.IntOff? && m.saved == [] && th == Thread(Running, Free)
    case Restoring(after) => Saved(m, after, th)
    case LevelOn(after) => CallerOk(m.pc, m.level, m.saved, th)
    case Ticking(after) => m.level.IntOn? && m.saved == [] && TickOk(after, th)
    case InP(s, p) => POk(m, th, s, p)
    case InV(_, v, after) => VOk(m, th, v, after)
    case InAcquire(l, a) => AcquireOk(m, th, l, a)
    case InRelease(l, r) => ReleaseOk(m, th, l, r)
    case Waiting(c, l, w) => WaitOk(m, th, l, w)
    case InSignal(c, l, g) => SignalOk(m, th, c, l, g)
    case InBroadcast(c, l, b) => BroadcastOk(m, th, l, b)
    case InFork(t, off) => At(m, off, th, Free) && t in m.k.threads && m.k.threads[t].status.JustCreated?
    case InFinish(f) => if f.FinishBlock? then m.level.IntOff? else At(m, f.FinishMark?, th, Free)
    case InYield(why, y, after) => YieldOk(m, th, why, y, after)
    case Switch(back, next) => m.level.IntOff? && SleepOk(back, m.saved, th) && Runnable(m.k, next)
    case Asleep(back) => m.level.IntOff? && SleepOk(back, m.saved, th)
    case BackInYield(after) => m.level.IntOff? && m.saved == [C.IntOn] && TickOk(after, th)
    case BackInP(s) => m.level.IntOff? && m.saved == [C.IntOn] && th == Thread(Running, RetestSem(s))
    case Dead => false
  }

  predicate FrameOk(m: Micro, t: Tid) {
    t in m.k.threads && (m.k.threads[t].at.Gone? || (t in m.parked && ParkedOk(m.parked[t], m.k.threads[t].at)))
  }

  predicate Parked(m: Micro) {
    forall t {:trigger FrameOk(m, t)} :: t in m.k.threads && t != m.k.current ==> FrameOk(m, t)
  }

  /** The invariant of the micro-steps. */
  predicate MInv(m: Micro) {
    m.k.current in m.k.threads && PcOk(m) && Parked(m) && Inv(Abs(m))
  }
}
