/**
 Demand paging (vm/vmManager.cc): main memory as a write-back cache of the swap file.  A page is
 named by its process and its virtual page number; the replacement queue runs from the page loaded
 last to the one loaded first.
 */
module Paging {
  import opened Options
  import opened BitMaps
  import Translation

  const NumPhysPages: nat := Translation.NumPhysPages
  const SwapSize: nat := 512

  /** The contents of one page. */
  type Data = d: seq<Translation.Byte> | |d| == Translation.PageSize witness Filled(0)

  function Filled(b: Translation.Byte): seq<Translation.Byte> {
    seq(Translation.PageSize, _ => b)
  }

  datatype Page = Page(pid: int, vpn: int)

  /** The part of a TranslationEntry that paging uses. */
  datatype Entry = Entry(frame: nat, valid: bool, dirty: bool)

  datatype State = State(frames: seq<Data>, used: set<nat>, swap: map<Page, Data>, entries: map<Page, Entry>, queue: seq<Page>)

  predicate Resident(s: State, p: Page) {
    p in s.entries && s.entries[p].valid
  }

  /** The contents of a page: its frame if it is in memory, else its slot in the swap file. */
  function Logical(s: State, p: Page): Option<Data> {
    if Resident(s, p) then
      if s.entries[p].frame < |s.frames| then Some(s.frames[s.entries[p].frame]) else None
    else if p in s.swap then Some(s.swap[p]) else None
  }

  // ---------------------------------------------------------------- the invariant

  /** A page has a slot, and a page in memory has a frame and is queued. */
  ghost predicate PlaceOk(s: State, p: Page) {
    && p in s.entries && p in s.swap
    && (s.entries[p].valid ==> s.entries[p].frame in s.used && s.entries[p].frame < |s.frames| && p in s.queue)
  }

  /** A page that is in memory and clean equals its slot. */
  ghost predicate CleanOk(s: State, p: Page) {
    Resident(s, p) && !s.entries[p].dirty ==> s.entries[p].frame < |s.frames| && p in s.swap && s.frames[s.entries[p].frame] == s.swap[p]
  }

  ghost predicate PageOk(s: State, p: Page) {
    PlaceOk(s, p) && CleanOk(s, p)
  }

  ghost predicate Apart(s: State, p: Page, q: Page) {
    p in s.entries && q in s.entries && s.entries[p].frame != s.entries[q].frame
  }

  ghost predicate Holds(s: State, p: Page, f: nat) {
    Resident(s, p) && s.entries[p].frame == f
  }

  /** The pages of the queue, none of them twice. */
  ghost predicate Queued(s: State, queue: seq<Page>) {
    queue == [] || (Resident(s, queue[0]) && queue[0] !in queue[1..] && Queued(s, queue[1..]))
  }

  /** No two pages share a frame, and the queue holds exactly the pages in memory. */
  ghost predicate Shape(s: State) {
    && |s.frames| == NumPhysPages && Within(s.used, NumPhysPages) && s.entries.Keys == s.swap.Keys
    && (forall p {:trigger PlaceOk(s, p)} :: p in s.entries ==> PlaceOk(s, p))
    && (forall p, q {:trigger Apart(s, p, q)} :: Resident(s, p) && Resident(s, q) && p != q ==> Apart(s, p, q))
    && (forall f <- s.used :: exists p :: Holds(s, p, f))
    && Queued(s, s.queue)
  }

  /** And every page in memory that is clean equals its slot. */
  ghost predicate Inv(s: State) {
    Shape(s) && forall p {:trigger CleanOk(s, p)} :: p in s.entries ==> CleanOk(s, p)
  }

  // ---------------------------------------------------------------- a page fault

  /** The page goes into the clear frame f. */
  function Load(s: State, p: Page, f: nat): State
    requires p in s.swap && f < |s.frames|
  {
    State(s.frames[f := s.swap[p]], s.used + {f}, s.swap, s.entries[p := Entry(f, true, false)], [p] + s.queue)
  }

  /** The page at the end of the queue is given up; if it is dirty, it is written back under the
      process that faulted.  None is the failed assertion of writePage. */
  function Evict(s: State, pid: int): Option<State>
    requires s.queue != [] && s.queue[|s.queue| - 1] in s.entries && s.entries[s.queue[|s.queue| - 1]].frame < |s.frames|
  {
    var victim := s.queue[|s.queue| - 1];
    var e := s.entries[victim];
    var s' := s.(entries := s.entries[victim := e.(valid := false)], queue := s.queue[..|s.queue| - 1], used := s.used - {e.frame});
    if !e.dirty then Some(s')
    else if Page(pid, victim.vpn) in s.swap then Some(s'.(swap := s.swap[Page(pid, victim.vpn) := s.frames[e.frame]]))
    else None
  }

  lemma FullMeansQueue(s: State)
    requires Shape(s) && LeastClear(s.used, NumPhysPages) == NumPhysPages
    ensures s.queue != []
  {
    assert 0 in s.used;
    var p :| Holds(s, p, 0);
    assert PlaceOk(s, p);
  }

  lemma {:induction false} QueuedIsResident(s: State, queue: seq<Page>, p: Page)
    requires Queued(s, queue) && p in queue
    ensures Resident(s, p)
  {
    if p != queue[0] { QueuedIsResident(s, queue[1..], p); }
  }

  lemma VictimIsThere(s: State)
    requires Shape(s) && s.queue != []
    ensures var v := s.queue[|s.queue| - 1]; Resident(s, v) && PlaceOk(s, v)
  {
    QueuedIsResident(s, s.queue, s.queue[|s.queue| - 1]);
    assert PlaceOk(s, s.queue[|s.queue| - 1]);
  }

  /** Swap for a page that is not in memory. */
  ghost function Swapped(s: State, p: Page): Option<State>
    requires Shape(s) && p in s.swap
  {
    var f := LeastClear(s.used, NumPhysPages);
    if f < NumPhysPages then Some(Load(s, p, f))
    else
      FullMeansQueue(s);
      VictimIsThere(s);
      var victim := s.queue[|s.queue| - 1];
      match Evict(s, p.pid)
      case None => None
      case Some(s') => Some(Load(s', p, s.entries[victim].frame))
  }

  lemma SwappedCases(s: State, p: Page)
    requires Shape(s) && p in s.swap
    ensures var f := LeastClear(s.used, NumPhysPages);
            if f < NumPhysPages then Swapped(s, p) == Some(Load(s, p, f))
            else
              && s.queue != []
              && var v := s.queue[|s.queue| - 1];
                 && v in s.entries && s.entries[v].frame < |s.frames| && s.entries[v].frame in s.used
                 && Swapped(s, p).Some? == Evict(s, p.pid).Some?
                 && (Swapped(s, p).Some? ==> Swapped(s, p) == Some(Load(Evict(s, p.pid).value, p, s.entries[v].frame)))
  {
    if LeastClear(s.used, NumPhysPages) == NumPhysPages {
      FullMeansQueue(s);
      VictimIsThere(s);
    }
  }

  // ---------------------------------------------------------------- what a fault keeps

  /** Another set of entries under which the queue is as good. */
  lemma {:induction false} QueuedSame(s: State, s': State, queue: seq<Page>)
    requires Queued(s, queue) && forall p <- queue :: Resident(s', p)
    ensures Queued(s', queue)
  {
    if queue == [] {
    } else {
      QueuedSame(s, s', queue[1..]);
    }
  }

  lemma LoadShape(s: State, p: Page, f: nat)
    requires Shape(s) && p in s.swap && !Resident(s, p) && f < NumPhysPages && f !in s.used
    ensures Shape(Load(s, p, f))
  {
    var s' := Load(s, p, f);
    forall q | q in s'.entries ensures PlaceOk(s', q) { assert PlaceOk(s, q); }
    forall q, r | Resident(s', q) && Resident(s', r) && q != r ensures Apart(s', q, r) {
      assert PlaceOk(s, q) && PlaceOk(s, r);
      assert q != p && r != p ==> Apart(s, q, r);
    }
    forall g <- s'.used ensures exists q :: Holds(s', q, g) {
      if g == f {
        assert Holds(s', p, f);
      } else {
        var q :| Holds(s, q, g);
        assert Holds(s', q, g);
      }
    }
    forall q <- s.queue ensures q != p && Resident(s', q) { QueuedIsResident(s, s.queue, q); }
    QueuedSame(s, s', s.queue);
    assert s'.queue[1..] == s.queue;
  }

  lemma LoadKeeps(s: State, p: Page, f: nat)
    requires Inv(s) && p in s.swap && !Resident(s, p) && f < NumPhysPages && f !in s.used
    ensures Inv(Load(s, p, f)) && forall q :: Logical(Load(s, p, f), q) == Logical(s, q)
  {
    var s' := Load(s, p, f);
    LoadShape(s, p, f);
    forall q | q in s'.entries ensures CleanOk(s', q) { assert PageOk(s, q); }
    forall q ensures Logical(s', q) == Logical(s, q) {
      if q in s.entries { assert PageOk(s, q); }
    }
  }

  lemma {:induction false} ButLast(s: State, queue: seq<Page>)
    requires Queued(s, queue) && queue != []
    ensures var n := |queue| - 1; queue[n] !in queue[..n] && Queued(s, queue[..n])
  {
    var n := |queue| - 1;
    if n == 0 {
    } else {
      ButLast(s, queue[1..]);
      assert queue[1..][..n - 1] == queue[..n][1..];
      assert queue[..n] == [queue[0]] + queue[..n][1..];
    }
  }

  /** The victim is clean or belongs to the process that faulted. */
  predicate OwnVictim(s: State, pid: int) {
    s.queue != [] ==> var v := s.queue[|s.queue| - 1]; v.pid == pid || (v in s.entries && !s.entries[v].dirty)
  }

  /** s' is s without v, the last of the queue, in memory. */
  ghost predicate Dropped(s: State, s': State, v: Page) {
    && s.queue != [] && s.queue[|s.queue| - 1] == v && Resident(s, v) && PlaceOk(s, v)
    && s'.frames == s.frames && s'.used == s.used - {s.entries[v].frame} && s'.queue == s.queue[..|s.queue| - 1]
    && s'.entries == s.entries[v := s.entries[v].(valid := false)]
    && s'.swap.Keys == s.swap.Keys
  }

  lemma EvictDrops(s: State, pid: int)
    requires Shape(s) && s.queue != []
    ensures var v := s.queue[|s.queue| - 1];
            Resident(s, v) && PlaceOk(s, v) && (Evict(s, pid).Some? ==> Dropped(s, Evict(s, pid).value, v))
  {
    VictimIsThere(s);
  }

  lemma DroppedPage(s: State, s': State, v: Page, q: Page)
    requires Shape(s) && Dropped(s, s', v) && q in s'.entries
    ensures PlaceOk(s', q)
  {
    assert PlaceOk(s, q);
    if Resident(s', q) {
      assert Apart(s, q, v);
      assert s.queue == s'.queue + [v];
    }
  }

  lemma DroppedQueue(s: State, s': State, v: Page)
    requires Shape(s) && Dropped(s, s', v)
    ensures Queued(s', s'.queue)
  {
    ButLast(s, s.queue);
    forall q <- s'.queue ensures Resident(s', q) { QueuedIsResident(s, s'.queue, q); }
    QueuedSame(s, s', s'.queue);
  }

  lemma DropShape(s: State, s': State, v: Page)
    requires Shape(s) && Dropped(s, s', v)
    ensures Shape(s')
  {
    forall q | q in s'.entries ensures PlaceOk(s', q) { DroppedPage(s, s', v, q); }
    forall q, r | Resident(s', q) && Resident(s', r) && q != r ensures Apart(s', q, r) { assert Apart(s, q, r); }
    forall g <- s'.used ensures exists q :: Holds(s', q, g) {
      var q :| Holds(s, q, g);
      assert Holds(s', q, g);
    }
    DroppedQueue(s, s', v);
  }

  /** A victim that is clean or the faulting process's own has its contents in its slot. */
  lemma EvictWritesBack(s: State, pid: int)
    requires Inv(s) && s.queue != [] && OwnVictim(s, pid)
    ensures var v := s.queue[|s.queue| - 1];
            && Resident(s, v) && PageOk(s, v) && Evict(s, pid).Some?
            && Evict(s, pid).value.swap == s.swap[v := s.frames[s.entries[v].frame]]
  {
    VictimIsThere(s);
    var v := s.queue[|s.queue| - 1];
    assert CleanOk(s, v);
    assert v == Page(v.pid, v.vpn);
    if !s.entries[v].dirty { assert s.swap == s.swap[v := s.frames[s.entries[v].frame]]; }
  }

  lemma DropKeeps(s: State, s': State, v: Page)
    requires Inv(s) && Dropped(s, s', v) && s'.swap == s.swap[v := s.frames[s.entries[v].frame]]
    ensures Inv(s') && forall q :: Logical(s', q) == Logical(s, q)
  {
    DropShape(s, s', v);
    forall q | q in s'.entries ensures CleanOk(s', q) { assert PageOk(s, q); }
  }

  /** A page fault, safe or not, leaves every page in memory in a frame of its own, and queued. */
  lemma SwapShape(s: State, p: Page)
    requires Shape(s) && p in s.swap && !Resident(s, p) && Swapped(s, p).Some?
    ensures var s' := Swapped(s, p).value; Shape(s') && Resident(s', p) && PlaceOk(s', p) && s'.swap.Keys == s.swap.Keys
  {
    var f := LeastClear(s.used, NumPhysPages);
    if f < NumPhysPages {
      LoadShape(s, p, f);
    } else {
      FullMeansQueue(s);
      EvictDrops(s, p.pid);
      var v := s.queue[|s.queue| - 1];
      DropShape(s, Evict(s, p.pid).value, v);
      LoadShape(Evict(s, p.pid).value, p, s.entries[v].frame);
    }
    assert PlaceOk(Swapped(s, p).value, p);
  }

  /** A page fault brings the page in, changes the contents of no page, and keeps the invariant. */
  lemma SwapKeeps(s: State, p: Page)
    requires Inv(s) && p in s.swap && !Resident(s, p)
    requires LeastClear(s.used, NumPhysPages) == NumPhysPages ==> OwnVictim(s, p.pid)
    ensures Swapped(s, p).Some?
    ensures var s' := Swapped(s, p).value;
            && Inv(s') && Resident(s', p) && !s'.entries[p].dirty
            && forall q :: Logical(s', q) == Logical(s, q)
  {
    var f := LeastClear(s.used, NumPhysPages);
    if f < NumPhysPages {
      LoadKeeps(s, p, f);
    } else {
      FullMeansQueue(s);
      EvictDrops(s, p.pid);
      EvictWritesBack(s, p.pid);
      DropKeeps(s, Evict(s, p.pid).value, s.queue[|s.queue| - 1]);
      LoadKeeps(Evict(s, p.pid).value, p, s.entries[s.queue[|s.queue| - 1]].frame);
    }
  }

  // ---------------------------------------------------------------- a victim of another process

  /** The fault has to evict, and the victim is a dirty page of another process. */
  ghost predicate WrongOwner(s: State, p: Page) {
    LeastClear(s.used, NumPhysPages) == NumPhysPages && !OwnVictim(s, p.pid)
  }

  /** The victim, and the faulting process's page of the same number, under which a dirty victim is written back. */
  ghost predicate Clash(s: State, p: Page, v: Page, w: Page) {
    s.queue != [] && v == s.queue[|s.queue| - 1] && w == Page(p.pid, v.vpn)
  }

  /** What the victim held. */
  function Held(s: State, v: Page): Data
    requires v in s.entries && s.entries[v].frame < |s.frames|
  {
    s.frames[s.entries[v].frame]
  }

  lemma WrongOwnerFault(s: State, p: Page, v: Page, w: Page)
    requires Shape(s) && p in s.swap && !Resident(s, p) && WrongOwner(s, p) && Clash(s, p, v, w)
    ensures Resident(s, v) && PlaceOk(s, v) && s.entries[v].dirty && v != w && v != p
    ensures Swapped(s, p).Some? <==> w in s.swap
    ensures Swapped(s, p).Some? ==>
              var s', f := Swapped(s, p).value, s.entries[v].frame;
              && s'.swap == s.swap[w := Held(s, v)] && s'.frames == s.frames[f := s'.swap[p]]
              && s'.entries == s.entries[v := s.entries[v].(valid := false)][p := Entry(f, true, false)]
  {
    VictimIsThere(s);
  }

  /** The assertion of writePage fails exactly for a dirty victim of another process whose number the
      faulting process has no page of. */
  lemma FaultFailsExactly(s: State, p: Page)
    requires Shape(s) && p in s.swap && !Resident(s, p)
    ensures Swapped(s, p).None? <==>
              WrongOwner(s, p) && s.queue != [] && Page(p.pid, s.queue[|s.queue| - 1].vpn) !in s.swap
  {
    if LeastClear(s.used, NumPhysPages) == NumPhysPages {
      FullMeansQueue(s);
      VictimIsThere(s);
      var v := s.queue[|s.queue| - 1];
      if OwnVictim(s, p.pid) { assert v == Page(v.pid, v.vpn); } else { WrongOwnerFault(s, p, v, Page(p.pid, v.vpn)); }
    }
  }

  /** Everything that such a fault does to contents: the victim falls back to what its slot held, the slot of
      the faulting process's page of the same number gets what the victim held, and that page has it at
      once if it is not in memory; no other page changes. */
  lemma WrongOwnerContents(s: State, p: Page, v: Page, w: Page, q: Page)
    requires Inv(s) && p in s.swap && !Resident(s, p) && WrongOwner(s, p) && Clash(s, p, v, w) && Swapped(s, p).Some?
    ensures v in s.entries && v in s.swap && s.entries[v].frame < |s.frames|
    ensures var s' := Swapped(s, p).value;
            && w in s'.swap && s'.swap[w] == Held(s, v)
            && Logical(s', q) == if q == v then Some(s.swap[v])
                                 else if q == w && !Resident(s, w) then Some(Held(s, v))
                                 else Logical(s, q)
  {
    WrongOwnerFault(s, p, v, w);
    if q in s.entries && q != v {
      assert PlaceOk(s, q);
      if Resident(s, q) { assert Apart(s, q, v); }
    }
  }

  /** What an unwanted write back does not spoil: victim and slot held the same, and the other page is in
      memory or held it too. */
  ghost predicate Harmless(s: State, p: Page) {
    && s.queue != []
    && var v := s.queue[|s.queue| - 1];
       var w := Page(p.pid, v.vpn);
       && v in s.entries && v in s.swap && s.entries[v].frame < |s.frames| && w in s.swap
       && Held(s, v) == s.swap[v] && (Resident(s, w) || Held(s, v) == s.swap[w])
  }

  /** A fault keeps the contents of every page exactly when it evicts no dirty page of another process or the
      write back happens to change nothing. */
  lemma ContentsKeptExactly(s: State, p: Page)
    requires Inv(s) && p in s.swap && !Resident(s, p)
    ensures Swapped(s, p).Some? && (forall q :: Logical(Swapped(s, p).value, q) == Logical(s, q)) <==>
              !WrongOwner(s, p) || Harmless(s, p)
  {
    if !WrongOwner(s, p) {
      SwapKeeps(s, p);
    } else {
      FullMeansQueue(s);
      var v := s.queue[|s.queue| - 1];
      var w := Page(p.pid, v.vpn);
      WrongOwnerFault(s, p, v, w);
      if w in s.swap { WrongOwnerSpoils(s, p, v, w); }
    }
  }

  lemma WrongOwnerSpoils(s: State, p: Page, v: Page, w: Page)
    requires Inv(s) && p in s.swap && !Resident(s, p) && WrongOwner(s, p) && Clash(s, p, v, w) && Swapped(s, p).Some?
    ensures (forall q :: Logical(Swapped(s, p).value, q) == Logical(s, q)) <==> Harmless(s, p)
  {
    WrongOwnerFault(s, p, v, w);
    forall q ensures var s' := Swapped(s, p).value;
                     Logical(s', q) == if q == v then Some(s.swap[v])
                                       else if q == w && !Resident(s, w) then Some(Held(s, v)) else Logical(s, q)
    {
      WrongOwnerContents(s, p, v, w, q);
    }
    assert Logical(s, v) == Some(Held(s, v));
    assert !Resident(s, w) ==> Logical(s, w) == Some(s.swap[w]);
    assert Logical(Swapped(s, p).value, v) == Some(s.swap[v]);
    assert !Resident(s, w) ==> Logical(Swapped(s, p).value, w) == Some(Held(s, v));
  }

  /** The slot that is overwritten still suits its page: the page is not in memory, or will be written back,
      or held the same. */
  ghost predicate SlotSuits(s: State, p: Page) {
    && s.queue != []
    && var v := s.queue[|s.queue| - 1];
       var w := Page(p.pid, v.vpn);
       && v in s.entries && s.entries[v].frame < |s.frames| && w in s.swap && w in s.entries
       && (!Resident(s, w) || s.entries[w].dirty || Logical(s, w) == Some(Held(s, v)))
  }

  /** And a fault leaves every clean page in memory equal to its slot exactly when it evicts no dirty page of
      another process or the overwritten slot still suits its page. */
  lemma InvKeptExactly(s: State, p: Page)
    requires Inv(s) && p in s.swap && !Resident(s, p)
    ensures Swapped(s, p).Some? && Inv(Swapped(s, p).value) <==> !WrongOwner(s, p) || SlotSuits(s, p)
  {
    if !WrongOwner(s, p) {
      SwapKeeps(s, p);
    } else {
      FullMeansQueue(s);
      var v := s.queue[|s.queue| - 1];
      var w := Page(p.pid, v.vpn);
      WrongOwnerFault(s, p, v, w);
      if w in s.swap { WrongOwnerClean(s, p, v, w); }
    }
  }

  lemma WrongOwnerClean(s: State, p: Page, v: Page, w: Page)
    requires Inv(s) && p in s.swap && !Resident(s, p) && WrongOwner(s, p) && Clash(s, p, v, w) && Swapped(s, p).Some?
    ensures Inv(Swapped(s, p).value) <==> SlotSuits(s, p)
  {
    WrongOwnerFault(s, p, v, w);
    SwapShape(s, p);
    var s' := Swapped(s, p).value;
    forall q | q in s'.entries && q != w ensures CleanOk(s', q) {
      assert PlaceOk(s, q) && CleanOk(s, q);
      if Resident(s, q) && q != v { assert Apart(s, q, v); }
    }
    assert PlaceOk(s, w) && CleanOk(s, w);
    if Resident(s, w) { assert Apart(s, w, v); }
    assert CleanOk(s', w) <==> SlotSuits(s, p);
  }

  // ---------------------------------------------------------------- every run

  /** AddPage, and a user access to a page, which faults first if the page is not in memory. */
  datatype Op = Add(p: Page, data: Data) | Access(p: Page, write: Option<Data>)

  predicate Enabled(s: State, op: Op) {
    match op
    case Add(p, _) => !Resident(s, p) && (p in s.swap || |s.swap| < SwapSize)
    case Access(p, _) => p in s.swap
  }

  /** No fault evicts a dirty page of another process. */
  ghost predicate Safe(s: State, op: Op) {
    op.Access? && !Resident(s, op.p) && LeastClear(s.used, NumPhysPages) == NumPhysPages ==> OwnVictim(s, op.p.pid)
  }

  function Added(s: State, p: Page, data: Data): State {
    s.(swap := s.swap[p := data], entries := if p in s.entries then s.entries else s.entries[p := Entry(0, false, false)])
  }

  function Stored(s: State, p: Page, data: Data): State
    requires Resident(s, p) && s.entries[p].frame < |s.frames|
  {
    s.(frames := s.frames[s.entries[p].frame := data], entries := s.entries[p := s.entries[p].(dirty := true)])
  }

  /** One operation, safe or not; None is the failed assertion of writePage. */
  ghost function TryStep(s: State, op: Op): (r: Option<State>)
    requires Shape(s) && Enabled(s, op)
    ensures r.Some? ==> Shape(r.value)
  {
    match op
    case Add(p, data) => AddShape(s, p, data); Some(Added(s, p, data))
    case Access(p, write) =>
      var s1 := if Resident(s, p) then Some(s) else Swapped(s, p);
      if s1.None? then None
      else
        assert Shape(s1.value) && PlaceOk(s1.value, p) by { if !Resident(s, p) { SwapShape(s, p); } else { assert PlaceOk(s, p); } }
        if write.None? then s1 else (StoreShape(s1.value, p, write.value); Some(Stored(s1.value, p, write.value)))
  }

  ghost function Step(s: State, op: Op): (s': State)
    requires Inv(s) && Enabled(s, op) && Safe(s, op)
    ensures Inv(s') && TryStep(s, op) == Some(s')
  {
    match op
    case Add(p, data) => AddKeeps(s, p, data); Added(s, p, data)
    case Access(p, write) =>
      var s1 := if Resident(s, p) then s else (SwapKeeps(s, p); Swapped(s, p).value);
      assert PageOk(s1, p);
      if write.None? then s1 else (StoreKeeps(s1, p, write.value); Stored(s1, p, write.value))
  }

  lemma AddKeeps(s: State, p: Page, data: Data)
    requires Inv(s) && !Resident(s, p)
    ensures Inv(Added(s, p, data))
    ensures forall q :: Logical(Added(s, p, data), q) == if q == p then Some(data) else Logical(s, q)
  {
    var s' := Added(s, p, data);
    AddShape(s, p, data);
    forall q | q in s'.entries ensures CleanOk(s', q) { if q in s.entries { assert PageOk(s, q); } }
  }

  lemma AddShape(s: State, p: Page, data: Data)
    requires Shape(s) && !Resident(s, p)
    ensures Shape(Added(s, p, data))
  {
    var s' := Added(s, p, data);
    forall q | q in s'.entries ensures PlaceOk(s', q) { if q in s.entries { assert PlaceOk(s, q); } }
    forall q, r | Resident(s', q) && Resident(s', r) && q != r ensures Apart(s', q, r) { assert Apart(s, q, r); }
    forall f <- s'.used ensures exists q :: Holds(s', q, f) {
      var q :| Holds(s, q, f);
      assert Holds(s', q, f);
    }
    forall q <- s.queue ensures Resident(s', q) { QueuedIsResident(s, s.queue, q); }
    QueuedSame(s, s', s.queue);
  }

  lemma StoreKeeps(s: State, p: Page, data: Data)
    requires Inv(s) && Resident(s, p) && PageOk(s, p)
    ensures Inv(Stored(s, p, data))
    ensures forall q :: Logical(Stored(s, p, data), q) == if q == p then Some(data) else Logical(s, q)
  {
    var s' := Stored(s, p, data);
    StoreShape(s, p, data);
    forall q | q in s'.entries ensures CleanOk(s', q) {
      assert PageOk(s, q);
      assert q != p && Resident(s, q) ==> Apart(s, p, q);
    }
    forall q ensures Logical(s', q) == if q == p then Some(data) else Logical(s, q) {
      if q in s.entries { assert PageOk(s, q); }
      assert q != p && Resident(s, q) ==> Apart(s, p, q);
    }
  }

  lemma StoreShape(s: State, p: Page, data: Data)
    requires Shape(s) && Resident(s, p) && PlaceOk(s, p)
    ensures Shape(Stored(s, p, data))
  {
    var s' := Stored(s, p, data);
    forall q | q in s'.entries ensures PlaceOk(s', q) { assert PlaceOk(s, q); }
    forall q, r | Resident(s', q) && Resident(s', r) && q != r ensures Apart(s', q, r) { assert Apart(s, q, r); }
    forall f <- s'.used ensures exists q :: Holds(s', q, f) {
      var q :| Holds(s, q, f);
      assert Holds(s', q, f);
    }
    forall q <- s.queue ensures Resident(s', q) { QueuedIsResident(s, s.queue, q); }
    QueuedSame(s, s', s.queue);
  }

  /** One operation against the flat store: only a write, or adding a page, changes contents. */
  lemma StepContents(s: State, op: Op, q: Page)
    requires Inv(s) && Enabled(s, op) && Safe(s, op)
    ensures Logical(Step(s, op), q) ==
            if op.Add? && q == op.p then Some(op.data)
            else if op.Access? && q == op.p && op.write.Some? then op.write
            else Logical(s, q)
  {
    match op
    case Add(p, data) => AddKeeps(s, p, data);
    case Access(p, write) =>
      var s1 := s;
      if !Resident(s, p) {
        SwapKeeps(s, p);
        s1 := Swapped(s, p).value;
      }
      assert PageOk(s1, p);
      if write.Some? { StoreKeeps(s1, p, write.value); }
  }

  /** The same operation on a store without paging. */
  function FlatStep(flat: map<Page, Data>, op: Op): map<Page, Data> {
    match op
    case Add(p, data) => flat[p := data]
    case Access(p, write) => if write.Some? then flat[p := write.value] else flat
  }

  function FlatAfter(flat: map<Page, Data>, ops: seq<Op>): map<Page, Data>
    decreases |ops|
  {
    if ops == [] then flat else FlatAfter(FlatStep(flat, ops[0]), ops[1..])
  }

  ghost predicate Legal(s: State, ops: seq<Op>)
    requires Inv(s)
    decreases |ops|
  {
    ops == [] || (Enabled(s, ops[0]) && (Safe(s, ops[0]) ==> Legal(Step(s, ops[0]), ops[1..])))
  }

  ghost predicate SafeRun(s: State, ops: seq<Op>)
    requires Inv(s)
    decreases |ops|
  {
    ops == [] || (Enabled(s, ops[0]) && Safe(s, ops[0]) && SafeRun(Step(s, ops[0]), ops[1..]))
  }

  ghost function After(s: State, ops: seq<Op>): (s': State)
    requires Inv(s) && SafeRun(s, ops)
    ensures Inv(s')
    decreases |ops|
  {
    if ops == [] then s else After(Step(s, ops[0]), ops[1..])
  }

  ghost predicate Refines(s: State, flat: map<Page, Data>) {
    forall q :: Logical(s, q) == if q in flat then Some(flat[q]) else None
  }

  /** Over any safe run paging is invisible: every page reads as in a flat store. */
  lemma {:induction false} RunRefines(s: State, flat: map<Page, Data>, ops: seq<Op>)
    requires Inv(s) && SafeRun(s, ops) && Refines(s, flat)
    ensures Refines(After(s, ops), FlatAfter(flat, ops))
    decreases |ops|
  {
    if ops == [] {
    } else {
      var s1, flat1 := Step(s, ops[0]), FlatStep(flat, ops[0]);
      forall q ensures Logical(s1, q) == if q in flat1 then Some(flat1[q]) else None {
        StepContents(s, ops[0], q);
      }
      if ops[0].Access? { PageIsInFlat(s, flat, ops[0].p); }
      RunRefines(s1, flat1, ops[1..]);
    }
  }

  lemma PageIsInFlat(s: State, flat: map<Page, Data>, p: Page)
    requires Inv(s) && Refines(s, flat) && p in s.swap
    ensures p in flat
  {
    assert PageOk(s, p);
  }

  // ---------------------------------------------------------------- one process

  ghost predicate AllOwned(s: State, pid: int) {
    forall q <- s.entries :: q.pid == pid
  }

  lemma OwnStep(s: State, op: Op, pid: int)
    requires Inv(s) && AllOwned(s, pid) && op.p.pid == pid && Enabled(s, op)
    ensures Safe(s, op) && AllOwned(Step(s, op), pid)
  {
    if s.queue != [] { VictimIsThere(s); }
    if op.Access? && !Resident(s, op.p) {
      SwapKeeps(s, op.p);
      FaultEntries(s, op.p);
    }
  }

  lemma FaultEntries(s: State, p: Page)
    requires Inv(s) && p in s.swap && Swapped(s, p).Some?
    ensures Swapped(s, p).value.entries.Keys == s.entries.Keys
  {
    if LeastClear(s.used, NumPhysPages) == NumPhysPages {
      FullMeansQueue(s);
      VictimIsThere(s);
    }
  }

  /** With one process every run is safe. */
  lemma {:induction false} OneProcessIsSafe(s: State, ops: seq<Op>, pid: int)
    requires Inv(s) && AllOwned(s, pid) && (forall op <- ops :: op.p.pid == pid) && Legal(s, ops)
    ensures SafeRun(s, ops)
    decreases |ops|
  {
    if ops == [] {
    } else {
      OwnStep(s, ops[0], pid);
      OneProcessIsSafe(Step(s, ops[0]), ops[1..], pid);
    }
  }

  // ---------------------------------------------------------------- the victim is the page loaded first

  /** When each page was last loaded: step number now, if the operation faults. */
  ghost function Loads(s: State, op: Op, loads: map<Page, nat>, now: nat): map<Page, nat> {
    if op.Access? && !Resident(s, op.p) then loads[op.p := now] else loads
  }

  ghost predicate Newer(p: Page, queue: seq<Page>, loads: map<Page, nat>) {
    p in loads && forall q <- queue :: q in loads && loads[q] < loads[p]
  }

  /** The queue is ordered by when its pages were loaded. */
  ghost predicate Aged(queue: seq<Page>, loads: map<Page, nat>) {
    queue == [] || (Newer(queue[0], queue[1..], loads) && Aged(queue[1..], loads))
  }

  lemma {:induction false} AgedTouch(queue: seq<Page>, loads: map<Page, nat>, p: Page, now: nat)
    requires Aged(queue, loads) && p !in queue
    ensures Aged(queue, loads[p := now])
  {
    if queue == [] {
    } else {
      AgedTouch(queue[1..], loads, p, now);
    }
  }

  lemma {:induction false} AgedPrefix(queue: seq<Page>, loads: map<Page, nat>, n: nat)
    requires Aged(queue, loads) && n <= |queue|
    ensures Aged(queue[..n], loads)
  {
    if n == 0 {
    } else {
      AgedPrefix(queue[1..], loads, n - 1);
      assert queue[..n][1..] == queue[1..][..n - 1];
      assert queue[..n][0] == queue[0];
      assert Newer(queue[0], queue[1..], loads);
    }
  }

  lemma {:induction false} LastIsOldest(queue: seq<Page>, loads: map<Page, nat>, q: Page)
    requires Aged(queue, loads) && q in queue
    ensures var v := queue[|queue| - 1]; v in loads && q in loads && loads[v] <= loads[q]
  {
    if |queue| > 1 {
      assert Newer(queue[0], queue[1..], loads);
      assert queue[1..][|queue| - 2] == queue[|queue| - 1];
      LastIsOldest(queue[1..], loads, if q == queue[0] then queue[|queue| - 1] else q);
    }
  }

  ghost predicate Before(loads: map<Page, nat>, now: nat) {
    forall q <- loads :: loads[q] < now
  }

  lemma QueueAfterFault(s: State, p: Page)
    requires Shape(s) && p in s.swap && !Resident(s, p) && Swapped(s, p).Some?
    ensures var q := Swapped(s, p).value.queue;
            q == [p] + s.queue || (s.queue != [] && q == [p] + s.queue[..|s.queue| - 1])
  {
    if LeastClear(s.used, NumPhysPages) == NumPhysPages {
      FullMeansQueue(s);
      VictimIsThere(s);
    }
  }

  lemma StepAged(s: State, op: Op, loads: map<Page, nat>, now: nat)
    requires Shape(s) && Enabled(s, op) && TryStep(s, op).Some? && Aged(s.queue, loads) && Before(loads, now)
    ensures Aged(TryStep(s, op).value.queue, Loads(s, op, loads, now)) && Before(Loads(s, op, loads, now), now + 1)
  {
    var n := StepQueue(s, op);
    if op.Access? && !Resident(s, op.p) { PushAged(s.queue, n, loads, op.p, now); }
  }

  lemma StepQueue(s: State, op: Op) returns (n: nat)
    requires Shape(s) && Enabled(s, op) && TryStep(s, op).Some?
    ensures n <= |s.queue|
    ensures var queue := TryStep(s, op).value.queue;
            if op.Access? && !Resident(s, op.p) then queue == [op.p] + s.queue[..n] && op.p !in s.queue else queue == s.queue
  {
    n := 0;
    if op.Access? && !Resident(s, op.p) {
      QueueAfterFault(s, op.p);
      n := |Swapped(s, op.p).value.queue| - 1;
      if op.p in s.queue { QueuedIsResident(s, s.queue, op.p); }
      assert s.queue[..|s.queue|] == s.queue;
    }
  }

  lemma PushAged(queue: seq<Page>, n: nat, loads: map<Page, nat>, p: Page, now: nat)
    requires Aged(queue, loads) && n <= |queue| && p !in queue && Before(loads, now)
    ensures Aged([p] + queue[..n], loads[p := now])
  {
    AgedPrefix(queue, loads, n);
    AgedTouch(queue[..n], loads, p, now);
    InLoads(queue[..n], loads);
    assert ([p] + queue[..n])[1..] == queue[..n];
  }

  lemma {:induction false} InLoads(queue: seq<Page>, loads: map<Page, nat>)
    requires Aged(queue, loads)
    ensures forall q <- queue :: q in loads
  {
    if queue == [] {
    } else {
      InLoads(queue[1..], loads);
    }
  }

  /** ops can be performed one after the other, safe or not, without a failed assertion. */
  ghost predicate Possible(s: State, ops: seq<Op>)
    requires Shape(s)
    decreases |ops|
  {
    ops == [] || (Enabled(s, ops[0]) && TryStep(s, ops[0]).Some? && Possible(TryStep(s, ops[0]).value, ops[1..]))
  }

  ghost function Reached(s: State, ops: seq<Op>): (s': State)
    requires Shape(s) && Possible(s, ops)
    ensures Shape(s')
    decreases |ops|
  {
    if ops == [] then s else Reached(TryStep(s, ops[0]).value, ops[1..])
  }

  ghost function LoadsAfter(s: State, ops: seq<Op>, loads: map<Page, nat>, now: nat): map<Page, nat>
    requires Shape(s) && Possible(s, ops)
    decreases |ops|
  {
    if ops == [] then loads else LoadsAfter(TryStep(s, ops[0]).value, ops[1..], Loads(s, ops[0], loads, now), now + 1)
  }

  lemma {:induction false} RunAged(s: State, ops: seq<Op>, loads: map<Page, nat>, now: nat)
    requires Shape(s) && Possible(s, ops) && Aged(s.queue, loads) && Before(loads, now)
    ensures Aged(Reached(s, ops).queue, LoadsAfter(s, ops, loads, now))
    decreases |ops|
  {
    if ops == [] {
    } else {
      StepAged(s, ops[0], loads, now);
      RunAged(TryStep(s, ops[0]).value, ops[1..], Loads(s, ops[0], loads, now), now + 1);
    }
  }

  /** A safe run meets no failed assertion. */
  lemma {:induction false} SafeIsPossible(s: State, ops: seq<Op>)
    requires Inv(s) && SafeRun(s, ops)
    ensures Possible(s, ops) && Reached(s, ops) == After(s, ops)
    decreases |ops|
  {
    if ops == [] {
    } else {
      SafeIsPossible(Step(s, ops[0]), ops[1..]);
    }
  }

  ghost predicate Initial(s: State) {
    |s.frames| == NumPhysPages && s.used == {} && s.swap == map[] && s.entries == map[] && s.queue == []
  }

  lemma InitialInv(s: State)
    requires Initial(s)
    ensures Inv(s)
  {}

  lemma OldestIsLast(s: State, loads: map<Page, nat>, q: Page)
    requires Shape(s) && Aged(s.queue, loads) && Resident(s, q)
    ensures q in s.queue && var v := s.queue[|s.queue| - 1]; v in loads && q in loads && loads[v] <= loads[q]
  {
    assert PlaceOk(s, q);
    LastIsOldest(s.queue, loads, q);
  }

  /** Over any run from the start, safe or not, the queue holds every page in memory, and its last, the
      next victim, is the one that was loaded the longest ago. */
  lemma VictimIsOldest(s: State, ops: seq<Op>, q: Page)
    requires Initial(s) && Shape(s) && Possible(s, ops) && Resident(Reached(s, ops), q)
    ensures var (s', loads) := (Reached(s, ops), LoadsAfter(s, ops, map[], 0));
            q in s'.queue && var v := s'.queue[|s'.queue| - 1]; v in loads && q in loads && loads[v] <= loads[q]
  {
    RunAged(s, ops, map[], 0);
    OldestIsLast(Reached(s, ops), LoadsAfter(s, ops, map[], 0), q);
  }

  /** Using a page in memory does not move it in the queue: the page used last may be the next victim. */
  lemma JustUsedIsVictim(s: State, write: Option<Data>)
    requires Shape(s) && s.queue != []
    ensures var v := s.queue[|s.queue| - 1];
            && v in s.swap && TryStep(s, Access(v, write)).Some?
            && var queue := TryStep(s, Access(v, write)).value.queue;
               queue != [] && queue[|queue| - 1] == v
  {
    VictimIsThere(s);
  }
}
