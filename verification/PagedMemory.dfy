/**
 What a user program sees of demand paging: the page table and main memory of machine/translate.cc
 as the state that vm/vmManager.cc keeps for the running process.
 */
module PagedMemory {
  import opened Options
  import opened Words
  import T = Translation
  import B = BitMaps
  import P = Paging

  ghost predicate EntryShows(s: P.State, pid: int, m: T.Memory, v: nat) {
    && v < |m.table| && P.Page(pid, v) in s.entries
    && var e := s.entries[P.Page(pid, v)];
       m.table[v].valid == e.valid && m.table[v].dirty == e.dirty && (e.valid ==> m.table[v].physicalPage == e.frame)
  }

  ghost predicate FrameShows(s: P.State, m: T.Memory, f: nat) {
    && f < |s.frames| && (f + 1) * T.PageSize <= |m.main|
    && forall o :: 0 <= o < T.PageSize ==> m.main[f * T.PageSize + o] == s.frames[f][o]
  }

  /** The machine's page table, which has every page of the process, and its memory are those of process
      pid in s. */
  ghost predicate Shows(s: P.State, pid: int, m: T.Memory) {
    && !m.usesTlb && T.Wf(m)
    && (forall p <- s.entries :: p.pid == pid ==> 0 <= p.vpn < |m.table|)
    && (forall v: nat {:trigger EntryShows(s, pid, m, v)} :: v < |m.table| ==> EntryShows(s, pid, m, v))
    && (forall f: nat {:trigger FrameShows(s, m, f)} :: f < T.NumPhysPages ==> FrameShows(s, m, f))
  }

  lemma FrameOfPage(s: P.State, pid: int, m: T.Memory, v: nat)
    requires P.Inv(s) && Shows(s, pid, m)
    ensures T.Frame(m, v) ==
            if v < |m.table| && P.Resident(s, P.Page(pid, v)) then Some(s.entries[P.Page(pid, v)].frame) else None
  {
    if v < |m.table| {
      assert EntryShows(s, pid, m, v);
      assert P.PageOk(s, P.Page(pid, v));
    }
  }

  /** Demand paging never maps two pages of a process to one frame, so its memory is flat. */
  lemma PagingIsDistinct(s: P.State, pid: int, m: T.Memory)
    requires P.Inv(s) && Shows(s, pid, m)
    ensures T.Distinct(m)
  {
    forall v: nat, w: nat | v != w && T.Frame(m, v).Some? && T.Frame(m, w).Some? ensures T.Frame(m, v) != T.Frame(m, w) {
      FrameOfPage(s, pid, m, v);
      FrameOfPage(s, pid, m, w);
      assert P.Apart(s, P.Page(pid, v), P.Page(pid, w));
    }
  }

  /** The byte at a virtual address is the byte of its page, when the page is in memory. */
  lemma VirtualIsLogical(s: P.State, pid: int, m: T.Memory, u: nat)
    requires P.Inv(s) && Shows(s, pid, m) && u / T.PageSize < |m.table| && P.Resident(s, P.Page(pid, u / T.PageSize))
    ensures var data := P.Logical(s, P.Page(pid, u / T.PageSize));
            data.Some? && T.Virtual(m, u) == Some(data.value[u % T.PageSize])
  {
    FrameOfPage(s, pid, m, u / T.PageSize);
    assert P.PageOk(s, P.Page(pid, u / T.PageSize));
    assert FrameShows(s, m, s.entries[P.Page(pid, u / T.PageSize)].frame);
  }

  lemma PokedFrame(s: P.State, m: T.Memory, f: nat, g: nat, off: nat, size: nat, value: Word)
    requires T.Wf(m) && T.Size(size) && off + size <= T.PageSize && f < T.NumPhysPages && g < T.NumPhysPages
    requires FrameShows(s, m, f) && FrameShows(s, m, g)
    ensures var s' := s.(frames := s.frames[f := T.Poke(s.frames[f], off, size, value)]);
            FrameShows(s', m.(main := T.Poke(m.main, f * T.PageSize + off, size, value)), g)
  {
    var main' := T.Poke(m.main, f * T.PageSize + off, size, value);
    var frame' := T.Poke(s.frames[f], off, size, value);
    forall o | 0 <= o < T.PageSize ensures main'[g * T.PageSize + o] == if g == f then frame'[o] else s.frames[g][o] {
      T.SamePlace(f, off, size, g, o);
    }
  }

  /** A store of a user program is, for paging, a write of the page's new contents, and the machine
      again shows the state that results. */
  lemma StoreIsAccess(s: P.State, pid: int, m: T.Memory, addr: Word, size: nat, value: Word)
    requires P.Inv(s) && Shows(s, pid, m) && T.Size(size) && T.Write(m, addr, size, value).1.None?
    ensures var p := P.Page(pid, Unsigned(addr) / T.PageSize);
            P.Resident(s, p) && P.PageOk(s, p) && p in s.swap
    ensures Unsigned(addr) % T.PageSize + size <= T.PageSize
    ensures var p := P.Page(pid, Unsigned(addr) / T.PageSize);
            var data := T.Poke(s.frames[s.entries[p].frame], Unsigned(addr) % T.PageSize, size, value);
            && P.Step(s, P.Access(p, Some(data))) == P.Stored(s, p, data)
            && Shows(P.Stored(s, p, data), pid, T.Write(m, addr, size, value).0)
  {
    var v, off := Unsigned(addr) / T.PageSize, Unsigned(addr) % T.PageSize;
    var p := P.Page(pid, v);
    T.AddressIsFrame(m, addr, size, true);
    T.StaysInPage(m, addr, size, true);
    FrameOfPage(s, pid, m, v);
    assert EntryShows(s, pid, m, v) && P.PageOk(s, p);
    var f := s.entries[p].frame;
    assert FrameShows(s, m, f);
    var data := T.Poke(s.frames[f], off, size, value);
    var s', m' := P.Stored(s, p, data), T.Write(m, addr, size, value).0;
    assert m'.main == T.Poke(m.main, f * T.PageSize + off, size, value);
    forall g: nat | g < T.NumPhysPages ensures FrameShows(s', m', g) {
      assert FrameShows(s, m, g);
      PokedFrame(s, m, f, g, off, size, value);
    }
    forall w: nat | w < |m'.table| ensures EntryShows(s', pid, m', w) { assert EntryShows(s, pid, m, w); }
  }

  // ---------------------------------------------------------------- a page fault

  /** main with the page's contents in frame f. */
  function Copied(main: seq<T.Byte>, f: nat, data: P.Data): (r: seq<T.Byte>)
    requires |main| == T.MemorySize && f < T.NumPhysPages
    ensures |r| == T.MemorySize
    ensures forall a :: 0 <= a < T.MemorySize ==>
              r[a] == if f * T.PageSize <= a < (f + 1) * T.PageSize then data[a - f * T.PageSize] else main[a]
  {
    main[..f * T.PageSize] + data + main[(f + 1) * T.PageSize..]
  }

  function Mapped(table: seq<T.Entry>, v: nat, f: nat): seq<T.Entry>
    requires v < |table| && f < T.NumPhysPages
  {
    table[v := table[v].(physicalPage := f, valid := true, dirty := false)]
  }

  /** The entry of the victim, if it is in this table. */
  function Unmapped(table: seq<T.Entry>, pid: int, victim: P.Page): seq<T.Entry> {
    if victim.pid == pid && 0 <= victim.vpn < |table| then table[victim.vpn := table[victim.vpn].(valid := false)] else table
  }

  /** What Swap does to the machine: the victim's entry, the copy into the frame and the page's entry. */
  ghost function Served(s: P.State, pid: int, m: T.Memory, v: nat): T.Memory
    requires P.Shape(s) && Shows(s, pid, m) && v < |m.table| && P.Page(pid, v) in s.swap && P.Swapped(s, P.Page(pid, v)).Some?
  {
    var p := P.Page(pid, v);
    var f := B.LeastClear(s.used, P.NumPhysPages);
    P.SwappedCases(s, p);
    if f < P.NumPhysPages then m.(main := Copied(m.main, f, s.swap[p]), table := Mapped(m.table, v, f))
    else
      var victim := s.queue[|s.queue| - 1];
      var frame := s.entries[victim].frame;
      m.(main := Copied(m.main, frame, P.Evict(s, pid).value.swap[p]), table := Mapped(Unmapped(m.table, pid, victim), v, frame))
  }

  lemma CopiedFrame(s: P.State, m: T.Memory, s': P.State, m': T.Memory, f: nat, g: nat, data: P.Data)
    requires T.Wf(m) && f < T.NumPhysPages && g < T.NumPhysPages && FrameShows(s, m, g) && f < |s.frames|
    requires s'.frames == s.frames[f := data] && m'.main == Copied(m.main, f, data)
    ensures FrameShows(s', m', g)
  {
    forall o | 0 <= o < T.PageSize ensures m'.main[g * T.PageSize + o] == s'.frames[g][o] {
      T.SamePlace(f, 0, T.PageSize, g, o);
    }
  }

  lemma LoadShows(s: P.State, pid: int, m: T.Memory, v: nat, f: nat)
    requires Shows(s, pid, m) && v < |m.table| && P.Page(pid, v) in s.swap && f < T.NumPhysPages && |s.frames| == T.NumPhysPages
    ensures Shows(P.Load(s, P.Page(pid, v), f), pid,
                  m.(main := Copied(m.main, f, s.swap[P.Page(pid, v)]), table := Mapped(m.table, v, f)))
  {
    var s' := P.Load(s, P.Page(pid, v), f);
    var m' := m.(main := Copied(m.main, f, s.swap[P.Page(pid, v)]), table := Mapped(m.table, v, f));
    forall w: nat | w < |m'.table| ensures EntryShows(s', pid, m', w) { assert EntryShows(s, pid, m, w); }
    forall g: nat | g < T.NumPhysPages ensures FrameShows(s', m', g) {
      assert FrameShows(s, m, g);
      CopiedFrame(s, m, s', m', f, g, s.swap[P.Page(pid, v)]);
    }
  }

  lemma EvictShows(s: P.State, pid: int, m: T.Memory)
    requires P.Shape(s) && Shows(s, pid, m) && s.queue != []
    ensures var v := s.queue[|s.queue| - 1];
            && v in s.entries && s.entries[v].frame < |s.frames|
            && (P.Evict(s, pid).Some? ==> Shows(P.Evict(s, pid).value, pid, m.(table := Unmapped(m.table, pid, v))))
  {
    P.EvictDrops(s, pid);
    var v := s.queue[|s.queue| - 1];
    if P.Evict(s, pid).Some? {
      var s', m' := P.Evict(s, pid).value, m.(table := Unmapped(m.table, pid, v));
      forall w: nat | w < |m'.table| ensures EntryShows(s', pid, m', w) { assert EntryShows(s, pid, m, w); }
      forall g: nat | g < T.NumPhysPages ensures FrameShows(s', m', g) { assert FrameShows(s, m, g); }
    }
  }

  /** After a page fault the machine shows the state that paging is in, whoever the victim belongs to. */
  lemma FaultShows(s: P.State, pid: int, m: T.Memory, v: nat)
    requires P.Shape(s) && Shows(s, pid, m) && v < |m.table|
    requires P.Page(pid, v) in s.swap && P.Swapped(s, P.Page(pid, v)).Some?
    ensures Shows(P.Swapped(s, P.Page(pid, v)).value, pid, Served(s, pid, m, v))
  {
    var p := P.Page(pid, v);
    P.SwappedCases(s, p);
    var f := B.LeastClear(s.used, P.NumPhysPages);
    if f < P.NumPhysPages {
      LoadShows(s, pid, m, v, f);
    } else {
      var victim := s.queue[|s.queue| - 1];
      EvictShows(s, pid, m);
      LoadShows(P.Evict(s, pid).value, pid, m.(table := Unmapped(m.table, pid, victim)), v, s.entries[victim].frame);
    }
  }

  // ---------------------------------------------------------------- the program's bytes, over a run

  /** The byte at virtual address u of process pid, in memory or in the swap file. */
  function ByteAt(s: P.State, pid: int, u: nat): Option<T.Byte> {
    match P.Logical(s, P.Page(pid, u / T.PageSize))
    case None => None
    case Some(data) => Some(data[u % T.PageSize])
  }

  /** A store changes its own bytes and no other byte of any process. */
  lemma StoreChangesBytes(s: P.State, pid: int, m: T.Memory, addr: Word, size: nat, value: Word, other: int, u: nat)
    requires P.Inv(s) && Shows(s, pid, m) && T.Size(size) && T.Write(m, addr, size, value).1.None?
    ensures var p := P.Page(pid, Unsigned(addr) / T.PageSize);
            && P.Resident(s, p) && P.PageOk(s, p)
            && Unsigned(addr) % T.PageSize + size <= T.PageSize
            && var data := T.Poke(s.frames[s.entries[p].frame], Unsigned(addr) % T.PageSize, size, value);
               ByteAt(P.Stored(s, p, data), other, u) ==
               if other == pid && Unsigned(addr) <= u < Unsigned(addr) + size
               then Some(T.ByteOf(value, u - Unsigned(addr))) else ByteAt(s, other, u)
  {
    StoreIsAccess(s, pid, m, addr, size, value);
    var p := P.Page(pid, Unsigned(addr) / T.PageSize);
    var data := T.Poke(s.frames[s.entries[p].frame], Unsigned(addr) % T.PageSize, size, value);
    P.StoreKeeps(s, p, data);
    T.PagePlace(Unsigned(addr), size, u);
  }

  /** Paging and the machine that runs process pid. */
  datatype Sys = Sys(s: P.State, m: T.Memory)

  ghost predicate Good(pid: int, y: Sys) {
    P.Inv(y.s) && Shows(y.s, pid, y.m)
  }

  /** A load or a store of the user program. */
  datatype UserOp = Load(addr: Word, size: nat) | Store(addr: Word, size: nat, value: Word)

  function PageOf(op: UserOp): nat {
    Unsigned(op.addr) / T.PageSize
  }

  /** The operation meets no exception but a page fault. */
  predicate Proper(table: seq<T.Entry>, op: UserOp) {
    && T.Size(op.size) && Unsigned(op.addr) % op.size == 0 && PageOf(op) < |table|
    && !(op.Store? && table[PageOf(op)].readOnly)
  }

  /** And a page fault evicts no dirty page of another process. */
  ghost predicate Runs(pid: int, y: Sys, op: UserOp)
    requires Good(pid, y)
  {
    Proper(y.m.table, op) && P.Safe(y.s, P.Access(P.Page(pid, PageOf(op)), None))
  }

  /** The page is brought in by the page fault handler, if the access faults. */
  ghost function Present(pid: int, y: Sys, v: nat): (y': Sys)
    requires Good(pid, y) && v < |y.m.table| && P.Safe(y.s, P.Access(P.Page(pid, v), None))
    ensures Good(pid, y') && P.Resident(y'.s, P.Page(pid, v)) && |y'.m.table| == |y.m.table|
    ensures y'.m.table[v].readOnly == y.m.table[v].readOnly
  {
    var p := P.Page(pid, v);
    assert EntryShows(y.s, pid, y.m, v);
    if P.Resident(y.s, p) then y
    else
      P.SwapKeeps(y.s, p);
      FaultShows(y.s, pid, y.m, v);
      Sys(P.Swapped(y.s, p).value, Served(y.s, pid, y.m, v))
  }

  lemma PresentTranslates(pid: int, y: Sys, op: UserOp)
    requires Good(pid, y) && Runs(pid, y, op)
    ensures T.Translate(Present(pid, y, PageOf(op)).m, op.addr, op.size, op.Store?).Address?
  {
    var y1 := Present(pid, y, PageOf(op));
    assert EntryShows(y1.s, pid, y1.m, PageOf(op)) && P.PageOk(y1.s, P.Page(pid, PageOf(op)));
  }

  /** The operation with the page fault handler behind it: the new state, and what a load reads. */
  ghost function Do(pid: int, y: Sys, op: UserOp): (r: (Sys, Option<Word>))
    requires Good(pid, y) && Runs(pid, y, op)
    ensures Good(pid, r.0) && r.1.Some? == op.Load?
  {
    PresentTranslates(pid, y, op);
    var y1 := Present(pid, y, PageOf(op));
    match op
    case Load(addr, size) =>
      var (m', access) := T.Read(y1.m, addr, size);
      ReadShows(y1.s, pid, y1.m, addr, size);
      (Sys(y1.s, m'), Some(access.value))
    case Store(addr, size, value) =>
      StoreIsAccess(y1.s, pid, y1.m, addr, size, value);
      var p := P.Page(pid, PageOf(op));
      var data := T.Poke(y1.s.frames[y1.s.entries[p].frame], Unsigned(addr) % T.PageSize, size, value);
      P.StoreKeeps(y1.s, p, data);
      (Sys(P.Stored(y1.s, p, data), T.Write(y1.m, addr, size, value).0), None)
  }

  lemma ReadShows(s: P.State, pid: int, m: T.Memory, addr: Word, size: nat)
    requires Shows(s, pid, m) && T.Size(size)
    ensures Shows(s, pid, T.Read(m, addr, size).0)
  {
    var m' := T.Read(m, addr, size).0;
    forall w: nat | w < |m'.table| ensures EntryShows(s, pid, m', w) { assert EntryShows(s, pid, m, w); }
    forall g: nat | g < T.NumPhysPages ensures FrameShows(s, m', g) { assert FrameShows(s, m, g); }
  }

  lemma PresentKeepsBytes(pid: int, y: Sys, v: nat, u: nat)
    requires Good(pid, y) && v < |y.m.table| && P.Safe(y.s, P.Access(P.Page(pid, v), None))
    ensures ByteAt(Present(pid, y, v).s, pid, u) == ByteAt(y.s, pid, u)
  {
    assert EntryShows(y.s, pid, y.m, v);
    if !P.Resident(y.s, P.Page(pid, v)) { P.SwapKeeps(y.s, P.Page(pid, v)); }
  }

  /** One byte of a flat memory under the same operation. */
  function FlatStep(before: Option<T.Byte>, op: UserOp, u: nat): Option<T.Byte> {
    if op.Store? && T.Size(op.size) && Unsigned(op.addr) <= u < Unsigned(op.addr) + op.size
    then Some(T.ByteOf(op.value, u - Unsigned(op.addr))) else before
  }

  function FlatByte(before: Option<T.Byte>, ops: seq<UserOp>, u: nat): Option<T.Byte>
    decreases |ops|
  {
    if ops == [] then before else FlatByte(FlatStep(before, ops[0], u), ops[1..], u)
  }

  lemma DoIsFlat(pid: int, y: Sys, op: UserOp, u: nat)
    requires Good(pid, y) && Runs(pid, y, op)
    ensures ByteAt(Do(pid, y, op).0.s, pid, u) == FlatStep(ByteAt(y.s, pid, u), op, u)
  {
    PresentTranslates(pid, y, op);
    PresentKeepsBytes(pid, y, PageOf(op), u);
    var y1 := Present(pid, y, PageOf(op));
    if op.Store? { StoreChangesBytes(y1.s, pid, y1.m, op.addr, op.size, op.value, pid, u); }
  }

  /** What a load reads are the bytes of the program's memory, whether they were in memory or in the swap file. */
  lemma LoadReadsBytes(pid: int, y: Sys, addr: Word, size: nat, k: nat)
    requires Good(pid, y) && Runs(pid, y, Load(addr, size)) && k < size
    ensures ByteAt(y.s, pid, Unsigned(addr) + k) == Some(T.ByteOf(Do(pid, y, Load(addr, size)).1.value, k))
  {
    var op, u := Load(addr, size), Unsigned(addr) + k;
    PresentTranslates(pid, y, op);
    PresentKeepsBytes(pid, y, PageOf(op), u);
    var y1 := Present(pid, y, PageOf(op));
    ReadIsLogical(y1.s, pid, y1.m, addr, size, k);
  }

  lemma ReadIsLogical(s: P.State, pid: int, m: T.Memory, addr: Word, size: nat, k: nat)
    requires P.Inv(s) && Shows(s, pid, m) && T.Size(size) && T.Read(m, addr, size).1.Value? && k < size
    ensures ByteAt(s, pid, Unsigned(addr) + k) == Some(T.ByteOf(T.Read(m, addr, size).1.value, k))
  {
    var u := Unsigned(addr) + k;
    T.StaysInPage(m, addr, size, false);
    T.AddressIsFrame(m, addr, size, false);
    T.PagePlace(Unsigned(addr), size, u);
    FrameOfPage(s, pid, m, u / T.PageSize);
    T.ReadIsFlat(m, addr, size, k, u);
    VirtualIsLogical(s, pid, m, u);
  }

  ghost predicate LegalRun(pid: int, y: Sys, ops: seq<UserOp>)
    requires Good(pid, y)
    decreases |ops|
  {
    ops == [] || (Runs(pid, y, ops[0]) && LegalRun(pid, Do(pid, y, ops[0]).0, ops[1..]))
  }

  ghost function After(pid: int, y: Sys, ops: seq<UserOp>): (y': Sys)
    requires Good(pid, y) && LegalRun(pid, y, ops)
    ensures Good(pid, y')
    decreases |ops|
  {
    if ops == [] then y else After(pid, Do(pid, y, ops[0]).0, ops[1..])
  }

  lemma {:induction false} RunIsFlat(pid: int, y: Sys, ops: seq<UserOp>, y': Sys, u: nat)
    requires Good(pid, y) && LegalRun(pid, y, ops) && y' == After(pid, y, ops)
    ensures Good(pid, y') && ByteAt(y'.s, pid, u) == FlatByte(ByteAt(y.s, pid, u), ops, u)
    decreases |ops|
  {
    if ops == [] {
    } else {
      DoIsFlat(pid, y, ops[0], u);
      RunIsFlat(pid, Do(pid, y, ops[0]).0, ops[1..], y', u);
    }
  }

  /** What a load in y reads at virtual address u, with the page fault it may cause. */
  ghost function ReadAt(pid: int, y: Sys, load: UserOp, u: nat): Option<T.Byte>
    requires Good(pid, y) && Runs(pid, y, load) && load.Load? && Unsigned(load.addr) <= u < Unsigned(load.addr) + load.size
  {
    Some(T.ByteOf(Do(pid, y, load).1.value, u - Unsigned(load.addr)))
  }

  lemma ReadsByte(pid: int, y: Sys, load: UserOp, u: nat)
    requires Good(pid, y) && Runs(pid, y, load) && load.Load? && Unsigned(load.addr) <= u < Unsigned(load.addr) + load.size
    ensures ReadAt(pid, y, load, u) == ByteAt(y.s, pid, u)
  {
    LoadReadsBytes(pid, y, load.addr, load.size, u - Unsigned(load.addr));
  }

  /** End to end: after any run of loads and stores, with the page faults they cause, in which no fault evicts
      a dirty page of another process, a load reads from the machine what it would read from a flat memory,
      byte by byte. */
  lemma PagedMemoryIsFlat(pid: int, y: Sys, ops: seq<UserOp>, y': Sys, load: UserOp, u: nat)
    requires Good(pid, y) && LegalRun(pid, y, ops) && y' == After(pid, y, ops)
    requires Runs(pid, y', load) && load.Load? && Unsigned(load.addr) <= u < Unsigned(load.addr) + load.size
    ensures ReadAt(pid, y', load, u) == FlatByte(ByteAt(y.s, pid, u), ops, u)
  {
    RunIsFlat(pid, y, ops, y', u);
    ReadsByte(pid, y', load, u);
  }

  // ---------------------------------------------------------------- one process

  /** The pages of the program and which of them are read-only do not change. */
  ghost predicate SameLayout(table: seq<T.Entry>, table': seq<T.Entry>) {
    |table'| == |table| && forall w :: 0 <= w < |table| ==> table'[w].readOnly == table[w].readOnly
  }

  lemma ServedLayout(s: P.State, pid: int, m: T.Memory, v: nat)
    requires P.Shape(s) && Shows(s, pid, m) && v < |m.table| && P.Page(pid, v) in s.swap && P.Swapped(s, P.Page(pid, v)).Some?
    ensures SameLayout(m.table, Served(s, pid, m, v).table)
  {
    P.SwappedCases(s, P.Page(pid, v));
  }

  lemma PresentStays(pid: int, y: Sys, v: nat)
    requires Good(pid, y) && P.AllOwned(y.s, pid) && v < |y.m.table| && P.Safe(y.s, P.Access(P.Page(pid, v), None))
    ensures var y' := Present(pid, y, v); P.AllOwned(y'.s, pid) && SameLayout(y.m.table, y'.m.table)
  {
    var p := P.Page(pid, v);
    assert EntryShows(y.s, pid, y.m, v);
    if !P.Resident(y.s, p) {
      P.SwapKeeps(y.s, p);
      P.FaultEntries(y.s, p);
      ServedLayout(y.s, pid, y.m, v);
    }
  }

  /** With one process a fault is safe, whatever it evicts, and one process stays one. */
  lemma OneProcessStep(pid: int, y: Sys, op: UserOp)
    requires Good(pid, y) && P.AllOwned(y.s, pid) && Proper(y.m.table, op)
    ensures Runs(pid, y, op)
    ensures var y' := Do(pid, y, op).0; P.AllOwned(y'.s, pid) && SameLayout(y.m.table, y'.m.table)
  {
    if y.s.queue != [] { P.VictimIsThere(y.s); }
    PresentTranslates(pid, y, op);
    PresentStays(pid, y, PageOf(op));
  }

  lemma {:induction false} OneProcessRuns(pid: int, y: Sys, table: seq<T.Entry>, ops: seq<UserOp>)
    requires Good(pid, y) && P.AllOwned(y.s, pid) && SameLayout(table, y.m.table) && forall op <- ops :: Proper(table, op)
    ensures LegalRun(pid, y, ops)
    ensures var y' := After(pid, y, ops); P.AllOwned(y'.s, pid) && SameLayout(table, y'.m.table)
    decreases |ops|
  {
    if ops == [] {
    } else {
      assert ops[0] in ops;
      OneProcessStep(pid, y, ops[0]);
      OneProcessRuns(pid, Do(pid, y, ops[0]).0, table, ops[1..]);
    }
  }

  /** When all pages are of one process, its memory is flat over every run of aligned accesses to pages that it
      has, with no condition on what the faults evict. */
  lemma OneProcessIsFlat(pid: int, y: Sys, ops: seq<UserOp>, load: UserOp, u: nat) returns (y': Sys)
    requires Good(pid, y) && P.AllOwned(y.s, pid) && (forall op <- ops :: Proper(y.m.table, op)) && Proper(y.m.table, load)
    requires load.Load? && Unsigned(load.addr) <= u < Unsigned(load.addr) + load.size
    ensures LegalRun(pid, y, ops) && y' == After(pid, y, ops) && Runs(pid, y', load)
    ensures ReadAt(pid, y', load, u) == FlatByte(ByteAt(y.s, pid, u), ops, u)
  {
    OneProcessRuns(pid, y, y.m.table, ops);
    y' := After(pid, y, ops);
    OneProcessStep(pid, y', load);
    PagedMemoryIsFlat(pid, y, ops, y', load, u);
  }

  // ---------------------------------------------------------------- exceptions

  /** An access with its page in memory meets an exception exactly if it is misaligned, beyond the page table
      or a store to a read-only page; a page that is not in memory is a page fault, and has a slot to load. */
  lemma ExceptionsExactly(pid: int, y: Sys, op: UserOp)
    requires Good(pid, y) && T.Size(op.size)
    ensures T.Translate(y.m, op.addr, op.size, op.Store?).Address? <==>
              && Unsigned(op.addr) % op.size == 0 && PageOf(op) < |y.m.table|
              && P.Resident(y.s, P.Page(pid, PageOf(op))) && !(op.Store? && y.m.table[PageOf(op)].readOnly)
    ensures PageOf(op) < |y.m.table| ==> P.Page(pid, PageOf(op)) in y.s.swap
    ensures T.Translate(y.m, op.addr, op.size, op.Store?) == T.Failed(T.PageFaultException) <==>
              Unsigned(op.addr) % op.size == 0 && PageOf(op) < |y.m.table| && !P.Resident(y.s, P.Page(pid, PageOf(op)))
  {
    if PageOf(op) < |y.m.table| { assert EntryShows(y.s, pid, y.m, PageOf(op)) && P.PageOk(y.s, P.Page(pid, PageOf(op))); }
  }
}
