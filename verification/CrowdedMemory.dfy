/** A run of demand paging in which one process loses what it wrote to a page fault of another. */
module CrowdedMemory {
  import opened Options
  import opened BitMaps
  import opened Paging

  // ---------------------------------------------------------------- the run

  const NumPages: nat := NumPhysPages + 2

  /** As many pages of process 1 as there are frames, and two of process 2. */
  function Nth(i: nat): Page {
    if i < NumPhysPages then Page(1, i) else if i == NumPhysPages then Page(2, 0) else Page(2, 5)
  }

  /** The place of a page in that order, or their number. */
  function Index(p: Page): nat {
    if p.pid == 1 && 0 <= p.vpn < NumPhysPages then p.vpn
    else if p == Page(2, 0) then NumPhysPages else if p == Page(2, 5) then NumPhysPages + 1 else NumPages
  }

  lemma IndexMeans(p: Page, i: nat)
    requires i < NumPages
    ensures Index(p) == i <==> p == Nth(i)
  {}

  /** The pages are added, and then process 1 writes to each of its own. */
  function Crowding(): seq<Op> {
    seq(NumPages + NumPhysPages,
        i requires 0 <= i < NumPages + NumPhysPages =>
          if i < NumPages then Add(Nth(i), Filled(0)) else Access(Page(1, i - NumPages), Some(Filled(1))))
  }

  // ---------------------------------------------------------------- the states on the way

  function Pages(n: nat): set<Page> {
    set i: nat | i < n :: Nth(i)
  }

  lemma {:induction false} FewPages(n: nat)
    ensures |Pages(n)| <= n
  {
    if n == 0 {
    } else {
      FewPages(n - 1);
      assert Pages(n) == Pages(n - 1) + {Nth(n - 1)};
    }
  }

  lemma PagesMean(n: nat, p: Page)
    requires n <= NumPages
    ensures p in Pages(n) <==> Index(p) < n
  {
    if Index(p) < n { assert p == Nth(Index(p)); }
  }

  function Slots(n: nat): map<Page, Data> {
    map p | p in Pages(n) :: Filled(0)
  }

  /** The entry of a page when the first k of process 1 have been written to. */
  function EntryAt(k: nat, p: Page): Entry {
    if Index(p) < k then Entry(Index(p), true, true) else Entry(0, false, false)
  }

  function Entries(n: nat, k: nat): map<Page, Entry> {
    map p | p in Pages(n) :: EntryAt(k, p)
  }

  function FrameAt(s0: State, k: nat, i: nat): Data
    requires i < |s0.frames|
  {
    if i < k then Filled(1) else s0.frames[i]
  }

  function Frames(s0: State, k: nat): seq<Data> {
    seq(|s0.frames|, i requires 0 <= i < |s0.frames| => FrameAt(s0, k, i))
  }

  /** The pages written to, the last one first. */
  function Loaded(k: nat): seq<Page> {
    seq(k, i => Page(1, k - 1 - i))
  }

  /** The state after n of the pages are added and the first k of process 1 written to. */
  function Halfway(s0: State, n: nat, k: nat): State {
    State(Frames(s0, k), Below(k), Slots(n), Entries(n, k), Loaded(k))
  }

  lemma FirstStage(s0: State)
    requires Initial(s0)
    ensures Halfway(s0, 0, 0) == s0
  {
    assert Frames(s0, 0) == s0.frames;
  }

  lemma OnePageMore(n: nat)
    requires n < NumPages
    ensures Nth(n) !in Pages(n) && |Slots(n)| <= n
    ensures Slots(n + 1) == Slots(n)[Nth(n) := Filled(0)]
    ensures Entries(n + 1, 0) == Entries(n, 0)[Nth(n) := Entry(0, false, false)]
  {
    FewPages(n);
    assert |Slots(n)| == |Slots(n).Keys| && Slots(n).Keys == Pages(n);
    PagesMean(n, Nth(n));
    assert Pages(n + 1) == Pages(n) + {Nth(n)};
  }

  lemma AddNew(s: State, p: Page, data: Data)
    requires Shape(s) && p !in s.swap && |s.swap| < SwapSize
    ensures Enabled(s, Add(p, data))
    ensures TryStep(s, Add(p, data)) == Some(s.(swap := s.swap[p := data], entries := s.entries[p := Entry(0, false, false)]))
  {}

  lemma AddStage(s0: State, n: nat)
    requires n < NumPages && Shape(Halfway(s0, n, 0))
    ensures Enabled(Halfway(s0, n, 0), Add(Nth(n), Filled(0)))
    ensures TryStep(Halfway(s0, n, 0), Add(Nth(n), Filled(0))) == Some(Halfway(s0, n + 1, 0))
  {
    OnePageMore(n);
    AddNew(Halfway(s0, n, 0), Nth(n), Filled(0));
  }

  lemma NextFrame(k: nat, r: nat)
    requires k <= NumPhysPages && r == LeastClear(Below(k), NumPhysPages)
    ensures r == k
  {
    assert r in Below(k) <==> r < k;
    assert k !in Below(k);
  }

  lemma EntriesStep(n: nat, k: nat)
    requires k < NumPhysPages < n <= NumPages
    ensures Entries(n, k)[Page(1, k) := Entry(k, true, true)] == Entries(n, k + 1)
  {
    PagesMean(n, Page(1, k));
    forall p | p in Pages(n) && p != Page(1, k) ensures EntryAt(k, p) == EntryAt(k + 1, p) { IndexMeans(p, k); }
  }

  lemma FramesStep(s0: State, k: nat)
    requires k < |s0.frames|
    ensures Frames(s0, k)[k := Filled(1)] == Frames(s0, k + 1)
    ensures [Page(1, k)] + Loaded(k) == Loaded(k + 1)
    ensures Below(k) + {k} == Below(k + 1)
  {}

  /** A write to a page that is not in memory, when frame k is the first clear one. */
  lemma WriteToNew(s: State, p: Page, k: nat)
    requires Shape(s) && p in s.swap && !Resident(s, p) && k == LeastClear(s.used, NumPhysPages) < NumPhysPages
    ensures TryStep(s, Access(p, Some(Filled(1)))) ==
              Some(State(s.frames[k := Filled(1)], s.used + {k}, s.swap, s.entries[p := Entry(k, true, true)], [p] + s.queue))
  {
    var s1 := Load(s, p, k);
    assert Swapped(s, p) == Some(s1);
    assert s1.frames[k := Filled(1)] == s.frames[k := Filled(1)];
    assert s1.entries[p := Entry(k, true, true)] == s.entries[p := Entry(k, true, true)];
  }

  lemma WriteStage(s0: State, n: nat, k: nat)
    requires k < NumPhysPages < n <= NumPages && |s0.frames| == NumPhysPages && Shape(Halfway(s0, n, k))
    ensures Enabled(Halfway(s0, n, k), Access(Page(1, k), Some(Filled(1))))
    ensures TryStep(Halfway(s0, n, k), Access(Page(1, k), Some(Filled(1)))) == Some(Halfway(s0, n, k + 1))
  {
    PagesMean(n, Page(1, k));
    NextFrame(k, LeastClear(Below(k), NumPhysPages));
    WriteToNew(Halfway(s0, n, k), Page(1, k), k);
    EntriesStep(n, k);
    FramesStep(s0, k);
  }

  /** The state after i operations. */
  function Stage(s0: State, i: nat): State {
    if i < NumPages then Halfway(s0, i, 0) else Halfway(s0, NumPages, i - NumPages)
  }

  ghost predicate Leads(s: State, op: Op, s': State) {
    Shape(s) ==> Enabled(s, op) && TryStep(s, op) == Some(s')
  }

  lemma NextStage(s0: State, ops: seq<Op>, i: nat, s: State, s': State)
    requires |s0.frames| == NumPhysPages && ops == Crowding() && i < |ops| && s == Stage(s0, i) && s' == Stage(s0, i + 1)
    ensures Leads(s, ops[i], s')
  {
    if Shape(s) {
      if i < NumPages {
        assert s' == Halfway(s0, i + 1, 0);
        AddStage(s0, i);
      } else {
        WriteStage(s0, NumPages, i - NumPages);
      }
    }
  }

  /** Each operation takes one state to the next. */
  ghost predicate Chain(states: seq<State>, ops: seq<Op>) {
    && |states| == |ops| + 1
    && forall i :: 0 <= i < |ops| ==> Leads(states[i], ops[i], states[i + 1])
  }

  lemma {:induction false} ChainReaches(states: seq<State>, ops: seq<Op>, i: nat)
    requires Chain(states, ops) && i <= |ops| && Shape(states[i])
    ensures Possible(states[i], ops[i..]) && Reached(states[i], ops[i..]) == states[|ops|]
    decreases |ops| - i
  {
    if i == |ops| {
    } else {
      assert Leads(states[i], ops[i], states[i + 1]);
      ChainReaches(states, ops, i + 1);
      assert ops[i..][1..] == ops[i + 1..];
    }
  }

  lemma StagesReached(s0: State, ops: seq<Op>)
    requires |s0.frames| == NumPhysPages && ops == Crowding() && s0 == Stage(s0, 0) && Shape(s0)
    ensures Possible(s0, ops) && Reached(s0, ops) == Stage(s0, |ops|)
  {
    var states := seq(|ops| + 1, i requires 0 <= i <= |ops| => Stage(s0, i));
    forall i | 0 <= i < |ops| ensures Leads(states[i], ops[i], states[i + 1]) {
      NextStage(s0, ops, i, states[i], states[i + 1]);
    }
    ChainReaches(states, ops, 0);
    assert ops[0..] == ops;
  }

  // ---------------------------------------------------------------- what is lost

  /** Page v is dirty and the next victim; pages w and p are not in memory. */
  ghost predicate Crowded(s: State, v: Page, w: Page, p: Page) {
    && LeastClear(s.used, NumPhysPages) == NumPhysPages && s.queue != [] && s.queue[|s.queue| - 1] == v
    && v in s.entries && s.entries[v] == Entry(0, true, true) && |s.frames| > 0 && s.frames[0] == Filled(1)
    && w in s.swap && !Resident(s, w) && p in s.swap && !Resident(s, p)
    && v in s.swap && s.swap[v] == Filled(0) && s.swap[w] == Filled(0)
  }

  lemma CrowdedAtEnd(s0: State, n: nat, k: nat)
    requires |s0.frames| == NumPhysPages && k == NumPhysPages && n == NumPages
    ensures Crowded(Halfway(s0, n, k), Page(1, 0), Page(2, 0), Page(2, 5))
  {
    PagesMean(n, Page(1, 0));
    PagesMean(n, Page(2, 0));
    PagesMean(n, Page(2, 5));
    NextFrame(k, LeastClear(Below(k), NumPhysPages));
  }

  lemma FaultLoses(s: State, v: Page, w: Page, p: Page)
    requires Shape(s) && Crowded(s, v, w, p) && v.pid != p.pid && w == Page(p.pid, v.vpn) && w != p
    ensures Swapped(s, p).Some?
    ensures Logical(s, v) == Some(Filled(1)) && Logical(Swapped(s, p).value, v) == Some(Filled(0))
    ensures Logical(s, w) == Some(Filled(0)) && Logical(Swapped(s, p).value, w) == Some(Filled(1))
  {
    WrongOwnerFault(s, p, v, w);
  }

  /** From the start, after this run, a fault of process 2 on its page 5: process 1 loses what it wrote to its
      page 0 and finds what was there before, and process 2 finds it in its own page 0. */
  lemma OtherProcessLosesPage(s0: State)
    requires Initial(s0) && Shape(s0)
    ensures Possible(s0, Crowding())
    ensures var s, p := Reached(s0, Crowding()), Page(2, 5);
            && p in s.swap && !Resident(s, p) && Swapped(s, p).Some?
            && Logical(s, Page(1, 0)) == Some(Filled(1)) && Logical(Swapped(s, p).value, Page(1, 0)) == Some(Filled(0))
            && Logical(s, Page(2, 0)) == Some(Filled(0)) && Logical(Swapped(s, p).value, Page(2, 0)) == Some(Filled(1))
  {
    var ops := Crowding();
    FirstStage(s0);
    StagesReached(s0, ops);
    CrowdedAtEnd(s0, NumPages, NumPhysPages);
    FaultLoses(Reached(s0, ops), Page(1, 0), Page(2, 0), Page(2, 5));
  }
}
