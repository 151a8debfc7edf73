/** The page fault handler's Swap (vm/vmManager.cc) over the swap file, the replacement queue and the frame bitmap. */
module VirtualMemory {
  import opened Options
  import opened BitMaps
  import opened Paging
  import Replacement
  import SwapFiles

  class VMManager {
    const swapMgr: SwapFiles.SwapManager
    const policy: Replacement.Queue<Page>
    const memManager: BitMap
    const mainMemory: array<Data>        // one element for each frame
    var entries: map<Page, Entry>        // the translation entries of all page tables

    ghost predicate Valid()
      reads this, swapMgr, swapMgr.swapMap.words, swapMgr.swapFile, swapMgr.pids, swapMgr.vpns, policy, policy.repr
    {
      && swapMgr.Valid() && policy.Valid() && memManager.Valid() && memManager.numBits == NumPhysPages
      && mainMemory.Length == NumPhysPages && mainMemory != swapMgr.swapFile && memManager.words != swapMgr.swapMap.words
    }

    ghost function View(): State
      requires Valid()
      reads this, swapMgr, swapMgr.swapMap.words, swapMgr.swapFile, swapMgr.pids, swapMgr.vpns, policy, policy.repr
      reads memManager.words, mainMemory
    {
      State(mainMemory[..], memManager.View(), swapMgr.View(), entries, policy.View())
    }

    /** What the objects together show, if they are well-formed. */
    ghost function Now(): Option<State>
      reads this, swapMgr, swapMgr.swapMap.words, swapMgr.swapFile, swapMgr.pids, swapMgr.vpns, policy, policy.repr
      reads memManager.words, mainMemory
    {
      if Valid() then Some(View()) else None
    }

    constructor ()
      ensures Valid() && Initial(View())
    {
      swapMgr := new SwapFiles.SwapManager();
      policy := new Replacement.Queue();
      memManager := new BitMap(NumPhysPages);
      mainMemory := new Data[NumPhysPages];
      entries := map[];
    }

    method AddPage(p: Page, data: Data, ghost s: State) returns (ok: bool)
      requires Now() == Some(s)
      modifies this, swapMgr, swapMgr.swapMap.words, swapMgr.swapFile, swapMgr.pids, swapMgr.vpns
      ensures ok == (p in s.swap || |s.swap| < SwapSize)
      ensures Now() == Some(if ok then Added(s, p, data) else s)
    {
      ok := AddSlot(p, data, s);
      if ok && p !in entries { entries := entries[p := Entry(0, false, false)]; }
    }

    method AddSlot(p: Page, data: Data, ghost s: State) returns (ok: bool)
      requires Now() == Some(s)
      modifies swapMgr, swapMgr.swapMap.words, swapMgr.swapFile, swapMgr.pids, swapMgr.vpns
      ensures ok == (p in s.swap || |s.swap| < SwapSize)
      ensures Now() == Some(s.(swap := if ok then s.swap[p := data] else s.swap))
    {
      ok := swapMgr.AddPage(p, data);
    }

    method Swap(p: Page, ghost s: State)
      requires Now() == Some(s) && Shape(s) && p in s.swap && Swapped(s, p).Some?
      modifies this, memManager.words, mainMemory, swapMgr.swapFile, policy, policy.repr
      ensures Now() == Some(Swapped(s, p).value)
    {
      SwappedCases(s, p);
      var available := memManager.NumClear();
      RoomMeansClear(s.used, NumPhysPages);
      if available != 0 {
        TakeFrame(p, s);
      } else {
        Replace(p, s);
      }
    }

    /** Swap when a frame is clear. */
    method TakeFrame(p: Page, ghost s: State)
      requires Now() == Some(s) && p in s.swap && LeastClear(s.used, NumPhysPages) < NumPhysPages
      modifies this, memManager.words, mainMemory, policy, policy.repr
      ensures Now() == Some(Load(s, p, LeastClear(s.used, NumPhysPages)))
    {
      var physPage := MarkFrame(s);
      Install(p, physPage, s.(used := s.used + {physPage}));
    }

    /** The page into its frame, and to the front of the queue. */
    method Install(p: Page, physPage: nat, ghost s: State)
      requires Now() == Some(s) && p in s.swap && physPage < NumPhysPages
      modifies this`entries, mainMemory, policy, policy.repr
      ensures Now() == Some(s.(frames := s.frames[physPage := s.swap[p]], entries := s.entries[p := Entry(physPage, true, false)],
                               queue := [p] + s.queue))
    {
      LoadInto(p, physPage, s);
      Enqueue(p, s.(frames := s.frames[physPage := s.swap[p]], entries := s.entries[p := Entry(physPage, true, false)]));
    }

    method MarkFrame(ghost s: State) returns (physPage: nat)
      requires Now() == Some(s) && LeastClear(s.used, NumPhysPages) < NumPhysPages
      modifies memManager.words
      ensures physPage == LeastClear(s.used, NumPhysPages) && Now() == Some(s.(used := s.used + {physPage}))
    {
      physPage := memManager.Find();
    }

    method Enqueue(p: Page, ghost s: State)
      requires Now() == Some(s)
      modifies policy, policy.repr
      ensures Now() == Some(s.(queue := [p] + s.queue)) && fresh(policy.repr - old(policy.repr))
    {
      policy.AddPage(p);
    }

    /** findPage into the frame, and the entry made valid and clean. */
    method LoadInto(p: Page, physPage: nat, ghost s: State)
      requires Now() == Some(s) && p in s.swap && physPage < NumPhysPages
      modifies this`entries, mainMemory
      ensures Now() == Some(s.(frames := s.frames[physPage := s.swap[p]], entries := s.entries[p := Entry(physPage, true, false)]))
    {
      var data := swapMgr.FindPage(p);
      mainMemory[physPage] := data;
      entries := entries[p := Entry(physPage, true, false)];
    }

    /** The victim's entry is made invalid, and a dirty victim is written back under the process that faulted. */
    method GiveUp(victim: Page, pid: int, ghost s: State)
      requires Now() == Some(s) && victim in s.entries && s.entries[victim].frame < NumPhysPages
      requires s.entries[victim].dirty ==> Page(pid, victim.vpn) in s.swap
      modifies this`entries, swapMgr.swapFile
      ensures var e := s.entries[victim];
              Now() == Some(s.(entries := s.entries[victim := e.(valid := false)],
                               swap := if e.dirty then s.swap[Page(pid, victim.vpn) := s.frames[e.frame]] else s.swap))
    {
      var e := entries[victim];
      entries := entries[victim := e.(valid := false)];
      if e.dirty { swapMgr.WritePage(Page(pid, victim.vpn), mainMemory[e.frame]); }
    }

    /** Remove_LRU_Page, after AddPage. */
    method DropLast(ghost s: State)
      requires Now() == Some(s) && |s.queue| >= 2
      modifies policy, policy.repr
      ensures Now() == Some(s.(queue := s.queue[..|s.queue| - 1]))
    {
      policy.RemoveLast();
    }

    /** GetLRU, and the frame of the page. */
    method Victim(ghost s: State) returns (victim: Page, frame: nat)
      requires Now() == Some(s) && s.queue != [] && s.queue[|s.queue| - 1] in s.entries
      ensures victim == s.queue[|s.queue| - 1] && frame == s.entries[victim].frame
    {
      victim := policy.Last();
      frame := entries[victim].frame;
    }

    method Requeue(p: Page, ghost s: State)
      requires Now() == Some(s) && s.queue != []
      modifies policy, policy.repr
      ensures Now() == Some(s.(queue := [p] + s.queue[..|s.queue| - 1]))
    {
      Enqueue(p, s);
      DropLast(s.(queue := [p] + s.queue));
      assert ([p] + s.queue)[..|s.queue|] == [p] + s.queue[..|s.queue| - 1];
    }

    /** The page into the frame of the victim, and the queue behind it. */
    method TakeOver(p: Page, frame: nat, ghost s: State)
      requires Now() == Some(s) && p in s.swap && frame < NumPhysPages && s.queue != []
      modifies this`entries, mainMemory, policy, policy.repr
      ensures Now() == Some(TakenOver(s, p, frame))
    {
      LoadInto(p, frame, s);
      Requeue(p, s.(frames := s.frames[frame := s.swap[p]], entries := s.entries[p := Entry(frame, true, false)]));
    }

    /** Swap when every frame is in use; the frame stays marked throughout. */
    method Replace(p: Page, ghost s: State)
      requires Now() == Some(s) && p in s.swap && Replaceable(s, p.pid)
      modifies this, mainMemory, swapMgr.swapFile, policy, policy.repr
      ensures Now() == Some(Load(Evict(s, p.pid).value, p, s.entries[s.queue[|s.queue| - 1]].frame))
    {
      var victim, frame := Victim(s);
      ReplacedState(s, p);
      GiveUp(victim, p.pid, s);
      TakeOver(p, frame, Evict(s, p.pid).value.(queue := s.queue, used := s.used));
    }
  }

  /** The last of the queue can be given up for a fault of pid. */
  ghost predicate Replaceable(s: State, pid: int) {
    && s.queue != [] && |s.frames| == NumPhysPages
    && var v := s.queue[|s.queue| - 1];
       v in s.entries && s.entries[v].frame < NumPhysPages && s.entries[v].frame in s.used && Evict(s, pid).Some?
  }

  ghost function TakenOver(s: State, p: Page, frame: nat): State
    requires p in s.swap && frame < |s.frames| && s.queue != []
  {
    s.(frames := s.frames[frame := s.swap[p]], entries := s.entries[p := Entry(frame, true, false)],
       queue := [p] + s.queue[..|s.queue| - 1])
  }

  /** Keeping the frame marked and shortening the queue last makes no difference. */
  lemma ReplacedState(s: State, p: Page)
    requires p in s.swap && Replaceable(s, p.pid)
    ensures var frame := s.entries[s.queue[|s.queue| - 1]].frame;
            TakenOver(Evict(s, p.pid).value.(queue := s.queue, used := s.used), p, frame) == Load(Evict(s, p.pid).value, p, frame)
  {
    var frame := s.entries[s.queue[|s.queue| - 1]].frame;
    assert s.used - {frame} + {frame} == s.used;
  }
}
