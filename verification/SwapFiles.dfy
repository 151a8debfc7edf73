/** The swap file (vm/swapManager.cc): slots found by searching for the process and the page number. */
module SwapFiles {
  import opened BitMaps
  import opened Paging

  /** The marked slots are those of the pages, each once. */
  ghost predicate Indexed(slotOf: map<Page, nat>, marked: set<nat>, pids: seq<int>, vpns: seq<int>) {
    && |pids| == SwapSize && |vpns| == SwapSize
    && (forall p <- slotOf :: slotOf[p] < SwapSize && slotOf[p] in marked && pids[slotOf[p]] == p.pid && vpns[slotOf[p]] == p.vpn)
    && (forall i <- marked :: i < SwapSize && Page(pids[i], vpns[i]) in slotOf && slotOf[Page(pids[i], vpns[i])] == i)
  }

  lemma IndexedAdd(slotOf: map<Page, nat>, marked: set<nat>, pids: seq<int>, vpns: seq<int>, p: Page, free: nat)
    requires Indexed(slotOf, marked, pids, vpns) && p !in slotOf && free < SwapSize && free !in marked
    ensures Indexed(slotOf[p := free], marked + {free}, pids[free := p.pid], vpns[free := p.vpn])
  {}

  /** As many slots are marked as there are pages. */
  lemma {:induction false} SlotsCounted(slotOf: map<Page, nat>, marked: set<nat>, pids: seq<int>, vpns: seq<int>)
    requires Indexed(slotOf, marked, pids, vpns)
    ensures |marked| == |slotOf|
    decreases |slotOf|
  {
    if p :| p in slotOf {
      SlotsCounted(slotOf - {p}, marked - {slotOf[p]}, pids, vpns);
      assert slotOf.Keys == (slotOf - {p}).Keys + {p};
      assert |slotOf.Keys| == |slotOf| && |(slotOf - {p}).Keys| == |slotOf - {p}|;
    }
  }

  ghost function Contents(slotOf: map<Page, nat>, file: seq<Data>): (m: map<Page, Data>)
    requires forall p <- slotOf :: slotOf[p] < |file|
    ensures m.Keys == slotOf.Keys
  {
    map p | p in slotOf :: file[slotOf[p]]
  }

  lemma ContentsAdd(slotOf: map<Page, nat>, marked: set<nat>, pids: seq<int>, vpns: seq<int>, file: seq<Data>, p: Page, free: nat, data: Data)
    requires Indexed(slotOf, marked, pids, vpns) && |file| == SwapSize && p !in slotOf && free < SwapSize && free !in marked
    ensures Contents(slotOf[p := free], file[free := data]) == Contents(slotOf, file)[p := data]
  {}

  lemma ContentsWrite(slotOf: map<Page, nat>, marked: set<nat>, pids: seq<int>, vpns: seq<int>, file: seq<Data>, p: Page, data: Data)
    requires Indexed(slotOf, marked, pids, vpns) && |file| == SwapSize && p in slotOf
    ensures Contents(slotOf, file[slotOf[p] := data]) == Contents(slotOf, file)[p := data]
  {}

  lemma KeysCounted(a: map<Page, Data>, b: map<Page, nat>)
    requires a.Keys == b.Keys
    ensures |a| == |b|
  {
    assert |a| == |a.Keys| && |b| == |b.Keys|;
  }

  class SwapManager {
    const swapMap: BitMap
    const swapFile: array<Data>
    const pids: array<int>
    const vpns: array<int>             // of the entries
    ghost var slotOf: map<Page, nat>

    ghost predicate Valid()
      reads this, swapMap.words, swapFile, pids, vpns
    {
      && swapMap.Valid() && swapMap.numBits == SwapSize
      && swapFile.Length == SwapSize && pids.Length == SwapSize && vpns.Length == SwapSize && pids != vpns
      && Indexed(slotOf, swapMap.View(), pids[..], vpns[..])
    }

    /** The pages in the swap file and their contents. */
    ghost function View(): map<Page, Data>
      requires Valid()
      reads this, swapMap.words, swapFile, pids, vpns
    {
      Contents(slotOf, swapFile[..])
    }

    constructor ()
      ensures Valid() && View() == map[]
      ensures fresh(swapMap) && fresh(swapMap.words) && fresh(swapFile) && fresh(pids) && fresh(vpns)
    {
      swapMap := new BitMap(SwapSize);
      swapFile := new Data[SwapSize];
      pids := new int[SwapSize];
      vpns := new int[SwapSize];
      slotOf := map[];
    }

    /** The search that every operation begins with. */
    method Search(p: Page) returns (slot: int)
      requires Valid()
      ensures slot == if p in slotOf then slotOf[p] else -1
    {
      for i := 0 to SwapSize
        invariant p in slotOf ==> i <= slotOf[p]
      {
        var used := swapMap.Test(i);
        if pids[i] == p.pid && used && vpns[i] == p.vpn {
          assert Page(pids[i], vpns[i]) == p;
          return i;
        }
      }
      return -1;
    }

    /** findPage; a page that is not there is the NULL that the caller dereferences. */
    method FindPage(p: Page) returns (data: Data)
      requires Valid() && p in View()
      ensures data == View()[p]
    {
      var slot := Search(p);
      data := swapFile[slot];
    }

    /** writePage; it asserts that the page is there. */
    method WritePage(p: Page, data: Data)
      requires Valid() && p in View()
      modifies swapFile
      ensures Valid() && View() == old(View())[p := data]
    {
      var slot := Search(p);
      StoreAt(p, slot, data);
    }

    method StoreAt(p: Page, slot: nat, data: Data)
      requires Valid() && p in slotOf && slot == slotOf[p]
      modifies swapFile
      ensures Valid() && View() == old(View())[p := data]
    {
      ContentsWrite(slotOf, swapMap.View(), pids[..], vpns[..], swapFile[..], p, data);
      ghost var was := swapFile[..];
      swapFile[slot] := data;
      assert swapFile[..] == was[slot := data];
    }

    /** addPage; when no slot is clear the program exits. */
    method AddPage(p: Page, data: Data) returns (ok: bool)
      requires Valid()
      modifies this`slotOf, swapMap.words, swapFile, pids, vpns
      ensures Valid() && ok == (p in old(View()) || |old(View())| < SwapSize)
      ensures View() == if ok then old(View())[p := data] else old(View())
    {
      KeysCounted(View(), slotOf);
      var slot := Search(p);
      if slot != -1 {
        StoreAt(p, slot, data);
        return true;
      }
      IndexedFree(slotOf, swapMap.View(), pids[..], vpns[..]);
      var free := swapMap.Find();
      if free == -1 { return false; }
      Install(p, data, free, old(swapMap.View()));
      return true;
    }

    method Install(p: Page, data: Data, free: nat, ghost marked: set<nat>)
      requires swapMap.Valid() && swapMap.numBits == SwapSize && swapFile.Length == SwapSize
      requires pids.Length == SwapSize && vpns.Length == SwapSize && pids != vpns
      requires Indexed(slotOf, marked, pids[..], vpns[..]) && p !in slotOf && free < SwapSize && free !in marked
      requires swapMap.View() == marked + {free}
      modifies this`slotOf, swapFile, pids, vpns
      ensures Valid() && View() == Contents(old(slotOf), old(swapFile[..]))[p := data]
    {
      ContentsAdd(slotOf, marked, pids[..], vpns[..], swapFile[..], p, free, data);
      IndexedAdd(slotOf, marked, pids[..], vpns[..], p, free);
      ghost var ps, vs := pids[..], vpns[..];
      vpns[free], pids[free] := p.vpn, p.pid;
      assert pids[..] == ps[free := p.pid] && vpns[..] == vs[free := p.vpn];
      ghost var fs := swapFile[..];
      swapFile[free] := data;
      assert swapFile[..] == fs[free := data];
      slotOf := slotOf[p := free];
    }
  }

  /** There is room exactly while fewer pages than slots are in the swap file. */
  lemma IndexedFree(slotOf: map<Page, nat>, marked: set<nat>, pids: seq<int>, vpns: seq<int>)
    requires Indexed(slotOf, marked, pids, vpns)
    ensures LeastClear(marked, SwapSize) < SwapSize <==> |slotOf| < SwapSize
  {
    SlotsCounted(slotOf, marked, pids, vpns);
    RoomMeansClear(marked, SwapSize);
  }
}
