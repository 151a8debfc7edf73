/**
 File headers (filesys/filehdr.cc) in the FILESYS build, where a file has at most NumDirect data
 sectors and the indirect branches cannot be reached.
 */
module FileHeaders {
  import opened Options
  import opened BitMaps
  import Disks

  const SectorSize: nat := Disks.SectorSize
  const NumSectors: nat := Disks.NumSectors
  const NumDirect: nat := 30                           // (SectorSize - 2 * sizeof(int)) / sizeof(int)
  const MaxFileSize: nat := NumDirect * SectorSize

  function DivRoundUp(n: nat, s: nat): nat
    requires s > 0
  {
    n / s + (if n % s > 0 then 1 else 0)
  }

  /** As many sectors as hold n bytes, and no more. */
  lemma SectorsHold(n: nat, k: nat)
    ensures DivRoundUp(n, SectorSize) <= k <==> n <= k * SectorSize
  {
    var q, r := n / SectorSize, n % SectorSize;
    assert n == q * SectorSize + r;
  }

  /** What a header records: the length in bytes and the data sectors in file order. */
  datatype Header = Header(numBytes: nat, sectors: seq<nat>)

  function Elems(s: seq<nat>): set<nat> {
    if s == [] then {} else {s[0]} + Elems(s[1..])
  }

  predicate NoDup(s: seq<nat>) {
    s == [] || (s[0] !in Elems(s[1..]) && NoDup(s[1..]))
  }

  lemma {:induction false} ElemsMeans(s: seq<nat>, x: nat)
    ensures x in Elems(s) <==> x in s
  {
    if s == [] {
    } else {
      ElemsMeans(s[1..], x);
    }
  }

  ghost predicate HeaderOk(h: Header) {
    && h.numBytes <= MaxFileSize && |h.sectors| == DivRoundUp(h.numBytes, SectorSize)
    && NoDup(h.sectors) && Within(Elems(h.sectors), NumSectors)
  }

  /** MaxFileSize has an unsigned type, so the comparison in Allocate is unsigned. */
  function ToUnsigned(x: int): int {
    if x < 0 then x + 0x1_0000_0000 else x
  }

  lemma {:induction false} Suffix(s: seq<nat>, i: nat)
    requires i <= |s| && NoDup(s)
    ensures NoDup(s[i..])
    ensures i < |s| ==> Elems(s[i..]) == {s[i]} + Elems(s[i + 1..]) && s[i] !in Elems(s[i + 1..])
  {
    if i == 0 {
    } else {
      Suffix(s[1..], i - 1);
      assert s[1..][i - 1..] == s[i..];
    }
    if i < |s| { assert s[i..][1..] == s[i + 1..]; }
  }

  // ---------------------------------------------------------------- allocation on sets

  ghost predicate Room(marked: set<nat>, n: nat, count: nat) {
    Within(marked, n) && count <= n - |marked|
  }

  lemma NextClear(marked: set<nat>, n: nat, count: nat)
    requires Room(marked, n, count) && count > 0
    ensures var x := LeastClear(marked, n); x < n && x !in marked && Room(marked + {x}, n, count - 1)
  {
    RoomMeansClear(marked, n);
  }

  /** The sectors returned by count calls of Find, one after the other. */
  ghost function Taken(marked: set<nat>, n: nat, count: nat): (s: seq<nat>)
    requires Room(marked, n, count)
    ensures |s| == count
    decreases count
  {
    if count == 0 then []
    else
      var x := LeastClear(marked, n);
      NextClear(marked, n, count);
      [x] + Taken(marked + {x}, n, count - 1)
  }

  lemma NextTaken(marked: set<nat>, n: nat, count: nat)
    requires Room(marked, n, count) && count > 0
    ensures var x, s := LeastClear(marked, n), Taken(marked, n, count);
            && x < n && Room(marked + {x}, n, count - 1)
            && s == [x] + Taken(marked + {x}, n, count - 1)
            && Elems(s) == {x} + Elems(Taken(marked + {x}, n, count - 1))
  {
    NextClear(marked, n, count);
    var s := Taken(marked, n, count);
    assert s[1..] == Taken(marked + {LeastClear(marked, n)}, n, count - 1);
  }

  /** done has been taken, now is marked and left are still to be taken. */
  ghost predicate Underway(done: seq<nat>, now: set<nat>, left: nat, all: seq<nat>, last: set<nat>) {
    && Room(now, NumSectors, left)
    && all == done + Taken(now, NumSectors, left) && last == now + Elems(Taken(now, NumSectors, left))
  }

  lemma UnderwayStart(now: set<nat>, count: nat) returns (all: seq<nat>, last: set<nat>)
    requires Room(now, NumSectors, count)
    ensures all == Taken(now, NumSectors, count) && last == now + Elems(all) && Underway([], now, count, all, last) == true
  {
    all := Taken(now, NumSectors, count);
    last := now + Elems(all);
    assert [] + all == all;
  }

  lemma UnderwayStep(done: seq<nat>, now: set<nat>, left: nat, all: seq<nat>, last: set<nat>)
    requires Underway(done, now, left, all, last) && left > 0
    ensures var x := LeastClear(now, NumSectors);
            x < NumSectors && Underway(done + [x], now + {x}, left - 1, all, last) == true
  {
    NextTaken(now, NumSectors, left);
  }

  lemma UnderwayEnd(done: seq<nat>, now: set<nat>, all: seq<nat>, last: set<nat>)
    requires Underway(done, now, 0, all, last)
    ensures all == done && last == now
  {}

  /** The sectors taken are distinct, were clear and lie on the disk. */
  lemma {:induction false} TakenAreFresh(marked: set<nat>, n: nat, count: nat)
    requires Room(marked, n, count)
    ensures var s := Taken(marked, n, count); NoDup(s) && Elems(s) !! marked && Within(Elems(s), n)
    decreases count
  {
    if count == 0 {
    } else {
      NextClear(marked, n, count);
      NextTaken(marked, n, count);
      var x := LeastClear(marked, n);
      TakenAreFresh(marked + {x}, n, count - 1);
      NoDupFront(x, Taken(marked + {x}, n, count - 1));
    }
  }

  /** The sectors taken are the first that are clear, in order. */
  lemma {:induction false} TakenInOrder(marked: set<nat>, n: nat, count: nat, i: nat, x: nat)
    requires Room(marked, n, count) && i < count
    ensures var s := Taken(marked, n, count); s[i] !in marked && (x < s[i] ==> x in marked || x in s[..i])
    decreases count
  {
    NextTaken(marked, n, count);
    var first := LeastClear(marked, n);
    var s := Taken(marked, n, count);
    if i == 0 {
    } else {
      TakenInOrder(marked + {first}, n, count - 1, i - 1, x);
      assert s[..i] == [first] + s[1..][..i - 1];
    }
  }

  lemma NoDupFront(x: nat, s: seq<nat>)
    requires NoDup(s) && x !in Elems(s)
    ensures NoDup([x] + s)
  {
    assert ([x] + s)[1..] == s;
  }

  ghost function Allocated(marked: set<nat>, fileSize: int): Option<(Header, set<nat>)>
    requires Within(marked, NumSectors)
  {
    if ToUnsigned(fileSize) > MaxFileSize || fileSize < 0 then None
    else
      var n := DivRoundUp(fileSize, SectorSize);
      if NumSectors - |marked| < n then None
      else var s := Taken(marked, NumSectors, n); Some((Header(fileSize, s), marked + Elems(s)))
  }

  /** Allocate succeeds exactly when the size is in range and there is room, and then takes
      distinct sectors that were clear. */
  lemma AllocateIsExact(marked: set<nat>, fileSize: int)
    requires Within(marked, NumSectors) && -0x8000_0000 <= fileSize < 0x8000_0000
    ensures Allocated(marked, fileSize).Some? <==>
              0 <= fileSize <= MaxFileSize && |marked| + DivRoundUp(fileSize, SectorSize) <= NumSectors
    ensures Allocated(marked, fileSize).Some? ==>
              var (h, marked') := Allocated(marked, fileSize).value;
              && HeaderOk(h) && h.numBytes == fileSize && Elems(h.sectors) !! marked
              && marked' == marked + Elems(h.sectors) && Within(marked', NumSectors)
  {
    if Allocated(marked, fileSize).Some? {
      TakenAreFresh(marked, NumSectors, DivRoundUp(fileSize, SectorSize));
    }
  }

  /** What Deallocate leaves marked: a file of exactly NumDirect sectors keeps them all. */
  function Deallocated(marked: set<nat>, h: Header): set<nat> {
    if |h.sectors| < NumDirect then marked - Elems(h.sectors) else marked
  }

  // ---------------------------------------------------------------- the class

  class FileHeader {
    var numBytes: int
    var numSectors: int
    const dataSectors: array<nat>

    ghost predicate Valid() {
      dataSectors.Length == NumDirect
    }

    ghost predicate Holds(h: Header)
      reads this, dataSectors
    {
      && Valid() && 0 <= numSectors <= NumDirect
      && numBytes == h.numBytes && dataSectors[..numSectors] == h.sectors
    }

    constructor ()
      ensures Valid() && fresh(dataSectors)
    {
      dataSectors := new nat[NumDirect];
    }

    method FetchFrom(h: Header)
      requires Valid() && |h.sectors| <= NumDirect
      modifies this, dataSectors
      ensures Holds(h)
    {
      numBytes, numSectors := h.numBytes, |h.sectors|;
      forall i | 0 <= i < |h.sectors| { dataSectors[i] := h.sectors[i]; }
    }

    method Contents(ghost h: Header) returns (r: Header)
      requires Holds(h)
      ensures r == h
    {
      r := Header(numBytes, dataSectors[..numSectors]);
    }

    method Allocate(freeMap: BitMap, fileSize: int) returns (ok: bool)
      requires Valid() && freeMap.Valid() && freeMap.numBits == NumSectors
      requires -0x8000_0000 <= fileSize < 0x8000_0000
      modifies this, dataSectors, freeMap.words
      ensures Within(old(freeMap.View()), NumSectors)
      ensures match Allocated(old(freeMap.View()), fileSize)
              case None => !ok && freeMap.View() == old(freeMap.View())
              case Some((h, marked)) => ok && Holds(h) && freeMap.View() == marked
    {
      var clear := freeMap.NumClear();
      if ToUnsigned(fileSize) > MaxFileSize {
        return false;
      }
      numBytes := fileSize;
      numSectors := DivRoundUp(fileSize, SectorSize);
      if clear < numSectors { return false; }
      AllocateSectors(freeMap, numSectors);
      return true;
    }

    /** The loop of Allocate; the indirect branch is not reached. */
    method AllocateSectors(freeMap: BitMap, count: nat)
      requires Valid() && freeMap.Valid() && freeMap.numBits == NumSectors && count <= NumDirect
      requires Room(freeMap.View(), NumSectors, count)
      modifies dataSectors, freeMap.words
      ensures var s := Taken(old(freeMap.View()), NumSectors, count);
              dataSectors[..count] == s && freeMap.View() == old(freeMap.View()) + Elems(s)
    {
      ghost var now := freeMap.View();
      ghost var all, last := UnderwayStart(now, count);
      ghost var done: seq<nat> := [];
      var sectorsToAllocate, i := count, 0;
      while sectorsToAllocate > 0
        invariant i + sectorsToAllocate == count && 0 <= i && 0 <= sectorsToAllocate
        invariant freeMap.View() == now && dataSectors[..i] == done && Underway(done, now, sectorsToAllocate, all, last) == true
      {
        UnderwayStep(done, now, sectorsToAllocate, all, last);
        StoreNext(freeMap, i, now);
        done, now := done + [LeastClear(now, NumSectors)], now + {LeastClear(now, NumSectors)};
        sectorsToAllocate := sectorsToAllocate - 1;
        i := i + 1;
      }
      UnderwayEnd(done, now, all, last);
    }

    /** The next entry of the table is the least clear sector, which is marked. */
    method StoreNext(freeMap: BitMap, i: nat, ghost now: set<nat>)
      requires Valid() && freeMap.Valid() && freeMap.numBits == NumSectors && i < NumDirect
      requires freeMap.View() == now && LeastClear(now, NumSectors) < NumSectors
      modifies dataSectors, freeMap.words
      ensures var x := LeastClear(now, NumSectors);
              && freeMap.View() == now + {x}
              && dataSectors[..i + 1] == old(dataSectors[..i]) + [x]
    {
      var sector := freeMap.Find();
      dataSectors[i] := sector;
    }

    method Deallocate(freeMap: BitMap, ghost h: Header)
      requires Holds(h) && HeaderOk(h) && freeMap.Valid() && freeMap.numBits == NumSectors
      requires |h.sectors| < NumDirect ==> Elems(h.sectors) <= freeMap.View()
      modifies freeMap.words
      ensures freeMap.View() == Deallocated(old(freeMap.View()), h)
    {
      ghost var was := freeMap.View();
      for i := 0 to numSectors
        invariant Holds(h)
        invariant numSectors < NumDirect ==>
                    && Elems(h.sectors[i..]) <= freeMap.View()
                    && freeMap.View() - Elems(h.sectors[i..]) == was - Elems(h.sectors)
        invariant numSectors == NumDirect ==> freeMap.View() == was
      {
        if numSectors < NumDirect {
          Suffix(h.sectors, i);
          var marked := freeMap.Test(dataSectors[i]);
          assert marked;
          freeMap.Clear(dataSectors[i]);
        }
      }
    }

    method ByteToSector(offset: nat, ghost h: Header) returns (sector: nat)
      requires Holds(h) && offset / SectorSize < |h.sectors|
      ensures sector == h.sectors[offset / SectorSize]
    {
      sector := dataSectors[offset / SectorSize];
    }
  }
}
