/**
 The file system (filesys/filesys.cc) in the FILESYS build.  What Create and Remove do is given on
 the contents of the disk: the bitmap file, the directory file and the file headers.  The main
 result says which sectors are marked after any run of operations.
 */
module FileSystems {
  import opened Options
  import opened BitMaps
  import opened FileHeaders
  import opened Directories
  import OpenFiles

  const FreeMapSector: nat := 0
  const DirectorySector: nat := 1
  const NumDirEntries: nat := 10
  const FreeMapFileSize: nat := 128        // NumSectors / BitsInByte
  const DirectoryFileSize: nat := 200      // 10 entries of sizeof(DirectoryEntry) == 20

  datatype Disk = Disk(marked: set<nat>, table: seq<Entry>, headers: map<nat, Header>)

  const MapHeader := Header(FreeMapFileSize, [2])
  const DirHeader := Header(DirectoryFileSize, [3, 4])
  const System: set<nat> := {0, 1, 2, 3, 4}

  /** The header and data sectors of the file in slot i. */
  ghost function Owned(d: Disk, i: nat): set<nat>
    requires i < |d.table| && d.table[i].sector in d.headers
  {
    {d.table[i].sector} + Elems(d.headers[d.table[i].sector].sectors)
  }

  ghost predicate InUse(d: Disk, i: nat) {
    i < |d.table| && d.table[i].inUse
  }

  ghost predicate FileOk(d: Disk, i: nat, leaked: set<nat>) {
    && i < |d.table| && d.table[i].sector in d.headers
    && HeaderOk(d.headers[d.table[i].sector])
    && d.table[i].sector !in Elems(d.headers[d.table[i].sector].sectors)
    && Owned(d, i) <= d.marked && Owned(d, i) !! System + leaked
  }

  ghost predicate Apart(d: Disk, i: nat, j: nat) {
    && i < |d.table| && d.table[i].sector in d.headers && j < |d.table| && d.table[j].sector in d.headers
    && Owned(d, i) !! Owned(d, j)
  }

  ghost predicate OwnedBy(d: Disk, x: nat, i: nat) {
    i < |d.table| && d.table[i].inUse && d.table[i].sector in d.headers && x in Owned(d, i)
  }

  /** The marked sectors are exactly those of the system, of the listed files and the leaked ones,
      and no sector belongs to two of these. */
  ghost predicate Inv(d: Disk, leaked: set<nat>) {
    && Within(d.marked, NumSectors) && |d.table| == NumDirEntries && Unique(d.table)
    && FreeMapSector in d.headers && d.headers[FreeMapSector] == MapHeader
    && DirectorySector in d.headers && d.headers[DirectorySector] == DirHeader
    && System <= d.marked && leaked <= d.marked && leaked !! System
    && (forall i: nat {:trigger FileOk(d, i, leaked)} :: InUse(d, i) ==> FileOk(d, i, leaked))
    && (forall i: nat, j: nat {:trigger Apart(d, i, j)} :: InUse(d, i) && InUse(d, j) && i != j ==> Apart(d, i, j))
    && (forall x <- d.marked :: x in System || x in leaked || exists i: nat :: OwnedBy(d, x, i))
  }

  // ---------------------------------------------------------------- the operations

  /** The disk after formatting. */
  ghost predicate Formatted(d: Disk) {
    && d.marked == System && |d.table| == NumDirEntries && (forall e <- d.table :: !e.inUse)
    && d.headers == map[FreeMapSector := MapHeader, DirectorySector := DirHeader]
  }

  ghost function Created(d: Disk, name: string, initialSize: int): (Disk, bool)
    requires Within(d.marked, NumSectors)
  {
    var sector, slot := LeastClear(d.marked, NumSectors), FreeSlot(d.table);
    if Find(d.table, name) < |d.table| then (d, false)
    else if sector == NumSectors then (d, false)
    else if slot == |d.table| then (d, false)
    else match Allocated(d.marked + {sector}, initialSize)
      case None => (d, false)
      case Some((h, marked)) =>
        (Disk(marked, d.table[slot := Entry(true, sector, Key(name))], d.headers[sector := h]), true)
  }

  /** The file in slot i is given up. */
  ghost function Dropped(d: Disk, i: nat): Disk
    requires i < |d.table| && d.table[i].sector in d.headers
  {
    var sector := d.table[i].sector;
    Disk(Deallocated(d.marked, d.headers[sector]) - {sector}, d.table[i := d.table[i].(inUse := false)], d.headers)
  }

  ghost function Removed(d: Disk, name: string): (Disk, bool)
    requires forall i: nat :: InUse(d, i) ==> d.table[i].sector in d.headers
  {
    var i := Find(d.table, name);
    if i == |d.table| then (d, false)
    else
      assert InUse(d, i);
      (Dropped(d, i), true)
  }

  // ---------------------------------------------------------------- one operation keeps the invariant

  lemma FormattedInv(d: Disk)
    requires Formatted(d)
    ensures Inv(d, {})
  {
    assert forall i: nat :: i < |d.table| ==> d.table[i] in d.table;
  }

  /** A new file h, headed by sector, enters slot. */
  ghost function Installed(d: Disk, slot: nat, sector: nat, name: string, h: Header): Disk
    requires slot < |d.table|
  {
    Disk(d.marked + {sector} + Elems(h.sectors), d.table[slot := Entry(true, sector, Key(name))], d.headers[sector := h])
  }

  ghost predicate Installable(d: Disk, slot: nat, sector: nat, name: string, h: Header) {
    && slot < |d.table| && !d.table[slot].inUse && Find(d.table, name) == |d.table|
    && sector < NumSectors && sector !in d.marked
    && HeaderOk(h) && Elems(h.sectors) !! d.marked + {sector}
  }

  lemma OldFileKept(d: Disk, leaked: set<nat>, slot: nat, sector: nat, name: string, h: Header, i: nat)
    requires Inv(d, leaked) && Installable(d, slot, sector, name, h) && InUse(d, i)
    ensures var d' := Installed(d, slot, sector, name, h);
            i != slot && FileOk(d, i, leaked) && FileOk(d', i, leaked) && Owned(d', i) == Owned(d, i) && InUse(d', i)
  {
    assert FileOk(d, i, leaked);
  }

  lemma NewFileOk(d: Disk, leaked: set<nat>, slot: nat, sector: nat, name: string, h: Header)
    requires Inv(d, leaked) && Installable(d, slot, sector, name, h)
    ensures var d' := Installed(d, slot, sector, name, h);
            InUse(d', slot) && FileOk(d', slot, leaked) && Owned(d', slot) == {sector} + Elems(h.sectors)
  {}

  lemma InstallInv(d: Disk, leaked: set<nat>, slot: nat, sector: nat, name: string, h: Header)
    requires Inv(d, leaked) && Installable(d, slot, sector, name, h)
    ensures Inv(Installed(d, slot, sector, name, h), leaked)
  {
    var d' := Installed(d, slot, sector, name, h);
    FindAfterAdd(d.table, slot, sector, name, name);
    NewFileOk(d, leaked, slot, sector, name, h);
    forall i: nat | InUse(d', i) ensures FileOk(d', i, leaked) {
      if i != slot { OldFileKept(d, leaked, slot, sector, name, h, i); }
    }
    forall i: nat, j: nat | InUse(d', i) && InUse(d', j) && i != j ensures Apart(d', i, j) {
      if i != slot { OldFileKept(d, leaked, slot, sector, name, h, i); assert FileOk(d, i, leaked); }
      if j != slot { OldFileKept(d, leaked, slot, sector, name, h, j); assert FileOk(d, j, leaked); }
      if i != slot && j != slot { assert Apart(d, i, j); }
    }
    forall x <- d'.marked ensures x in System || x in leaked || exists i: nat :: OwnedBy(d', x, i) {
      if x in d.marked {
        if x !in System && x !in leaked {
          var i: nat :| OwnedBy(d, x, i);
          OldFileKept(d, leaked, slot, sector, name, h, i);
          assert OwnedBy(d', x, i);
        }
      } else {
        assert OwnedBy(d', x, slot);
      }
    }
  }

  lemma CreateInstalls(d: Disk, leaked: set<nat>, name: string, initialSize: int)
    requires Inv(d, leaked) && -0x8000_0000 <= initialSize < 0x8000_0000 && Created(d, name, initialSize).1
    ensures var sector, slot := LeastClear(d.marked, NumSectors), FreeSlot(d.table);
            && sector < NumSectors
            && Allocated(d.marked + {sector}, initialSize).Some?
            && var h := Allocated(d.marked + {sector}, initialSize).value.0;
               && Installable(d, slot, sector, name, h) && h.numBytes == initialSize
               && Created(d, name, initialSize).0 == Installed(d, slot, sector, name, h)
  {
    AllocateIsExact(d.marked + {LeastClear(d.marked, NumSectors)}, initialSize);
  }

  lemma CreateInv(d: Disk, leaked: set<nat>, name: string, initialSize: int)
    requires Inv(d, leaked) && -0x8000_0000 <= initialSize < 0x8000_0000
    ensures Inv(Created(d, name, initialSize).0, leaked)
  {
    if Created(d, name, initialSize).1 {
      CreateInstalls(d, leaked, name, initialSize);
      var sector, slot := LeastClear(d.marked, NumSectors), FreeSlot(d.table);
      InstallInv(d, leaked, slot, sector, name, Allocated(d.marked + {sector}, initialSize).value.0);
    }
  }

  ghost predicate Listed(d: Disk, name: string) {
    exists i :: 0 <= i < |d.table| && Names(d.table[i], name)
  }

  ghost predicate HasFreeEntry(d: Disk) {
    exists i :: 0 <= i < |d.table| && !d.table[i].inUse
  }

  /** Create succeeds exactly if the name is new, an entry is free, the size is one that a file can have, and
      there is room for the header and for sectors that hold the data; if not, it changes nothing. */
  lemma CreateSucceedsExactly(d: Disk, name: string, initialSize: int, count: nat)
    requires Within(d.marked, NumSectors) && -0x8000_0000 <= initialSize < 0x8000_0000
    requires (count as int - 1) * SectorSize < initialSize <= count * SectorSize || initialSize < 0
    ensures Created(d, name, initialSize).1 <==>
              !Listed(d, name) && HasFreeEntry(d) && 0 <= initialSize <= MaxFileSize && |d.marked| + 1 + count <= NumSectors
    ensures !Created(d, name, initialSize).1 ==> Created(d, name, initialSize).0 == d
  {
    var sector, slot := LeastClear(d.marked, NumSectors), FreeSlot(d.table);
    assert Listed(d, name) <==> Find(d.table, name) < |d.table|;
    assert HasFreeEntry(d) <==> slot < |d.table|;
    RoomMeansClear(d.marked, NumSectors);
    if sector < NumSectors {
      assert |d.marked + {sector}| == |d.marked| + 1;
      AllocateIsExact(d.marked + {sector}, initialSize);
      if initialSize >= 0 {
        SectorsHold(initialSize, count);
        if count > 0 { SectorsHold(initialSize, count - 1); }
      }
    }
  }

  lemma HeadersThere(d: Disk, leaked: set<nat>)
    requires Inv(d, leaked)
    ensures forall i: nat :: InUse(d, i) ==> d.table[i].sector in d.headers
  {
    forall i: nat | InUse(d, i) ensures d.table[i].sector in d.headers { assert FileOk(d, i, leaked); }
  }

  /** The data sectors that giving up slot i leaves marked. */
  ghost function LeakAt(d: Disk, i: nat): set<nat>
    requires i < |d.table| && d.table[i].sector in d.headers
  {
    var h := d.headers[d.table[i].sector];
    if |h.sectors| < NumDirect then {} else Elems(h.sectors)
  }

  /** What changes when slot i is given up: its file's sectors are cleared or have leaked. */
  lemma DropFacts(d: Disk, leaked: set<nat>, i: nat)
    requires Inv(d, leaked) && InUse(d, i)
    ensures FileOk(d, i, leaked)
    ensures Dropped(d, i).marked == d.marked - Owned(d, i) + LeakAt(d, i)
    ensures LeakAt(d, i) <= Owned(d, i)
  {
    assert FileOk(d, i, leaked);
  }

  lemma OtherFileKept(d: Disk, leaked: set<nat>, i: nat, j: nat)
    requires Inv(d, leaked) && InUse(d, i) && InUse(d, j) && i != j && FileOk(d, i, leaked)
    ensures InUse(Dropped(d, i), j) && FileOk(d, j, leaked) && FileOk(Dropped(d, i), j, leaked + LeakAt(d, i))
    ensures Owned(Dropped(d, i), j) == Owned(d, j)
  {
    DropFacts(d, leaked, i);
    assert FileOk(d, j, leaked) && Apart(d, i, j);
  }

  lemma CoverAfterDrop(d: Disk, leaked: set<nat>, i: nat, x: nat)
    requires Inv(d, leaked) && InUse(d, i) && FileOk(d, i, leaked) && x in Dropped(d, i).marked
    ensures x in System || x in leaked + LeakAt(d, i) || exists j: nat :: OwnedBy(Dropped(d, i), x, j)
  {
    DropFacts(d, leaked, i);
    if x !in System && x !in leaked {
      var j: nat :| OwnedBy(d, x, j);
      if j != i {
        OtherFileKept(d, leaked, i, j);
        assert OwnedBy(Dropped(d, i), x, j);
      }
    }
  }

  lemma DropInv(d: Disk, leaked: set<nat>, i: nat)
    requires Inv(d, leaked) && InUse(d, i)
    ensures FileOk(d, i, leaked)
    ensures Inv(Dropped(d, i), leaked + LeakAt(d, i))
  {
    DropFacts(d, leaked, i);
    var d', leaked' := Dropped(d, i), leaked + LeakAt(d, i);
    forall j: nat | InUse(d', j) ensures FileOk(d', j, leaked') {
      OtherFileKept(d, leaked, i, j);
    }
    forall j: nat, k: nat | InUse(d', j) && InUse(d', k) && j != k ensures Apart(d', j, k) {
      OtherFileKept(d, leaked, i, j);
      OtherFileKept(d, leaked, i, k);
      assert Apart(d, j, k);
    }
    forall x <- d'.marked ensures x in System || x in leaked' || exists j: nat :: OwnedBy(d', x, j) {
      CoverAfterDrop(d, leaked, i, x);
    }
  }

  /** The data sectors that Remove does not give back. */
  ghost function LeakOf(d: Disk, name: string): set<nat>
    requires forall i: nat :: InUse(d, i) ==> d.table[i].sector in d.headers
  {
    var i := Find(d.table, name);
    if i == |d.table| then {} else assert InUse(d, i); LeakAt(d, i)
  }

  lemma RemoveInv(d: Disk, leaked: set<nat>, name: string)
    requires Inv(d, leaked)
    ensures forall i: nat :: InUse(d, i) ==> d.table[i].sector in d.headers
    ensures Inv(Removed(d, name).0, leaked + LeakOf(d, name))
  {
    HeadersThere(d, leaked);
    var i := Find(d.table, name);
    if i < |d.table| {
      assert InUse(d, i);
      DropInv(d, leaked, i);
    } else {
      assert leaked + {} == leaked;
    }
  }

  /** Remove succeeds exactly if the name is listed, and else changes nothing; afterwards the name is not listed,
      and every other name has the entry and the header that it had. */
  lemma RemoveSucceedsExactly(d: Disk, leaked: set<nat>, name: string, other: string)
    requires Inv(d, leaked)
    ensures forall i: nat :: InUse(d, i) ==> d.table[i].sector in d.headers
    ensures var (d', ok) := Removed(d, name);
            && (ok <==> Listed(d, name)) && (!ok ==> d' == d) && d'.headers == d.headers && !Listed(d', name)
            && var i := Find(d.table, other);
               if i == |d.table| || SameName(other, name) then !Listed(d', other)
               else Find(d'.table, other) == i && d'.table[i] == d.table[i]
  {
    HeadersThere(d, leaked);
    NineCharactersCount(other, name);
    var (d', ok) := Removed(d, name);
    assert Listed(d, name) <==> Find(d.table, name) < |d.table|;
    assert Listed(d', name) <==> Find(d'.table, name) < |d'.table|;
    assert Listed(d', other) <==> Find(d'.table, other) < |d'.table|;
    if ok {
      FindAfterRemove(d.table, name, name);
      FindAfterRemove(d.table, name, other);
    } else if Key(other) == Key(name) {
      FoundOnce(d.table, name, Find(d.table, name), Find(d.table, other));
    }
  }

  // ---------------------------------------------------------------- every run

  datatype Op = Create(name: string, initialSize: int) | Remove(name: string)

  predicate Legal(ops: seq<Op>) {
    forall op <- ops :: op.Create? ==> -0x8000_0000 <= op.initialSize < 0x8000_0000
  }

  /** The disk after one operation, and what has leaked by then. */
  ghost function Step(d: Disk, leaked: set<nat>, op: Op): (r: (Disk, set<nat>))
    requires Inv(d, leaked) && Legal([op])
    ensures Inv(r.0, r.1)
  {
    HeadersThere(d, leaked);
    assert op in [op];
    match op
    case Create(name, initialSize) => CreateInv(d, leaked, name, initialSize); (Created(d, name, initialSize).0, leaked)
    case Remove(name) => RemoveInv(d, leaked, name); (Removed(d, name).0, leaked + LeakOf(d, name))
  }

  /** The disk after any run, and what has leaked: the marked sectors are exactly the disjoint
      union of the system's, the listed files' and the leaked ones. */
  ghost function After(d: Disk, leaked: set<nat>, ops: seq<Op>): (r: (Disk, set<nat>))
    requires Inv(d, leaked) && Legal(ops)
    ensures Inv(r.0, r.1)
    decreases |ops|
  {
    if ops == [] then (d, leaked)
    else var (d1, l1) := Step(d, leaked, ops[0]); After(d1, l1, ops[1..])
  }

  /** op removes a file of exactly NumDirect sectors. */
  ghost predicate RemovesFullFile(d: Disk, leaked: set<nat>, op: Op)
    requires Inv(d, leaked)
  {
    && op.Remove? && Find(d.table, op.name) < |d.table|
    && var i := Find(d.table, op.name);
       d.table[i].sector in d.headers && |d.headers[d.table[i].sector].sectors| == NumDirect
  }

  ghost predicate NeverRemovesFullFile(d: Disk, leaked: set<nat>, ops: seq<Op>)
    requires Inv(d, leaked) && Legal(ops)
    decreases |ops|
  {
    || ops == []
    || (!RemovesFullFile(d, leaked, ops[0])
        && var (d1, l1) := Step(d, leaked, ops[0]); NeverRemovesFullFile(d1, l1, ops[1..]))
  }

  lemma StepLeak(d: Disk, leaked: set<nat>, op: Op)
    requires Inv(d, leaked) && Legal([op])
    ensures leaked <= Step(d, leaked, op).1
    ensures Step(d, leaked, op).1 == leaked <==> !RemovesFullFile(d, leaked, op)
  {
    HeadersThere(d, leaked);
    if op.Remove? {
      var i := Find(d.table, op.name);
      if i < |d.table| {
        assert InUse(d, i) && FileOk(d, i, leaked);
        var h := d.headers[d.table[i].sector];
        assert |h.sectors| <= NumDirect;
        if |h.sectors| == NumDirect { assert h.sectors[0] in Elems(h.sectors); }
      }
    }
  }

  lemma {:induction false} LeakGrows(d: Disk, leaked: set<nat>, ops: seq<Op>)
    requires Inv(d, leaked) && Legal(ops)
    ensures leaked <= After(d, leaked, ops).1
    ensures After(d, leaked, ops).1 == leaked <==> NeverRemovesFullFile(d, leaked, ops)
    decreases |ops|
  {
    if ops == [] {
    } else {
      assert ops[0] in ops;
      StepLeak(d, leaked, ops[0]);
      var (d1, l1) := Step(d, leaked, ops[0]);
      LeakGrows(d1, l1, ops[1..]);
    }
  }

  /** A file created with fewer than NumDirect sectors. */
  predicate BelowFull(initialSize: int) {
    initialSize <= (NumDirect - 1) * SectorSize
  }

  ghost predicate SmallFile(d: Disk, i: nat) {
    && i < |d.table| && d.table[i].sector in d.headers
    && |d.headers[d.table[i].sector].sectors| < NumDirect
  }

  ghost predicate AllSmall(d: Disk) {
    forall i: nat {:trigger SmallFile(d, i)} :: InUse(d, i) ==> SmallFile(d, i)
  }

  lemma StepStaysSmall(d: Disk, leaked: set<nat>, op: Op)
    requires Inv(d, leaked) && Legal([op]) && AllSmall(d) && (op.Create? ==> BelowFull(op.initialSize))
    ensures AllSmall(Step(d, leaked, op).0) && !RemovesFullFile(d, leaked, op)
  {
    HeadersThere(d, leaked);
    assert op in [op];
    if op.Create? && Created(d, op.name, op.initialSize).1 {
      CreateInstalls(d, leaked, op.name, op.initialSize);
      var sector, slot := LeastClear(d.marked, NumSectors), FreeSlot(d.table);
      forall i: nat | InUse(Step(d, leaked, op).0, i) ensures SmallFile(Step(d, leaked, op).0, i) {
        if i != slot { assert FileOk(d, i, leaked) && SmallFile(d, i); }
      }
    } else if op.Remove? && Find(d.table, op.name) < |d.table| {
      assert InUse(d, Find(d.table, op.name)) && SmallFile(d, Find(d.table, op.name));
      forall i: nat | InUse(Step(d, leaked, op).0, i) ensures SmallFile(Step(d, leaked, op).0, i) {
        assert SmallFile(d, i);
      }
    }
  }

  lemma {:induction false} SmallFilesNeverLeak(d: Disk, leaked: set<nat>, ops: seq<Op>)
    requires Inv(d, leaked) && Legal(ops) && AllSmall(d)
    requires forall op <- ops :: op.Create? ==> BelowFull(op.initialSize)
    ensures NeverRemovesFullFile(d, leaked, ops)
    decreases |ops|
  {
    if ops == [] {
    } else {
      assert ops[0] in ops;
      StepStaysSmall(d, leaked, ops[0]);
      var (d1, l1) := Step(d, leaked, ops[0]);
      SmallFilesNeverLeak(d1, l1, ops[1..]);
    }
  }

  /** From a fresh format, any run that creates only files below NumDirect sectors leaves marked
      exactly the sectors of the system and of the listed files, each belonging to one of them. */
  lemma MarkedIsOwned(d0: Disk, ops: seq<Op>, x: nat)
    requires Formatted(d0) && Legal(ops) && forall op <- ops :: op.Create? ==> BelowFull(op.initialSize)
    ensures Inv(d0, {}) && Inv(After(d0, {}, ops).0, {})
    ensures var d := After(d0, {}, ops).0; x in d.marked <==> x in System || exists i: nat :: OwnedBy(d, x, i)
    ensures var d := After(d0, {}, ops).0;
            forall i: nat, j: nat :: OwnedBy(d, x, i) && OwnedBy(d, x, j) ==> i == j && x !in System
  {
    FormattedInv(d0);
    assert AllSmall(d0) by { assert forall i: nat :: i < |d0.table| ==> d0.table[i] in d0.table; }
    SmallFilesNeverLeak(d0, {}, ops);
    LeakGrows(d0, {}, ops);
    var d := After(d0, {}, ops).0;
    forall i: nat, j: nat | OwnedBy(d, x, i) && OwnedBy(d, x, j) ensures i == j && x !in System {
      assert InUse(d, i) && InUse(d, j) && FileOk(d, i, {});
      assert i != j ==> Apart(d, i, j);
    }
    if i: nat :| OwnedBy(d, x, i) { assert InUse(d, i) && FileOk(d, i, {}); }
  }

  // ---------------------------------------------------------------- looking up, and undoing Create

  /** A successful Create makes name, and only name, open a file of the size asked for. */
  lemma CreateThenFind(d: Disk, leaked: set<nat>, name: string, initialSize: int, other: string)
    requires Inv(d, leaked) && -0x8000_0000 <= initialSize < 0x8000_0000 && Created(d, name, initialSize).1
    ensures var d' := Created(d, name, initialSize).0;
            var i := Find(d'.table, other);
            if Key(other) == Key(name)
            then InUse(d', i) && FileOk(d', i, leaked) && d'.headers[d'.table[i].sector].numBytes == initialSize
            else i == Find(d.table, other) &&
                 (i < |d.table| ==> InUse(d, i) && d'.table[i] == d.table[i] && FileOk(d, i, leaked)
                                    && FileOk(d', i, leaked)
                                    && d'.headers[d'.table[i].sector] == d.headers[d.table[i].sector])
  {
    CreateInstalls(d, leaked, name, initialSize);
    var sector, slot := LeastClear(d.marked, NumSectors), FreeSlot(d.table);
    var h := Allocated(d.marked + {sector}, initialSize).value.0;
    FindAfterAdd(d.table, slot, sector, name, other);
    NewFileOk(d, leaked, slot, sector, name, h);
    if Key(other) != Key(name) && Find(d.table, other) < |d.table| {
      OldFileKept(d, leaked, slot, sector, name, h, Find(d.table, other));
    }
  }

  /** Remove undoes Create: every name is found where it was before, and the bitmap is as before
      exactly when the file had fewer than NumDirect sectors. */
  lemma CreateThenRemove(d: Disk, leaked: set<nat>, name: string, initialSize: int, other: string)
    requires Inv(d, leaked) && -0x8000_0000 <= initialSize < 0x8000_0000 && Created(d, name, initialSize).1
    ensures var d1 := Created(d, name, initialSize).0;
            Inv(d1, leaked) && forall i: nat :: InUse(d1, i) ==> d1.table[i].sector in d1.headers
    ensures var (d2, ok) := Removed(Created(d, name, initialSize).0, name);
            && ok && Find(d2.table, other) == Find(d.table, other)
            && (d2.marked == d.marked <==> BelowFull(initialSize))
  {
    CreateInv(d, leaked, name, initialSize);
    CreateInstalls(d, leaked, name, initialSize);
    var d1 := Created(d, name, initialSize).0;
    HeadersThere(d1, leaked);
    var sector, slot := LeastClear(d.marked, NumSectors), FreeSlot(d.table);
    var h := Allocated(d.marked + {sector}, initialSize).value.0;
    FindAfterAdd(d.table, slot, sector, name, name);
    FindAfterAdd(d.table, slot, sector, name, other);
    FindAfterRemove(d1.table, name, other);
    NewFileOk(d, leaked, slot, sector, name, h);
    DropFacts(d1, leaked, slot);
    assert |h.sectors| < NumDirect <==> BelowFull(initialSize);
    if Key(other) == Key(name) { SameKey(d.table, name, other); }
    if |h.sectors| == NumDirect { assert h.sectors[0] in Elems(h.sectors); }
  }

  lemma FirstCreate(d0: Disk, name: string, initialSize: int)
    requires Formatted(d0) && Inv(d0, {}) && 0 <= initialSize <= MaxFileSize
    ensures Created(d0, name, initialSize).1
  {
    RoomMeansClear(d0.marked, NumSectors);
    assert forall i: nat :: i < |d0.table| ==> d0.table[i] in d0.table;
    AllocateIsExact(d0.marked + {LeastClear(d0.marked, NumSectors)}, initialSize);
  }

  lemma SecondLeaks(d: Disk, leaked: set<nat>, a: Op, b: Op)
    requires Inv(d, leaked) && Legal([a]) && Legal([b]) && RemovesFullFile(Step(d, leaked, a).0, Step(d, leaked, a).1, b)
    ensures Legal([a, b]) && !NeverRemovesFullFile(d, leaked, [a, b])
  {
    assert a in [a] && b in [b];
    assert [a, b][1..] == [b];
  }

  lemma FullFileIsRemoved(d0: Disk)
    requires Formatted(d0) && Inv(d0, {})
    ensures var (d1, ok) := Created(d0, "a", MaxFileSize); ok && Inv(d1, {}) && RemovesFullFile(d1, {}, Remove("a"))
  {
    FirstCreate(d0, "a", MaxFileSize);
    CreateInv(d0, {}, "a", MaxFileSize);
    CreateThenFind(d0, {}, "a", MaxFileSize, "a");
  }

  /** On a fresh disk a file of the largest size that is created and removed leaks. */
  lemma FullFileLeaks(d0: Disk)
    requires Formatted(d0) && Inv(d0, {})
    ensures var ops := [Create("a", MaxFileSize), Remove("a")]; Legal(ops) && After(d0, {}, ops).1 != {}
  {
    FullFileIsRemoved(d0);
    SecondLeaks(d0, {}, Create("a", MaxFileSize), Remove("a"));
    LeakGrows(d0, {}, [Create("a", MaxFileSize), Remove("a")]);
  }

  lemma SameKey(table: seq<Entry>, name: string, other: string)
    requires Key(name) == Key(other)
    ensures Find(table, name) == Find(table, other)
  {
    FoundOnce(table, name, Find(table, name), Find(table, other));
  }

  /** What a write to an open file may touch: no header, nothing of the bitmap and the directory,
      and no byte of another listed file. */
  lemma WriteStaysInside(d: Disk, leaked: set<nat>, i: nat, j: nat, disk: OpenFiles.Disk, disk': OpenFiles.Disk)
    requires Inv(d, leaked) && InUse(d, i) && InUse(d, j) && FileOk(d, i, leaked)
    requires OpenFiles.OthersKept(disk, disk', d.headers[d.table[i].sector])
    ensures forall x <- System :: disk'[x] == disk[x]
    ensures d.table[j].sector < NumSectors && disk'[d.table[j].sector] == disk[d.table[j].sector]
    ensures FileOk(d, j, leaked) && OpenFiles.FileOn(d.headers[d.table[j].sector])
    ensures var h := d.headers[d.table[j].sector]; i != j ==> OpenFiles.Contents(disk', h) == OpenFiles.Contents(disk, h)
  {
    assert FileOk(d, j, leaked);
    var h := d.headers[d.table[j].sector];
    OpenFiles.HeaderIsOnDisk(h);
    if i != j {
      assert Apart(d, i, j);
      forall k | 0 <= k < |h.sectors| ensures disk'[h.sectors[k]] == disk[h.sectors[k]] { ElemsMeans(h.sectors, h.sectors[k]); }
      OpenFiles.FlatSame(disk, disk', h.sectors);
    }
  }

  // ---------------------------------------------------------------- the class

  /** The contents of the bitmap file, the directory file and the header sectors. */
  class FileSystem {
    var freeMapFile: seq<Word>
    var directoryFile: seq<Entry>
    var headers: map<nat, Header>

    ghost predicate Valid()
      reads this
    {
      |freeMapFile| * BitsInWord == NumSectors && |directoryFile| == NumDirEntries
    }

    ghost function View(): Disk
      requires Valid()
      reads this
    {
      Disk(Marked(freeMapFile, NumSectors), directoryFile, headers)
    }

    /** The constructor with format set; both assertions hold. */
    constructor ()
      ensures Valid() && Formatted(View())
    {
      var freeMap := new BitMap(NumSectors);
      var directory := new Directory(NumDirEntries);
      var h0, h1 := FormatMap(freeMap);
      headers := map[FreeMapSector := h0, DirectorySector := h1];
      freeMapFile := freeMap.words[..];
      directoryFile := directory.table[..];
    }

    static method FormatMap(freeMap: BitMap) returns (h0: Header, h1: Header)
      requires freeMap.Valid() && freeMap.numBits == NumSectors && freeMap.View() == {}
      modifies freeMap.words
      ensures h0 == MapHeader && h1 == DirHeader && freeMap.View() == System
    {
      freeMap.Mark(FreeMapSector);
      freeMap.Mark(DirectorySector);
      assert freeMap.View() == {0, 1};
      MapFile(freeMap.View());
      h0 := NewHeader(freeMap, FreeMapFileSize, MapHeader);
      DirFile(freeMap.View());
      h1 := NewHeader(freeMap, DirectoryFileSize, DirHeader);
    }

    static method NewHeader(freeMap: BitMap, fileSize: nat, ghost expected: Header) returns (h: Header)
      requires freeMap.Valid() && freeMap.numBits == NumSectors && Within(freeMap.View(), NumSectors) && fileSize <= MaxFileSize
      requires Allocated(freeMap.View(), fileSize).Some? && Allocated(freeMap.View(), fileSize).value.0 == expected
      modifies freeMap.words
      ensures freeMap.View() == old(Allocated(freeMap.View(), fileSize).value.1) && h == expected
    {
      var hdr := new FileHeader();
      var ok := hdr.Allocate(freeMap, fileSize);
      h := hdr.Contents(expected);
    }

    method Create(name: string, initialSize: int) returns (success: bool)
      requires Valid() && -0x8000_0000 <= initialSize < 0x8000_0000
      modifies this
      ensures Valid() && Within(old(View()).marked, NumSectors)
      ensures (View(), success) == Created(old(View()), name, initialSize)
      ensures !success ==> View() == old(View())
    {
      var directory := new Directory(NumDirEntries);
      directory.FetchFrom(directoryFile);
      var found := directory.FindSector(name);
      if found != -1 { return false; }
      var freeMap := new BitMap(NumSectors);
      freeMap.FetchFrom(freeMapFile);
      var sector := freeMap.Find();
      if sector == -1 { return false; }
      var added := directory.Add(name, sector);
      if !added { return false; }
      var hdr := new FileHeader();
      success := hdr.Allocate(freeMap, initialSize);
      if success {
        var h := hdr.Contents(Allocated(old(View()).marked + {sector}, initialSize).value.0);
        headers := headers[sector := h];
        directoryFile := directory.table[..];
        freeMapFile := freeMap.words[..];
      }
    }

    /** The header that the opened file has in memory. */
    method Open(name: string) returns (file: Option<Header>)
      requires Valid() && forall i: nat :: InUse(View(), i) ==> View().table[i].sector in View().headers
      ensures var i := Find(View().table, name);
              file == if i == |View().table| then None
                      else assert InUse(View(), i); Some(View().headers[View().table[i].sector])
    {
      var directory := new Directory(NumDirEntries);
      directory.FetchFrom(directoryFile);
      var sector := directory.FindSector(name);
      assert Find(directoryFile, name) < |directoryFile| ==> InUse(View(), Find(directoryFile, name));
      return if sector >= 0 then Some(headers[sector]) else None;
    }

    /** Deallocate's assertion holds, on every disk that the operations can reach. */
    method Remove(name: string, ghost leaked: set<nat>) returns (removed: bool)
      requires Valid() && Inv(View(), leaked)
      modifies this
      ensures Valid() && forall i: nat :: InUse(old(View()), i) ==> old(View()).table[i].sector in old(View()).headers
      ensures (View(), removed) == Removed(old(View()), name)
      ensures !removed ==> View() == old(View())
    {
      HeadersThere(View(), leaked);
      var directory := new Directory(NumDirEntries);
      directory.FetchFrom(directoryFile);
      var sector := directory.FindSector(name);
      if sector == -1 { return false; }
      assert InUse(View(), Find(directoryFile, name)) && FileOk(View(), Find(directoryFile, name), leaked);
      FreeSectors(headers[sector], sector);
      removed := directory.Remove(name);
      directoryFile := directory.table[..];
      return true;
    }

    method FreeSectors(h: Header, sector: nat)
      requires Valid() && HeaderOk(h) && sector < NumSectors
      requires |h.sectors| < NumDirect ==> Elems(h.sectors) <= Marked(freeMapFile, NumSectors)
      modifies this`freeMapFile
      ensures Valid() && Marked(freeMapFile, NumSectors) == Deallocated(Marked(old(freeMapFile), NumSectors), h) - {sector}
    {
      var fileHdr := new FileHeader();
      fileHdr.FetchFrom(h);
      var freeMap := new BitMap(NumSectors);
      freeMap.FetchFrom(freeMapFile);
      fileHdr.Deallocate(freeMap, h);
      freeMap.Clear(sector);
      freeMapFile := freeMap.words[..];
    }
  }

  /** Formatting takes sector 2 for the bitmap. */
  lemma MapFile(marked: set<nat>)
    requires marked == {0, 1}
    ensures Within(marked, NumSectors) && Allocated(marked, FreeMapFileSize) == Some((MapHeader, {0, 1, 2}))
  {
    TakeNext(marked, 2, 1);
    var s := Taken(marked, NumSectors, 1);
    assert s == [2] && s[1..] == [];
    assert marked + Elems(s) == {0, 1, 2};
  }

  /** Formatting takes sectors 3 and 4 for the directory. */
  lemma DirFile(marked: set<nat>)
    requires marked == {0, 1, 2}
    ensures Within(marked, NumSectors) && Allocated(marked, DirectoryFileSize) == Some((DirHeader, {0, 1, 2, 3, 4}))
  {
    TakeTwo(marked, 3);
    assert marked + {3, 4} == {0, 1, 2, 3, 4};
  }

  lemma TakeTwo(marked: set<nat>, x: nat)
    requires x + 2 <= NumSectors && |marked| == x && forall i: nat :: i in marked <==> i < x
    ensures Room(marked, NumSectors, 2)
    ensures var s := Taken(marked, NumSectors, 2); s == [x, x + 1] && Elems(s) == {x, x + 1}
  {
    TakeNext(marked, x, 2);
    TakeNext(marked + {x}, x + 1, 1);
    var s := Taken(marked, NumSectors, 2);
    assert s[1..] == [x + 1] && s[1..][1..] == [];
    assert Elems(s) == {s[0]} + Elems(s[1..]);
  }

  lemma TakeNext(marked: set<nat>, x: nat, count: nat)
    requires x + count <= NumSectors && count > 0 && |marked| == x && forall i: nat :: i in marked <==> i < x
    ensures Room(marked, NumSectors, count) && Room(marked + {x}, NumSectors, count - 1)
    ensures Taken(marked, NumSectors, count) == [x] + Taken(marked + {x}, NumSectors, count - 1)
  {
    var r := LeastClear(marked, NumSectors);
    assert r in marked || !(r < x);
    assert x !in marked;
    NextTaken(marked, NumSectors, count);
  }
}
