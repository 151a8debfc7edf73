/**
 Open files (filesys/openfile.cc): reads and writes of any range of bytes, done in whole sectors.
 A file is a flat array of bytes, its contents; the sectors that hold it are the implementation.
 */
module OpenFiles {
  import opened FileHeaders
  import W = Words

  type Byte = bv8
  type Sector = s: seq<Byte> | |s| == SectorSize witness seq(SectorSize, _ => 0)
  const Blank: Sector := seq(SectorSize, _ => 0)
  type Disk = d: seq<Sector> | |d| == NumSectors witness seq(NumSectors, _ => Blank)

  const MaxInt: int := 0x7fff_ffff

  // ---------------------------------------------------------------- the flat file

  /** How many bytes of a request are inside a file of this length. */
  function Clip(length: nat, numBytes: int, position: int): (n: nat)
    ensures n > 0 ==> 0 <= position && position + n <= length
  {
    if numBytes <= 0 || position >= length || position < 0 then 0
    else if position + numBytes > length then length - position
    else numBytes
  }

  /** The bytes that a read returns. */
  function Got(contents: seq<Byte>, numBytes: int, position: int): seq<Byte> {
    var n := Clip(|contents|, numBytes, position);
    if n == 0 then [] else contents[position..position + n]
  }

  /** g is f with data put at lo. */
  ghost predicate Patched(g: seq<Byte>, f: seq<Byte>, lo: nat, data: seq<Byte>) {
    && |g| == |f| && lo + |data| <= |f|
    && forall k :: 0 <= k < |f| ==> g[k] == if lo <= k < lo + |data| then data[k - lo] else f[k]
  }

  /** buf is the part of f that starts at lo. */
  ghost predicate Part(buf: seq<Byte>, f: seq<Byte>, lo: nat) {
    lo + |buf| <= |f| && forall k :: 0 <= k < |buf| ==> buf[k] == f[lo + k]
  }

  /** The contents after a write. */
  function Written(contents: seq<Byte>, data: seq<Byte>, position: int): (r: seq<Byte>)
    ensures |r| == |contents|
    ensures var n := Clip(|contents|, |data|, position); n > 0 ==> Patched(r, contents, position, data[..n])
  {
    var n := Clip(|contents|, |data|, position);
    if n == 0 then contents else contents[..position] + data[..n] + contents[position + n..]
  }

  /** A read returns as many bytes as were asked for, or as there are from the position on, and each is that of the
      file at its place. */
  lemma GotIsExact(contents: seq<Byte>, numBytes: int, position: int, k: nat)
    ensures |Got(contents, numBytes, position)| ==
              (if position < 0 || position >= |contents| || numBytes <= 0 then 0
               else if numBytes <= |contents| - position then numBytes else |contents| - position)
    ensures k < |Got(contents, numBytes, position)| ==> Got(contents, numBytes, position)[k] == contents[position + k]
  {}

  /** A write changes the bytes of the file from the position on, as far as the data and the file go, and no others. */
  lemma WrittenIsExact(contents: seq<Byte>, data: seq<Byte>, position: int, k: nat)
    requires k < |contents|
    ensures Written(contents, data, position)[k] == if 0 <= position <= k < position + |data| then data[k - position] else contents[k]
  {}

  /** Reading back what was written, and reading anything that it does not overlap. */
  lemma ReadAfterWrite(contents: seq<Byte>, data: seq<Byte>, position: nat, numBytes: int, other: nat)
    ensures var after := Written(contents, data, position);
            && Got(after, |data|, position) == data[..Clip(|contents|, |data|, position)]
            && (other + numBytes <= position || position + |data| <= other ==>
                  Got(after, numBytes, other) == Got(contents, numBytes, other))
  {}

  lemma PatchTwice(f: seq<Byte>, g: seq<Byte>, h: seq<Byte>, lo: nat, buf: seq<Byte>, m: nat, k: nat)
    requires m + k <= |buf| && Patched(g, f, lo, buf[..m]) && Patched(h, g, lo + m, buf[m..m + k])
    ensures Patched(h, f, lo, buf[..m + k])
  {
    forall j | 0 <= j < |f| ensures h[j] == if lo <= j < lo + m + k then buf[..m + k][j - lo] else f[j] {
      assert g[j] == if lo <= j < lo + m then buf[..m][j - lo] else f[j];
    }
  }

  // ---------------------------------------------------------------- the sectors

  ghost predicate OnDisk(sectors: seq<nat>) {
    forall i :: 0 <= i < |sectors| ==> sectors[i] < NumSectors
  }

  ghost predicate FileOn(h: Header) {
    HeaderOk(h) && OnDisk(h.sectors)
  }

  lemma HeaderIsOnDisk(h: Header)
    requires HeaderOk(h)
    ensures FileOn(h)
  {
    forall i | 0 <= i < |h.sectors| ensures h.sectors[i] < NumSectors { ElemsMeans(h.sectors, h.sectors[i]); }
  }

  /** The sectors of a file, one after the other. */
  ghost function Flat(disk: Disk, sectors: seq<nat>): (f: seq<Byte>)
    requires OnDisk(sectors)
    ensures |f| == SectorSize * |sectors|
  {
    if sectors == [] then [] else disk[sectors[0]] + Flat(disk, sectors[1..])
  }

  ghost function Contents(disk: Disk, h: Header): (c: seq<Byte>)
    requires FileOn(h)
    ensures |c| == h.numBytes
  {
    Flat(disk, h.sectors)[..h.numBytes]
  }

  lemma PartAfter(d: seq<Byte>, before: Sector, f: seq<Byte>, lo: nat)
    requires Part(d, f, lo)
    ensures Part(d, before + f, lo + SectorSize)
  {}

  lemma {:induction false} FlatAt(disk: Disk, sectors: seq<nat>, i: nat)
    requires i < |sectors| && OnDisk(sectors)
    ensures Part(disk[sectors[i]], Flat(disk, sectors), SectorSize * i)
  {
    if i == 0 {
    } else {
      FlatAt(disk, sectors[1..], i - 1);
      PartAfter(disk[sectors[i]], disk[sectors[0]], Flat(disk, sectors[1..]), SectorSize * (i - 1));
    }
  }

  /** The two disks agree on these sectors. */
  ghost predicate Agree(disk: Disk, disk': Disk, sectors: seq<nat>)
    requires OnDisk(sectors)
  {
    forall i :: 0 <= i < |sectors| ==> disk'[sectors[i]] == disk[sectors[i]]
  }

  lemma {:induction false} FlatSame(disk: Disk, disk': Disk, sectors: seq<nat>)
    requires OnDisk(sectors) && Agree(disk, disk', sectors)
    ensures Flat(disk', sectors) == Flat(disk, sectors)
  {
    if sectors == [] {
    } else {
      FlatSame(disk, disk', sectors[1..]);
    }
  }

  /** Writing one sector of the file replaces its bytes. */
  lemma {:induction false} FlatUpdate(disk: Disk, sectors: seq<nat>, i: nat, data: Sector)
    requires i < |sectors| && NoDup(sectors) && OnDisk(sectors)
    ensures Patched(Flat(disk[sectors[i] := data], sectors), Flat(disk, sectors), SectorSize * i, data)
  {
    if i == 0 {
      FlatUpdateFirst(disk, sectors, data);
    } else {
      var disk', rest := disk[sectors[i] := data], sectors[1..];
      ElemsMeans(rest, rest[i - 1]);
      FlatUpdate(disk, rest, i - 1, data);
      PatchTail(disk[sectors[0]], Flat(disk, rest), Flat(disk', rest), SectorSize * (i - 1), data);
      assert Flat(disk', sectors) == disk[sectors[0]] + Flat(disk', rest);
    }
  }

  lemma FlatUpdateFirst(disk: Disk, sectors: seq<nat>, data: Sector)
    requires |sectors| > 0 && NoDup(sectors) && OnDisk(sectors)
    ensures Patched(Flat(disk[sectors[0] := data], sectors), Flat(disk, sectors), 0, data)
  {
    var disk', rest := disk[sectors[0] := data], sectors[1..];
    forall j | 0 <= j < |rest| ensures rest[j] != sectors[0] { ElemsMeans(rest, rest[j]); }
    FlatSame(disk, disk', rest);
    assert Flat(disk', sectors) == data + Flat(disk, rest);
  }

  lemma PatchTail(a: seq<Byte>, f: seq<Byte>, g: seq<Byte>, lo: nat, data: seq<Byte>)
    requires Patched(g, f, lo, data)
    ensures Patched(a + g, a + f, |a| + lo, data)
  {}

  lemma PartGrows(buf: seq<Byte>, buf': seq<Byte>, f: seq<Byte>, lo: nat, at: nat, d: seq<Byte>)
    requires at + |d| <= |buf| && Part(buf[..at], f, lo) && Patched(buf', buf, at, d) && Part(d, f, lo + at)
    ensures Part(buf'[..at + |d|], f, lo)
  {
    forall k | 0 <= k < at + |d| ensures buf'[k] == f[lo + k] {
      if k < at {
        assert buf'[k] == buf[..at][k];
      } else {
        assert d[k - at] == f[lo + at + (k - at)];
      }
    }
  }

  lemma Window(buf: seq<Byte>, f: seq<Byte>, lo: nat, length: nat, position: nat, n: nat)
    requires Part(buf, f, lo) && lo <= position && position + n <= lo + |buf| && position + n <= length <= |f|
    ensures buf[position - lo..position - lo + n] == f[..length][position..position + n]
  {
    var w := buf[position - lo..position - lo + n];
    forall j | 0 <= j < n ensures w[j] == f[position + j] {
      assert w[j] == buf[position - lo + j] == f[lo + (position - lo + j)];
    }
  }

  /** The sectors that a range of the file touches. */
  lemma Span(h: Header, position: nat, n: nat)
    requires HeaderOk(h) && n > 0 && position + n <= h.numBytes
    ensures var first, last := position / SectorSize, (position + n - 1) / SectorSize;
            && SectorSize * first <= position < SectorSize * (first + 1)
            && SectorSize * last < position + n <= SectorSize * (last + 1)
            && first <= last < |h.sectors| && h.numBytes <= SectorSize * |h.sectors|
  {}

  /** Outside the request, up to the end of the file, the buffer is as the file; past the end of
      the file it holds anything. */
  ghost predicate Framed(buf: seq<Byte>, lo: nat, contents: seq<Byte>, position: nat, n: nat) {
    forall q :: 0 <= q < |buf| && lo + q < |contents| && !(position <= lo + q < position + n) ==> buf[q] == contents[lo + q]
  }

  ghost predicate Loaded(buf: seq<Byte>, lo: nat, contents: seq<Byte>, from: nat, to: nat) {
    forall q :: from <= q < to <= |buf| && lo + q < |contents| ==> buf[q] == contents[lo + q]
  }

  /** It is enough to load the first sector and the last one, where the request leaves part of them. */
  lemma EdgesFramed(buf: seq<Byte>, lo: nat, contents: seq<Byte>, position: nat, n: nat)
    requires |buf| >= SectorSize && lo <= position < lo + SectorSize
    requires lo + |buf| - SectorSize < position + n <= lo + |buf|
    requires lo < position ==> Loaded(buf, lo, contents, 0, SectorSize)
    requires position + n < lo + |buf| ==> Loaded(buf, lo, contents, |buf| - SectorSize, |buf|)
    ensures Framed(buf, lo, contents, position, n)
  {
    forall q | 0 <= q < |buf| && lo + q < |contents| && !(position <= lo + q < position + n)
      ensures buf[q] == contents[lo + q]
    {}
  }

  /** The file after the buffer, with the data put in, has gone back to the sectors it covers. */
  lemma WriteBack(f: seq<Byte>, g: seq<Byte>, length: nat, lo: nat, was: seq<Byte>, buf: seq<Byte>, data: seq<Byte>, position: nat)
    requires length <= |f| && |data| > 0 && position + |data| <= length
    requires lo <= position && position + |data| <= lo + |was|
    requires Framed(was, lo, f[..length], position, |data|)
    requires Patched(buf, was, position - lo, data) && Patched(g, f, lo, buf)
    ensures g[..length] == Written(f[..length], data, position)
  {
    var c, c' := f[..length], g[..length];
    forall k | 0 <= k < length ensures c'[k] == if position <= k < position + |data| then data[k - position] else c[k] {
      if lo <= k < lo + |buf| {
        assert c'[k] == buf[k - lo];
        assert !(position <= k < position + |data|) ==> was[k - lo] == c[lo + (k - lo)];
      }
    }
    assert data[..Clip(|c|, |data|, position)] == data;
  }

  /** Every sector outside the file is as it was. */
  ghost predicate OthersKept(disk: Disk, disk': Disk, h: Header) {
    forall x: nat :: x < NumSectors && x !in Elems(h.sectors) ==> disk'[x] == disk[x]
  }

  // ---------------------------------------------------------------- the disk and the open file

  class SynchDisk {
    var sectors: Disk

    method ReadSector(sector: nat, into: array<Byte>, at: nat)
      requires sector < NumSectors && at + SectorSize <= into.Length
      modifies into
      ensures Patched(into[..], old(into[..]), at, sectors[sector])
    {
      forall j | 0 <= j < SectorSize { into[at + j] := sectors[sector][j]; }
    }

    method WriteSector(sector: nat, from: array<Byte>, at: nat)
      requires sector < NumSectors && at + SectorSize <= from.Length
      modifies this
      ensures sectors == old(sectors)[sector := from[at..at + SectorSize]]
    {
      sectors := sectors[sector := from[at..at + SectorSize]];
    }
  }

  /** bcopy */
  method Copy(from: array<Byte>, fromAt: nat, into: array<Byte>, at: nat, n: nat)
    requires from != into && fromAt + n <= from.Length && at + n <= into.Length
    modifies into
    ensures Patched(into[..], old(into[..]), at, from[fromAt..fromAt + n])
  {
    forall j | 0 <= j < n { into[at + j] := from[fromAt + j]; }
  }

  /** OutOfRange stands for an access outside the buffer or the header's table of sectors. */
  datatype Outcome = Transferred(count: nat) | OutOfRange

  predicate Fits(length: nat, numBytes: int, position: int) {
    numBytes <= 0 || position >= length || (0 <= position && position + numBytes <= MaxInt)
  }

  /** The number of bytes that the code goes on with; the sum is computed in an int. */
  function SizeInCode(length: nat, numBytes: int, position: int): int {
    if W.Wrap(position + numBytes) > length then length - position else numBytes
  }

  /** The sum wraps around exactly when the request does not fit, and is then not clipped. */
  lemma ClippedExactly(length: nat, numBytes: int, position: int)
    requires 0 < numBytes <= MaxInt && 0 <= position < length <= MaxFileSize
    ensures SizeInCode(length, numBytes, position) == Clip(length, numBytes, position) <==> Fits(length, numBytes, position)
  {
    if position + numBytes > MaxInt { assert W.Wrap(position + numBytes) == position + numBytes - W.TwoTo32; }
  }

  /** Asked for as much as an int can hold from byte 1 of a file of 10, the code goes on with all of it. */
  lemma RequestCanOverflow()
    ensures SizeInCode(10, MaxInt, 1) == MaxInt && Clip(10, MaxInt, 1) == 9 && !Fits(10, MaxInt, 1)
  {
    ClippedExactly(10, MaxInt, 1);
  }

  class OpenFile {
    const hdr: Header
    const disk: SynchDisk
    var seekPosition: int

    ghost predicate Valid() {
      FileOn(hdr)
    }

    ghost function View(): seq<Byte>
      requires Valid()
      reads disk
    {
      Contents(disk.sectors, hdr)
    }

    constructor (hdr: Header, disk: SynchDisk)
      ensures this.hdr == hdr && this.disk == disk && seekPosition == 0
    {
      this.hdr, this.disk, this.seekPosition := hdr, disk, 0;
    }

    method ReadAt(into: array<Byte>, at: nat, numBytes: int, position: int) returns (r: Outcome)
      requires Valid() && at <= into.Length && at + Clip(hdr.numBytes, numBytes, position) <= into.Length
      modifies into
      ensures r == if Fits(hdr.numBytes, numBytes, position) then Transferred(|Got(View(), numBytes, position)|) else OutOfRange
      ensures r.Transferred? ==> Patched(into[..], old(into[..]), at, Got(View(), numBytes, position))
    {
      var fileLength := hdr.numBytes;
      if numBytes <= 0 || position >= fileLength {
        return Transferred(0);
      }
      if position < 0 || position + numBytes > MaxInt { return OutOfRange; }
      var n := if position + numBytes > fileLength then fileLength - position else numBytes;
      ReadRange(into, at, n, position);
      return Transferred(n);
    }

    /** ReadAt, once the request is clipped. */
    method ReadRange(into: array<Byte>, at: nat, n: nat, position: nat)
      requires Valid() && n > 0 && position + n <= hdr.numBytes && at + n <= into.Length
      modifies into
      ensures Patched(into[..], old(into[..]), at, View()[position..position + n])
    {
      var firstSector, lastSector := position / SectorSize, (position + n - 1) / SectorSize;
      Span(hdr, position, n);
      var buf := ReadSectors(firstSector, lastSector);
      Window(buf[..], Flat(disk.sectors, hdr.sectors), SectorSize * firstSector, hdr.numBytes, position, n);
      Copy(buf, position - firstSector * SectorSize, into, at, n);
    }

    /** The loop of ReadAt. */
    method ReadSectors(firstSector: nat, lastSector: nat) returns (buf: array<Byte>)
      requires Valid() && firstSector <= lastSector < |hdr.sectors|
      ensures fresh(buf) && buf.Length == (1 + lastSector - firstSector) * SectorSize
      ensures Part(buf[..], Flat(disk.sectors, hdr.sectors), SectorSize * firstSector)
    {
      var numSectors := 1 + lastSector - firstSector;
      buf := new Byte[numSectors * SectorSize];
      ghost var f := Flat(disk.sectors, hdr.sectors);
      var at := 0;
      for i := firstSector to lastSector + 1
        invariant at == SectorSize * (i - firstSector)
        invariant Part(buf[..at], f, SectorSize * firstSector)
      {
        ghost var was, d := buf[..], disk.sectors[hdr.sectors[i]];
        FlatAt(disk.sectors, hdr.sectors, i);
        disk.ReadSector(hdr.sectors[i], buf, at);
        PartGrows(was, buf[..], f, SectorSize * firstSector, at, d);
        at := at + SectorSize;
      }
      assert buf[..at] == buf[..];
    }

    method WriteAt(from: array<Byte>, numBytes: int, position: int) returns (r: Outcome)
      requires Valid() && Clip(hdr.numBytes, numBytes, position) <= from.Length
      modifies disk
      ensures r == if Fits(hdr.numBytes, numBytes, position) then Transferred(Clip(hdr.numBytes, numBytes, position)) else OutOfRange
      ensures View() == if r.Transferred? then Written(old(View()), from[..r.count], position) else old(View())
      ensures OthersKept(old(disk.sectors), disk.sectors, hdr)
    {
      var fileLength := hdr.numBytes;
      if numBytes <= 0 || position >= fileLength { return Transferred(0); }
      if position < 0 || position + numBytes > MaxInt { return OutOfRange; }
      var n := if position + numBytes > fileLength then fileLength - position else numBytes;
      WriteRange(from, n, position);
      return Transferred(n);
    }

    /** WriteAt, once the request is clipped. */
    method WriteRange(from: array<Byte>, n: nat, position: nat)
      requires Valid() && n > 0 && position + n <= hdr.numBytes && n <= from.Length
      modifies disk
      ensures View() == Written(old(View()), from[..n], position)
      ensures OthersKept(old(disk.sectors), disk.sectors, hdr)
    {
      var firstSector, lastSector := position / SectorSize, (position + n - 1) / SectorSize;
      Span(hdr, position, n);
      var buf := Partials(firstSector, lastSector, position, n);
      ghost var was, f := buf[..], Flat(disk.sectors, hdr.sectors);
      Copy(from, 0, buf, position - firstSector * SectorSize, n);
      assert from[0..n] == from[..n];
      WriteSectors(buf, firstSector, lastSector);
      WriteBack(f, Flat(disk.sectors, hdr.sectors), hdr.numBytes, firstSector * SectorSize, was, buf[..], from[..n], position);
    }

    /** A new buffer for the sectors, holding the first and the last where they stay in part. */
    method Partials(firstSector: nat, lastSector: nat, position: nat, n: nat) returns (buf: array<Byte>)
      requires Valid() && n > 0 && position + n <= hdr.numBytes
      requires firstSector == position / SectorSize && lastSector == (position + n - 1) / SectorSize
      ensures fresh(buf) && buf.Length == (1 + lastSector - firstSector) * SectorSize
      ensures Framed(buf[..], firstSector * SectorSize, View(), position, n)
    {
      Span(hdr, position, n);
      var numSectors := 1 + lastSector - firstSector;
      buf := new Byte[numSectors * SectorSize];
      var firstAligned := position == firstSector * SectorSize;
      var lastAligned := position + n == (lastSector + 1) * SectorSize;
      if !firstAligned {
        LoadSector(buf, 0, firstSector, firstSector * SectorSize);
      }
      if !lastAligned && (firstSector != lastSector || firstAligned) {
        LoadSector(buf, (lastSector - firstSector) * SectorSize, lastSector, firstSector * SectorSize);
      }
      EdgesFramed(buf[..], firstSector * SectorSize, View(), position, n);
    }

    /** ReadAt(&buf[at], SectorSize, sector * SectorSize) */
    method LoadSector(buf: array<Byte>, at: nat, sector: nat, ghost lo: nat)
      requires Valid() && at + SectorSize <= buf.Length && lo + at == sector * SectorSize < hdr.numBytes
      modifies buf
      ensures Loaded(buf[..], lo, View(), at, at + SectorSize)
      ensures forall q :: 0 <= q < at ==> buf[q] == old(buf[q])
    {
      var r := ReadAt(buf, at, SectorSize, sector * SectorSize);
      ghost var c, got := View(), Got(View(), SectorSize, sector * SectorSize);
      forall q | at <= q < at + SectorSize && lo + q < |c| ensures buf[q] == c[lo + q] {
        assert buf[..][q] == got[q - at] == c[sector * SectorSize + (q - at)];
      }
      assert forall q :: 0 <= q < at ==> buf[..][q] == old(buf[..])[q];
    }

    /** The loop of WriteAt. */
    method WriteSectors(buf: array<Byte>, firstSector: nat, lastSector: nat)
      requires Valid() && firstSector <= lastSector < |hdr.sectors|
      requires buf.Length == (1 + lastSector - firstSector) * SectorSize
      modifies disk
      ensures Patched(Flat(disk.sectors, hdr.sectors), old(Flat(disk.sectors, hdr.sectors)), firstSector * SectorSize, buf[..])
      ensures OthersKept(old(disk.sectors), disk.sectors, hdr)
    {
      ghost var f, lo := Flat(disk.sectors, hdr.sectors), firstSector * SectorSize;
      var at := 0;
      for i := firstSector to lastSector + 1
        invariant at == SectorSize * (i - firstSector)
        invariant Patched(Flat(disk.sectors, hdr.sectors), f, lo, buf[..at])
        invariant OthersKept(old(disk.sectors), disk.sectors, hdr)
      {
        ghost var g := Flat(disk.sectors, hdr.sectors);
        FlatUpdate(disk.sectors, hdr.sectors, i, buf[at..at + SectorSize]);
        ElemsMeans(hdr.sectors, hdr.sectors[i]);
        disk.WriteSector(hdr.sectors[i], buf, at);
        PatchTwice(f, g, Flat(disk.sectors, hdr.sectors), lo, buf[..], at, SectorSize);
        at := at + SectorSize;
      }
      assert buf[..at] == buf[..];
    }

    method Seek(position: int)
      modifies this
      ensures seekPosition == position
    {
      seekPosition := position;
    }

    method Read(into: array<Byte>, numBytes: int) returns (r: Outcome)
      requires Valid() && Clip(hdr.numBytes, numBytes, seekPosition) <= into.Length
      modifies this, into
      ensures r == if Fits(hdr.numBytes, numBytes, old(seekPosition)) then Transferred(|Got(View(), numBytes, old(seekPosition))|) else OutOfRange
      ensures r.Transferred? ==> seekPosition == old(seekPosition) + r.count
      ensures r.Transferred? ==> Patched(into[..], old(into[..]), 0, Got(View(), numBytes, old(seekPosition)))
    {
      r := ReadAt(into, 0, numBytes, seekPosition);
      if r.Transferred? { seekPosition := seekPosition + r.count; }
    }

    method Write(from: array<Byte>, numBytes: int) returns (r: Outcome)
      requires Valid() && Clip(hdr.numBytes, numBytes, seekPosition) <= from.Length
      modifies this, disk
      ensures r == if Fits(hdr.numBytes, numBytes, old(seekPosition)) then Transferred(Clip(hdr.numBytes, numBytes, old(seekPosition))) else OutOfRange
      ensures r.Transferred? ==> seekPosition == old(seekPosition) + r.count
      ensures View() == if r.Transferred? then Written(old(View()), from[..r.count], old(seekPosition)) else old(View())
      ensures OthersKept(old(disk.sectors), disk.sectors, hdr)
    {
      r := WriteAt(from, numBytes, seekPosition);
      if r.Transferred? { seekPosition := seekPosition + r.count; }
    }
  }

  // ---------------------------------------------------------------- several files, every run

  /** A write of data, already clipped, to one of the files. */
  datatype Change = Change(file: nat, data: seq<Byte>, position: int)

  /** What WriteAt promises about the disk: the slack past the end of the file is not determined. */
  ghost predicate Wrote(files: seq<Header>, disk: Disk, disk': Disk, w: Change) {
    && w.file < |files| && FileOn(files[w.file])
    && Contents(disk', files[w.file]) == Written(Contents(disk, files[w.file]), w.data, w.position)
    && OthersKept(disk, disk', files[w.file])
  }

  ghost predicate Separate(files: seq<Header>) {
    && (forall i :: 0 <= i < |files| ==> FileOn(files[i]))
    && forall i, j :: 0 <= i < j < |files| ==> Elems(files[i].sectors) !! Elems(files[j].sectors)
  }

  /** A write to one file leaves the others alone. */
  lemma OtherContents(files: seq<Header>, disk: Disk, disk': Disk, w: Change, i: nat)
    requires Separate(files) && Wrote(files, disk, disk', w) && i < |files| && i != w.file
    ensures Contents(disk', files[i]) == Contents(disk, files[i])
  {
    var s := files[i].sectors;
    forall k | 0 <= k < |s| ensures disk'[s[k]] == disk[s[k]] { ElemsMeans(s, s[k]); }
    FlatSame(disk, disk', s);
  }

  /** The flat arrays after the writes. */
  function AllWritten(contents: seq<seq<Byte>>, writes: seq<Change>): seq<seq<Byte>>
    requires forall w <- writes :: w.file < |contents|
    decreases |writes|
  {
    if writes == [] then contents
    else
      var w := writes[0];
      assert w in writes;
      AllWritten(contents[w.file := Written(contents[w.file], w.data, w.position)], writes[1..])
  }

  ghost function AllContents(disk: Disk, files: seq<Header>): seq<seq<Byte>>
    requires Separate(files)
  {
    seq(|files|, i requires 0 <= i < |files| => Contents(disk, files[i]))
  }

  ghost predicate Run(files: seq<Header>, disks: seq<Disk>, writes: seq<Change>) {
    |disks| == |writes| + 1 && forall t :: 0 <= t < |writes| ==> Wrote(files, disks[t], disks[t + 1], writes[t])
  }

  /** Over any run of writes to files on separate sectors, whatever is left in the slack, every file
      reads as its own flat array. */
  lemma {:induction false} RunRefines(files: seq<Header>, disks: seq<Disk>, writes: seq<Change>)
    requires Separate(files) && Run(files, disks, writes)
    ensures forall w <- writes :: w.file < |files|
    ensures AllContents(disks[|writes|], files) == AllWritten(AllContents(disks[0], files), writes)
    decreases |writes|
  {
    if writes == [] {
    } else {
      var w := writes[0];
      assert Wrote(files, disks[0], disks[1], w);
      forall i: nat | i < |files| && i != w.file ensures Contents(disks[1], files[i]) == Contents(disks[0], files[i]) {
        OtherContents(files, disks[0], disks[1], w, i);
      }
      var c := AllContents(disks[0], files);
      assert AllContents(disks[1], files) == c[w.file := Written(c[w.file], w.data, w.position)];
      assert Run(files, disks[1..], writes[1..]) by {
        forall t | 0 <= t < |writes[1..]| ensures Wrote(files, disks[1..][t], disks[1..][t + 1], writes[1..][t]) {
          assert Wrote(files, disks[t + 1], disks[t + 1 + 1], writes[t + 1]);
        }
      }
      RunRefines(files, disks[1..], writes[1..]);
    }
  }
}
