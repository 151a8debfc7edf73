/**
 Address translation and memory access (machine/translate.cc), with a page table or with a TLB.
 What a user program sees is a flat memory of bytes at virtual addresses.
 */
module Translation {
  import opened Options
  import opened Words

  const PageSize: nat := 128
  const NumPhysPages: nat := 64
  const MemorySize: nat := NumPhysPages * PageSize
  const TLBSize: nat := 4

  type Byte = b: int | 0 <= b < 256

  datatype Exception =
    | SyscallException | PageFaultException | ReadOnlyException | BusErrorException
    | AddressErrorException | OverflowException | IllegalInstrException

  datatype Entry = Entry(virtualPage: Word, physicalPage: Word, valid: bool, readOnly: bool, use: bool, dirty: bool)

  /** Main memory and the table: a page table indexed by page number, or a TLB that is searched. */
  datatype Memory = Memory(main: seq<Byte>, table: seq<Entry>, usesTlb: bool)

  predicate Wf(m: Memory) {
    |m.main| == MemorySize && (m.usesTlb ==> |m.table| == TLBSize)
  }

  // ---------------------------------------------------------------- the entry for a page

  predicate Matches(e: Entry, vpn: nat) {
    e.valid && Unsigned(e.virtualPage) == vpn
  }

  /** The first entry of the TLB for the page, or its size. */
  function Search(tlb: seq<Entry>, vpn: nat): (i: nat)
    ensures i <= |tlb| && (i < |tlb| ==> Matches(tlb[i], vpn))
    ensures forall j :: 0 <= j < i ==> !Matches(tlb[j], vpn)
  {
    if tlb == [] || Matches(tlb[0], vpn) then 0 else 1 + Search(tlb[1..], vpn)
  }

  datatype Lookup = Found(index: nat) | Fault(which: Exception)

  function Find(m: Memory, vpn: nat): Lookup {
    if !m.usesTlb then
      if vpn >= |m.table| then Fault(AddressErrorException)
      else if !m.table[vpn].valid then Fault(PageFaultException)
      else Found(vpn)
    else
      var i := Search(m.table, vpn);
      if i == |m.table| then Fault(PageFaultException) else Found(i)
  }

  lemma FoundIsValid(m: Memory, vpn: nat)
    requires Find(m, vpn).Found?
    ensures var i := Find(m, vpn).index; i < |m.table| && m.table[i].valid
  {}

  // ---------------------------------------------------------------- translation

  datatype Translated = Address(physical: nat, index: nat) | Failed(which: Exception)

  function Translate(m: Memory, virtAddr: Word, size: nat, writing: bool): Translated {
    if (size == 4 && Unsigned(virtAddr) % 4 != 0) || (size == 2 && Unsigned(virtAddr) % 2 != 0) then Failed(AddressErrorException)
    else
      var vpn, offset := Unsigned(virtAddr) / PageSize, Unsigned(virtAddr) % PageSize;
      match Find(m, vpn)
      case Fault(which) => Failed(which)
      case Found(i) =>
        FoundIsValid(m, vpn);
        var entry := m.table[i];
        if entry.readOnly && writing then Failed(ReadOnlyException)
        else if Unsigned(entry.physicalPage) >= NumPhysPages then Failed(BusErrorException)
        else Address(entry.physicalPage * PageSize + offset, i)
  }

  predicate Size(size: nat) {
    size == 1 || size == 2 || size == 4
  }

  /** An aligned access stays inside its page, so the assertion on the physical address holds. */
  lemma StaysInPage(m: Memory, virtAddr: Word, size: nat, writing: bool)
    requires Size(size) && Translate(m, virtAddr, size, writing).Address?
    ensures Unsigned(virtAddr) % PageSize + size <= PageSize
    ensures var pa := Translate(m, virtAddr, size, writing).physical;
            pa + size <= MemorySize && pa / PageSize == (pa + size - 1) / PageSize
  {
    var u := Unsigned(virtAddr);
    Aligned(u, size);
    InFrame(m.table[Translate(m, virtAddr, size, writing).index].physicalPage, u % PageSize, size);
  }

  lemma Aligned(u: nat, size: nat)
    requires Size(size) && (size == 4 ==> u % 4 == 0) && (size == 2 ==> u % 2 == 0)
    ensures u % PageSize + size <= PageSize
  {}

  lemma InFrame(f: nat, offset: nat, size: nat)
    requires f < NumPhysPages && size > 0 && offset + size <= PageSize
    ensures var pa := f * PageSize + offset; pa + size <= MemorySize && pa / PageSize == (pa + size - 1) / PageSize
  {}

  /** The use bit, and the dirty bit of a write. */
  function Touch(m: Memory, i: nat, writing: bool): Memory
    requires i < |m.table|
  {
    m.(table := m.table[i := m.table[i].(use := true, dirty := m.table[i].dirty || writing)])
  }

  // ---------------------------------------------------------------- bytes and words

  /** The k-th byte of a word, the lowest first. */
  function ByteOf(value: Word, k: nat): Byte
    requires k < 4
  {
    var u := Unsigned(value);
    (if k == 0 then u else if k == 1 then u / 0x100 else if k == 2 then u / 0x1_0000 else u / 0x100_0000) % 256
  }

  function Word4(b0: Byte, b1: Byte, b2: Byte, b3: Byte): Word {
    Wrap(b0 + 0x100 * b1 + 0x1_0000 * b2 + 0x100_0000 * b3)
  }

  lemma ByteSum(value: Word)
    ensures Unsigned(value) == ByteOf(value, 0) + 0x100 * ByteOf(value, 1) + 0x1_0000 * ByteOf(value, 2) + 0x100_0000 * ByteOf(value, 3)
  {
    var u := Unsigned(value);
    var high := u / 0x1_0000;
    Split16(u);
    Split16(high);
    assert u / 0x100_0000 == high / 0x100 && high % 0x1_0000 == high && u == u % 0x1_0000 + 0x1_0000 * high;
  }

  lemma BytesOfWord(value: Word)
    ensures Word4(ByteOf(value, 0), ByteOf(value, 1), ByteOf(value, 2), ByteOf(value, 3)) == value
  {
    WrapUnsigned(value);
    ByteSum(value);
  }

  // ---------------------------------------------------------------- reading and writing

  datatype Access = Value(value: Word) | Refused(which: Exception)

  /** The value of size bytes at a physical address.  A char is signed, a short is not. */
  function Peek(main: seq<Byte>, pa: nat, size: nat): Word
    requires Size(size) && pa + size <= |main|
  {
    if size == 1 then if main[pa] < 128 then main[pa] else main[pa] - 256
    else if size == 2 then main[pa] + 0x100 * main[pa + 1]
    else Word4(main[pa], main[pa + 1], main[pa + 2], main[pa + 3])
  }

  /** ReadMem */
  function Read(m: Memory, addr: Word, size: nat): (Memory, Access)
    requires Wf(m) && Size(size)
  {
    match Translate(m, addr, size, false)
    case Failed(which) => (m, Refused(which))
    case Address(pa, i) =>
      StaysInPage(m, addr, size, false);
      FoundIsValid(m, Unsigned(addr) / PageSize);
      (Touch(m, i, false), Value(Peek(m.main, pa, size)))
  }

  function Poke(main: seq<Byte>, pa: nat, size: nat, value: Word): (r: seq<Byte>)
    requires Size(size) && pa + size <= |main|
    ensures |r| == |main|
    ensures forall q :: 0 <= q < |main| ==> r[q] == if pa <= q < pa + size then ByteOf(value, q - pa) else main[q]
  {
    if size == 1 then main[pa := ByteOf(value, 0)]
    else if size == 2 then main[pa := ByteOf(value, 0)][pa + 1 := ByteOf(value, 1)]
    else main[pa := ByteOf(value, 0)][pa + 1 := ByteOf(value, 1)][pa + 2 := ByteOf(value, 2)][pa + 3 := ByteOf(value, 3)]
  }

  /** WriteMem */
  function Write(m: Memory, addr: Word, size: nat, value: Word): (Memory, Option<Exception>)
    requires Wf(m) && Size(size)
  {
    match Translate(m, addr, size, true)
    case Failed(which) => (m, Some(which))
    case Address(pa, i) =>
      StaysInPage(m, addr, size, true);
      FoundIsValid(m, Unsigned(addr) / PageSize);
      (Touch(m, i, true).(main := Poke(m.main, pa, size, value)), None)
  }

  // ---------------------------------------------------------------- the flat memory

  /** The frame of a page that has one. */
  function Frame(m: Memory, vpn: nat): Option<nat> {
    match Find(m, vpn)
    case Fault(_) => None
    case Found(i) =>
      FoundIsValid(m, vpn);
      var f := m.table[i].physicalPage;
      if Unsigned(f) < NumPhysPages then Some(f) else None
  }

  /** No two pages share a frame. */
  ghost predicate Distinct(m: Memory) {
    forall v: nat, w: nat :: v != w && Frame(m, v).Some? && Frame(m, w).Some? ==> Frame(m, v) != Frame(m, w)
  }

  /** The byte at a virtual address, where it has one. */
  function Virtual(m: Memory, u: nat): Option<Byte>
    requires Wf(m)
  {
    match Frame(m, u / PageSize)
    case None => None
    case Some(f) => Some(m.main[f * PageSize + u % PageSize])
  }

  /** Setting use and dirty bits changes no translation. */
  lemma TouchKeepsFrames(m: Memory, i: nat, writing: bool, vpn: nat)
    requires i < |m.table|
    ensures Frame(Touch(m, i, writing), vpn) == Frame(m, vpn)
  {
    var m' := Touch(m, i, writing);
    if m.usesTlb {
      var j, j' := Search(m.table, vpn), Search(m'.table, vpn);
      assert forall k :: 0 <= k < |m.table| ==> Matches(m'.table[k], vpn) == Matches(m.table[k], vpn);
      assert j == j';
    }
  }

  /** A successful translation is the frame of the page and the offset. */
  lemma AddressIsFrame(m: Memory, virtAddr: Word, size: nat, writing: bool)
    requires Translate(m, virtAddr, size, writing).Address?
    ensures var u := Unsigned(virtAddr);
            Frame(m, u / PageSize) == Some(Translate(m, virtAddr, size, writing).physical / PageSize)
            && Translate(m, virtAddr, size, writing).physical % PageSize == u % PageSize
  {}

  /** In a page and a frame of the same size, ranges correspond. */
  lemma SamePlace(f: nat, off: nat, size: nat, g: nat, o: nat)
    requires off + size <= PageSize && o < PageSize
    ensures f * PageSize + off <= g * PageSize + o < f * PageSize + off + size <==> f == g && off <= o < off + size
  {}

  lemma PagePlace(a: nat, size: nat, u: nat)
    requires a % PageSize + size <= PageSize
    ensures a <= u < a + size <==> u / PageSize == a / PageSize && a % PageSize <= u % PageSize < a % PageSize + size
  {}

  /** A successful write puts its bytes at the virtual addresses and changes no other virtual byte. */
  lemma WriteIsFlat(m: Memory, addr: Word, size: nat, value: Word, u: nat)
    requires Wf(m) && Size(size) && Distinct(m) && Write(m, addr, size, value).1.None?
    ensures var m' := Write(m, addr, size, value).0;
            && Wf(m')
            && Virtual(m', u) == (if Unsigned(addr) <= u < Unsigned(addr) + size
                                  then Some(ByteOf(value, u - Unsigned(addr))) else Virtual(m, u))
  {
    var a := Unsigned(addr);
    var Address(pa, i) := Translate(m, addr, size, true);
    StaysInPage(m, addr, size, true);
    AddressIsFrame(m, addr, size, true);
    FoundIsValid(m, a / PageSize);
    TouchKeepsFrames(m, i, true, u / PageSize);
    FrameIgnoresMain(Touch(m, i, true), Poke(m.main, pa, size, value), u / PageSize);
    PagePlace(a, size, u);
    if Frame(m, u / PageSize).Some? {
      SamePlace(pa / PageSize, a % PageSize, size, Frame(m, u / PageSize).value, u % PageSize);
    }
  }

  lemma FrameIgnoresMain(m: Memory, main: seq<Byte>, vpn: nat)
    ensures Frame(m.(main := main), vpn) == Frame(m, vpn)
  {}

  lemma WriteKeepsDistinct(m: Memory, addr: Word, size: nat, value: Word)
    requires Wf(m) && Size(size) && Distinct(m)
    ensures Distinct(Write(m, addr, size, value).0)
  {
    var m' := Write(m, addr, size, value).0;
    if Write(m, addr, size, value).1.None? {
      var Address(pa, i) := Translate(m, addr, size, true);
      StaysInPage(m, addr, size, true);
      FoundIsValid(m, Unsigned(addr) / PageSize);
      forall v: nat ensures Frame(m', v) == Frame(m, v) {
        TouchKeepsFrames(m, i, true, v);
        FrameIgnoresMain(Touch(m, i, true), Poke(m.main, pa, size, value), v);
      }
    }
  }

  /** A read changes no virtual byte, and its value is made of the bytes at the virtual addresses. */
  lemma ReadIsFlat(m: Memory, addr: Word, size: nat, k: nat, u: nat)
    requires Wf(m) && Size(size) && Read(m, addr, size).1.Value? && k < size
    ensures Virtual(m, Unsigned(addr) + k) == Some(ByteOf(Read(m, addr, size).1.value, k))
    ensures Wf(Read(m, addr, size).0) && Virtual(Read(m, addr, size).0, u) == Virtual(m, u)
  {
    var a := Unsigned(addr);
    var Address(pa, i) := Translate(m, addr, size, false);
    StaysInPage(m, addr, size, false);
    AddressIsFrame(m, addr, size, false);
    FoundIsValid(m, a / PageSize);
    TouchKeepsFrames(m, i, false, u / PageSize);
    PagePlace(a, size, a + k);
    PeekBytes(m.main, pa, size, k);
    assert pa == pa / PageSize * PageSize + a % PageSize;
  }

  lemma PeekBytes(main: seq<Byte>, pa: nat, size: nat, k: nat)
    requires Size(size) && pa + size <= |main| && k < size
    ensures ByteOf(Peek(main, pa, size), k) == main[pa + k]
  {
    if size == 4 {
      Word4Bytes(main[pa], main[pa + 1], main[pa + 2], main[pa + 3]);
    }
  }

  lemma Word4Bytes(b0: Byte, b1: Byte, b2: Byte, b3: Byte)
    ensures var w := Word4(b0, b1, b2, b3); ByteOf(w, 0) == b0 && ByteOf(w, 1) == b1 && ByteOf(w, 2) == b2 && ByteOf(w, 3) == b3
  {
    var n := b0 + 0x100 * b1 + 0x1_0000 * b2 + 0x100_0000 * b3;
    assert Unsigned(Wrap(n)) == n;
    assert n / 0x100 == b1 + 0x100 * b2 + 0x1_0000 * b3;
    assert n / 0x1_0000 == b2 + 0x100 * b3;
    assert n / 0x100_0000 == b3;
  }

  /** What a read of the same size then finds: the value modulo its size, as a signed char or an unsigned short. */
  lemma ReadBack(m: Memory, addr: Word, size: nat, value: Word)
    requires Wf(m) && Size(size) && Write(m, addr, size, value).1.None?
    ensures var m' := Write(m, addr, size, value).0;
            && Wf(m') && Read(m', addr, size).1.Value?
            && var v := Read(m', addr, size).1.value;
               && (size == 4 ==> v == value) && (size == 2 ==> v == value % 0x1_0000)
               && (size == 1 ==> -0x80 <= v < 0x80 && v % 0x100 == value % 0x100)
  {
    SameTranslation(m, addr, size, value);
    StaysInPage(m, addr, size, true);
    PeekPoked(m.main, Translate(m, addr, size, true).physical, size, value);
  }

  lemma PeekPoked(main: seq<Byte>, pa: nat, size: nat, value: Word)
    requires Size(size) && pa + size <= |main|
    ensures var v := Peek(Poke(main, pa, size, value), pa, size);
            && (size == 4 ==> v == value) && (size == 2 ==> v == value % 0x1_0000)
            && (size == 1 ==> -0x80 <= v < 0x80 && v % 0x100 == value % 0x100)
  {
    if size == 4 {
      BytesOfWord(value);
    } else if size == 2 {
      LowBytes(value);
    }
  }

  lemma LowBytes(value: Word)
    ensures ByteOf(value, 0) + 0x100 * ByteOf(value, 1) == value % 0x1_0000
  {
    Split16(Unsigned(value));
  }

  lemma Split16(u: nat)
    ensures u % 0x100 + 0x100 * ((u / 0x100) % 0x100) == u % 0x1_0000
  {
    var q, r := u / 0x1_0000, u % 0x1_0000;
    assert u / 0x100 == 0x100 * q + r / 0x100;
  }

  lemma SameTranslation(m: Memory, addr: Word, size: nat, value: Word)
    requires Wf(m) && Size(size) && Write(m, addr, size, value).1.None?
    ensures Translate(Write(m, addr, size, value).0, addr, size, false) == Translate(m, addr, size, true)
  {
    var vpn := Unsigned(addr) / PageSize;
    var m' := Write(m, addr, size, value).0;
    StaysInPage(m, addr, size, true);
    FoundIsValid(m, vpn);
    if m.usesTlb {
      assert forall k :: 0 <= k < |m.table| ==> Matches(m'.table[k], vpn) == Matches(m.table[k], vpn);
      assert Search(m'.table, vpn) == Search(m.table, vpn);
    }
  }

  // ---------------------------------------------------------------- a TLB over a page table

  /** Every valid entry of the TLB repeats what the page table says. */
  ghost predicate Caches(tlb: Memory, pages: Memory) {
    && tlb.usesTlb && !pages.usesTlb && |tlb.table| == TLBSize
    && forall i :: 0 <= i < TLBSize && tlb.table[i].valid ==>
         && Unsigned(tlb.table[i].virtualPage) < |pages.table|
         && var e := pages.table[Unsigned(tlb.table[i].virtualPage)];
            e.valid && e.physicalPage == tlb.table[i].physicalPage && e.readOnly == tlb.table[i].readOnly
  }

  /** On a hit the TLB translates, or refuses, as the page table would. */
  lemma TlbTranslatesAlike(tlb: Memory, pages: Memory, addr: Word, size: nat, writing: bool)
    requires Caches(tlb, pages) && Find(tlb, Unsigned(addr) / PageSize).Found?
    ensures match Translate(tlb, addr, size, writing)
            case Failed(which) => Translate(pages, addr, size, writing) == Failed(which)
            case Address(pa, _) => Translate(pages, addr, size, writing) == Address(pa, Unsigned(addr) / PageSize)
  {
    var i := Search(tlb.table, Unsigned(addr) / PageSize);
    assert Matches(tlb.table[i], Unsigned(addr) / PageSize);
  }

  // ---------------------------------------------------------------- exactly when it fails, and how

  /** Entry i is the one for the page: the page's own, or the first valid one of the TLB that names the page. */
  predicate IsFor(m: Memory, vpn: nat, i: nat)
    requires i < |m.table|
  {
    if !m.usesTlb then i == vpn && m.table[i].valid
    else Matches(m.table[i], vpn) && forall j :: 0 <= j < i ==> !Matches(m.table[j], vpn)
  }

  /** Some entry is for the page. */
  predicate Mapped(m: Memory, vpn: nat) {
    exists i :: 0 <= i < |m.table| && m.table[i].valid && (if m.usesTlb then Unsigned(m.table[i].virtualPage) == vpn else i == vpn)
  }

  lemma FindsExactly(m: Memory, vpn: nat, i: nat)
    requires i < |m.table|
    ensures Find(m, vpn) == Found(i) <==> IsFor(m, vpn, i)
  {}

  lemma MissesExactly(m: Memory, vpn: nat)
    ensures Find(m, vpn).Found? <==> Mapped(m, vpn)
    ensures Find(m, vpn) == Fault(AddressErrorException) <==> !m.usesTlb && vpn >= |m.table|
    ensures Find(m, vpn) == Fault(PageFaultException) <==> !Mapped(m, vpn) && (m.usesTlb || vpn < |m.table|)
  {
    if Find(m, vpn).Found? {
      var i := Find(m, vpn).index;
      assert 0 <= i < |m.table| && m.table[i].valid;
    } else if m.usesTlb {
      assert forall j :: 0 <= j < |m.table| ==> !Matches(m.table[j], vpn);
    }
  }

  predicate IsAligned(virtAddr: Word, size: nat) {
    virtAddr % (if size == 4 then 4 else if size == 2 then 2 else 1) == 0
  }

  lemma AlignedUnsigned(virtAddr: Word)
    ensures Unsigned(virtAddr) % 4 == virtAddr % 4 && Unsigned(virtAddr) % 2 == virtAddr % 2
  {}

  /** Which of the exceptions a translation ends in, for each of its causes. */
  lemma FailsExactly(m: Memory, virtAddr: Word, size: nat, writing: bool)
    ensures Translate(m, virtAddr, size, writing) == Failed(AddressErrorException) <==>
              !IsAligned(virtAddr, size) || (!m.usesTlb && Unsigned(virtAddr) / PageSize >= |m.table|)
    ensures Translate(m, virtAddr, size, writing) == Failed(PageFaultException) <==>
              && IsAligned(virtAddr, size) && !Mapped(m, Unsigned(virtAddr) / PageSize)
              && (m.usesTlb || Unsigned(virtAddr) / PageSize < |m.table|)
  {
    AlignedUnsigned(virtAddr);
    MissesExactly(m, Unsigned(virtAddr) / PageSize);
  }

  /** What an aligned access through the page's entry comes to. */
  lemma TranslatesThrough(m: Memory, virtAddr: Word, size: nat, writing: bool, i: nat)
    requires i < |m.table| && IsAligned(virtAddr, size) && IsFor(m, Unsigned(virtAddr) / PageSize, i)
    ensures Translate(m, virtAddr, size, writing) == Failed(ReadOnlyException) <==> writing && m.table[i].readOnly
    ensures Translate(m, virtAddr, size, writing) == Failed(BusErrorException) <==>
              !(writing && m.table[i].readOnly) && !(0 <= m.table[i].physicalPage < NumPhysPages)
    ensures Translate(m, virtAddr, size, writing).Address? ==>
              Translate(m, virtAddr, size, writing) ==
                Address(m.table[i].physicalPage * PageSize + Unsigned(virtAddr) % PageSize, i)
  {
    AlignedUnsigned(virtAddr);
    FindsExactly(m, Unsigned(virtAddr) / PageSize, i);
  }

  // ---------------------------------------------------------------- byte order of the host

  function Swap4(w: nat): nat {
    (w / 0x100_0000) % 0x100 + 0x100 * ((w / 0x1_0000) % 0x100) + 0x1_0000 * ((w / 0x100) % 0x100) + 0x100_0000 * (w % 0x100)
  }

  /** WordToHost and WordToMachine */
  function WordToHost(bigEndian: bool, w: nat): nat {
    if bigEndian then Swap4(w) else w
  }

  /** ShortToHost and ShortToMachine */
  function ShortToHost(bigEndian: bool, w: nat): nat {
    if bigEndian then (w / 0x100) % 0x100 + 0x100 * (w % 0x100) else w
  }

  /** What the host makes of four bytes of memory. */
  function HostWord(bigEndian: bool, b0: Byte, b1: Byte, b2: Byte, b3: Byte): nat {
    if bigEndian then b3 + 0x100 * b2 + 0x1_0000 * b1 + 0x100_0000 * b0
    else b0 + 0x100 * b1 + 0x1_0000 * b2 + 0x100_0000 * b3
  }

  function HostShort(bigEndian: bool, b0: Byte, b1: Byte): nat {
    if bigEndian then b1 + 0x100 * b0 else b0 + 0x100 * b1
  }

  /** Whatever the byte order of the host, memory holds words with the lowest byte first. */
  lemma WordOrderIsHidden(bigEndian: bool, b0: Byte, b1: Byte, b2: Byte, b3: Byte)
    ensures WordToHost(bigEndian, HostWord(bigEndian, b0, b1, b2, b3)) == HostWord(false, b0, b1, b2, b3)
    ensures WordToHost(bigEndian, HostWord(false, b0, b1, b2, b3)) == HostWord(bigEndian, b0, b1, b2, b3)
  {
    if bigEndian {
      SwapReverses(b3, b2, b1, b0);
      SwapReverses(b0, b1, b2, b3);
    }
  }

  lemma ShortOrderIsHidden(bigEndian: bool, b0: Byte, b1: Byte)
    ensures ShortToHost(bigEndian, HostShort(bigEndian, b0, b1)) == HostShort(false, b0, b1)
    ensures ShortToHost(bigEndian, HostShort(false, b0, b1)) == HostShort(bigEndian, b0, b1)
  {
    assert (b0 + 0x100 * b1) / 0x100 == b1 && (b1 + 0x100 * b0) / 0x100 == b0;
  }

  lemma SwapReverses(b0: Byte, b1: Byte, b2: Byte, b3: Byte)
    ensures Swap4(b0 + 0x100 * b1 + 0x1_0000 * b2 + 0x100_0000 * b3) == b3 + 0x100 * b2 + 0x1_0000 * b1 + 0x100_0000 * b0
  {
    var w := b0 + 0x100 * b1 + 0x1_0000 * b2 + 0x100_0000 * b3;
    assert w / 0x100 == b1 + 0x100 * b2 + 0x1_0000 * b3;
    assert w / 0x1_0000 == b2 + 0x100 * b3;
    assert w / 0x100_0000 == b3;
    assert w % 0x100 == b0 && (w / 0x100) % 0x100 == b1 && (w / 0x1_0000) % 0x100 == b2;
  }
}
