/** The machine (machine/translate.cc, machine/mipssim.cc): registers, memory and table updated in place. */
module Machines {
  import opened Options
  import opened Words
  import opened Translation
  import opened Decoder
  import opened Multiply
  import opened Cpu

  class Processor {
    const registers: array<Word>
    const mainMemory: array<Byte>
    const table: array<Entry>
    const usesTlb: bool

    ghost predicate Valid() {
      && registers.Length == NumTotalRegs && mainMemory.Length == MemorySize
      && (usesTlb ==> table.Length == TLBSize)
    }

    ghost function Mem(): Memory
      reads mainMemory, table
    {
      Memory(mainMemory[..], table[..], usesTlb)
    }

    constructor (usesTlb: bool, pageTableSize: nat)
      ensures Valid() && fresh(registers) && fresh(mainMemory) && fresh(table)
      ensures Ok(registers[..]) && forall i :: 0 <= i < NumTotalRegs ==> registers[i] == 0
      ensures forall i :: 0 <= i < MemorySize ==> mainMemory[i] == 0
    {
      registers := new Word[NumTotalRegs](_ => 0);
      mainMemory := new Byte[MemorySize](_ => 0);
      table := new Entry[if usesTlb then TLBSize else pageTableSize](_ => Entry(0, 0, false, false, false, false));
      this.usesTlb := usesTlb;
    }

    /** The index of the entry for the page. */
    method FindEntry(vpn: nat) returns (r: Lookup)
      requires Valid()
      ensures r == Find(Mem(), vpn)
    {
      if !usesTlb {
        if vpn >= table.Length { return Fault(AddressErrorException); }
        if !table[vpn].valid { return Fault(PageFaultException); }
        return Found(vpn);
      }
      for i := 0 to TLBSize
        invariant forall j :: 0 <= j < i ==> !Matches(table[j], vpn)
      {
        if table[i].valid && Unsigned(table[i].virtualPage) == vpn { return Found(i); }
      }
      return Fault(PageFaultException);
    }

    method Translate(virtAddr: Word, size: nat, writing: bool) returns (r: Translated)
      requires Valid()
      modifies table
      ensures r == Translation.Translate(old(Mem()), virtAddr, size, writing)
      ensures r.Address? ==> r.index < table.Length && table[..] == Touch(old(Mem()), r.index, writing).table
      ensures r.Failed? ==> table[..] == old(table[..])
    {
      if (size == 4 && Unsigned(virtAddr) % 4 != 0) || (size == 2 && Unsigned(virtAddr) % 2 != 0) {
        return Failed(AddressErrorException);
      }
      var vpn, offset := Unsigned(virtAddr) / PageSize, Unsigned(virtAddr) % PageSize;
      var found := FindEntry(vpn);
      if found.Fault? { return Failed(found.which); }
      var i := found.index;
      if table[i].readOnly && writing { return Failed(ReadOnlyException); }
      if Unsigned(table[i].physicalPage) >= NumPhysPages { return Failed(BusErrorException); }
      var pageFrame := table[i].physicalPage;
      table[i] := table[i].(use := true);
      if writing { table[i] := table[i].(dirty := true); }
      return Address(pageFrame * PageSize + offset, i);
    }

    method DelayedLoad(nextReg: nat, nextValue: Word)
      requires Valid() && 0 <= registers[LoadReg] < 32 && nextReg < 32
      modifies registers
      ensures registers[..] == Delayed(old(registers[..]), nextReg, nextValue)
    {
      registers[registers[LoadReg]] := registers[LoadValueReg];
      registers[LoadReg] := nextReg;
      registers[LoadValueReg] := nextValue;
      registers[0] := 0;
    }

    /** Up to the call of the kernel's handler. */
    method RaiseException(badVAddr: Word)
      requires Valid() && 0 <= registers[LoadReg] < 32
      modifies registers
      ensures registers[..] == Raised(old(registers[..]), badVAddr)
    {
      registers[BadVAddrReg] := badVAddr;
      DelayedLoad(0, 0);
    }

    method ReadMem(addr: Word, size: nat) returns (a: Access)
      requires Valid() && Size(size) && 0 <= registers[LoadReg] < 32
      modifies registers, table
      ensures (Mem(), a) == Read(old(Mem()), addr, size)
      ensures registers[..] == if a.Refused? then Raised(old(registers[..]), addr) else old(registers[..])
    {
      var t := Translate(addr, size, false);
      if t.Failed? {
        RaiseException(addr);
        return Refused(t.which);
      }
      StaysInPage(old(Mem()), addr, size, false);
      var pa := t.physical;
      if size == 1 {
        return Value(if mainMemory[pa] < 128 then mainMemory[pa] else mainMemory[pa] as int - 256);
      } else if size == 2 {
        return Value(mainMemory[pa] as int + 0x100 * mainMemory[pa + 1] as int);
      } else {
        return Value(Word4(mainMemory[pa], mainMemory[pa + 1], mainMemory[pa + 2], mainMemory[pa + 3]));
      }
    }

    method WriteMem(addr: Word, size: nat, value: Word) returns (failed: Option<Exception>)
      requires Valid() && Size(size) && 0 <= registers[LoadReg] < 32
      modifies registers, table, mainMemory
      ensures (Mem(), failed) == Write(old(Mem()), addr, size, value)
      ensures registers[..] == if failed.Some? then Raised(old(registers[..]), addr) else old(registers[..])
    {
      var t := Translate(addr, size, true);
      if t.Failed? {
        RaiseException(addr);
        return Some(t.which);
      }
      StaysInPage(old(Mem()), addr, size, true);
      StoreBytes(t.physical, size, value);
      return None;
    }

    method StoreBytes(pa: nat, size: nat, value: Word)
      requires Valid() && Size(size) && pa + size <= mainMemory.Length
      modifies mainMemory
      ensures mainMemory[..] == Poke(old(mainMemory[..]), pa, size, value)
    {
      mainMemory[pa] := ByteOf(value, 0);
      if size >= 2 { mainMemory[pa + 1] := ByteOf(value, 1); }
      if size == 4 { mainMemory[pa + 2], mainMemory[pa + 3] := ByteOf(value, 2), ByteOf(value, 3); }
    }

    method MultiplyInto(x: Word, y: Word, signedArith: bool) returns (e: Effect)
      requires Valid()
      ensures e == Multiplied(registers[..], if signedArith then x as int * y else Unsigned(x) * Unsigned(y))
    {
      var hi, lo := Mult(x, y, signedArith);
      if signedArith {
        HalvedSigned(hi, lo, x as int * y);
      } else {
        HalvedUnsigned(hi, lo, Unsigned(x) * Unsigned(y));
      }
      return Assign([Assignment(HiReg, hi), Assignment(LoReg, lo)], Following(registers[..]));
    }

    /** The switch; the products come from the shift-and-add loop. */
    method Switch(instr: Instruction) returns (e: Effect)
      requires Valid() && instr.rs < 32 && instr.rt < 32 && instr.rd < 32
      requires instr.opCode in {SLL, SRL, SRA} ==> instr.extra >= 0
      ensures e == Execute(registers[..], instr)
    {
      if instr.opCode == MULT {
        e := MultiplyInto(registers[instr.rs], registers[instr.rt], true);
      } else if instr.opCode == MULTU {
        e := MultiplyInto(registers[instr.rs], registers[instr.rt], false);
      } else {
        e := Execute(registers[..], instr);
      }
    }

    method AssignAll(assignments: seq<Assignment>)
      requires Valid() && forall k :: 0 <= k < |assignments| ==> assignments[k].reg <= LoReg
      modifies registers
      ensures registers[..] == Assigned(old(registers[..]), assignments)
    {
      for k := 0 to |assignments|
        invariant Assigned(registers[..], assignments[k..]) == Assigned(old(registers[..]), assignments)
      {
        ghost var r := registers[..];
        registers[assignments[k].reg] := assignments[k].value;
        assert registers[..] == r[assignments[k].reg := assignments[k].value];
        assert assignments[k..][1..] == assignments[k + 1..];
      }
    }

    method Complete(nextReg: nat, nextValue: Word, pcAfter: Word)
      requires Valid() && 0 <= registers[LoadReg] < 32 && nextReg < 32
      modifies registers
      ensures registers[..] == Advanced(Delayed(old(registers[..]), nextReg, nextValue), pcAfter)
    {
      DelayedLoad(nextReg, nextValue);
      registers[PrevPCReg] := registers[PCReg];
      registers[PCReg] := registers[NextPCReg];
      registers[NextPCReg] := pcAfter;
    }

    method PerformLoad(addr: Word, size: nat, how: Loading, reg: nat) returns (outcome: Outcome)
      requires Valid() && EffectOk(Load(addr, size, how, reg)) && Ok(registers[..])
      modifies registers, table, mainMemory
      ensures (Machine(registers[..], Mem()), outcome) == Applied(old(registers[..]), old(Mem()), Load(addr, size, how, reg))
    {
      var pcAfter := Wrap(4 + registers[NextPCReg] as int);
      var a := ReadMem(addr, size);
      if a.Refused? { return Trapped(a.which); }
      Complete(reg, Loaded(a.value, how), pcAfter);
      return Ran;
    }

    method PerformStore(addr: Word, size: nat, value: Word) returns (outcome: Outcome)
      requires Valid() && Size(size) && Ok(registers[..])
      modifies registers, table, mainMemory
      ensures (Machine(registers[..], Mem()), outcome) == Applied(old(registers[..]), old(Mem()), Store(addr, size, value))
    {
      var pcAfter := Wrap(4 + registers[NextPCReg] as int);
      var failed := WriteMem(addr, size, value);
      if failed.Some? { return Trapped(failed.value); }
      Complete(0, 0, pcAfter);
      return Ran;
    }

    /** SWL and SWR */
    method PerformMerge(addr: Word, right: bool, value: Word) returns (outcome: Outcome)
      requires Valid() && Ok(registers[..])
      modifies registers, table, mainMemory
      ensures (Machine(registers[..], Mem()), outcome) == Applied(old(registers[..]), old(Mem()), Merge(addr, right, value))
    {
      var a := ReadMem(addr, 4);
      if a.Refused? { return Trapped(a.which); }
      outcome := PerformStore(addr, 4, Merged(a.value, right, value));
    }

    method Perform(e: Effect) returns (outcome: Outcome)
      requires Valid() && EffectOk(e) && Ok(registers[..])
      modifies registers, table, mainMemory
      ensures (Machine(registers[..], Mem()), outcome) == Applied(old(registers[..]), old(Mem()), e)
    {
      match e
      case Assign(assignments, pcAfter) =>
        AssignedKeeps(registers[..], assignments, LoadReg);
        AssignAll(assignments);
        Complete(0, 0, pcAfter);
        outcome := Ran;
      case Load(addr, size, how, reg) => outcome := PerformLoad(addr, size, how, reg);
      case Store(addr, size, value) => outcome := PerformStore(addr, size, value);
      case Merge(addr, right, value) => outcome := PerformMerge(addr, right, value);
      case Raise(which, badVAddr) =>
        RaiseException(badVAddr);
        outcome := Trapped(which);
      case Stop => outcome := Stopped;
    }

    method OneInstruction() returns (outcome: Outcome)
      requires Valid() && Ok(registers[..])
      modifies registers, table, mainMemory
      ensures (Machine(registers[..], Mem()), outcome) == Step(Machine(old(registers[..]), old(Mem())))
    {
      var raw := ReadMem(registers[PCReg], 4);
      if raw.Refused? { return Trapped(raw.which); }
      var e := Switch(Decode(Unsigned(raw.value)));
      outcome := Perform(e);
    }
  }

  /** The halves of an exact product. */
  lemma HalvedSigned(hi: Word, lo: Word, p: int)
    requires hi * TwoTo32 + Unsigned(lo) == p
    ensures Wrap(p / TwoTo32) == hi && Wrap(p) == lo
  {
    assert p / TwoTo32 == hi;
    WrapUnsigned(lo);
  }

  lemma HalvedUnsigned(hi: Word, lo: Word, p: int)
    requires Unsigned(hi) * TwoTo32 + Unsigned(lo) == p
    ensures Wrap(p / TwoTo32) == hi && Wrap(p) == lo
  {
    assert p / TwoTo32 == Unsigned(hi);
    WrapUnsigned(hi);
    WrapUnsigned(lo);
  }
}
