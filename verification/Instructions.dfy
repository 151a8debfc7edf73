/**
 What each MIPS instruction does to the machine (machine/mipssim.cc), in registers and addresses: the whole machine
 after a step of module Cpu, for every opcode.
 */
module Instructions {
  import opened Words
  import opened Translation
  import opened Decoder
  import opened Cpu

  // ---------------------------------------------------------------- the machine after an instruction

  /** What every decoded instruction is like. */
  predicate Sound(i: Instruction) {
    && i.rs < 32 && i.rt < 32 && i.rd < 32 && (i.opCode in {SLL, SRL, SRA} ==> 0 <= i.extra < 32)
    && (i.opCode in {J, JAL} ==> 0 <= i.extra < 0x400_0000)
  }

  predicate Ready(m: Machine, i: Instruction) {
    Ok(m.regs) && Wf(m.mem) && Sound(i)
  }

  /** The machine, with the instruction fetched, executes it. */
  function Run(m: Machine, i: Instruction): (Machine, Outcome)
    requires Ready(m, i)
  {
    Applied(m.regs, m.mem, Execute(m.regs, i))
  }

  /** A register that holds data: register 0 is zero, and the load that was pending is done last. */
  function Left(r: Registers, j: nat, written: map<nat, Word>): Word
    requires j <= LoReg
  {
    if j == 0 then 0 else if j == r[LoadReg] then r[LoadValueReg] else if j in written then written[j] else r[j]
  }

  /** The registers after an instruction that assigns these registers, leaves a load of value pending for reg, or
      none if reg is 0, and goes on behind the delay slot at target. */
  function RegsAfter(r: Registers, written: map<nat, Word>, target: Word, reg: Word, value: Word): Registers {
    seq(NumTotalRegs, j requires 0 <= j < NumTotalRegs =>
      if j <= LoReg then Left(r, j, written)
      else if j == PCReg then r[NextPCReg] else if j == NextPCReg then target else if j == PrevPCReg then r[PCReg]
      else if j == LoadReg then reg else if j == LoadValueReg then value else r[j])
  }

  /** The registers when the kernel is called: nothing is assigned, and the program counters stay. */
  function RegsTrapped(r: Registers, badVAddr: Word): Registers {
    seq(NumTotalRegs, j requires 0 <= j < NumTotalRegs =>
      if j <= LoReg then Left(r, j, map[])
      else if j == LoadReg || j == LoadValueReg then 0 else if j == BadVAddrReg then badVAddr else r[j])
  }

  /** The address behind the delay slot. */
  function Behind(m: Machine): Word {
    Wrap(m.regs[NextPCReg] as int + 4)
  }

  /** The instruction runs and leaves memory alone. */
  function Ended(m: Machine, written: map<nat, Word>, target: Word): (Machine, Outcome) {
    (Machine(RegsAfter(m.regs, written, target, 0, 0), m.mem), Ran)
  }

  function Kernel(m: Machine, which: Exception, badVAddr: Word): (Machine, Outcome) {
    (Machine(RegsTrapped(m.regs, badVAddr), m.mem), Trapped(which))
  }

  /** The entry of a page that was read from is marked used. */
  function Used(mem: Memory, entry: nat): Memory
    requires entry < |mem.table|
  {
    mem.(table := mem.table[entry := mem.table[entry].(use := true)])
  }

  // ---------------------------------------------------------------- carrying an effect out

  lemma FinishIs(r: Registers, mem: Memory, nextReg: nat, nextValue: Word, pcAfter: Word)
    requires 0 <= r[LoadReg] < 32 && nextReg < 32
    ensures Finish(r, mem, nextReg, nextValue, pcAfter) == (Machine(RegsAfter(r, map[], pcAfter, nextReg, nextValue), mem), Ran)
  {
    var r1, r2 := Advanced(Delayed(r, nextReg, nextValue), pcAfter), RegsAfter(r, map[], pcAfter, nextReg, nextValue);
    forall j | 0 <= j < NumTotalRegs ensures r1[j] == r2[j] {}
    assert r1 == r2;
  }

  lemma TrapIs(m: Machine, which: Exception, badVAddr: Word)
    requires Ok(m.regs)
    ensures Trap(m.regs, m.mem, which, badVAddr) == Kernel(m, which, badVAddr)
  {
    var r1, r2 := Raised(m.regs, badVAddr), RegsTrapped(m.regs, badVAddr);
    forall j | 0 <= j < NumTotalRegs ensures r1[j] == r2[j] {}
    assert r1 == r2;
  }

  lemma NothingAssigned(m: Machine, target: Word)
    requires Ok(m.regs) && Wf(m.mem)
    ensures Applied(m.regs, m.mem, Assign([], target)) == Ended(m, map[], target)
  {
    FinishIs(m.regs, m.mem, 0, 0, target);
  }

  lemma OneAssigned(m: Machine, reg: nat, value: Word, target: Word)
    requires Ok(m.regs) && Wf(m.mem) && reg <= LoReg
    ensures Applied(m.regs, m.mem, Assign([Assignment(reg, value)], target)) == Ended(m, map[reg := value], target)
  {
    var r := m.regs[reg := value];
    assert Assigned(m.regs, [Assignment(reg, value)]) == r;
    FinishIs(r, m.mem, 0, 0, target);
    assert RegsAfter(r, map[], target, 0, 0) == RegsAfter(m.regs, map[reg := value], target, 0, 0);
  }

  lemma TwoAssigned(m: Machine, a: Assignment, b: Assignment, target: Word)
    requires Ok(m.regs) && Wf(m.mem) && a.reg <= LoReg && b.reg <= LoReg && a.reg != b.reg
    ensures Applied(m.regs, m.mem, Assign([a, b], target)) == Ended(m, map[a.reg := a.value, b.reg := b.value], target)
  {
    var r := m.regs[a.reg := a.value][b.reg := b.value];
    assert [a, b][1..] == [b];
    assert Assigned(m.regs[a.reg := a.value], [b]) == r;
    assert Assigned(m.regs, [a, b]) == r;
    FinishIs(r, m.mem, 0, 0, target);
    assert RegsAfter(r, map[], target, 0, 0) == RegsAfter(m.regs, map[a.reg := a.value, b.reg := b.value], target, 0, 0);
  }

  lemma Raises(m: Machine, which: Exception, badVAddr: Word)
    requires Ok(m.regs) && Wf(m.mem)
    ensures Applied(m.regs, m.mem, Raise(which, badVAddr)) == Kernel(m, which, badVAddr)
  {
    TrapIs(m, which, badVAddr);
  }

  lemma RunNothing(m: Machine, i: Instruction, target: Word)
    requires Ready(m, i) && Execute(m.regs, i) == Assign([], target)
    ensures Run(m, i) == Ended(m, map[], target)
  {
    NothingAssigned(m, target);
  }

  lemma RunOne(m: Machine, i: Instruction, reg: nat, value: Word, target: Word)
    requires Ready(m, i) && reg <= LoReg && Execute(m.regs, i) == Assign([Assignment(reg, value)], target)
    ensures Run(m, i) == Ended(m, map[reg := value], target)
  {
    OneAssigned(m, reg, value, target);
  }

  lemma RunPut(m: Machine, i: Instruction, reg: nat, value: Word)
    requires Ready(m, i) && reg <= LoReg && Execute(m.regs, i) == Put(m.regs, reg, value)
    ensures Run(m, i) == Ended(m, map[reg := value], Behind(m))
  {
    OneAssigned(m, reg, value, Behind(m));
  }

  lemma RunRaise(m: Machine, i: Instruction, which: Exception, badVAddr: Word)
    requires Ready(m, i) && Execute(m.regs, i) == Raise(which, badVAddr)
    ensures Run(m, i) == Kernel(m, which, badVAddr)
  {
    Raises(m, which, badVAddr);
  }

  // ---------------------------------------------------------------- the fetch

  /** The word in main memory at a physical address. */
  function WordAt(main: seq<Byte>, pa: nat): Word
    requires pa + 4 <= |main|
  {
    Word4(main[pa], main[pa + 1], main[pa + 2], main[pa + 3])
  }

  /** A step fetches the word at PC, which marks its page used, decodes it and executes it; if the address does not
      translate, it is an exception at PC. */
  lemma StepIsFetchAndRun(m: Machine)
    requires Ok(m.regs) && Wf(m.mem)
    ensures match Translate(m.mem, m.regs[PCReg], 4, false)
            case Failed(which) => Step(m) == Kernel(m, which, m.regs[PCReg])
            case Address(pa, entry) =>
              && pa + 4 <= |m.mem.main| && entry < |m.mem.table|
              && var i := Decode(Unsigned(WordAt(m.mem.main, pa)));
                 Wf(Used(m.mem, entry)) && Sound(i) && Step(m) == Run(m.(mem := Used(m.mem, entry)), i)
  {
    match Translate(m.mem, m.regs[PCReg], 4, false)
    case Failed(which) => TrapIs(m, which, m.regs[PCReg]);
    case Address(pa, entry) =>
      StaysInPage(m.mem, m.regs[PCReg], 4, false);
      FoundIsValid(m.mem, Unsigned(m.regs[PCReg]) / PageSize);
      assert Touch(m.mem, entry, false) == Used(m.mem, entry);
  }

  // ---------------------------------------------------------------- branches and jumps

  /** BEQ branches on equal registers, BNE on different ones, the others on the sign of rs. */
  predicate TakenIf(op: OpCode, rs: Word, rt: Word, taken: bool) {
    && (op == BEQ ==> (taken <==> rs == rt)) && (op == BNE ==> (taken <==> rs != rt))
    && (op == BGTZ ==> (taken <==> rs > 0)) && (op == BLEZ ==> (taken <==> rs <= 0))
    && (op in {BGEZ, BGEZAL} ==> (taken <==> rs >= 0)) && (op in {BLTZ, BLTZAL} ==> (taken <==> rs < 0))
  }

  /** A branch that is taken counts its offset in words from the delay slot. */
  function BranchTo(r: Registers, offset: Word, taken: bool): Word {
    if taken then Wrap(r[NextPCReg] as int + 4 * offset) else Wrap(r[NextPCReg] as int + 4)
  }

  lemma ExecutesBranch(r: Registers, i: Instruction, taken: bool)
    requires Sound(i) && i.opCode in {BEQ, BNE, BGTZ, BLEZ, BGEZ, BLTZ} && TakenIf(i.opCode, r[i.rs], r[i.rt], taken)
    ensures Execute(r, i) == Assign([], BranchTo(r, i.extra, taken))
  {}

  lemma ExecutesLinking(r: Registers, i: Instruction, behind: Word, rs: Word, taken: bool)
    requires Sound(i) && i.opCode in {BGEZAL, BLTZAL} && behind == Wrap(r[NextPCReg] as int + 4)
    requires rs == (if i.rs == 31 then behind else r[i.rs]) && TakenIf(i.opCode, rs, 0, taken)
    ensures Execute(r, i) == Assign([Assignment(31, behind)], BranchTo(r, i.extra, taken))
  {}

  lemma ExecutesJump(r: Registers, i: Instruction)
    requires Sound(i) && i.opCode in {J, JAL}
    ensures Execute(r, i) == Assign(if i.opCode == JAL then [Assignment(31, Wrap(r[NextPCReg] as int + 4))] else [], JumpTarget(r, i.extra))
  {}

  /** The conditional branches. */
  lemma Branches(m: Machine, i: Instruction, taken: bool)
    requires Ready(m, i) && i.opCode in {BEQ, BNE, BGTZ, BLEZ, BGEZ, BLTZ}
    requires TakenIf(i.opCode, m.regs[i.rs], m.regs[i.rt], taken)
    ensures Run(m, i) == Ended(m, map[], BranchTo(m.regs, i.extra, taken))
  {
    ExecutesBranch(m.regs, i, taken);
    RunNothing(m, i, BranchTo(m.regs, i.extra, taken));
  }

  /** BGEZAL and BLTZAL leave the address behind the delay slot in register 31, also when they do not branch, and
      before they look at rs. */
  lemma LinkingBranches(m: Machine, i: Instruction, rs: Word, taken: bool)
    requires Ready(m, i) && i.opCode in {BGEZAL, BLTZAL} && rs == (if i.rs == 31 then Behind(m) else m.regs[i.rs])
    requires TakenIf(i.opCode, rs, 0, taken)
    ensures Run(m, i) == Ended(m, map[31 := Behind(m)], BranchTo(m.regs, i.extra, taken))
  {
    ExecutesLinking(m.regs, i, Behind(m), rs, taken);
    RunOne(m, i, 31, Behind(m), BranchTo(m.regs, i.extra, taken));
  }

  ghost predicate InRegion(target: Word, behind: Word, extra: Word) {
    Unsigned(target) / 0x1000_0000 == Unsigned(behind) / 0x1000_0000 && Unsigned(target) % 0x1000_0000 == 4 * extra
  }

  /** J and JAL go to a word of the region of 2^28 bytes that the address behind the delay slot is in. */
  lemma Jumps(m: Machine, i: Instruction) returns (target: Word)
    requires Ready(m, i) && i.opCode in {J, JAL}
    ensures InRegion(target, Behind(m), i.extra)
    ensures Run(m, i) == Ended(m, if i.opCode == JAL then map[31 := Behind(m)] else map[], target)
  {
    target := JumpTarget(m.regs, i.extra);
    ExecutesJump(m.regs, i);
    JumpStaysInRegion(m.regs, i.extra);
    assert InRegion(target, Behind(m), i.extra) == true;
    if i.opCode == JAL { RunOne(m, i, 31, Behind(m), target); } else { RunNothing(m, i, target); }
  }

  lemma ExecutesJumpRegister(r: Registers, i: Instruction, behind: Word)
    requires Sound(i) && behind == Wrap(r[NextPCReg] as int + 4)
    ensures i.opCode == JR ==> Execute(r, i) == Assign([], r[i.rs])
    ensures i.opCode == JALR ==> Execute(r, i) == Assign([Assignment(i.rd, behind)], if i.rd == i.rs then behind else r[i.rs])
  {}

  /** JR goes to the address in rs. */
  lemma JumpsToRegister(m: Machine, i: Instruction)
    requires Ready(m, i) && i.opCode == JR
    ensures Run(m, i) == Ended(m, map[], m.regs[i.rs])
  {
    ExecutesJumpRegister(m.regs, i, Behind(m));
    RunNothing(m, i, m.regs[i.rs]);
  }

  /** JALR too, but sets rd first. */
  lemma JumpsAndLinks(m: Machine, i: Instruction, target: Word)
    requires Ready(m, i) && i.opCode == JALR && target == if i.rd == i.rs then Behind(m) else m.regs[i.rs]
    ensures Run(m, i) == Ended(m, map[i.rd := Behind(m)], target)
  {
    ExecutesJumpRegister(m.regs, i, Behind(m));
    RunOne(m, i, i.rd, Behind(m), target);
  }

  lemma ExecutesCall(r: Registers, i: Instruction)
    requires Sound(i)
    ensures i.opCode == SYSCALL ==> Execute(r, i) == Raise(SyscallException, 0)
    ensures i.opCode in {RES, UNIMP} ==> Execute(r, i) == Raise(IllegalInstrException, 0)
  {}

  /** System calls and words that are no instruction call the kernel. */
  lemma CallsKernel(m: Machine, i: Instruction, which: Exception)
    requires Ready(m, i) && i.opCode in {SYSCALL, RES, UNIMP}
    requires which == if i.opCode == SYSCALL then SyscallException else IllegalInstrException
    ensures Run(m, i) == Kernel(m, which, 0)
  {
    ExecutesCall(m.regs, i);
    RunRaise(m, i, which, 0);
  }

  // ---------------------------------------------------------------- arithmetic

  predicate Fits32(x: int) {
    -TwoTo31 <= x < TwoTo31
  }

  /** The exact sum or difference, and the register for it. */
  predicate ExactIs(i: Instruction, rs: int, rt: int, exact: int, dest: nat) {
    && (i.opCode in {ADD, ADDU} ==> exact == rs + rt && dest == i.rd)
    && (i.opCode in {SUB, SUBU} ==> exact == rs - rt && dest == i.rd)
    && (i.opCode in {ADDI, ADDIU} ==> exact == rs + i.extra && dest == i.rt)
  }

  lemma ExecutesAdd(r: Registers, i: Instruction, exact: int, dest: nat)
    requires Sound(i) && i.opCode in {ADDU, SUBU, ADDIU} && ExactIs(i, r[i.rs], r[i.rt], exact, dest)
    ensures Execute(r, i) == Put(r, dest, Wrap(exact)) && dest < 32
  {}

  /** ADDU, SUBU and ADDIU give sums and differences modulo 2^32. */
  lemma AddsUnsigned(m: Machine, i: Instruction, exact: int, dest: nat)
    requires Ready(m, i) && i.opCode in {ADDU, SUBU, ADDIU} && ExactIs(i, m.regs[i.rs], m.regs[i.rt], exact, dest)
    ensures Run(m, i) == Ended(m, map[dest := Wrap(exact)], Behind(m))
  {
    ExecutesAdd(m.regs, i, exact, dest);
    RunPut(m, i, dest, Wrap(exact));
  }

  lemma ExecutesChecked(r: Registers, i: Instruction, exact: int, dest: nat)
    requires Sound(i) && i.opCode in {ADD, SUB, ADDI} && ExactIs(i, r[i.rs], r[i.rt], exact, dest)
    ensures Execute(r, i) == Checked(r, dest, exact) && dest < 32
  {
    if i.opCode == ADD {
      AddIsExact(r, i);
    } else if i.opCode == ADDI {
      AddImmediateIsExact(r, i);
    } else {
      SubtractIsExact(r, i);
    }
  }

  lemma RunChecked(m: Machine, i: Instruction, exact: int, dest: nat)
    requires Ready(m, i) && dest < 32 && Execute(m.regs, i) == Checked(m.regs, dest, exact)
    ensures Run(m, i) == if Fits32(exact) then Ended(m, map[dest := exact], Behind(m)) else Kernel(m, OverflowException, 0)
  {
    if Fits32(exact) { RunPut(m, i, dest, exact); } else { RunRaise(m, i, OverflowException, 0); }
  }

  /** ADD, SUB and ADDI give the exact sum or difference, or call the kernel if it is no 32-bit number. */
  lemma AddsSigned(m: Machine, i: Instruction, exact: int, dest: nat)
    requires Ready(m, i) && i.opCode in {ADD, SUB, ADDI} && ExactIs(i, m.regs[i.rs], m.regs[i.rt], exact, dest)
    ensures Run(m, i) == if Fits32(exact) then Ended(m, map[dest := exact], Behind(m)) else Kernel(m, OverflowException, 0)
  {
    ExecutesChecked(m.regs, i, exact, dest);
    RunChecked(m, i, exact, dest);
  }

  /** SLT and SLTI compare as signed numbers, SLTU and SLTIU as unsigned ones. */
  predicate LessIf(i: Instruction, rs: Word, rt: Word, less: bool) {
    && (i.opCode == SLT ==> (less <==> rs < rt)) && (i.opCode == SLTI ==> (less <==> rs < i.extra))
    && (i.opCode == SLTU ==> (less <==> Unsigned(rs) < Unsigned(rt)))
    && (i.opCode == SLTIU ==> (less <==> Unsigned(rs) < Unsigned(i.extra)))
  }

  lemma ExecutesLess(r: Registers, i: Instruction, less: bool)
    requires Sound(i) && i.opCode in {SLT, SLTI, SLTU, SLTIU} && LessIf(i, r[i.rs], r[i.rt], less)
    ensures Execute(r, i) == Put(r, if i.opCode in {SLT, SLTU} then i.rd else i.rt, if less then 1 else 0)
  {}

  lemma SetsIfLess(m: Machine, i: Instruction, less: bool, dest: nat)
    requires Ready(m, i) && i.opCode in {SLT, SLTI, SLTU, SLTIU} && LessIf(i, m.regs[i.rs], m.regs[i.rt], less)
    requires dest == if i.opCode in {SLT, SLTU} then i.rd else i.rt
    ensures Run(m, i) == Ended(m, map[dest := if less then 1 else 0], Behind(m))
  {
    ExecutesLess(m.regs, i, less);
    RunPut(m, i, dest, if less then 1 else 0);
  }

  lemma ExecutesMove(r: Registers, i: Instruction)
    requires Sound(i)
    ensures i.opCode == MFHI ==> Execute(r, i) == Put(r, i.rd, r[HiReg])
    ensures i.opCode == MFLO ==> Execute(r, i) == Put(r, i.rd, r[LoReg])
    ensures i.opCode == MTHI ==> Execute(r, i) == Put(r, HiReg, r[i.rs])
    ensures i.opCode == MTLO ==> Execute(r, i) == Put(r, LoReg, r[i.rs])
  {}

  /** MFHI and MFLO read HI and LO. */
  lemma MovesFrom(m: Machine, i: Instruction, from: nat)
    requires Ready(m, i) && i.opCode in {MFHI, MFLO} && from == if i.opCode == MFHI then HiReg else LoReg
    ensures Run(m, i) == Ended(m, map[i.rd := m.regs[from]], Behind(m))
  {
    ExecutesMove(m.regs, i);
    RunPut(m, i, i.rd, m.regs[from]);
  }

  /** MTHI and MTLO set them. */
  lemma MovesTo(m: Machine, i: Instruction, to: nat)
    requires Ready(m, i) && i.opCode in {MTHI, MTLO} && to == if i.opCode == MTHI then HiReg else LoReg
    ensures Run(m, i) == Ended(m, map[to := m.regs[i.rs]], Behind(m))
  {
    ExecutesMove(m.regs, i);
    RunPut(m, i, to, m.regs[i.rs]);
  }

  lemma HalvesOf(product: int)
    ensures Unsigned(Wrap(product)) == product % TwoTo32
    ensures Fits32(product / TwoTo32) ==> Wrap(product / TwoTo32) * TwoTo32 + Unsigned(Wrap(product)) == product
    ensures 0 <= product / TwoTo32 < TwoTo32 ==> Unsigned(Wrap(product / TwoTo32)) * TwoTo32 + Unsigned(Wrap(product)) == product
  {}

  lemma SignedProduct(x: Word, y: Word)
    ensures Fits32(x * y / TwoTo32)
  {
    var p := x as int * y as int;
    ProductBound(x, y, TwoTo31);
    assert -TwoTo31 * TwoTo31 <= p <= TwoTo31 * TwoTo31;
  }

  lemma ProductBound(x: int, y: int, b: int)
    requires b >= 0 && -b <= x <= b && -b <= y <= b
    ensures -b * b <= x * y <= b * b
  {
    var u, v := Abs(x), Abs(y);
    SignOfProduct(u, v);
    MulMono(u, b, v);
    MulMono(v, b, b);
  }

  lemma UnsignedProduct(x: nat, y: nat)
    requires x < TwoTo32 && y < TwoTo32
    ensures 0 <= x * y / TwoTo32 < TwoTo32
  {
    ProductBound(x, y, TwoTo32 - 1);
  }

  lemma PutsHalves(m: Machine, i: Instruction, product: int)
    requires Ready(m, i) && Execute(m.regs, i) == Multiplied(m.regs, product)
    ensures Run(m, i) == Ended(m, map[HiReg := Wrap(product / TwoTo32), LoReg := Wrap(product)], Behind(m))
  {
    TwoAssigned(m, Assignment(HiReg, Wrap(product / TwoTo32)), Assignment(LoReg, Wrap(product)), Behind(m));
  }

  /** HI and LO are the halves of the product of the signed numbers. */
  lemma Multiplies(m: Machine, i: Instruction, x: int, y: int) returns (hi: Word, lo: Word)
    requires Ready(m, i) && i.opCode == MULT && x == m.regs[i.rs] && y == m.regs[i.rt]
    ensures Run(m, i) == Ended(m, map[HiReg := hi, LoReg := lo], Behind(m))
    ensures hi as int * TwoTo32 + Unsigned(lo) == x * y
  {
    hi, lo := Wrap(x * y / TwoTo32), Wrap(x * y);
    HalvesOf(x * y);
    SignedProduct(x, y);
    PutsHalves(m, i, x * y);
  }

  /** And of the unsigned ones. */
  lemma MultipliesUnsigned(m: Machine, i: Instruction, x: int, y: int) returns (hi: Word, lo: Word)
    requires Ready(m, i) && i.opCode == MULTU && x == Unsigned(m.regs[i.rs]) && y == Unsigned(m.regs[i.rt])
    ensures Run(m, i) == Ended(m, map[HiReg := hi, LoReg := lo], Behind(m))
    ensures Unsigned(hi) * TwoTo32 + Unsigned(lo) == x * y
  {
    hi, lo := Wrap(x * y / TwoTo32), Wrap(x * y);
    HalvesOf(x * y);
    UnsignedProduct(x, y);
    PutsHalves(m, i, x * y);
  }

  /** DIV stops the simulator for the one quotient that is no 32-bit number; otherwise LO is the quotient rounded
      towards zero and HI the remainder, and both are zero for a zero divisor. */
  lemma Divides(m: Machine, i: Instruction) returns (q: Word, rem: Word)
    requires Ready(m, i) && i.opCode == DIV
    ensures var x, y := m.regs[i.rs] as int, m.regs[i.rt] as int;
            if x == -TwoTo31 && y == -1 then Run(m, i).1 == Stopped
            else
              && Run(m, i) == Ended(m, map[LoReg := q, HiReg := rem], Behind(m))
              && if y == 0 then q == 0 && rem == 0
                 else x == q * y + rem && -Abs(y) < rem < Abs(y) && (rem == 0 || (rem < 0 <==> x < 0))
  {
    q, rem := 0, 0;
    DivideIsExact(m.regs, i);
    var e := Execute(m.regs, i);
    if e.Assign? {
      q, rem := e.assignments[0].value, e.assignments[1].value;
      TwoAssigned(m, Assignment(LoReg, q), Assignment(HiReg, rem), Behind(m));
    }
  }

  lemma DivideUnsigned(x: nat, y: nat)
    requires y > 0 && x < TwoTo32 && y < TwoTo32
    ensures var q := Quotient(x, y); var rem := x - q * y;
            Unsigned(Wrap(q)) == q && Unsigned(Wrap(rem)) == rem && 0 <= rem < y
  {
    Dividing(x, y);
  }

  lemma DividesUnsigned(m: Machine, i: Instruction) returns (q: Word, rem: Word)
    requires Ready(m, i) && i.opCode == DIVU
    ensures Run(m, i) == Ended(m, map[LoReg := q, HiReg := rem], Behind(m))
    ensures var x, y := Unsigned(m.regs[i.rs]), Unsigned(m.regs[i.rt]);
            if y == 0 then q == 0 && rem == 0 else x == Unsigned(q) * y + Unsigned(rem) && Unsigned(rem) < y
  {
    var x, y := Unsigned(m.regs[i.rs]), Unsigned(m.regs[i.rt]);
    q, rem := 0, 0;
    if y != 0 {
      q, rem := Wrap(Quotient(x, y)), Wrap(x - Quotient(x, y) * y);
      DivideUnsigned(x, y);
    }
    TwoAssigned(m, Assignment(LoReg, q), Assignment(HiReg, rem), Behind(m));
  }

  // ---------------------------------------------------------------- bits

  /** Bit k of a word. */
  predicate Bit(w: Word, k: nat) {
    BitAt(Unsigned(w), k)
  }

  lemma WordBits(x: Word, y: Word, k: nat)
    requires k < 32
    ensures Bit(And(x, y), k) <==> Bit(x, k) && Bit(y, k)
    ensures Bit(Or(x, y), k) <==> Bit(x, k) || Bit(y, k)
    ensures Bit(Xor(x, y), k) <==> Bit(x, k) != Bit(y, k)
    ensures Bit(Not(x), k) <==> !Bit(x, k)
  {
    var u, v := Unsigned(x), Unsigned(y);
    Pow2Of32();
    BitsBelow(u, v, 32);
    BitwiseIsBitByBit(u, v, k);
    ComplementBits(u, k, 32);
    assert Unsigned(Not(x)) == TwoTo32 - 1 - u;
    UnsignedWrap(BitAnd(u, v));
    UnsignedWrap(BitOr(u, v));
    UnsignedWrap(BitXor(u, v));
  }

  lemma UnsignedWrap(u: nat)
    requires u < TwoTo32
    ensures Unsigned(Wrap(u)) == u
  {}

  lemma {:induction false} BitsBelow(x: nat, y: nat, n: nat)
    requires x < Pow2(n) && y < Pow2(n)
    ensures BitAnd(x, y) < Pow2(n) && BitOr(x, y) < Pow2(n) && BitXor(x, y) < Pow2(n)
    decreases n
  {
    if n == 0 {
    } else {
      BitsBelow(x / 2, y / 2, n - 1);
    }
  }

  /** What AND, ANDI, OR, ORI, XOR, XORI and NOR give, bit by bit.  OR takes rs for both operands. */
  predicate BitOf(op: OpCode, x: bool, y: bool) {
    match op
    case AND => x && y
    case ANDI => x && y
    case OR => x
    case ORI => x || y
    case XOR => x != y
    case XORI => x != y
    case _ => !x && !y
  }

  lemma ExecutesLogical(r: Registers, i: Instruction, y: Word, dest: nat)
    requires Sound(i) && i.opCode in {AND, ANDI, OR, ORI, XOR, XORI, NOR}
    requires if i.opCode in {ANDI, ORI, XORI} then dest == i.rt && y == i.extra % 0x1_0000 else dest == i.rd && y == r[i.rt]
    ensures Execute(r, i) == Put(r, dest, LogicalValue(i.opCode, r[i.rs], y))
  {}

  /** The logical operations work bit by bit on rs and rt, or on rs and the sixteen bits of the instruction. */
  lemma Logicals(m: Machine, i: Instruction, y: Word, dest: nat) returns (w: Word)
    requires Ready(m, i) && i.opCode in {AND, ANDI, OR, ORI, XOR, XORI, NOR}
    requires if i.opCode in {ANDI, ORI, XORI} then dest == i.rt && y == i.extra % 0x1_0000 else dest == i.rd && y == m.regs[i.rt]
    ensures Run(m, i) == Ended(m, map[dest := w], Behind(m))
    ensures forall k: nat :: k < 32 ==> (Bit(w, k) <==> BitOf(i.opCode, Bit(m.regs[i.rs], k), Bit(y, k)))
  {
    var x := m.regs[i.rs];
    w := LogicalValue(i.opCode, x, y);
    forall k: nat | k < 32 ensures Bit(w, k) <==> BitOf(i.opCode, Bit(x, k), Bit(y, k)) {
      LogicalBits(i.opCode, x, y, k);
    }
    ExecutesLogical(m.regs, i, y, dest);
    RunPut(m, i, dest, w);
  }

  function LogicalValue(op: OpCode, x: Word, y: Word): Word {
    if op in {AND, ANDI} then And(x, y) else if op == OR then Or(x, x) else if op == ORI then Or(x, y)
    else if op in {XOR, XORI} then Xor(x, y) else Not(Or(x, y))
  }

  lemma LogicalBits(op: OpCode, x: Word, y: Word, k: nat)
    requires op in {AND, ANDI, OR, ORI, XOR, XORI, NOR} && k < 32
    ensures Bit(LogicalValue(op, x, y), k) <==> BitOf(op, Bit(x, k), Bit(y, k))
  {
    WordBits(x, y, k);
    WordBits(x, x, k);
    WordBits(Or(x, y), y, k);
  }

  lemma ExecutesShift(r: Registers, i: Instruction, n: nat)
    requires Sound(i) && i.opCode in {SLL, SLLV, SRA, SRAV, SRL, SRLV}
    requires n == if i.opCode in {SLL, SRA, SRL} then i.extra else r[i.rs] % 32
    ensures Execute(r, i) == Put(r, i.rd, if i.opCode in {SLL, SLLV} then ShiftLeft(r[i.rt], n) else ShiftRight(r[i.rt], n))
  {}

  /** SLL and SLLV multiply by a power of two, modulo 2^32; LUI puts the sixteen bits into the upper half. */
  lemma ShiftsLeft(m: Machine, i: Instruction, n: nat)
    requires Ready(m, i) && i.opCode in {SLL, SLLV} && n == (if i.opCode == SLL then i.extra else m.regs[i.rs] % 32)
    ensures Run(m, i) == Ended(m, map[i.rd := Wrap(m.regs[i.rt] * Pow2(n))], Behind(m))
  {
    ExecutesShift(m.regs, i, n);
    RunPut(m, i, i.rd, Wrap(m.regs[i.rt] * Pow2(n)));
  }

  lemma LoadsUpper(m: Machine, i: Instruction)
    requires Ready(m, i) && i.opCode == LUI
    ensures Run(m, i) == Ended(m, map[i.rt := Wrap(i.extra * 0x1_0000)], Behind(m))
  {
    RunPut(m, i, i.rt, Wrap(i.extra * 0x1_0000));
  }

  lemma QuotientMeans(x: Word, p: nat)
    requires p > 0
    ensures x / p * p <= x < x / p * p + p
  {
    assert x == x / p * p + x % p;
  }

  /** SRA and SRAV divide by a power of two and round down, and so do SRL and SRLV. */
  lemma ShiftsRight(m: Machine, i: Instruction, n: nat) returns (w: Word)
    requires Ready(m, i) && i.opCode in {SRA, SRAV, SRL, SRLV}
    requires n == (if i.opCode in {SRA, SRL} then i.extra else m.regs[i.rs] % 32)
    ensures Run(m, i) == Ended(m, map[i.rd := w], Behind(m))
    ensures w as int * Pow2(n) <= m.regs[i.rt] < w as int * Pow2(n) + Pow2(n)
  {
    w := ShiftRight(m.regs[i.rt], n);
    ExecutesShift(m.regs, i, n);
    QuotientMeans(m.regs[i.rt], Pow2(n));
    RunPut(m, i, i.rd, w);
  }

  // ---------------------------------------------------------------- loads

  /** The load runs and leaves value pending for reg. */
  function Pending(m: Machine, entry: nat, reg: Word, value: Word): (Machine, Outcome)
    requires entry < |m.mem.table|
  {
    (Machine(RegsAfter(m.regs, map[], Behind(m), reg, value), Used(m.mem, entry)), Ran)
  }

  lemma LoadIs(m: Machine, addr: Word, size: nat, how: Loading, reg: nat)
    requires Ok(m.regs) && Wf(m.mem) && Size(size) && reg < 32
    ensures match Translate(m.mem, addr, size, false)
            case Failed(which) => Applied(m.regs, m.mem, Load(addr, size, how, reg)) == Kernel(m, which, addr)
            case Address(pa, entry) =>
              && pa + size <= |m.mem.main| && entry < |m.mem.table|
              && Applied(m.regs, m.mem, Load(addr, size, how, reg)) ==
                   Pending(m, entry, reg, Loaded(Peek(m.mem.main, pa, size), how))
  {
    match Translate(m.mem, addr, size, false)
    case Failed(which) => TrapIs(m, which, addr);
    case Address(pa, entry) =>
      StaysInPage(m.mem, addr, size, false);
      FoundIsValid(m.mem, Unsigned(addr) / PageSize);
      assert Touch(m.mem, entry, false) == Used(m.mem, entry);
      FinishIs(m.regs, Used(m.mem, entry), reg, Loaded(Peek(m.mem.main, pa, size), how), Behind(m));
  }

  lemma LowByteAgrees(v: Word, w: Word)
    requires (v - w as int) % 0x100 == 0
    ensures ByteOf(v, 0) == ByteOf(w, 0)
  {
    var q := (v - w as int) / 0x100 + ((if v < 0 then 1 else 0) - (if w < 0 then 1 else 0)) * 0x100_0000;
    var a, b := Unsigned(v), Unsigned(w);
    assert a == b + 0x100 * q;
  }

  lemma LowHalf(w: Word)
    ensures var h := Unsigned(w) % 0x1_0000; ByteOf(w, 0) == h % 0x100 && ByteOf(w, 1) == h / 0x100
  {
    Split16(Unsigned(w));
  }

  lemma LowHalfAgrees(v: Word, w: Word)
    requires (v - w as int) % 0x1_0000 == 0
    ensures ByteOf(v, 0) == ByteOf(w, 0) && ByteOf(v, 1) == ByteOf(w, 1)
  {
    var q := (v - w as int) / 0x1_0000 + ((if v < 0 then 1 else 0) - (if w < 0 then 1 else 0)) * 0x1_0000;
    var a, b := Unsigned(v), Unsigned(w);
    assert a == b + 0x1_0000 * q;
    assert a % 0x1_0000 == b % 0x1_0000;
    LowHalf(v);
    LowHalf(w);
  }

  /** value is the number of its type whose bytes are those in main memory. */
  ghost predicate IsLoaded(op: OpCode, value: Word, main: seq<Byte>, pa: nat, size: nat) {
    && pa + size <= |main| && size <= 4 && (forall k: nat :: k < size ==> ByteOf(value, k) == main[pa + k])
    && (op == LB ==> -0x80 <= value < 0x80) && (op == LBU ==> 0 <= value < 0x100)
    && (op == LH ==> -0x8000 <= value < 0x8000) && (op == LHU ==> 0 <= value < 0x1_0000)
  }

  lemma LoadedByte(main: seq<Byte>, pa: nat)
    requires pa < |main|
    ensures IsLoaded(LB, Loaded(Peek(main, pa, 1), SignedByte), main, pa, 1)
    ensures IsLoaded(LBU, Loaded(Peek(main, pa, 1), UnsignedByte), main, pa, 1)
  {
    var v := Peek(main, pa, 1);
    LoadedMeans(v);
    LowByteAgrees(Loaded(v, SignedByte), v);
    LowByteAgrees(Loaded(v, UnsignedByte), v);
    PeekBytes(main, pa, 1, 0);
  }

  lemma LoadedHalf(op: OpCode, v: Word, w: Word, main: seq<Byte>, pa: nat)
    requires pa + 2 <= |main| && v == Peek(main, pa, 2) && op in {LH, LHU}
    requires w == Loaded(v, if op == LH then SignedHalf else UnsignedHalf)
    ensures IsLoaded(op, w, main, pa, 2)
  {
    LoadedMeans(v);
    LowHalfAgrees(w, v);
    PeekBytes(main, pa, 2, 0);
    PeekBytes(main, pa, 2, 1);
    HalfIsLoaded(op, w, main, pa);
  }

  lemma HalfIsLoaded(op: OpCode, w: Word, main: seq<Byte>, pa: nat)
    requires pa + 2 <= |main| && op in {LH, LHU} && ByteOf(w, 0) == main[pa] && ByteOf(w, 1) == main[pa + 1]
    requires if op == LH then -0x8000 <= w < 0x8000 else 0 <= w < 0x1_0000
    ensures IsLoaded(op, w, main, pa, 2)
  {
    forall k: nat | k < 2 ensures ByteOf(w, k) == main[pa + k] {}
  }

  lemma LoadedWhole(main: seq<Byte>, pa: nat)
    requires pa + 4 <= |main|
    ensures IsLoaded(LW, Loaded(Peek(main, pa, 4), Whole), main, pa, 4)
  {
    forall k: nat | k < 4 ensures ByteOf(Peek(main, pa, 4), k) == main[pa + k] { PeekBytes(main, pa, 4, k); }
  }

  lemma LoadedBytes(op: OpCode, main: seq<Byte>, pa: nat, size: nat)
    requires op in {LB, LBU, LH, LHU, LW} && size == (if op in {LB, LBU} then 1 else if op in {LH, LHU} then 2 else 4)
    requires pa + size <= |main|
    ensures IsLoaded(op, Loaded(Peek(main, pa, size), HowOf(op)), main, pa, size)
  {
    if size == 1 { LoadedByte(main, pa); } else if size == 2 { LoadedHalf(op, Peek(main, pa, 2), Loaded(Peek(main, pa, 2), HowOf(op)), main, pa); } else { LoadedWhole(main, pa); }
  }

  /** LB, LBU, LH, LHU and LW read one, two or four bytes at rs plus the offset, which are then pending for rt; the
      exception of an address that does not translate, or is misaligned, names the address. */
  lemma LoadsBytes(m: Machine, i: Instruction, addr: Word, size: nat) returns (value: Word)
    requires Ready(m, i) && i.opCode in {LB, LBU, LH, LHU, LW} && addr == Wrap(m.regs[i.rs] as int + i.extra)
    requires size == (if i.opCode in {LB, LBU} then 1 else if i.opCode in {LH, LHU} then 2 else 4)
    ensures match Translate(m.mem, addr, size, false)
            case Failed(which) => Run(m, i) == Kernel(m, which, addr)
            case Address(pa, entry) =>
              && entry < |m.mem.table| && Run(m, i) == Pending(m, entry, i.rt, value)
              && IsLoaded(i.opCode, value, m.mem.main, pa, size)
  {
    value := 0;
    if Misaligned(addr, size) {
      ExecutesMisaligned(m.regs, i, addr, size);
      Raises(m, AddressErrorException, addr);
    } else {
      ExecutesLoad(m.regs, i, addr, size);
      LoadIs(m, addr, size, HowOf(i.opCode), i.rt);
      if Translate(m.mem, addr, size, false).Address? {
        var pa := Translate(m.mem, addr, size, false).physical;
        value := Loaded(Peek(m.mem.main, pa, size), HowOf(i.opCode));
        LoadedBytes(i.opCode, m.mem.main, pa, size);
      }
    }
  }

  predicate Misaligned(addr: Word, size: nat) {
    (size == 4 && Unsigned(addr) % 4 != 0) || (size == 2 && Unsigned(addr) % 2 != 0)
  }

  function HowOf(op: OpCode): Loading {
    if op == LB then SignedByte else if op == LBU then UnsignedByte else if op == LH then SignedHalf
    else if op == LHU then UnsignedHalf else Whole
  }

  lemma ExecutesLoad(r: Registers, i: Instruction, addr: Word, size: nat)
    requires Sound(i) && i.opCode in {LB, LBU, LH, LHU, LW} && addr == Wrap(r[i.rs] as int + i.extra) && !Misaligned(addr, size)
    requires size == (if i.opCode in {LB, LBU} then 1 else if i.opCode in {LH, LHU} then 2 else 4)
    ensures Execute(r, i) == Load(addr, size, HowOf(i.opCode), i.rt)
  {}

  lemma ExecutesMisaligned(r: Registers, i: Instruction, addr: Word, size: nat)
    requires Sound(i) && i.opCode in {LB, LBU, LH, LHU, LW} && addr == Wrap(r[i.rs] as int + i.extra) && Misaligned(addr, size)
    requires size == (if i.opCode in {LB, LBU} then 1 else if i.opCode in {LH, LHU} then 2 else 4)
    ensures Execute(r, i) == Raise(AddressErrorException, addr)
  {}

  // ---------------------------------------------------------------- stores

  /** Main memory with the bytes of value from pa. */
  function PutIn(main: seq<Byte>, pa: nat, size: nat, value: Word): seq<Byte>
    requires size <= 4
  {
    seq(|main|, q requires 0 <= q < |main| => PutAt(main, pa, size, value, q))
  }

  function PutAt(main: seq<Byte>, pa: nat, size: nat, value: Word, q: nat): Byte
    requires size <= 4 && q < |main|
  {
    if pa <= q < pa + size then ByteOf(value, q - pa) else main[q]
  }

  /** The store runs: its bytes are in main memory, and the entry of the page is marked used and dirty. */
  function Stored(m: Machine, pa: nat, entry: nat, size: nat, value: Word): (Machine, Outcome)
    requires entry < |m.mem.table| && size <= 4
  {
    var table := m.mem.table[entry := m.mem.table[entry].(use := true, dirty := true)];
    (Machine(RegsAfter(m.regs, map[], Behind(m), 0, 0), m.mem.(main := PutIn(m.mem.main, pa, size, value), table := table)), Ran)
  }

  lemma PokeIs(main: seq<Byte>, pa: nat, size: nat, value: Word)
    requires Size(size) && pa + size <= |main|
    ensures Poke(main, pa, size, value) == PutIn(main, pa, size, value)
  {}

  lemma StoreIs(m: Machine, addr: Word, size: nat, value: Word)
    requires Ok(m.regs) && Wf(m.mem) && Size(size)
    ensures match Translate(m.mem, addr, size, true)
            case Failed(which) => Applied(m.regs, m.mem, Store(addr, size, value)) == Kernel(m, which, addr)
            case Address(pa, entry) =>
              && pa + size <= |m.mem.main| && entry < |m.mem.table|
              && Applied(m.regs, m.mem, Store(addr, size, value)) == Stored(m, pa, entry, size, value)
  {
    match Translate(m.mem, addr, size, true)
    case Failed(which) => TrapIs(m, which, addr);
    case Address(pa, entry) =>
      StaysInPage(m.mem, addr, size, true);
      FoundIsValid(m.mem, Unsigned(addr) / PageSize);
      PokeIs(m.mem.main, pa, size, value);
      FinishIs(m.regs, Write(m.mem, addr, size, value).0, 0, 0, Behind(m));
  }

  /** SB, SH and SW write the low one, two or four bytes of rt at rs plus the offset. */
  lemma StoresBytes(m: Machine, i: Instruction, addr: Word, size: nat)
    requires Ready(m, i) && i.opCode in {SB, SH, SW} && addr == Wrap(m.regs[i.rs] as int + i.extra)
    requires size == (if i.opCode == SB then 1 else if i.opCode == SH then 2 else 4)
    ensures match Translate(m.mem, addr, size, true)
            case Failed(which) => Run(m, i) == Kernel(m, which, addr)
            case Address(pa, entry) =>
              pa + size <= |m.mem.main| && entry < |m.mem.table| && Run(m, i) == Stored(m, pa, entry, size, m.regs[i.rt])
  {
    ExecutesStore(m.regs, i, addr, size);
    StoreIs(m, addr, size, m.regs[i.rt]);
  }

  lemma ExecutesStore(r: Registers, i: Instruction, addr: Word, size: nat)
    requires Sound(i) && i.opCode in {SB, SH, SW} && addr == Wrap(r[i.rs] as int + i.extra)
    requires size == (if i.opCode == SB then 1 else if i.opCode == SH then 2 else 4)
    ensures Execute(r, i) == Store(addr, size, r[i.rt])
  {}

  // ---------------------------------------------------------------- parts of words

  lemma ExecutesPart(r: Registers, i: Instruction, addr: Word)
    requires Sound(i) && addr == Wrap(r[i.rs] as int + i.extra)
    ensures Unsigned(addr) % 4 != 0 && i.opCode in {LWL, LWR, SWL, SWR} ==> Execute(r, i) == Stop
    ensures Unsigned(addr) % 4 == 0 && i.opCode == LWL ==> Execute(r, i) == Load(addr, 4, Whole, i.rt)
    ensures Unsigned(addr) % 4 == 0 && i.opCode == LWR ==>
              Execute(r, i) == Load(addr, 4, TopByte(if r[LoadReg] == i.rt then r[LoadValueReg] else r[i.rt]), i.rt)
    ensures Unsigned(addr) % 4 == 0 && i.opCode in {SWL, SWR} ==> Execute(r, i) == Merge(addr, i.opCode == SWR, r[i.rt])
  {}

  /** LWL, LWR, SWL and SWR stop the simulator at an unaligned address. */
  lemma UnalignedStops(m: Machine, i: Instruction)
    requires Ready(m, i) && i.opCode in {LWL, LWR, SWL, SWR} && Unsigned(Wrap(m.regs[i.rs] as int + i.extra)) % 4 != 0
    ensures Run(m, i) == (m, Stopped)
  {
    ExecutesPart(m.regs, i, Wrap(m.regs[i.rs] as int + i.extra));
  }

  /** At an aligned one LWL loads the word. */
  lemma LoadsWordLeft(m: Machine, i: Instruction, addr: Word) returns (value: Word)
    requires Ready(m, i) && i.opCode == LWL && addr == Wrap(m.regs[i.rs] as int + i.extra) && Unsigned(addr) % 4 == 0
    ensures match Translate(m.mem, addr, 4, false)
            case Failed(which) => Run(m, i) == Kernel(m, which, addr)
            case Address(pa, entry) =>
              && entry < |m.mem.table| && Run(m, i) == Pending(m, entry, i.rt, value)
              && IsLoaded(LW, value, m.mem.main, pa, 4)
  {
    value := 0;
    ExecutesPart(m.regs, i, addr);
    LoadIs(m, addr, 4, Whole, i.rt);
    if Translate(m.mem, addr, 4, false).Address? {
      var pa := Translate(m.mem, addr, 4, false).physical;
      value := Loaded(Peek(m.mem.main, pa, 4), Whole);
      LoadedWhole(m.mem.main, pa);
    }
  }

  /** rest with its lowest byte replaced by the highest byte of the word at pa. */
  ghost predicate LowReplaced(value: Word, main: seq<Byte>, pa: nat, rest: Word) {
    && pa + 4 <= |main| && ByteOf(value, 0) == main[pa + 3]
    && forall k: nat :: 0 < k < 4 ==> ByteOf(value, k) == ByteOf(rest, k)
  }

  lemma LoadedRight(main: seq<Byte>, pa: nat, rest: Word)
    requires pa + 4 <= |main|
    ensures LowReplaced(Loaded(Peek(main, pa, 4), TopByte(rest)), main, pa, rest)
  {
    TopByteMeans(Peek(main, pa, 4), rest);
    PeekBytes(main, pa, 4, 3);
  }

  /** And LWR replaces the lowest byte of what rt has, or is about to get, by the highest byte of the word. */
  lemma LoadsWordRight(m: Machine, i: Instruction, addr: Word, rest: Word) returns (value: Word)
    requires Ready(m, i) && i.opCode == LWR && addr == Wrap(m.regs[i.rs] as int + i.extra) && Unsigned(addr) % 4 == 0
    requires rest == (if m.regs[LoadReg] == i.rt then m.regs[LoadValueReg] else m.regs[i.rt])
    ensures match Translate(m.mem, addr, 4, false)
            case Failed(which) => Run(m, i) == Kernel(m, which, addr)
            case Address(pa, entry) =>
              && entry < |m.mem.table| && Run(m, i) == Pending(m, entry, i.rt, value)
              && LowReplaced(value, m.mem.main, pa, rest)
  {
    value := 0;
    ExecutesPart(m.regs, i, addr);
    LoadIs(m, addr, 4, TopByte(rest), i.rt);
    if Translate(m.mem, addr, 4, false).Address? {
      var pa := Translate(m.mem, addr, 4, false).physical;
      value := Loaded(Peek(m.mem.main, pa, 4), TopByte(rest));
      LoadedRight(m.mem.main, pa, rest);
    }
  }

  lemma UsedTranslates(mem: Memory, entry: nat, addr: Word, size: nat, writing: bool)
    requires entry < |mem.table|
    ensures Translate(Used(mem, entry), addr, size, writing) == Translate(mem, addr, size, writing)
  {
    var mem' := Used(mem, entry);
    var vpn := Unsigned(addr) / PageSize;
    if mem.usesTlb {
      assert forall k :: 0 <= k < |mem.table| ==> Matches(mem'.table[k], vpn) == Matches(mem.table[k], vpn);
      assert Search(mem'.table, vpn) == Search(mem.table, vpn);
    }
    if Find(mem, vpn).Found? { FoundIsValid(mem, vpn); }
  }

  lemma SameEntry(mem: Memory, addr: Word, size: nat)
    requires Translate(mem, addr, size, false).Address? && Translate(mem, addr, size, true).Address?
    ensures Translate(mem, addr, size, true) == Translate(mem, addr, size, false)
  {}

  lemma MergeIsStore(m: Machine, addr: Word, right: bool, value: Word, pa: nat, entry: nat)
    requires Ok(m.regs) && Wf(m.mem) && Translate(m.mem, addr, 4, false) == Address(pa, entry)
    ensures pa + 4 <= |m.mem.main| && entry < |m.mem.table|
    ensures Applied(m.regs, m.mem, Merge(addr, right, value)) ==
              Applied(m.regs, Used(m.mem, entry), Store(addr, 4, Merged(Peek(m.mem.main, pa, 4), right, value)))
  {
    StaysInPage(m.mem, addr, 4, false);
    FoundIsValid(m.mem, Unsigned(addr) / PageSize);
    assert Touch(m.mem, entry, false) == Used(m.mem, entry);
  }

  lemma UsedThenDirty(m: Machine, pa: nat, entry: nat, value: Word)
    requires entry < |m.mem.table|
    ensures Stored(m.(mem := Used(m.mem, entry)), pa, entry, 4, value) == Stored(m, pa, entry, 4, value)
  {
    var table := m.mem.table;
    assert Used(m.mem, entry).table[entry := table[entry].(use := true, dirty := true)] ==
           table[entry := table[entry].(use := true, dirty := true)];
  }

  /** A word is read, changed and written back. */
  lemma MergeIs(m: Machine, addr: Word, right: bool, value: Word, pa: nat, entry: nat)
    requires Ok(m.regs) && Wf(m.mem) && Translate(m.mem, addr, 4, false) == Address(pa, entry)
    ensures pa + 4 <= |m.mem.main| && entry < |m.mem.table|
    ensures match Translate(m.mem, addr, 4, true)
            case Failed(which) => Applied(m.regs, m.mem, Merge(addr, right, value)) == Kernel(m.(mem := Used(m.mem, entry)), which, addr)
            case Address(_, _) =>
              Applied(m.regs, m.mem, Merge(addr, right, value)) ==
                Stored(m, pa, entry, 4, Merged(Peek(m.mem.main, pa, 4), right, value))
  {
    MergeIsStore(m, addr, right, value, pa, entry);
    var value' := Merged(Peek(m.mem.main, pa, 4), right, value);
    UsedTranslates(m.mem, entry, addr, 4, true);
    StoreIs(m.(mem := Used(m.mem, entry)), addr, 4, value');
    if Translate(m.mem, addr, 4, true).Address? {
      SameEntry(m.mem, addr, 4);
      UsedThenDirty(m, pa, entry, value');
    }
  }

  /** The word at pa with its highest byte replaced by the lowest of rt. */
  ghost predicate TopReplaced(value: Word, main: seq<Byte>, pa: nat, rt: Word) {
    pa + 4 <= |main| && ByteOf(value, 3) == ByteOf(rt, 0) && forall k: nat :: k < 3 ==> ByteOf(value, k) == main[pa + k]
  }

  lemma MergedRight(main: seq<Byte>, pa: nat, rt: Word)
    requires pa + 4 <= |main|
    ensures TopReplaced(Merged(Peek(main, pa, 4), true, rt), main, pa, rt)
  {
    var before := Peek(main, pa, 4);
    MergedMeans(before, rt);
    forall k: nat | k < 3 ensures ByteOf(before, k) == main[pa + k] { PeekBytes(main, pa, 4, k); }
  }

  lemma MergeFails(m: Machine, addr: Word, right: bool, value: Word)
    requires Ok(m.regs) && Wf(m.mem) && Translate(m.mem, addr, 4, false).Failed?
    ensures Applied(m.regs, m.mem, Merge(addr, right, value)) == Kernel(m, Translate(m.mem, addr, 4, false).which, addr)
  {
    TrapIs(m, Translate(m.mem, addr, 4, false).which, addr);
  }

  /** SWL at an aligned address stores rt; SWR replaces the highest byte of the word by the lowest of rt.  Both read
      the word first. */
  lemma StoresWordPart(m: Machine, i: Instruction, addr: Word) returns (value: Word)
    requires Ready(m, i) && i.opCode in {SWL, SWR} && addr == Wrap(m.regs[i.rs] as int + i.extra) && Unsigned(addr) % 4 == 0
    ensures match Translate(m.mem, addr, 4, false)
            case Failed(which) => Run(m, i) == Kernel(m, which, addr)
            case Address(pa, entry) =>
              && pa + 4 <= |m.mem.main| && entry < |m.mem.table|
              && match Translate(m.mem, addr, 4, true)
                 case Failed(which) => Run(m, i) == Kernel(m.(mem := Used(m.mem, entry)), which, addr)
                 case Address(_, _) =>
                   && Run(m, i) == Stored(m, pa, entry, 4, value)
                   && (i.opCode == SWL ==> value == m.regs[i.rt])
                   && (i.opCode == SWR ==> TopReplaced(value, m.mem.main, pa, m.regs[i.rt]))
  {
    value := 0;
    ExecutesPart(m.regs, i, addr);
    var right := i.opCode == SWR;
    match Translate(m.mem, addr, 4, false)
    case Failed(_) => MergeFails(m, addr, right, m.regs[i.rt]);
    case Address(pa, entry) =>
      MergeIs(m, addr, right, m.regs[i.rt], pa, entry);
      value := Merged(Peek(m.mem.main, pa, 4), right, m.regs[i.rt]);
      MergedRight(m.mem.main, pa, m.regs[i.rt]);
  }
}
