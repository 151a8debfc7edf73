/**
 One instruction of the simulated CPU (machine/mipssim.cc): what each case of the switch does, the
 load delay slot, traps and the advance of the program counters.
 */
module Cpu {
  import opened Words
  import opened Translation
  import opened Decoder

  const HiReg: nat := 32
  const LoReg: nat := 33
  const PCReg: nat := 34
  const NextPCReg: nat := 35
  const PrevPCReg: nat := 36
  const LoadReg: nat := 37
  const LoadValueReg: nat := 38
  const BadVAddrReg: nat := 39
  const NumTotalRegs: nat := 40

  type Registers = r: seq<Word> | |r| == NumTotalRegs witness seq(NumTotalRegs, _ => 0)

  datatype Assignment = Assignment(reg: nat, value: Word)

  /** How a load turns what it read into the register's value. */
  datatype Loading = SignedByte | UnsignedByte | SignedHalf | UnsignedHalf | Whole | TopByte(rest: Word)

  /** What one case of the switch does.  Stop is a failed assertion, or a fault of the host. */
  datatype Effect =
    | Assign(assignments: seq<Assignment>, pcAfter: Word)
    | Load(addr: Word, size: nat, how: Loading, reg: nat)
    | Store(addr: Word, size: nat, value: Word)
    | Merge(addr: Word, right: bool, value: Word)
    | Raise(which: Exception, badVAddr: Word)
    | Stop

  /** The registers that a case may assign, and the sizes it may ask of memory. */
  predicate EffectOk(e: Effect) {
    match e
    case Assign(assignments, _) => forall k :: 0 <= k < |assignments| ==> assignments[k].reg <= LoReg
    case Load(_, size, how, reg) => Size(size) && reg < 32
    case Store(_, size, _) => Size(size)
    case _ => true
  }

  function Following(r: Registers): Word {
    Wrap(4 + r[NextPCReg] as int)
  }

  function Put(r: Registers, reg: nat, value: Word): Effect {
    Assign([Assignment(reg, value)], Following(r))
  }

  function Branch(r: Registers, taken: bool, offset: Word): Effect {
    Assign([], if taken then Wrap(r[NextPCReg] + 4 * offset) else Following(r))
  }

  /** BGEZAL and BLTZAL set r31 before they test rs. */
  function LinkAndBranch(r: Registers, rs: nat, ifNegative: bool, offset: Word): Effect
    requires rs < 32
  {
    var tested := if rs == 31 then Following(r) else r[rs];
    Branch(r, (tested < 0) == ifNegative, offset).(assignments := [Assignment(31, Following(r))])
  }

  function JumpTarget(r: Registers, extra: Word): Word {
    Wrap(Unsigned(Following(r)) / 0x1000_0000 * 0x1000_0000 + 4 * extra)
  }

  function Abs(x: int): int {
    if x < 0 then -x else x
  }

  /** C's division, which rounds towards zero. */
  function Quotient(x: int, y: int): int
    requires y != 0
  {
    if (x < 0) == (y < 0) then Abs(x) / Abs(y) else -(Abs(x) / Abs(y))
  }

  function Divide(r: Registers, x: int, y: int): Effect {
    if y == 0 then Assign([Assignment(LoReg, 0), Assignment(HiReg, 0)], Following(r))
    else Assign([Assignment(LoReg, Wrap(Quotient(x, y))), Assignment(HiReg, Wrap(x - Quotient(x, y) * y))], Following(r))
  }

  function Multiplied(r: Registers, product: int): Effect {
    Assign([Assignment(HiReg, Wrap(product / TwoTo32)), Assignment(LoReg, Wrap(product))], Following(r))
  }

  function Bit(b: bool): Word {
    if b then 1 else 0
  }

  function Low16(x: Word): Word {
    x % 0x1_0000
  }

  /** The test of ADD, ADDI and SUB, on the sign bits of the operands and the result. */
  predicate SignsOverflow(x: Word, y: Word, result: Word) {
    (x < 0) == (y < 0) && (x < 0) != (result < 0)
  }

  function Arithmetic(r: Registers, i: Instruction): (e: Effect)
    requires i.rs < 32 && i.rt < 32 && i.rd < 32
    ensures EffectOk(e)
  {
    var rs, rt := r[i.rs], r[i.rt];
    match i.opCode
    case ADD => if SignsOverflow(rs, rt, Wrap(rs + rt)) then Raise(OverflowException, 0) else Put(r, i.rd, Wrap(rs + rt))
    case ADDI => if SignsOverflow(i.extra, rs, Wrap(rs + i.extra)) then Raise(OverflowException, 0) else Put(r, i.rt, Wrap(rs + i.extra))
    case SUB => if (rs < 0) != (rt < 0) && (rs < 0) != (Wrap(rs - rt) < 0) then Raise(OverflowException, 0) else Put(r, i.rd, Wrap(rs - rt))
    case ADDIU => Put(r, i.rt, Wrap(rs + i.extra))
    case ADDU => Put(r, i.rd, Wrap(rs + rt))
    case SUBU => Put(r, i.rd, Wrap(rs - rt))
    case DIV => if rs == -TwoTo31 && rt == -1 then Stop else Divide(r, rs, rt)
    case DIVU => Divide(r, Unsigned(rs), Unsigned(rt))
    case MULT => Multiplied(r, rs * rt)
    case MULTU => Multiplied(r, Unsigned(rs) * Unsigned(rt))
    case MFHI => Put(r, i.rd, r[HiReg])
    case MFLO => Put(r, i.rd, r[LoReg])
    case MTHI => Put(r, HiReg, rs)
    case MTLO => Put(r, LoReg, rs)
    case SLT => Put(r, i.rd, Bit(rs < rt))
    case SLTI => Put(r, i.rt, Bit(rs < i.extra))
    case SLTU => Put(r, i.rd, Bit(Unsigned(rs) < Unsigned(rt)))
    case SLTIU => Put(r, i.rt, Bit(Unsigned(rs) < Unsigned(i.extra)))
    case _ => Stop
  }

  function Logical(r: Registers, i: Instruction): (e: Effect)
    requires i.rs < 32 && i.rt < 32 && i.rd < 32 && (i.opCode in {SLL, SRL, SRA} ==> i.extra >= 0)
    ensures EffectOk(e)
  {
    var rs, rt := r[i.rs], r[i.rt];
    match i.opCode
    case AND => Put(r, i.rd, And(rs, rt))
    case ANDI => Put(r, i.rt, And(rs, Low16(i.extra)))
    case OR => Put(r, i.rd, Or(rs, rs))
    case ORI => Put(r, i.rt, Or(rs, Low16(i.extra)))
    case XOR => Put(r, i.rd, Xor(rs, rt))
    case XORI => Put(r, i.rt, Xor(rs, Low16(i.extra)))
    case NOR => Put(r, i.rd, Not(Or(rs, rt)))
    case LUI => Put(r, i.rt, Wrap(i.extra * 0x1_0000))
    case SLL => Put(r, i.rd, ShiftLeft(rt, i.extra))
    case SLLV => Put(r, i.rd, ShiftLeft(rt, rs % 32))
    case SRA => Put(r, i.rd, ShiftRight(rt, i.extra))
    case SRAV => Put(r, i.rd, ShiftRight(rt, rs % 32))
    case SRL => Put(r, i.rd, ShiftRight(rt, i.extra))
    case SRLV => Put(r, i.rd, ShiftRight(rt, rs % 32))
    case _ => Stop
  }

  function Jumping(r: Registers, i: Instruction): (e: Effect)
    requires i.rs < 32 && i.rt < 32 && i.rd < 32
    ensures EffectOk(e)
  {
    var rs, rt := r[i.rs], r[i.rt];
    match i.opCode
    case BEQ => Branch(r, rs == rt, i.extra)
    case BNE => Branch(r, rs != rt, i.extra)
    case BGEZ => Branch(r, rs >= 0, i.extra)
    case BGTZ => Branch(r, rs > 0, i.extra)
    case BLEZ => Branch(r, rs <= 0, i.extra)
    case BLTZ => Branch(r, rs < 0, i.extra)
    case BGEZAL => LinkAndBranch(r, i.rs, false, i.extra)
    case BLTZAL => LinkAndBranch(r, i.rs, true, i.extra)
    case J => Assign([], JumpTarget(r, i.extra))
    case JAL => Assign([Assignment(31, Following(r))], JumpTarget(r, i.extra))
    case JR => Assign([], rs)
    case JALR => Assign([Assignment(i.rd, Following(r))], if i.rd == i.rs then Following(r) else rs)
    case SYSCALL => Raise(SyscallException, 0)
    case RES => Raise(IllegalInstrException, 0)
    case UNIMP => Raise(IllegalInstrException, 0)
    case _ => Stop
  }

  function Accessing(r: Registers, i: Instruction): (e: Effect)
    requires i.rs < 32 && i.rt < 32
    ensures EffectOk(e)
  {
    var addr, rt := Wrap(r[i.rs] + i.extra), r[i.rt];
    match i.opCode
    case LB => Load(addr, 1, SignedByte, i.rt)
    case LBU => Load(addr, 1, UnsignedByte, i.rt)
    case LH => if Unsigned(addr) % 2 != 0 then Raise(AddressErrorException, addr) else Load(addr, 2, SignedHalf, i.rt)
    case LHU => if Unsigned(addr) % 2 != 0 then Raise(AddressErrorException, addr) else Load(addr, 2, UnsignedHalf, i.rt)
    case LW => if Unsigned(addr) % 4 != 0 then Raise(AddressErrorException, addr) else Load(addr, 4, Whole, i.rt)
    case LWL => if Unsigned(addr) % 4 != 0 then Stop else Load(addr, 4, Whole, i.rt)
    case LWR => if Unsigned(addr) % 4 != 0 then Stop
                else Load(addr, 4, TopByte(if r[LoadReg] == i.rt then r[LoadValueReg] else rt), i.rt)
    case SB => Store(addr, 1, rt)
    case SH => Store(addr, 2, rt)
    case SW => Store(addr, 4, rt)
    case SWL => if Unsigned(addr) % 4 != 0 then Stop else Merge(addr, false, rt)
    case SWR => if Unsigned(addr) % 4 != 0 then Stop else Merge(addr, true, rt)
    case _ => Stop
  }

  predicate IsLogical(op: OpCode) {
    op in {AND, ANDI, OR, ORI, XOR, XORI, NOR, LUI, SLL, SLLV, SRA, SRAV, SRL, SRLV}
  }

  predicate IsJumping(op: OpCode) {
    op in {BEQ, BNE, BGEZ, BGTZ, BLEZ, BLTZ, BGEZAL, BLTZAL, J, JAL, JR, JALR, SYSCALL, RES, UNIMP}
  }

  predicate IsAccessing(op: OpCode) {
    op in {LB, LBU, LH, LHU, LW, LWL, LWR, SB, SH, SW, SWL, SWR}
  }

  /** The switch. */
  function Execute(r: Registers, i: Instruction): (e: Effect)
    requires i.rs < 32 && i.rt < 32 && i.rd < 32 && (i.opCode in {SLL, SRL, SRA} ==> i.extra >= 0)
    ensures EffectOk(e)
  {
    if IsLogical(i.opCode) then Logical(r, i)
    else if IsJumping(i.opCode) then Jumping(r, i)
    else if IsAccessing(i.opCode) then Accessing(r, i)
    else Arithmetic(r, i)
  }

  function Loaded(value: Word, how: Loading): Word {
    match how
    case SignedByte => if value % 0x100 >= 0x80 then value % 0x100 - 0x100 else value % 0x100
    case UnsignedByte => value % 0x100
    case SignedHalf => if value % 0x1_0000 >= 0x8000 then value % 0x1_0000 - 0x1_0000 else value % 0x1_0000
    case UnsignedHalf => value % 0x1_0000
    case Whole => value
    case TopByte(rest) => Wrap(Unsigned(rest) / 0x100 * 0x100 + Unsigned(value) / 0x100_0000)
  }

  /** SWL writes the register; SWR at an aligned address puts its low byte on top of the word. */
  function Merged(before: Word, right: bool, value: Word): Word {
    if right then Wrap(Unsigned(before) % 0x100_0000 + value * 0x100_0000) else value
  }

  // ---------------------------------------------------------------- one instruction

  datatype Machine = Machine(regs: Registers, mem: Memory)

  predicate Ok(r: Registers) {
    r[0] == 0 && 0 <= r[LoadReg] < 32
  }

  /** DelayedLoad */
  function Delayed(r: Registers, nextReg: nat, nextValue: Word): Registers
    requires 0 <= r[LoadReg] < 32 && nextReg < 32
  {
    r[r[LoadReg] := r[LoadValueReg]][LoadReg := nextReg][LoadValueReg := nextValue][0 := 0]
  }

  /** The registers when the kernel's handler is called. */
  function Raised(r: Registers, badVAddr: Word): Registers
    requires 0 <= r[LoadReg] < 32
  {
    Delayed(r[BadVAddrReg := badVAddr], 0, 0)
  }

  function Assigned(r: Registers, assignments: seq<Assignment>): Registers
    requires forall k :: 0 <= k < |assignments| ==> assignments[k].reg <= LoReg
    decreases |assignments|
  {
    if assignments == [] then r else Assigned(r[assignments[0].reg := assignments[0].value], assignments[1..])
  }

  function Advanced(r: Registers, pcAfter: Word): Registers {
    r[PrevPCReg := r[PCReg]][PCReg := r[NextPCReg]][NextPCReg := pcAfter]
  }

  datatype Outcome = Ran | Trapped(which: Exception) | Stopped

  function Trap(r: Registers, mem: Memory, which: Exception, badVAddr: Word): (Machine, Outcome)
    requires 0 <= r[LoadReg] < 32
  {
    (Machine(Raised(r, badVAddr), mem), Trapped(which))
  }

  function Finish(r: Registers, mem: Memory, nextReg: nat, nextValue: Word, pcAfter: Word): (Machine, Outcome)
    requires 0 <= r[LoadReg] < 32 && nextReg < 32
  {
    (Machine(Advanced(Delayed(r, nextReg, nextValue), pcAfter), mem), Ran)
  }

  lemma {:induction false} AssignedKeeps(r: Registers, assignments: seq<Assignment>, j: nat)
    requires forall k :: 0 <= k < |assignments| ==> assignments[k].reg <= LoReg
    requires j < NumTotalRegs && forall k :: 0 <= k < |assignments| ==> assignments[k].reg != j
    ensures Assigned(r, assignments)[j] == r[j]
    decreases |assignments|
  {
    if assignments == [] {
    } else {
      AssignedKeeps(r[assignments[0].reg := assignments[0].value], assignments[1..], j);
    }
  }

  /** Carrying out an effect. */
  function Applied(r: Registers, mem: Memory, e: Effect): (Machine, Outcome)
    requires EffectOk(e) && Ok(r) && Wf(mem)
  {
    match e
    case Assign(assignments, pcAfter) =>
      AssignedKeeps(r, assignments, LoadReg);
      Finish(Assigned(r, assignments), mem, 0, 0, pcAfter)
    case Load(addr, size, how, reg) =>
      var (mem', a) := Read(mem, addr, size);
      if a.Refused? then Trap(r, mem', a.which, addr)
      else Finish(r, mem', reg, Loaded(a.value, how), Following(r))
    case Store(addr, size, value) =>
      var (mem', failed) := Write(mem, addr, size, value);
      if failed.Some? then Trap(r, mem', failed.value, addr) else Finish(r, mem', 0, 0, Following(r))
    case Merge(addr, right, value) =>
      var (mem1, a) := Read(mem, addr, 4);
      if a.Refused? then Trap(r, mem1, a.which, addr)
      else
        var (mem2, failed) := Write(mem1, addr, 4, Merged(a.value, right, value));
        if failed.Some? then Trap(r, mem2, failed.value, addr) else Finish(r, mem2, 0, 0, Following(r))
    case Raise(which, badVAddr) => Trap(r, mem, which, badVAddr)
    case Stop => (Machine(r, mem), Stopped)
  }

  /** OneInstruction, up to the handler if it traps. */
  function Step(m: Machine): (Machine, Outcome)
    requires Ok(m.regs) && Wf(m.mem)
  {
    var (mem, a) := Read(m.mem, m.regs[PCReg], 4);
    if a.Refused? then Trap(m.regs, mem, a.which, m.regs[PCReg])
    else Applied(m.regs, mem, Execute(m.regs, Decode(Unsigned(a.value))))
  }

  // ---------------------------------------------------------------- what every step keeps

  lemma FinishOk(r: Registers, mem: Memory, nextReg: nat, nextValue: Word, pcAfter: Word)
    requires 0 <= r[LoadReg] < 32 && nextReg < 32
    ensures var r' := Finish(r, mem, nextReg, nextValue, pcAfter).0.regs;
            && Ok(r') && (r[LoadReg] != 0 ==> r'[r[LoadReg]] == r[LoadValueReg])
            && r'[LoadReg] == nextReg && r'[LoadValueReg] == nextValue
            && r'[PCReg] == r[NextPCReg] && r'[NextPCReg] == pcAfter && r'[PrevPCReg] == r[PCReg]
            && forall j :: 0 < j < PCReg && j != r[LoadReg] ==> r'[j] == r[j]
  {}

  lemma TrapOk(r: Registers, mem: Memory, which: Exception, badVAddr: Word)
    requires Ok(r)
    ensures var r' := Trap(r, mem, which, badVAddr).0.regs;
            && Ok(r') && (r[LoadReg] != 0 ==> r'[r[LoadReg]] == r[LoadValueReg])
            && r'[LoadReg] == 0 && r'[LoadValueReg] == 0 && r'[BadVAddrReg] == badVAddr
            && forall j :: 0 <= j < LoadReg && j != r[LoadReg] ==> r'[j] == r[j]
  {}

  /** After a step r0 is zero and the load that was pending before it is done; after a trap no
      load is pending. */
  ghost predicate Kept(r: Registers, m': Machine, outcome: Outcome)
    requires Ok(r)
  {
    !outcome.Stopped? ==>
      && Ok(m'.regs) && Wf(m'.mem)
      && (r[LoadReg] != 0 ==> m'.regs[r[LoadReg]] == r[LoadValueReg])
      && (outcome.Trapped? ==> m'.regs[LoadReg] == 0 && m'.regs[LoadValueReg] == 0)
  }

  /** The load that is pending after an instruction that ran. */
  ghost predicate NextPending(r': Registers, e: Effect) {
    if e.Load? then r'[LoadReg] == e.reg else r'[LoadReg] == 0 && r'[LoadValueReg] == 0
  }

  lemma FinishKeeps(r: Registers, mem: Memory, nextReg: nat, nextValue: Word, pcAfter: Word)
    requires Ok(r) && nextReg < 32 && Wf(mem)
    ensures Kept(r, Finish(r, mem, nextReg, nextValue, pcAfter).0, Ran)
  {
    FinishOk(r, mem, nextReg, nextValue, pcAfter);
  }

  lemma AssignKeeps(r: Registers, mem: Memory, assignments: seq<Assignment>, pcAfter: Word)
    requires Ok(r) && Wf(mem) && EffectOk(Assign(assignments, pcAfter))
    ensures var (m', outcome) := Applied(r, mem, Assign(assignments, pcAfter));
            Kept(r, m', outcome) && NextPending(m'.regs, Assign(assignments, pcAfter))
  {
    AssignedKeeps(r, assignments, LoadReg);
    AssignedKeeps(r, assignments, LoadValueReg);
    FinishOk(Assigned(r, assignments), mem, 0, 0, pcAfter);
  }

  lemma AppliedKeeps(r: Registers, mem: Memory, e: Effect)
    requires EffectOk(e) && Ok(r) && Wf(mem)
    ensures Kept(r, Applied(r, mem, e).0, Applied(r, mem, e).1)
    ensures Applied(r, mem, e).1.Ran? ==> NextPending(Applied(r, mem, e).0.regs, e)
  {
    match e
    case Assign(assignments, pcAfter) => AssignKeeps(r, mem, assignments, pcAfter);
    case Load(addr, size, how, reg) =>
      var (mem', a) := Read(mem, addr, size);
      if a.Value? { FinishKeeps(r, mem', reg, Loaded(a.value, how), Following(r)); }
    case Merge(addr, right, value) => MergeKeeps(r, mem, addr, right, value);
    case _ =>
  }

  lemma MergeKeeps(r: Registers, mem: Memory, addr: Word, right: bool, value: Word)
    requires Ok(r) && Wf(mem)
    ensures var (m', outcome) := Applied(r, mem, Merge(addr, right, value));
            Kept(r, m', outcome) && NextPending(m'.regs, Merge(addr, right, value))
  {}

  /** Every delayed load is applied exactly once, at the end of the next instruction or before the
      kernel is entered. */
  lemma StepKeeps(m: Machine)
    requires Ok(m.regs) && Wf(m.mem)
    ensures Kept(m.regs, Step(m).0, Step(m).1)
  {
    var (mem, a) := Read(m.mem, m.regs[PCReg], 4);
    if a.Value? {
      AppliedKeeps(m.regs, mem, Execute(m.regs, Decode(Unsigned(a.value))));
    } else {
      TrapOk(m.regs, mem, a.which, m.regs[PCReg]);
    }
  }

  /** A device interrupt between two instructions applies the pending load too, and leaves none. */
  lemma InterruptKeeps(r: Registers)
    requires Ok(r)
    ensures var r' := Delayed(r, 0, 0);
            && Ok(r') && (r[LoadReg] != 0 ==> r'[r[LoadReg]] == r[LoadValueReg]) && r'[LoadReg] == 0
            && forall j :: 0 <= j < NumTotalRegs && j != r[LoadReg] && j != LoadReg && j != LoadValueReg ==> r'[j] == r[j]
  {}

  /** b is a but for use bits. */
  ghost predicate SameButUse(a: Memory, b: Memory) {
    && a.main == b.main && a.usesTlb == b.usesTlb && |a.table| == |b.table|
    && forall i :: 0 <= i < |a.table| ==> b.table[i].(use := false) == a.table[i].(use := false)
  }

  lemma ReadsOnlyUse(mem: Memory, addr: Word, size: nat)
    requires Wf(mem) && Size(size)
    ensures SameButUse(mem, Read(mem, addr, size).0) && Wf(Read(mem, addr, size).0)
  {}

  lemma SameTwice(a: Memory, b: Memory, c: Memory)
    requires SameButUse(a, b) && SameButUse(b, c)
    ensures SameButUse(a, c)
  {
    forall i | 0 <= i < |a.table| ensures c.table[i].(use := false) == a.table[i].(use := false) {
      assert b.table[i].(use := false) == a.table[i].(use := false);
    }
  }

  /** An instruction that traps changes no memory and no dirty bit, and no register but BadVAddr, the
      load delay registers and the target of the load that was pending. */
  ghost predicate Precise(r: Registers, mem: Memory, m': Machine, outcome: Outcome) {
    outcome.Trapped? ==>
      SameButUse(mem, m'.mem) && forall j :: 0 <= j < LoadReg && j != r[LoadReg] ==> m'.regs[j] == r[j]
  }

  lemma AppliedPrecise(r: Registers, mem: Memory, e: Effect)
    requires EffectOk(e) && Ok(r) && Wf(mem)
    ensures Precise(r, mem, Applied(r, mem, e).0, Applied(r, mem, e).1)
  {
    match e
    case Load(addr, size, _, _) =>
      ReadsOnlyUse(mem, addr, size);
    case Merge(addr, right, value) =>
      ReadsOnlyUse(mem, addr, 4);
    case _ =>
  }

  lemma StepPrecise(m: Machine)
    requires Ok(m.regs) && Wf(m.mem)
    ensures Precise(m.regs, m.mem, Step(m).0, Step(m).1)
  {
    var (mem, a) := Read(m.mem, m.regs[PCReg], 4);
    ReadsOnlyUse(m.mem, m.regs[PCReg], 4);
    if a.Value? {
      var e := Execute(m.regs, Decode(Unsigned(a.value)));
      AppliedPrecise(m.regs, mem, e);
      if Applied(m.regs, mem, e).1.Trapped? { SameTwice(m.mem, mem, Applied(m.regs, mem, e).0.mem); }
    } else {
      TrapOk(m.regs, mem, a.which, m.regs[PCReg]);
    }
  }

  /** An instruction that runs moves on through its delay slot. */
  ghost predicate Moved(r: Registers, m': Machine, outcome: Outcome, pcAfter: Word) {
    outcome.Ran? ==> m'.regs[PCReg] == r[NextPCReg] && m'.regs[NextPCReg] == pcAfter && m'.regs[PrevPCReg] == r[PCReg]
  }

  lemma AppliedMoves(r: Registers, mem: Memory, e: Effect)
    requires EffectOk(e) && Ok(r) && Wf(mem)
    ensures Moved(r, Applied(r, mem, e).0, Applied(r, mem, e).1, if e.Assign? then e.pcAfter else Following(r))
  {
    match e
    case Assign(assignments, pcAfter) =>
      AssignedKeeps(r, assignments, LoadReg);
      AssignedKeeps(r, assignments, PCReg);
      AssignedKeeps(r, assignments, NextPCReg);
      FinishOk(Assigned(r, assignments), mem, 0, 0, pcAfter);
    case _ =>
  }

  /** Only branches and jumps set the address after the delay slot. */
  lemma FallsThrough(r: Registers, i: Instruction)
    requires i.rs < 32 && i.rt < 32 && i.rd < 32 && (i.opCode in {SLL, SRL, SRA} ==> i.extra >= 0)
    requires !IsJumping(i.opCode) && Execute(r, i).Assign?
    ensures Execute(r, i).pcAfter == Following(r)
  {}

  /** The instructions that take the simulator down: the one quotient that is no 32-bit number, and the
      unaligned accesses that are asserted not to happen. */
  predicate Halts(r: Registers, i: Instruction)
    requires i.rs < 32 && i.rt < 32
  {
    || (i.opCode == DIV && r[i.rs] == -TwoTo31 && r[i.rt] == -1)
    || (i.opCode in {LWL, LWR, SWL, SWR} && Unsigned(Wrap(r[i.rs] + i.extra)) % 4 != 0)
  }

  lemma LogicalNeverStops(r: Registers, i: Instruction)
    requires i.rs < 32 && i.rt < 32 && i.rd < 32 && IsLogical(i.opCode) && (i.opCode in {SLL, SRL, SRA} ==> i.extra >= 0)
    ensures Logical(r, i) != Stop
  {}

  lemma JumpingNeverStops(r: Registers, i: Instruction)
    requires i.rs < 32 && i.rt < 32 && i.rd < 32 && IsJumping(i.opCode)
    ensures Jumping(r, i) != Stop
  {}

  lemma AccessingStops(r: Registers, i: Instruction)
    requires i.rs < 32 && i.rt < 32 && IsAccessing(i.opCode)
    ensures Accessing(r, i) == Stop <==> Halts(r, i)
  {}

  lemma ArithmeticStops(r: Registers, i: Instruction)
    requires i.rs < 32 && i.rt < 32 && i.rd < 32 && !IsLogical(i.opCode) && !IsJumping(i.opCode) && !IsAccessing(i.opCode)
    ensures Arithmetic(r, i) == Stop <==> !HasCase(i.opCode) || Halts(r, i)
  {}

  /** Every opcode but those that the decoder never gives has a case in the switch. */
  lemma StopsExactly(r: Registers, i: Instruction)
    requires i.rs < 32 && i.rt < 32 && i.rd < 32 && (i.opCode in {SLL, SRL, SRA} ==> i.extra >= 0)
    ensures Execute(r, i) == Stop <==> !HasCase(i.opCode) || Halts(r, i)
  {
    if IsLogical(i.opCode) {
      LogicalNeverStops(r, i);
    } else if IsJumping(i.opCode) {
      JumpingNeverStops(r, i);
    } else if IsAccessing(i.opCode) {
      AccessingStops(r, i);
    } else {
      ArithmeticStops(r, i);
    }
  }

  lemma AppliedStops(r: Registers, mem: Memory, e: Effect)
    requires EffectOk(e) && Ok(r) && Wf(mem)
    ensures Applied(r, mem, e).1.Stopped? <==> e == Stop
  {}

  /** No word that can be fetched stops the machine but those. */
  lemma StepStopsExactly(m: Machine)
    requires Ok(m.regs) && Wf(m.mem)
    ensures var a := Read(m.mem, m.regs[PCReg], 4).1;
            Step(m).1.Stopped? <==> a.Value? && Halts(m.regs, Decode(Unsigned(a.value)))
  {
    var (mem, a) := Read(m.mem, m.regs[PCReg], 4);
    if a.Value? {
      var i := Decode(Unsigned(a.value));
      StopsExactly(m.regs, i);
      AppliedStops(m.regs, mem, Execute(m.regs, i));
    }
  }

  // ---------------------------------------------------------------- single instructions

  /** What an instruction with this exact result does: trap if it is no 32-bit number. */
  function Checked(r: Registers, reg: nat, exact: int): Effect {
    if -TwoTo31 <= exact < TwoTo31 then Put(r, reg, exact) else Raise(OverflowException, 0)
  }

  /** ADD, ADDI and SUB trap exactly when the exact result is no 32-bit number, and else give it. */
  lemma AddIsExact(r: Registers, i: Instruction)
    requires i.rs < 32 && i.rt < 32 && i.rd < 32 && i.opCode == ADD
    ensures Execute(r, i) == Checked(r, i.rd, r[i.rs] as int + r[i.rt])
  {
    SumOverflows(r[i.rs], r[i.rt]);
  }

  lemma AddImmediateIsExact(r: Registers, i: Instruction)
    requires i.rs < 32 && i.rt < 32 && i.rd < 32 && i.opCode == ADDI
    ensures Execute(r, i) == Checked(r, i.rt, r[i.rs] as int + i.extra)
  {
    SumOverflows(i.extra, r[i.rs]);
  }

  lemma SubtractIsExact(r: Registers, i: Instruction)
    requires i.rs < 32 && i.rt < 32 && i.rd < 32 && i.opCode == SUB
    ensures Execute(r, i) == Checked(r, i.rd, r[i.rs] as int - r[i.rt])
  {
    DifferenceOverflows(r[i.rs], r[i.rt]);
  }

  lemma SumOverflows(x: Word, y: Word)
    ensures SignsOverflow(x, y, Wrap(x as int + y)) <==> !(-TwoTo31 <= x as int + y < TwoTo31)
  {}

  lemma DifferenceOverflows(x: Word, y: Word)
    ensures (x < 0) != (y < 0) && (x < 0) != (Wrap(x as int - y) < 0) <==> !(-TwoTo31 <= x as int - y < TwoTo31)
  {}

  /** OR gives rs, which is rs | rt exactly when rs has every bit of rt. */
  lemma OrIsRight(r: Registers, i: Instruction)
    requires i.rs < 32 && i.rt < 32 && i.rd < 32 && i.opCode == OR
    ensures Execute(r, i) == Put(r, i.rd, r[i.rs])
    ensures Execute(r, i) == Put(r, i.rd, Or(r[i.rs], r[i.rt])) <==> And(r[i.rt], r[i.rs]) == r[i.rt]
  {
    OrSelf(r[i.rs]);
    OrAbsorbs(r[i.rs], r[i.rt]);
  }

  /** Registers with x in register 1, y in register 2 and zeros elsewhere. */
  function Sample(x: Word, y: Word): Registers {
    seq(NumTotalRegs, j => if j == 1 then x else if j == 2 then y else 0)
  }

  /** 0 | 1 comes out as 0. */
  lemma OrCanBeWrong()
    ensures var (r, i) := (Sample(0, 1), Instruction(OR, 1, 2, 3, 0)); Execute(r, i) == Put(r, 3, 0) && Or(r[1], r[2]) == 1
  {
    OrIsRight(Sample(0, 1), Instruction(OR, 1, 2, 3, 0));
  }

  /** SRL shifts the sign in: it is the logical shift exactly when rt is not negative or the count is 0. */
  lemma SrlIsRight(r: Registers, i: Instruction)
    requires i.rs < 32 && i.rt < 32 && i.rd < 32 && i.opCode in {SRL, SRLV} && (i.opCode == SRL ==> i.extra >= 0)
    ensures var n := if i.opCode == SRL then i.extra else r[i.rs] % 32;
            Execute(r, i) == Put(r, i.rd, ShiftRightUnsigned(r[i.rt], n)) <==> r[i.rt] >= 0 || n == 0
  {
    ShiftsAgree(r[i.rt], if i.opCode == SRL then i.extra else r[i.rs] % 32);
  }

  lemma HalfOfMinusOne()
    ensures ShiftRight(-1, 1) == -1 && ShiftRightUnsigned(-1, 1) == TwoTo31 - 1
  {
    assert Pow2(1) == 2;
  }

  /** Shifted right by one, -1 stays -1; as an unsigned word it would be the largest number. */
  lemma SrlCanBeWrong()
    ensures var r := Sample(1, -1);
            && Execute(r, Instruction(SRL, 0, 2, 3, 1)) == Put(r, 3, -1)
            && Execute(r, Instruction(SRLV, 1, 2, 3, 0)) == Put(r, 3, -1)
            && ShiftRightUnsigned(r[2], 1) == TwoTo31 - 1
  {
    HalfOfMinusOne();
  }

  /** The least number divided by -1 is a fault of the host. */
  lemma DivideCanStop()
    ensures Execute(Sample(-TwoTo31, -1), Instruction(DIV, 1, 2, 0, 0)) == Stop
  {
    DivideIsExact(Sample(-TwoTo31, -1), Instruction(DIV, 1, 2, 0, 0));
  }

  /** DIV faults exactly for the one quotient that is no 32-bit number; by zero it gives zeros. */
  lemma DivideIsExact(r: Registers, i: Instruction)
    requires i.rs < 32 && i.rt < 32 && i.rd < 32 && i.opCode == DIV
    ensures var x, y := r[i.rs] as int, r[i.rt] as int;
            match Execute(r, i)
            case Stop => x == -TwoTo31 && y == -1
            case Assign(a, _) =>
              && |a| == 2 && a[0].reg == LoReg && a[1].reg == HiReg
              && var q, rem := a[0].value as int, a[1].value as int;
                 if y == 0 then q == 0 && rem == 0
                 else x == q * y + rem && -Abs(y) < rem < Abs(y) && (rem == 0 || (rem < 0) == (x < 0))
            case _ => false
  {
    var x, y := r[i.rs] as int, r[i.rt] as int;
    if y != 0 && !(x == -TwoTo31 && y == -1) {
      QuotientIsExact(x, y);
    }
  }

  lemma QuotientIsExact(x: Word, y: Word)
    requires y != 0 && !(x == -TwoTo31 && y == -1)
    ensures var q := Quotient(x, y);
            var rem := x - q * y;
            && -TwoTo31 <= q < TwoTo31 && -Abs(y) < rem < Abs(y) && (rem == 0 || (rem < 0) == (x < 0))
  {
    var q := Abs(x) / Abs(y);
    SignOfProduct(q, Abs(y));
    Dividing(Abs(x), Abs(y));
  }

  lemma Dividing(u: nat, v: nat)
    requires v > 0
    ensures var q := u / v; 0 <= u - q * v < v && 0 <= q <= u && (v > 1 ==> 2 * q <= u)
  {
    assert u == u / v * v + u % v;
    if v > 1 { HalfOrLess(u, v); }
  }

  /** What a load leaves: the number in the range of its type that agrees with the bytes read. */
  lemma LoadedMeans(value: Word)
    ensures var b := Loaded(value, SignedByte); -0x80 <= b < 0x80 && (b - value as int) % 0x100 == 0
    ensures var b := Loaded(value, UnsignedByte); 0 <= b < 0x100 && (b - value as int) % 0x100 == 0
    ensures var h := Loaded(value, SignedHalf); -0x8000 <= h < 0x8000 && (h - value as int) % 0x1_0000 == 0
    ensures var h := Loaded(value, UnsignedHalf); 0 <= h < 0x1_0000 && (h - value as int) % 0x1_0000 == 0
  {}

  /** A jump keeps the top four bits of the address after the delay slot and sets the rest. */
  lemma JumpStaysInRegion(r: Registers, extra: Word)
    requires 0 <= extra < 0x400_0000
    ensures var target := Unsigned(JumpTarget(r, extra));
            target / 0x1000_0000 == Unsigned(Following(r)) / 0x1000_0000 && target % 0x1000_0000 == 4 * extra
  {
    var n := Unsigned(Following(r)) / 0x1000_0000 * 0x1000_0000 + 4 * extra;
    assert Unsigned(Wrap(n)) == n;
  }

  /** LWR at an aligned address replaces the lowest byte of the register by the highest of the word. */
  lemma TopByteMeans(value: Word, rest: Word)
    ensures var w := Loaded(value, TopByte(rest));
            ByteOf(w, 0) == ByteOf(value, 3) && ByteOf(w, 1) == ByteOf(rest, 1)
            && ByteOf(w, 2) == ByteOf(rest, 2) && ByteOf(w, 3) == ByteOf(rest, 3)
  {
    TopByteIs(value, rest);
    Word4Bytes(ByteOf(value, 3), ByteOf(rest, 1), ByteOf(rest, 2), ByteOf(rest, 3));
  }

  lemma TopByteIs(value: Word, rest: Word)
    ensures Loaded(value, TopByte(rest)) == Word4(ByteOf(value, 3), ByteOf(rest, 1), ByteOf(rest, 2), ByteOf(rest, 3))
  {
    ByteSum(rest);
    var q := ByteOf(rest, 1) + 0x100 * ByteOf(rest, 2) + 0x1_0000 * ByteOf(rest, 3);
    assert Unsigned(rest) / 0x100 == q;
    assert Unsigned(value) / 0x100_0000 == ByteOf(value, 3);
  }

  /** SWR at an aligned address replaces the highest byte of the word by the lowest of the register;
      SWL replaces the word. */
  lemma MergedMeans(before: Word, value: Word)
    ensures Merged(before, false, value) == value
    ensures var w := Merged(before, true, value);
            ByteOf(w, 3) == ByteOf(value, 0) && ByteOf(w, 0) == ByteOf(before, 0)
            && ByteOf(w, 1) == ByteOf(before, 1) && ByteOf(w, 2) == ByteOf(before, 2)
  {
    MergedIs(before, value);
    Word4Bytes(ByteOf(before, 0), ByteOf(before, 1), ByteOf(before, 2), ByteOf(value, 0));
  }

  lemma MergedIs(before: Word, value: Word)
    ensures Merged(before, true, value) == Word4(ByteOf(before, 0), ByteOf(before, 1), ByteOf(before, 2), ByteOf(value, 0))
  {
    ByteSum(before);
    var low := ByteOf(before, 0) + 0x100 * ByteOf(before, 1) + 0x1_0000 * ByteOf(before, 2);
    assert Unsigned(before) % 0x100_0000 == low;
    TopOnly(low, value);
  }

  lemma WrapTurns(x: int, k: int)
    ensures Wrap(x + k * TwoTo32) == Wrap(x)
  {
    var a := x + TwoTo31;
    assert (a + k * TwoTo32) % TwoTo32 == a % TwoTo32;
  }

  lemma TopOnly(low: nat, value: Word)
    requires low < 0x100_0000
    ensures Wrap(low + value * 0x100_0000) == Wrap(low + Unsigned(value) % 0x100 * 0x100_0000)
    ensures Unsigned(Wrap(low + Unsigned(value) % 0x100 * 0x100_0000)) == low + Unsigned(value) % 0x100 * 0x100_0000
  {
    var q, m := Unsigned(value) / 0x100, Unsigned(value) % 0x100;
    var k := if value < 0 then q - 0x100_0000 else q;
    assert low + value * 0x100_0000 == (low + m * 0x100_0000) + k * TwoTo32;
    WrapTurns(low + m * 0x100_0000, k);
  }
}
