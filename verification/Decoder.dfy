/** Instruction decoding: the tables of machine/mipssim.h and Instruction::Decode of machine/mipssim.cc. */
module Decoder {
  import opened Words

  datatype OpCode =
    | ADD | ADDI | ADDIU | ADDU | AND | ANDI | BEQ | BGEZ | BGEZAL | BGTZ | BLEZ | BLTZ | BLTZAL | BNE
    | DIV | DIVU | J | JAL | JALR | JR | LB | LBU | LH | LHU | LUI | LW | LWL | LWR | MFHI | MFLO | MTHI | MTLO
    | MULT | MULTU | NOR | OR | ORI | RFE | SB | SH | SLL | SLLV | SLT | SLTI | SLTIU | SLTU | SRA | SRAV | SRL | SRLV
    | SUB | SUBU | SW | SWL | SWR | XOR | XORI | SYSCALL | UNIMP | RES
    | SPECIAL | BCOND      // for further decoding

  datatype Format = IFMT | JFMT | RFMT

  datatype Instruction = Instruction(opCode: OpCode, rs: nat, rt: nat, rd: nat, extra: Word)

  /** OneInstruction has a case for it. */
  predicate HasCase(op: OpCode) {
    op != RFE && op != SPECIAL && op != BCOND
  }

  function OpTable(i: nat): (r: (OpCode, Format))
    requires i < 64
    ensures r.0 == SPECIAL <==> i == 0
    ensures r.0 == BCOND <==> i == 1
    ensures r.0 != RFE
  {
    if i == 0 then (SPECIAL, RFMT) else if i == 1 then (BCOND, IFMT)
    else if i == 2 then (J, JFMT) else if i == 3 then (JAL, JFMT)
    else (OpTableI(i), IFMT)
  }

  function OpTableI(i: nat): (r: OpCode)
    ensures HasCase(r)
  {
    match i
    case 4 => BEQ case 5 => BNE case 6 => BLEZ case 7 => BGTZ
    case 8 => ADDI case 9 => ADDIU case 10 => SLTI case 11 => SLTIU
    case 12 => ANDI case 13 => ORI case 14 => XORI case 15 => LUI
    case 16 => UNIMP case 17 => UNIMP case 18 => UNIMP case 19 => UNIMP
    case 32 => LB case 33 => LH case 34 => LWL case 35 => LW
    case 36 => LBU case 37 => LHU case 38 => LWR
    case 40 => SB case 41 => SH case 42 => SWL case 43 => SW case 46 => SWR
    case 48 => UNIMP case 49 => UNIMP case 50 => UNIMP case 51 => UNIMP
    case 56 => UNIMP case 57 => UNIMP case 58 => UNIMP case 59 => UNIMP
    case _ => RES
  }

  function SpecialTable(i: nat): (r: OpCode)
    requires i < 64
    ensures HasCase(r)
  {
    match i
    case 0 => SLL case 2 => SRL case 3 => SRA case 4 => SLLV case 6 => SRLV case 7 => SRAV
    case 8 => JR case 9 => JALR case 12 => SYSCALL case 13 => UNIMP
    case 16 => MFHI case 17 => MTHI case 18 => MFLO case 19 => MTLO
    case 24 => MULT case 25 => MULTU case 26 => DIV case 27 => DIVU
    case 32 => ADD case 33 => ADDU case 34 => SUB case 35 => SUBU
    case 36 => AND case 37 => OR case 38 => XOR case 39 => NOR
    case 42 => SLT case 43 => SLTU
    case _ => RES
  }

  function Bcond(rt: nat): (r: OpCode)
    ensures HasCase(r)
  {
    match rt
    case 0 => BLTZ case 1 => BGEZ case 16 => BLTZAL case 17 => BGEZAL
    case _ => UNIMP
  }

  function SignExtend16(u: nat): Word
    requires u < 0x1_0000
  {
    if u >= 0x8000 then u - 0x1_0000 else u
  }

  /** The fields of a word, in its three formats. */
  datatype Fields = Fields(top: nat, rs: nat, rt: nat, rd: nat, shift: nat, funct: nat, low: nat, target: nat)

  predicate InRange(f: Fields) {
    && f.top < 64 && f.rs < 32 && f.rt < 32 && f.rd < 32 && f.shift < 32 && f.funct < 64
    && f.low < 0x1_0000 && f.target < 0x400_0000
  }

  function FieldsOf(value: nat): (f: Fields)
    ensures InRange(f)
  {
    Fields((value / 0x400_0000) % 64, (value / 0x20_0000) % 32, (value / 0x1_0000) % 32, (value / 0x800) % 32,
           (value / 0x40) % 32, value % 64, value % 0x1_0000, value % 0x400_0000)
  }

  function Assemble(f: Fields): (i: Instruction)
    requires InRange(f)
    ensures HasCase(i.opCode) && i.rs == f.rs && i.rt == f.rt && i.rd == f.rd
    ensures i.opCode in {SLL, SRL, SRA} ==> 0 <= i.extra < 32
    ensures i.opCode in {J, JAL} ==> 0 <= i.extra < 0x400_0000
  {
    TablesApart(f.top);
    SpecialApart(f.funct);
    var (op, format) := OpTable(f.top);
    var extra :=
      match format
      case IFMT => SignExtend16(f.low)
      case RFMT => f.shift
      case JFMT => f.target;
    var opCode := if op == SPECIAL then SpecialTable(f.funct) else if op == BCOND then Bcond(f.rt) else op;
    Instruction(opCode, f.rs, f.rt, f.rd, extra)
  }

  /** Every word decodes to an opcode that OneInstruction has a case for, with registers in range. */
  function Decode(value: nat): (i: Instruction)
    ensures HasCase(i.opCode) && i.rs < 32 && i.rt < 32 && i.rd < 32
    ensures i.opCode in {SLL, SRL, SRA} ==> 0 <= i.extra < 32
    ensures i.opCode in {J, JAL} ==> 0 <= i.extra < 0x400_0000
  {
    Assemble(FieldsOf(value))
  }

  lemma TablesApart(i: nat)
    requires i < 64
    ensures OpTable(i).0 !in {SLL, SRL, SRA} && (OpTable(i).0 in {J, JAL} ==> OpTable(i).1 == JFMT)
    ensures OpTable(i).0 == SPECIAL ==> OpTable(i).1 == RFMT
  {}

  lemma SpecialApart(i: nat)
    requires i < 64
    ensures SpecialTable(i) !in {J, JAL}
  {}

  // ---------------------------------------------------------------- the fields are what was put together

  function ImmediateWord(op: nat, rs: nat, rt: nat, immediate: int): nat {
    op * 0x400_0000 + rs * 0x20_0000 + rt * 0x1_0000 + immediate % 0x1_0000
  }

  function RegisterWord(rs: nat, rt: nat, rd: nat, shift: nat, funct: nat): nat {
    rs * 0x20_0000 + rt * 0x1_0000 + rd * 0x800 + shift * 0x40 + funct
  }

  function JumpWord(op: nat, target: nat): nat {
    op * 0x400_0000 + target
  }

  lemma ImmediateFields(op: nat, rs: nat, rt: nat, immediate: int)
    requires op < 64 && rs < 32 && rt < 32 && -0x8000 <= immediate < 0x8000
    ensures ImmediateWord(op, rs, rt, immediate) < TwoTo32
    ensures var f := FieldsOf(ImmediateWord(op, rs, rt, immediate));
            f.top == op && f.rs == rs && f.rt == rt && SignExtend16(f.low) == immediate
  {
    HighFields(op, rs, rt, immediate % 0x1_0000);
  }

  lemma RegisterFields(rs: nat, rt: nat, rd: nat, shift: nat, funct: nat)
    requires rs < 32 && rt < 32 && rd < 32 && shift < 32 && funct < 64
    ensures RegisterWord(rs, rt, rd, shift, funct) < TwoTo32
    ensures var f := FieldsOf(RegisterWord(rs, rt, rd, shift, funct));
            f.top == 0 && f.rs == rs && f.rt == rt && f.rd == rd && f.shift == shift && f.funct == funct
  {
    HighFields(0, rs, rt, rd * 0x800 + shift * 0x40 + funct);
    LowFields(rs, rt, rd, shift, funct);
  }

  lemma JumpFields(op: nat, target: nat)
    requires op < 64 && target < 0x400_0000
    ensures JumpWord(op, target) < TwoTo32
    ensures FieldsOf(JumpWord(op, target)).top == op && FieldsOf(JumpWord(op, target)).target == target
  {
    var v := JumpWord(op, target);
    assert v / 0x400_0000 == op && v % 0x400_0000 == target;
  }

  lemma HighFields(op: nat, rs: nat, rt: nat, low: nat)
    requires op < 64 && rs < 32 && rt < 32 && low < 0x1_0000
    ensures var v := op * 0x400_0000 + rs * 0x20_0000 + rt * 0x1_0000 + low;
            && v < TwoTo32 && (v / 0x400_0000) % 64 == op && (v / 0x20_0000) % 32 == rs
            && (v / 0x1_0000) % 32 == rt && v % 0x1_0000 == low
  {
    var v := op * 0x400_0000 + rs * 0x20_0000 + rt * 0x1_0000 + low;
    assert v / 0x1_0000 == op * 0x400 + rs * 0x20 + rt;
    assert v / 0x20_0000 == op * 0x20 + rs;
    assert v / 0x400_0000 == op;
  }

  lemma Digit(x: nat, d: nat)
    ensures d < 32 ==> (x * 0x20 + d) / 0x20 == x && (x * 0x20 + d) % 0x20 == d
    ensures d < 64 ==> (x * 0x40 + d) / 0x40 == x && (x * 0x40 + d) % 0x40 == d
  {}

  lemma LowFields(rs: nat, rt: nat, rd: nat, shift: nat, funct: nat)
    requires rd < 32 && shift < 32 && funct < 64
    ensures var v := RegisterWord(rs, rt, rd, shift, funct); (v / 0x800) % 32 == rd && (v / 0x40) % 32 == shift && v % 64 == funct
  {
    var v, a := RegisterWord(rs, rt, rd, shift, funct), rs * 0x20 + rt;
    var b := a * 0x20 + rd;
    var c := b * 0x20 + shift;
    assert v == c * 0x40 + funct;
    Digit(c, funct);
    Digit(b, shift);
    Digit(a, rd);
    assert v / 0x800 == v / 0x40 / 0x20;
  }

  // ---------------------------------------------------------------- the codes of the instruction set

  /** Where an instruction has its number: in the top six bits, or below them when those are SPECIAL or BCOND. */
  datatype Code = Top(n: nat) | Funct(n: nat) | Cond(n: nat)

  predicate Coded(op: OpCode) {
    HasCase(op) && op != UNIMP && op != RES
  }

  /** The numbers that bin/encode.h gives the instructions. */
  function CodeOf(op: OpCode): Code
    requires Coded(op)
  {
    match op
    case J => Top(0x02) case JAL => Top(0x03) case BEQ => Top(0x04) case BNE => Top(0x05) case BLEZ => Top(0x06) case BGTZ => Top(0x07)
    case ADDI => Top(0x08) case ADDIU => Top(0x09) case SLTI => Top(0x0A) case SLTIU => Top(0x0B)
    case ANDI => Top(0x0C) case ORI => Top(0x0D) case XORI => Top(0x0E) case LUI => Top(0x0F)
    case LB => Top(0x20) case LH => Top(0x21) case LWL => Top(0x22) case LW => Top(0x23)
    case LBU => Top(0x24) case LHU => Top(0x25) case LWR => Top(0x26)
    case SB => Top(0x28) case SH => Top(0x29) case SWL => Top(0x2A) case SW => Top(0x2B) case SWR => Top(0x2E)
    case SLL => Funct(0x00) case SRL => Funct(0x02) case SRA => Funct(0x03) case SLLV => Funct(0x04)
    case SRLV => Funct(0x06) case SRAV => Funct(0x07) case JR => Funct(0x08) case JALR => Funct(0x09) case SYSCALL => Funct(0x0C)
    case MFHI => Funct(0x10) case MTHI => Funct(0x11) case MFLO => Funct(0x12) case MTLO => Funct(0x13)
    case MULT => Funct(0x18) case MULTU => Funct(0x19) case DIV => Funct(0x1A) case DIVU => Funct(0x1B)
    case ADD => Funct(0x20) case ADDU => Funct(0x21) case SUB => Funct(0x22) case SUBU => Funct(0x23)
    case AND => Funct(0x24) case OR => Funct(0x25) case XOR => Funct(0x26) case NOR => Funct(0x27)
    case SLT => Funct(0x2A) case SLTU => Funct(0x2B)
    case BLTZ => Cond(0x00) case BGEZ => Cond(0x01) case BLTZAL => Cond(0x10) case BGEZAL => Cond(0x11)
  }

  predicate Says(f: Fields, code: Code) {
    match code
    case Top(n) => f.top == n
    case Funct(n) => f.top == 0 && f.funct == n
    case Cond(n) => f.top == 1 && f.rt == n
  }

  /** The coprocessors' numbers, the breakpoint's, and the unassigned conditions. */
  predicate Unimplemented(f: Fields) {
    || f.top / 4 == 4 || f.top / 4 == 12 || f.top / 4 == 14
    || Says(f, Funct(0x0D)) || (f.top == 1 && f.rt !in {0x00, 0x01, 0x10, 0x11})
  }

  lemma NumberOfArithmetic(n: nat)
    requires 4 <= n < 16
    ensures Coded(OpTableI(n)) && CodeOf(OpTableI(n)) == Top(n)
  {}

  lemma NumberOfAccess(n: nat)
    requires 16 <= n < 64 && Coded(OpTableI(n))
    ensures CodeOf(OpTableI(n)) == Top(n)
  {
    assert 32 <= n < 47;
  }

  lemma NumberOfTop(n: nat)
    requires 2 <= n < 64 && Coded(OpTable(n).0)
    ensures CodeOf(OpTable(n).0) == Top(n)
  {
    if 4 <= n < 16 {
      NumberOfArithmetic(n);
    } else if n >= 16 {
      NumberOfAccess(n);
    }
  }

  lemma NumberOfFunct(n: nat)
    requires n < 64 && Coded(SpecialTable(n))
    ensures CodeOf(SpecialTable(n)) == Funct(n)
  {}

  lemma NumberOfCond(n: nat)
    requires Coded(Bcond(n))
    ensures CodeOf(Bcond(n)) == Cond(n)
  {}

  /** What a table says at the number. */
  function AtCode(code: Code): OpCode {
    match code
    case Top(n) => if 2 <= n < 64 then OpTable(n).0 else RES
    case Funct(n) => if n < 64 then SpecialTable(n) else RES
    case Cond(n) => Bcond(n)
  }

  lemma JumpTable(op: OpCode)
    requires op in {J, JAL, BEQ, BNE, BLEZ, BGTZ, BLTZ, BGEZ, BLTZAL, BGEZAL}
    ensures AtCode(CodeOf(op)) == op
  {}

  lemma ImmediateTable(op: OpCode)
    requires op in {ADDI, ADDIU, SLTI, SLTIU, ANDI, ORI, XORI, LUI}
    ensures AtCode(CodeOf(op)) == op
  {}

  lemma LoadTable(op: OpCode)
    requires op in {LB, LH, LWL, LW, LBU, LHU, LWR}
    ensures AtCode(CodeOf(op)) == op
  {}

  lemma StoreTable(op: OpCode)
    requires op in {SB, SH, SWL, SW, SWR}
    ensures AtCode(CodeOf(op)) == op
  {}

  lemma ShiftTable(op: OpCode)
    requires op in {SLL, SRL, SRA, SLLV, SRLV, SRAV, JR, JALR, SYSCALL}
    ensures AtCode(CodeOf(op)) == op
  {}

  lemma ProductTable(op: OpCode)
    requires op in {MFHI, MTHI, MFLO, MTLO, MULT, MULTU, DIV, DIVU}
    ensures AtCode(CodeOf(op)) == op
  {}

  lemma RegisterTable(op: OpCode)
    requires op in {ADD, ADDU, SUB, SUBU, AND, OR, XOR, NOR, SLT, SLTU}
    ensures AtCode(CodeOf(op)) == op
  {}

  lemma TablesHold(op: OpCode)
    requires Coded(op)
    ensures AtCode(CodeOf(op)) == op
  {
    if op in {J, JAL, BEQ, BNE, BLEZ, BGTZ, BLTZ, BGEZ, BLTZAL, BGEZAL} {
      JumpTable(op);
    } else if op in {ADDI, ADDIU, SLTI, SLTIU, ANDI, ORI, XORI, LUI} {
      ImmediateTable(op);
    } else if op in {LB, LH, LWL, LW, LBU, LHU, LWR} {
      LoadTable(op);
    } else if op in {SB, SH, SWL, SW, SWR} {
      StoreTable(op);
    } else if op in {SLL, SRL, SRA, SLLV, SRLV, SRAV, JR, JALR, SYSCALL} {
      ShiftTable(op);
    } else if op in {MFHI, MTHI, MFLO, MTLO, MULT, MULTU, DIV, DIVU} {
      ProductTable(op);
    } else {
      RegisterTable(op);
    }
  }

  /** Where a word has its number. */
  function CodeIn(f: Fields): Code {
    if f.top == 0 then Funct(f.funct) else if f.top == 1 then Cond(f.rt) else Top(f.top)
  }

  lemma AssembledAt(f: Fields)
    requires InRange(f)
    ensures Assemble(f).opCode == AtCode(CodeIn(f))
  {}

  lemma NumberOf(f: Fields)
    requires InRange(f) && Coded(AtCode(CodeIn(f)))
    ensures CodeOf(AtCode(CodeIn(f))) == CodeIn(f)
  {
    if f.top == 0 {
      NumberOfFunct(f.funct);
    } else if f.top == 1 {
      NumberOfCond(f.rt);
    } else {
      NumberOfTop(f.top);
    }
  }

  lemma SaysIs(f: Fields, code: Code)
    requires code.Top? ==> code.n >= 2
    ensures Says(f, code) <==> CodeIn(f) == code
  {}

  /** A word decodes to an instruction exactly if it bears that instruction's number. */
  lemma DecodesByNumber(value: nat, op: OpCode)
    requires Coded(op)
    ensures Decode(value).opCode == op <==> Says(FieldsOf(value), CodeOf(op))
  {
    var f, code := FieldsOf(value), CodeOf(op);
    AssembledAt(f);
    CodesInRange(op);
    SaysIs(f, code);
    if AtCode(CodeIn(f)) == op {
      NumberOf(f);
    }
    TablesHold(op);
  }

  lemma UnimplementedTop(n: nat)
    requires n < 64
    ensures OpTableI(n) == UNIMP <==> n / 4 == 4 || n / 4 == 12 || n / 4 == 14
  {}

  lemma DecodesToUnimplemented(value: nat)
    ensures Decode(value).opCode == UNIMP <==> Unimplemented(FieldsOf(value))
  {
    UnimplementedTop(FieldsOf(value).top);
  }

  /** The word of an instruction, in the format of its opcode. */
  function Encode(i: Instruction): nat
    requires Coded(i.opCode)
  {
    match CodeOf(i.opCode)
    case Top(n) => if i.opCode in {J, JAL} && i.extra >= 0 then JumpWord(n, i.extra) else ImmediateWord(n, i.rs, i.rt, i.extra)
    case Funct(n) => if i.extra >= 0 then RegisterWord(i.rs, i.rt, i.rd, i.extra, n) else 0
    case Cond(n) => ImmediateWord(1, i.rs, n, i.extra)
  }

  /** The parts of an instruction are in the range of its format. */
  predicate Encodable(i: Instruction) {
    && Coded(i.opCode) && i.rs < 32 && i.rt < 32 && i.rd < 32
    && if i.opCode in {J, JAL} then 0 <= i.extra < 0x400_0000
       else match CodeOf(i.opCode)
       case Funct(_) => 0 <= i.extra < 32
       case Top(_) => -0x8000 <= i.extra < 0x8000
       case Cond(n) => -0x8000 <= i.extra < 0x8000 && i.rt == n
  }

  /** The parts that the format of i has are those of j. */
  predicate SameParts(i: Instruction, j: Instruction)
    requires Coded(i.opCode)
  {
    && i.opCode == j.opCode && i.extra == j.extra
    && (i.opCode !in {J, JAL} ==> i.rs == j.rs && i.rt == j.rt)
    && (CodeOf(i.opCode).Funct? ==> i.rd == j.rd)
  }

  lemma CodesInRange(op: OpCode)
    requires Coded(op)
    ensures match CodeOf(op) case Top(n) => 2 <= n < 64 case Funct(n) => n < 64 case Cond(n) => n < 32
    ensures op in {J, JAL} ==> CodeOf(op).Top? && CodeOf(op).n < 4
    ensures op !in {J, JAL} && CodeOf(op).Top? ==> CodeOf(op).n >= 4
  {}

  /** An instruction that is put together is decoded to itself. */
  lemma DecodeEncoded(i: Instruction)
    requires Encodable(i)
    ensures Encode(i) < TwoTo32 && SameParts(i, Decode(Encode(i)))
  {
    CodesInRange(i.opCode);
    DecodesByNumber(Encode(i), i.opCode);
    match CodeOf(i.opCode)
    case Top(n) =>
      if i.opCode in {J, JAL} { JumpFields(n, i.extra); } else { ImmediateFields(n, i.rs, i.rt, i.extra); }
    case Funct(n) => RegisterFields(i.rs, i.rt, i.rd, i.extra, n);
    case Cond(n) => ImmediateFields(1, i.rs, n, i.extra);
  }
}
