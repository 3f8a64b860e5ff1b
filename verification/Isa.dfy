/**
  Instruction encodings as the decoder sees them: lengths, the bytecode selected for
  every 32-bit word, the guards applied when a bytecode is rewritten for its position in
  the segment, and the test that cuts basic blocks.

  Words are natural numbers; a bit field is a quotient and a remainder.  Addresses are
  unbounded integers, so a branch target below zero is simply outside every segment.
 */
module Isa {

  type Half = h: nat | h < 0x1_0000

  type Word = w: nat | w < 0x1_0000_0000

  /** The compile-time configuration: is the C-extension on, how many bytes a register has, and are
      the A- and V-extensions on. */
  datatype Build = Build(compressed: bool, xbytes: nat, atomics: bool := true, vectors: bool := false) {
    ghost predicate Valid() {
      xbytes == 4 || xbytes == 8 || xbytes == 16
    }

    /** Bytes covered by one decoder entry (DecoderData::DIVISOR). */
    function SlotBytes(): (b: nat)
      ensures b == 2 || b == 4
    {
      if compressed then 2 else 4
    }

    /** Bytes covered by n decoder entries. */
    function Bytes(n: nat): (b: nat)
      ensures Aligned(b) && b >= 2 * n
    {
      if compressed then 2 * n else 4 * n
    }

    /** An address where a decoder entry begins. */
    predicate Aligned(a: int) {
      if compressed then a % 2 == 0 else a % 4 == 0
    }
  }

  /** Bits lo .. lo+n of w, where scale is 2^lo and range is 2^n. */
  function Field(w: nat, scale: nat, range: nat): (f: nat)
    requires scale > 0 && range > 0
    ensures f < range
  {
    (w / scale) % range
  }

  /** Instruction length in bytes: section 1.5 of the unprivileged ISA manual. */
  function Length(build: Build, w: Word): (n: nat) {
    if build.compressed && w % 4 != 3 then 2 else 4
  }

  /** Decoder entries an instruction covers. */
  function Slots(build: Build, w: Word): (n: nat)
    ensures n == 1 || n == 2
    ensures build.Bytes(n) == Length(build, w)
  {
    if build.compressed && w % 4 == 3 then 2 else 1
  }

  // -------------------------------------------------------------------------
  // What the architecture says an encoding does to the program counter
  // -------------------------------------------------------------------------

  /** CBreak is C.EBREAK, which like EBREAK calls a handler of the host.  Custom are the encodings
      that decode does not know, whose handler the host supplies. */
  datatype Class = Plain | PcRel | Branch | Jump | JumpReg | Ecall | Halt | SystemOther | CBreak | Custom

  const BRANCH := 0x63
  const JALR := 0x67
  const JAL := 0x6F
  const SYSTEM := 0x73
  const AUIPC := 0x17
  const C_EBREAK := 0x9002

  function Opcode(w: Word): (op: nat)
    ensures op < 128
  {
    w % 128
  }

  function Rd(w: Word): nat { Field(w, 0x80, 32) }

  function Funct3(w: Word): nat { Field(w, 0x1000, 8) }

  function Rs1(w: Word): nat { Field(w, 0x8000, 32) }

  function Rs2(w: Word): nat { Field(w, 0x10_0000, 32) }

  function Imm12(w: Word): nat { Field(w, 0x10_0000, 0x1000) }

  /** The three top bits and the quadrant of a compressed instruction. */
  function CFunct3(c: Half): nat { Field(c, 0x2000, 8) }

  function Quadrant(c: Half): nat { c % 4 }

  function CRd(c: Half): nat { Field(c, 0x80, 32) }

  function CRs2(c: Half): nat { Field(c, 4, 32) }

  function Low(w: Word): (c: Half) { w % 0x1_0000 }

  function CompressedClass(build: Build, c: Half): Class {
    if Quadrant(c) == 1 && CFunct3(c) == 1 then (if build.xbytes >= 8 then Plain else Jump)
    else if Quadrant(c) == 1 && CFunct3(c) == 5 then Jump
    else if Quadrant(c) == 1 && CFunct3(c) >= 6 then Branch
    else if Quadrant(c) == 2 && CFunct3(c) == 4 && CRd(c) != 0 && CRs2(c) == 0 then JumpReg
    else if c == C_EBREAK then CBreak
    else Plain
  }

  /** Bits 27 to 31: the operation of a floating-point or atomic instruction. */
  function Funct5(w: Word): nat { w / 0x800_0000 }

  predicate FloatKnown(build: Build, w: Word) {
    || Funct5(w) in {0, 1, 2, 3, 4, 5, 8, 0xB, 0x14, 0x18, 0x1A, 0x1C, 0x1E}
    || (Funct5(w) == 0x16 && build.xbytes == 4)
  }

  predicate AtomicKnown(build: Build, w: Word) {
    match Funct3(w)
    case 2 => Funct5(w) in {0, 1, 2, 3, 4, 8, 0xC, 0x10, 0x14, 0x18, 0x1C}
    case 3 => build.xbytes >= 8 && Funct5(w) in {0, 1, 2, 3, 4, 8, 0xC, 0x10, 0x14, 0x18, 0x1C}
    case 4 => build.xbytes == 16 && Funct5(w) in {0, 1, 2, 3, 4, 8, 0xC}
    case _ => false
  }

  /** decode has a handler for the 32-bit encoding w; for the others it asks the host. */
  predicate Known(build: Build, w: Word) {
    match Opcode(w)
    case 0x03 | 0x23 | 0x63 | 0x67 | 0x6F | 0x13 | 0x33 | 0x73 | 0x37 | 0x17 | 0x1B | 0x3B | 0x0F => true
    case 0x07 | 0x27 | 0x43 | 0x47 | 0x4B | 0x4F => true
    case 0x53 => FloatKnown(build, w)
    case 0x57 => build.vectors
    case 0x2F => build.atomics && AtomicKnown(build, w)
    case 0x5B | 0x7B => build.xbytes == 16
    case _ => w == 0
  }

  function ClassOf(build: Build, w: Word): Class {
    if Length(build, w) == 2 then CompressedClass(build, Low(w))
    else if Opcode(w) == BRANCH then Branch
    else if Opcode(w) == JAL then Jump
    else if Opcode(w) == JALR then JumpReg
    else if Opcode(w) == SYSTEM then
      if Funct3(w) == 0 && Imm12(w) == 0 then Ecall
      else if Funct3(w) == 0 && (Imm12(w) == 0x105 || Imm12(w) == 0x7FF) then Halt
      else SystemOther
    else if Opcode(w) == AUIPC && Rd(w) != 0 then PcRel
    else if !Known(build, w) then Custom
    else Plain
  }

  /** Sign extension of an n-bit value, where range is 2^n. */
  function Signed(v: nat, range: nat): int {
    if 2 * v >= range then v - range else v
  }

  function CompressedDisplacement(c: Half): int {
    if CFunct3(c) >= 6 then
      Signed(Field(c, 8, 4) + 4 * Field(c, 0x400, 4) + 16 * Field(c, 4, 2)
             + 32 * Field(c, 0x20, 4) + 128 * Field(c, 0x1000, 2), 0x100)
    else
      Signed(Field(c, 8, 8) + 8 * Field(c, 0x800, 2) + 16 * Field(c, 4, 2) + 32 * Field(c, 0x80, 2)
             + 64 * Field(c, 0x40, 2) + 128 * Field(c, 0x200, 4) + 512 * Field(c, 0x100, 2)
             + 1024 * Field(c, 0x1000, 2), 0x800)
  }

  function BranchDisplacement(w: Word): int {
    Signed(Field(w, 0x100, 16) + 16 * Field(w, 0x200_0000, 64) + 1024 * Field(w, 0x80, 2)
           + 2048 * Field(w, 0x8000_0000, 2), 0x1000)
  }

  function JumpDisplacement(w: Word): int {
    Signed(Field(w, 0x20_0000, 1024) + 1024 * Field(w, 0x10_0000, 2) + 2048 * Field(w, 0x1000, 256)
           + 0x8_0000 * Field(w, 0x8000_0000, 2), 0x10_0000)
  }

  /** The displacement in bytes of a direct branch or jump. */
  function Offset(build: Build, w: Word): int {
    2 * (if Length(build, w) == 2 then CompressedDisplacement(Low(w))
         else if Opcode(w) == BRANCH then BranchDisplacement(w)
         else JumpDisplacement(w))
  }

  // -------------------------------------------------------------------------
  // Bytecodes
  // -------------------------------------------------------------------------

  /** Operations of 32-bit encodings that continue with the next instruction. */
  datatype Op =
    | ADDI | LI | MV | SLLI | SLTI | SLTIU | XORI | SRLI | SRAI | ORI | ANDI | LUI
    | LDB | LDBU | LDH | LDHU | LDW | LDWU | LDD | STB | STH | STW | STD
    | OP_ADD | OP_SUB | OP_SLL | OP_SLT | OP_SLTU | OP_XOR | OP_SRL | OP_OR | OP_AND
    | OP_MUL | OP_DIV | OP_DIVU | OP_REM | OP_REMU | OP_SRA | OP_ZEXT_H
    | OP_SH1ADD | OP_SH2ADD | OP_SH3ADD | SEXT_B | SEXT_H | BSETI | BEXTI
    | ADDIW | SLLIW | SRLIW | OP_ADDW | OP_SUBW | OP_MULW | OP_ADD_UW
    | FLW | FLD | FSW | FSD | FADD | FSUB | FMUL | FDIV | FMADD | FUNCTION

  /** Operations of 16-bit encodings that continue with the next instruction. */
  datatype COp =
    | C_ADDI | C_LI | C_MV | C_SLLI | C_LDD | C_STD | C_LDW | C_STW | C_SRLI | C_ANDI
    | C_ADD | C_XOR | C_OR | C_FUNCTION

  datatype Bytecode =
    | INVALID
    | DATA(op: Op)
    | C_DATA(cop: COp)
    | AUIPC_BC
    | BEQ | BNE | BLT | BGE | BLTU | BGEU | BEQ_FW | BNE_FW
    | JAL_BC | JALR_BC | FAST_JAL | FAST_CALL
    | C_BEQZ | C_BNEZ | C_JMP | C_JR | C_JAL_ADDIW | C_JALR
    | SYSCALL | STOP | SYSTEM_BC | FUNCBLOCK | NATIVE | LIVEPATCH

  /** Bytecode of a 16-bit encoding. */
  function CompressedIndexFor(build: Build, c: Half): Bytecode {
    var f3 := CFunct3(c);
    var rd := CRd(c);
    match Quadrant(c)
    case 0 =>
      (match f3
       // C.ADDI4SPN is reserved when its immediate, bits 5 to 12, is zero
       case 0 => if Field(c, 0x20, 0x100) != 0 then C_DATA(C_ADDI) else INVALID
       case 2 => C_DATA(C_LDW)
       case 6 => C_DATA(C_STW)
       case 7 => if build.xbytes == 8 then C_DATA(C_STD) else C_DATA(C_FUNCTION)
       case _ => C_DATA(C_FUNCTION))
    case 1 =>
      (match f3
       case 0 => if rd != 0 then C_DATA(C_ADDI) else C_DATA(C_FUNCTION)
       case 1 => if build.xbytes >= 8 && rd == 0 then INVALID else C_JAL_ADDIW
       case 2 => if rd != 0 then C_DATA(C_LI) else C_DATA(C_FUNCTION)
       // C.ADDI16SP, with a non-zero immediate in bits 2 to 6 and 12
       case 3 =>
         if rd == 2 && (Field(c, 4, 32) != 0 || Field(c, 0x1000, 2) != 0) then C_DATA(C_ADDI) else C_DATA(C_FUNCTION)
       case 4 =>
         (match Field(c, 0x400, 4)
          case 0 => C_DATA(C_SRLI)
          case 1 => C_DATA(C_FUNCTION)
          case 2 => C_DATA(C_ANDI)
          case _ =>
            if Field(c, 0x1000, 2) == 0 && Field(c, 0x20, 4) == 1 then C_DATA(C_XOR)
            else if Field(c, 0x1000, 2) == 0 && Field(c, 0x20, 4) == 2 then C_DATA(C_OR)
            else C_DATA(C_FUNCTION))
       case 5 => C_JMP
       case 6 => C_BEQZ
       case _ => C_BNEZ)
    case _ =>
      (match f3
       case 0 => if rd != 0 then C_DATA(C_SLLI) else C_DATA(C_FUNCTION)
       case 2 => if rd != 0 then C_DATA(C_LDW) else C_DATA(C_FUNCTION)
       case 3 => if build.xbytes == 8 && rd != 0 then C_DATA(C_LDD) else C_DATA(C_FUNCTION)
       case 4 =>
         if rd != 0 && CRs2(c) == 0 then (if Field(c, 0x1000, 2) == 0 then C_JR else C_JALR)
         else if rd != 0 then (if Field(c, 0x1000, 2) == 0 then C_DATA(C_MV) else C_DATA(C_ADD))
         else C_DATA(C_FUNCTION)
       case 6 => C_DATA(C_STW)
       case 7 => if build.xbytes == 8 then C_DATA(C_STD) else C_DATA(C_FUNCTION)
       case _ => C_DATA(C_FUNCTION))
  }

  function LoadIndexFor(build: Build, w: Word): Bytecode {
    if Rd(w) == 0 then DATA(FUNCTION)
    else
      match Funct3(w)
      case 0 => DATA(LDB)
      case 1 => DATA(LDH)
      case 2 => DATA(LDW)
      case 3 => if build.xbytes >= 8 then DATA(LDD) else INVALID
      case 4 => DATA(LDBU)
      case 5 => DATA(LDHU)
      case 6 => if build.xbytes >= 8 then DATA(LDWU) else INVALID
      case _ => INVALID
  }

  function StoreIndexFor(build: Build, w: Word): Bytecode {
    match Funct3(w)
    case 0 => DATA(STB)
    case 1 => DATA(STH)
    case 2 => DATA(STW)
    case 3 => if build.xbytes >= 8 then DATA(STD) else INVALID
    case _ => INVALID
  }

  function BranchIndexFor(w: Word): Bytecode {
    match Funct3(w)
    case 0 => BEQ
    case 1 => BNE
    case 4 => BLT
    case 5 => BGE
    case 6 => BLTU
    case 7 => BGEU
    case _ => INVALID
  }

  /** A shift immediate is usable unless it needs bit 5 on a 32-bit machine. */
  predicate ShiftFits(build: Build, w: Word) {
    build.xbytes != 4 || Field(Imm12(w), 0x20, 2) == 0
  }

  function HighBits(w: Word): nat { Imm12(w) / 64 }

  function OpImmIndexFor(build: Build, w: Word): Bytecode {
    if Rd(w) == 0 then DATA(FUNCTION)
    else
      match Funct3(w)
      case 0 => if Rs1(w) == 0 then DATA(LI) else if Imm12(w) == 0 then DATA(MV) else DATA(ADDI)
      case 1 =>
        if HighBits(w) == 0 && ShiftFits(build, w) then DATA(SLLI)
        else if Imm12(w) == 0x604 then DATA(SEXT_B)
        else if Imm12(w) == 0x605 then DATA(SEXT_H)
        else if HighBits(w) == 0xA && ShiftFits(build, w) then DATA(BSETI)
        else DATA(FUNCTION)
      case 2 => DATA(SLTI)
      case 3 => DATA(SLTIU)
      case 4 => DATA(XORI)
      case 5 =>
        if HighBits(w) == 0 && ShiftFits(build, w) then DATA(SRLI)
        else if HighBits(w) == 0x10 && ShiftFits(build, w) then DATA(SRAI)
        else if HighBits(w) == 0x12 && ShiftFits(build, w) then DATA(BEXTI)
        else DATA(FUNCTION)
      case 6 => DATA(ORI)
      case _ => DATA(ANDI)
  }

  /** funct3 in the low bits, funct7 from bit 4 up. */
  function OpKey(w: Word): nat { Funct3(w) + 16 * Field(w, 0x200_0000, 128) }

  function OpIndexFor(build: Build, w: Word): Bytecode {
    if Rd(w) == 0 then DATA(FUNCTION)
    else
      match OpKey(w)
      case 0x0 => DATA(OP_ADD)
      case 0x200 => DATA(OP_SUB)
      case 0x1 => DATA(OP_SLL)
      case 0x2 => DATA(OP_SLT)
      case 0x3 => DATA(OP_SLTU)
      case 0x4 => DATA(OP_XOR)
      case 0x5 => DATA(OP_SRL)
      case 0x6 => DATA(OP_OR)
      case 0x7 => DATA(OP_AND)
      case 0x10 => DATA(OP_MUL)
      case 0x14 => DATA(OP_DIV)
      case 0x15 => DATA(OP_DIVU)
      case 0x16 => DATA(OP_REM)
      case 0x17 => DATA(OP_REMU)
      case 0x44 => if build.xbytes == 4 && Rs2(w) == 0 then DATA(OP_ZEXT_H) else DATA(FUNCTION)
      case 0x102 => DATA(OP_SH1ADD)
      case 0x104 => DATA(OP_SH2ADD)
      case 0x106 => DATA(OP_SH3ADD)
      case 0x205 => DATA(OP_SRA)
      case _ => DATA(FUNCTION)
  }

  function Op32IndexFor(build: Build, w: Word): Bytecode {
    if build.xbytes < 8 then INVALID
    else
      match OpKey(w)
      case 0x0 => DATA(OP_ADDW)
      case 0x200 => DATA(OP_SUBW)
      case 0x10 => DATA(OP_MULW)
      case 0x40 => DATA(OP_ADD_UW)
      case 0x44 => if Rs2(w) == 0 then DATA(OP_ZEXT_H) else DATA(FUNCTION)
      case _ => DATA(FUNCTION)
  }

  function OpImm32IndexFor(build: Build, w: Word): Bytecode {
    if build.xbytes < 8 then INVALID
    else if Rd(w) == 0 then DATA(FUNCTION)
    else if Funct3(w) == 0 then DATA(ADDIW)
    else if Funct3(w) == 1 && HighBits(w) == 0 && Field(Imm12(w), 0x20, 2) == 0 then DATA(SLLIW)
    else if Funct3(w) == 5 && HighBits(w) == 0 && Field(Imm12(w), 0x20, 2) == 0 then DATA(SRLIW)
    else DATA(FUNCTION)
  }

  function FloatIndexFor(w: Word): Bytecode {
    if Field(w, 0x200_0000, 4) >= 2 then DATA(FUNCTION)
    else
      match Funct5(w)
      case 0 => DATA(FADD)
      case 1 => DATA(FSUB)
      case 2 => DATA(FMUL)
      case 3 => DATA(FDIV)
      case _ => DATA(FUNCTION)
  }

  /** 32-bit encodings that leave pc to the sequencing of the dispatcher. */
  function DataIndexFor(build: Build, w: Word): Bytecode {
    match Opcode(w)
    case 0x03 => LoadIndexFor(build, w)
    case 0x23 => StoreIndexFor(build, w)
    case 0x37 => if Rd(w) == 0 then DATA(FUNCTION) else DATA(LUI)
    case 0x13 => OpImmIndexFor(build, w)
    case 0x33 => OpIndexFor(build, w)
    case 0x3B => Op32IndexFor(build, w)
    case 0x1B => OpImm32IndexFor(build, w)
    case 0x07 => if Funct3(w) == 2 then DATA(FLW) else if Funct3(w) == 3 then DATA(FLD) else DATA(FUNCTION)
    case 0x27 => if Funct3(w) == 2 then DATA(FSW) else if Funct3(w) == 3 then DATA(FSD) else DATA(FUNCTION)
    case 0x43 => DATA(FMADD)
    case 0x53 => FloatIndexFor(w)
    case _ => DATA(FUNCTION)
  }

  /** CPU::computed_index_for: the bytecode of every instruction word. */
  function ComputedIndexFor(build: Build, w: Word): Bytecode {
    if Length(build, w) == 2 then CompressedIndexFor(build, Low(w))
    else
      match Opcode(w)
      case 0x63 => BranchIndexFor(w)
      case 0x17 => if Rd(w) == 0 then DATA(FUNCTION) else AUIPC_BC
      case 0x6F => JAL_BC
      case 0x67 => JALR_BC
      case 0x73 =>
        if Funct3(w) == 0 && Imm12(w) == 0 then SYSCALL
        else if Funct3(w) == 0 && (Imm12(w) == 0x105 || Imm12(w) == 0x7FF) then STOP
        else SYSTEM_BC
      case _ => DataIndexFor(build, w)
  }

  /** DecodedExecuteSegment::is_within. */
  predicate Within(lo: nat, hi: nat, addr: int, len: nat) {
    lo <= addr && addr + len <= hi
  }

  /** DecodedExecuteSegment::threaded_rewrite, as far as the choice of bytecode goes:
      direct transfers that leave the segment or are misaligned become invalid, and
      forward equality branches get the variant without a counter check. */
  function ThreadedRewrite(build: Build, bc: Bytecode, pc: nat, w: Word, lo: nat, hi: nat): Bytecode {
    var target := pc + Offset(build, w);
    var aligned := build.Aligned(target);
    match bc
    case BEQ => if !Within(lo, hi, target, 4) || !aligned then INVALID
                else if Offset(build, w) > 0 then BEQ_FW else BEQ
    case BNE => if !Within(lo, hi, target, 4) || !aligned then INVALID
                else if Offset(build, w) > 0 then BNE_FW else BNE
    case BLT | BGE | BLTU | BGEU => if !Within(lo, hi, target, 4) || !aligned then INVALID else bc
    case JAL_BC =>
      if !Within(lo, hi, target, 4) || !aligned then INVALID
      else if Rd(w) == 0 then FAST_JAL else if Rd(w) == 1 then FAST_CALL else JAL_BC
    case C_BEQZ | C_BNEZ => if !Within(lo, hi, target, 2) || !aligned then INVALID else bc
    case C_JMP => if !Within(lo, hi, target, 4) || !aligned then INVALID else C_JMP
    case C_JAL_ADDIW =>
      if build.xbytes >= 8 then C_JAL_ADDIW
      else if !Within(lo, hi, target, 4) || !aligned then INVALID else C_JAL_ADDIW
    case C_DATA(C_LI) => C_DATA(C_ADDI)
    case DATA(op) =>
      if build.xbytes == 4 && op in {ADDIW, SLLIW, SRLIW, OP_ADDW, OP_SUBW, OP_MULW, OP_ADD_UW, LDWU, LDD, STD}
      then INVALID else bc
    case _ => bc
  }

  /** The bytecode a swept instruction at pc gets in a segment spanning [lo, hi). */
  function DecodedBytecode(build: Build, pc: nat, w: Word, lo: nat, hi: nat): Bytecode {
    ThreadedRewrite(build, ComputedIndexFor(build, w), pc, w, lo, hi)
  }

  /** The displacement of a store is zero. */
  predicate StoresAtBase(w: Word) {
    Rd(w) == 0 && w / 0x200_0000 == 0
  }

  /** The operands that threaded_rewrite leaves of w under the bytecode bc are all zero. */
  predicate Cleared(build: Build, w: Word, bc: Bytecode) {
    || w == 0
    || match bc
       case DATA(op) =>
         if op in {STB, STH, STW, STD, FSW, FSD} then Rs1(w) == 0 && Rs2(w) == 0 && StoresAtBase(w)
         else if op in {FLW, FLD} then Rd(w) == 0 && Rs1(w) == 0 && Imm12(w) == 0
         else if op in {OP_ADDW, OP_SUBW, OP_MULW, OP_ADD_UW, OP_ZEXT_H} then Rd(w) == 0 && Rs1(w) == 0 && Rs2(w) == 0
         else if op in {FADD, FSUB, FMUL, FDIV} then
           Rd(w) == 0 && Rs1(w) == 0 && Rs2(w) == 0 && Field(w, 0x200_0000, 4) == 0
         else false
       case BEQ | BNE | BLT | BGE | BLTU | BGEU => Rs1(w) == 0 && Rs2(w) == 0 && Offset(build, w) == 0
       case FAST_JAL | FAST_CALL | C_JMP => Offset(build, w) == 0
       case C_JAL_ADDIW => build.xbytes == 4 && Offset(build, w) == 0
       case JALR_BC => Rd(w) == 0 && Rs1(w) == 0 && Imm12(w) == 0
       case _ => false
  }

  // -------------------------------------------------------------------------
  // What the handler of a bytecode does to pc and to the decoder position
  // -------------------------------------------------------------------------

  datatype Flow =
    | Illegal
    | NextInstr(step: nat)      // NEXT_INSTR and NEXT_C_INSTR
    | Auipc                     // NEXT_INSTR, after reading a reconstructed pc
    | CondBranch(len: nat)      // PERFORM_BRANCH, or NEXT_BLOCK(len) when not taken
    | ForwardBranch             // PERFORM_FORWARD_BRANCH, or NEXT_BLOCK(4)
    | BranchAlways(len: nat)    // PERFORM_BRANCH
    | CheckedJump               // NEXT_BLOCK(offset) with an overflow check
    | Indirect(len: nat)        // OVERFLOW_CHECKED_JUMP
    | SystemCall
    | SystemOp
    | StopRun
    | FunctionBlock
    | Patched

  function FlowOf(build: Build, bc: Bytecode): Flow {
    match bc
    case INVALID => Illegal
    case AUIPC_BC => Auipc
    case BEQ | BNE | BLT | BGE | BLTU | BGEU => CondBranch(4)
    case BEQ_FW | BNE_FW => ForwardBranch
    case C_BEQZ | C_BNEZ => CondBranch(2)
    case C_JMP => BranchAlways(2)
    case C_JAL_ADDIW => if build.xbytes >= 8 then NextInstr(2) else BranchAlways(2)
    case JAL_BC | FAST_JAL | FAST_CALL => CheckedJump
    case JALR_BC => Indirect(4)
    case C_JR | C_JALR => Indirect(2)
    case SYSCALL => SystemCall
    case SYSTEM_BC => SystemOp
    case STOP => StopRun
    case FUNCBLOCK => FunctionBlock
    case LIVEPATCH | NATIVE => Patched
    case C_DATA(_) => NextInstr(2)
    case DATA(_) => NextInstr(4)
  }

  // -------------------------------------------------------------------------
  // Where blocks are cut
  // -------------------------------------------------------------------------

  /** is_regular_compressed: a 16-bit encoding that cannot move pc. */
  predicate IsRegularCompressed(build: Build, c: Half) {
    match (CFunct3(c), Quadrant(c))
    case (1, 1) => build.xbytes >= 8
    case (5, 1) => false
    case (6, 1) => false
    case (7, 1) => false
    case (4, 2) =>
      var topbit := Field(c, 0x1000, 2) == 1;
      !(!topbit && CRd(c) != 0 && CRs2(c) == 0) && !(topbit && CRd(c) != 0 && CRs2(c) == 0)
    case _ => true
  }

  /** The encodings at which realize_fastsim ends a block. */
  predicate CutsBlock(build: Build, w: Word) {
    if Length(build, w) == 2 then !IsRegularCompressed(build, Low(w))
    else Opcode(w) == BRANCH || Opcode(w) == SYSTEM || Opcode(w) == JAL || Opcode(w) == JALR
  }

  /** The handler f is right for an instruction of class k and length len. */
  predicate Implements(f: Flow, k: Class, len: nat) {
    match k
    case Plain => f == NextInstr(len)
    case PcRel => f == Auipc && len == 4
    case Branch => f == CondBranch(len) || (f == ForwardBranch && len == 4)
    case Jump => f == BranchAlways(len) || (f == CheckedJump && len == 4)
    case JumpReg => f == Indirect(len)
    case Ecall => f == SystemCall && len == 4
    case Halt => f == StopRun && len == 4
    case SystemOther => f == SystemOp && len == 4
    case CBreak => f == NextInstr(2) && len == 2
    case Custom => f == NextInstr(4) && len == 4
  }

  /** An instruction that may move pc, or call a handler of the host that may. */
  predicate MovesPc(k: Class) {
    k !in {Plain, PcRel}
  }

  /** An instruction that calls a handler of the host although no block is cut at it. */
  predicate Unheeded(k: Class) {
    k in {CBreak, Custom}
  }

  /** The block cutter and the architecture agree on every encoding but two kinds: C.EBREAK, and the
      32-bit encodings that decode leaves to the host. */
  lemma CutterFollowsClass(build: Build, w: Word)
    ensures CutsBlock(build, w) <==> MovesPc(ClassOf(build, w)) && !Unheeded(ClassOf(build, w))
    ensures ClassOf(build, w) == CBreak <==> build.compressed && Low(w) == C_EBREAK
    ensures ClassOf(build, w) == Custom <==> Length(build, w) == 4 && !Known(build, w)
  {
    LowQuadrant(w);
    OnlyBreak(Low(w));
  }

  lemma OnlyBreak(c: Half)
    ensures c == C_EBREAK ==> Quadrant(c) == 2 && CFunct3(c) == 4 && CRd(c) == 0 && CRs2(c) == 0
  {
  }

  /** At C.EBREAK no block is cut. */
  lemma BreakIsNotCut(xbytes: nat)
    ensures MovesPc(ClassOf(Build(true, xbytes), C_EBREAK)) && !CutsBlock(Build(true, xbytes), C_EBREAK)
  {
    OnlyBreak(C_EBREAK);
  }

  /** At an encoding that decode leaves to the host no block is cut, and its handler takes it for one
      that cannot move pc. */
  lemma CustomIsNotCut(build: Build, pc: nat, w: Word, lo: nat, hi: nat)
    requires Length(build, w) == 4 && !Known(build, w)
    ensures MovesPc(ClassOf(build, w)) && !CutsBlock(build, w)
    ensures DecodedBytecode(build, pc, w, lo, hi) == DATA(FUNCTION)
  {
  }

  /** Among them 0x5B, the opcode that the examples use for calls of host functions. */
  lemma CallsHost(build: Build)
    requires build.xbytes < 16
    ensures Length(build, 0x5B) == 4 && !Known(build, 0x5B)
  {
    assert Opcode(0x5B) == 0x5B;
  }

  /** Bytecodes that only threaded_rewrite produces. */
  predicate RewriteOnly(bc: Bytecode) {
    bc in {BEQ_FW, BNE_FW, FAST_JAL, FAST_CALL}
  }

  predicate Suits(build: Build, c: Half) {
    var bc := CompressedIndexFor(build, c);
    bc != INVALID ==> Implements(FlowOf(build, bc), CompressedClass(build, c), 2) && !RewriteOnly(bc)
  }

  lemma Quadrant0Handlers(build: Build, c: Half)
    requires Quadrant(c) == 0
    ensures Suits(build, c)
  {
  }

  lemma Quadrant1Handlers(build: Build, c: Half)
    requires Quadrant(c) == 1
    ensures Suits(build, c)
  {
  }

  lemma Quadrant2Handlers(build: Build, c: Half)
    requires Quadrant(c) == 2
    ensures Suits(build, c)
  {
  }

  lemma CompressedHandlers(build: Build, c: Half)
    requires Quadrant(c) < 3
    ensures Suits(build, c)
  {
    match Quadrant(c)
    case 0 => Quadrant0Handlers(build, c);
    case 1 => Quadrant1Handlers(build, c);
    case _ => Quadrant2Handlers(build, c);
  }

  lemma OpHandlers(build: Build, w: Word)
    ensures OpIndexFor(build, w).DATA? && OpImmIndexFor(build, w).DATA? && FloatIndexFor(w).DATA?
  {
  }

  lemma WideHandlers(build: Build, w: Word)
    ensures Op32IndexFor(build, w).DATA? || Op32IndexFor(build, w) == INVALID
    ensures OpImm32IndexFor(build, w).DATA? || OpImm32IndexFor(build, w) == INVALID
  {
  }

  lemma MemoryHandlers(build: Build, w: Word)
    ensures LoadIndexFor(build, w).DATA? || LoadIndexFor(build, w) == INVALID
    ensures StoreIndexFor(build, w).DATA? || StoreIndexFor(build, w) == INVALID
  {
  }

  lemma DataHandlers(build: Build, w: Word)
    ensures DataIndexFor(build, w).DATA? || DataIndexFor(build, w) == INVALID
  {
    OpHandlers(build, w);
    WideHandlers(build, w);
    MemoryHandlers(build, w);
  }

  lemma FullHandlers(build: Build, w: Word)
    requires build.Valid() && Length(build, w) == 4
    requires ComputedIndexFor(build, w) != INVALID
    ensures Implements(FlowOf(build, ComputedIndexFor(build, w)), ClassOf(build, w), 4)
    ensures !RewriteOnly(ComputedIndexFor(build, w))
  {
    if ClassOf(build, w) in {Plain, Custom} {
      DataHandlers(build, w);
    }
  }

  lemma LowQuadrant(w: Word)
    ensures Quadrant(Low(w)) == w % 4
  {
  }

  lemma ShortHandlers(build: Build, w: Word)
    requires Length(build, w) == 2
    ensures Suits(build, Low(w)) && ClassOf(build, w) == CompressedClass(build, Low(w))
  {
    LowQuadrant(w);
    CompressedHandlers(build, Low(w));
  }

  lemma ComputedHandlers(build: Build, w: Word)
    requires build.Valid()
    requires ComputedIndexFor(build, w) != INVALID
    ensures Implements(FlowOf(build, ComputedIndexFor(build, w)), ClassOf(build, w), Length(build, w))
    ensures !RewriteOnly(ComputedIndexFor(build, w))
  {
    if Length(build, w) == 2 {
      ShortHandlers(build, w);
    } else {
      FullHandlers(build, w);
    }
  }

  /** A direct transfer of w at pc has an aligned target inside the segment. */
  predicate TargetInside(build: Build, pc: nat, w: Word, lo: nat, hi: nat, room: nat) {
    && Within(lo, hi, pc + Offset(build, w), room)
    && build.Aligned(pc + Offset(build, w))
  }

  lemma RewriteKeepsFlow(build: Build, bc: Bytecode, pc: nat, w: Word, lo: nat, hi: nat, k: Class, len: nat)
    requires Implements(FlowOf(build, bc), k, len) && !RewriteOnly(bc)
    requires ThreadedRewrite(build, bc, pc, w, lo, hi) != INVALID
    ensures var f := FlowOf(build, ThreadedRewrite(build, bc, pc, w, lo, hi));
            && Implements(f, k, len)
            && (k in {Branch, Jump} ==> TargetInside(build, pc, w, lo, hi, 2))
            && (f == ForwardBranch ==> Offset(build, w) > 0 && TargetInside(build, pc, w, lo, hi, 4))
  {
  }

  /** Every bytecode that is not invalid has a handler that moves on exactly as the
      instruction's class demands, and a direct transfer that skips the segment check
      has an aligned target inside the segment. */
  lemma BytecodeImplementsClass(build: Build, pc: nat, w: Word, lo: nat, hi: nat)
    requires build.Valid()
    requires DecodedBytecode(build, pc, w, lo, hi) != INVALID
    ensures var f := FlowOf(build, DecodedBytecode(build, pc, w, lo, hi));
            && Implements(f, ClassOf(build, w), Length(build, w))
            && (ClassOf(build, w) in {Branch, Jump} ==> TargetInside(build, pc, w, lo, hi, 2))
            && (f == ForwardBranch ==> Offset(build, w) > 0 && TargetInside(build, pc, w, lo, hi, 4))
  {
    InvalidStaysInvalid(build, ComputedIndexFor(build, w), pc, w, lo, hi);
    ComputedHandlers(build, w);
    RewriteKeepsFlow(build, ComputedIndexFor(build, w), pc, w, lo, hi, ClassOf(build, w), Length(build, w));
  }

  /** The bytes that the target of a direct transfer must have behind it in the segment. */
  function Room(build: Build, w: Word): nat {
    if Length(build, w) == 2 && ClassOf(build, w) == Branch then 2 else 4
  }

  /** The instructions that get no handler: those without a bytecode, and direct transfers that are
      misaligned or leave the segment, whether they are taken or not. */
  lemma UndecodedExactlyWhen(build: Build, pc: nat, w: Word, lo: nat, hi: nat)
    requires build.Valid()
    ensures DecodedBytecode(build, pc, w, lo, hi) == INVALID <==>
              || ComputedIndexFor(build, w) == INVALID
              || (ClassOf(build, w) in {Branch, Jump} && !TargetInside(build, pc, w, lo, hi, Room(build, w)))
  {
    if ComputedIndexFor(build, w) != INVALID {
      ComputedHandlers(build, w);
      if build.xbytes == 4 && ComputedIndexFor(build, w).DATA? {
        NarrowData(build, w);
      }
    }
  }

  /** Instructions for wider registers have no bytecode to begin with. */
  lemma NarrowData(build: Build, w: Word)
    requires build.xbytes == 4 && ComputedIndexFor(build, w).DATA?
    ensures ComputedIndexFor(build, w).op !in
              {ADDIW, SLLIW, SRLIW, OP_ADDW, OP_SUBW, OP_MULW, OP_ADD_UW, LDWU, LDD, STD}
  {
  }

  /** Bits that rewriting clears belong to no system instruction, and an instruction that has no
      handler to begin with keeps its bits. */
  lemma ClearedClass(build: Build, pc: nat, w: Word, lo: nat, hi: nat)
    requires build.Valid()
    ensures var bc := DecodedBytecode(build, pc, w, lo, hi);
            Cleared(build, w, bc) ==>
              && ClassOf(build, w) in {Plain, Branch, Jump, JumpReg}
              && (bc == INVALID ==> w == 0)
  {
    if w != 0 && DecodedBytecode(build, pc, w, lo, hi) != INVALID {
      BytecodeImplementsClass(build, pc, w, lo, hi);
    }
  }

  lemma InvalidStaysInvalid(build: Build, bc: Bytecode, pc: nat, w: Word, lo: nat, hi: nat)
    requires ThreadedRewrite(build, bc, pc, w, lo, hi) != INVALID
    ensures bc != INVALID
  {
  }
}
