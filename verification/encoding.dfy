/** RV32IM instructions as the ISA manual defines them, and their 32-bit encodings
    (RISC-V Instruction Set Manual, Volume I, version 20191213, sections 2.2 to 2.8, 7.1 and 7.2). */
module Encoding {
  import opened Words

  /** A register selector. */
  type Reg = Bits5

  datatype BranchKind = Beq | Bne | Blt | Bge | Bltu | Bgeu
  datatype LoadKind = Lb | Lh | Lw | Lbu | Lhu
  datatype StoreKind = Sb | Sh | Sw
  datatype ImmKind = Addi | Slti | Sltiu | Xori | Ori | Andi
  datatype ShiftKind = Slli | Srli | Srai
  datatype RegKind =
    | Add | Sub | Sll | Slt | Sltu | Xor | Srl | Sra | Or | And
    | Mul | Mulh | Mulhsu | Mulhu | Div | Divu | Rem | Remu

  /** Immediates and offsets are signed integers, shift amounts and upper immediates unsigned. The order
      of a fence holds its fm, predecessor and successor fields; its registers are to be ignored. */
  datatype Instr =
    | Lui(rd: Reg, upper: nat)
    | Auipc(rd: Reg, upper: nat)
    | Jal(rd: Reg, offset: int)
    | Jalr(rd: Reg, rs1: Reg, offset: int)
    | Branch(branch: BranchKind, rs1: Reg, rs2: Reg, offset: int)
    | Load(load: LoadKind, rd: Reg, rs1: Reg, offset: int)
    | Store(store: StoreKind, rs1: Reg, rs2: Reg, offset: int)
    | OpImm(opImm: ImmKind, rd: Reg, rs1: Reg, imm: int)
    | Shift(shift: ShiftKind, rd: Reg, rs1: Reg, shamt: nat)
    | Op(op: RegKind, rd: Reg, rs1: Reg, rs2: Reg)
    | Fence(order: nat, rd: Reg, rs1: Reg)
    | Ecall
    | Ebreak

  /** The immediates that the formats can hold. */
  predicate Legal(i: Instr) {
    match i
    case Lui(_, upper) => upper < 0x10_0000
    case Auipc(_, upper) => upper < 0x10_0000
    case Jal(_, offset) => -0x10_0000 <= offset < 0x10_0000 && offset % 2 == 0
    case Jalr(_, _, offset) => -0x800 <= offset < 0x800
    case Branch(_, _, _, offset) => -0x1000 <= offset < 0x1000 && offset % 2 == 0
    case Load(_, _, _, offset) => -0x800 <= offset < 0x800
    case Store(_, _, _, offset) => -0x800 <= offset < 0x800
    case OpImm(_, _, _, imm) => -0x800 <= imm < 0x800
    case Shift(_, _, _, shamt) => shamt < 32
    case Fence(order, _, _) => order < 0x1000
    case _ => true
  }

  // ----- formats -------------------------------------------------------------

  function RFormat(funct7: Bits7, rs2: Bits5, rs1: Bits5, funct3: Bits3, rd: Bits5, op: Bits7): u32 {
    funct7 * 0x200_0000 + rs2 * 0x10_0000 + rs1 * 0x8000 + funct3 * 0x1000 + rd * 0x80 + op
  }

  function IFormat(imm: Bits12, rs1: Bits5, funct3: Bits3, rd: Bits5, op: Bits7): u32 {
    imm * 0x10_0000 + rs1 * 0x8000 + funct3 * 0x1000 + rd * 0x80 + op
  }

  /** imm[11:5] rs2 rs1 funct3 imm[4:0] opcode */
  function SFormat(imm: Bits12, rs2: Bits5, rs1: Bits5, funct3: Bits3, op: Bits7): u32 {
    RFormat(imm / 0x20, rs2, rs1, funct3, imm % 0x20, op)
  }

  /** imm[12|10:5] rs2 rs1 funct3 imm[4:1|11] opcode */
  function BFormat(imm: Bits13, rs2: Bits5, rs1: Bits5, funct3: Bits3, op: Bits7): u32 {
    RFormat(imm / 0x1000 * 0x40 + imm / 0x20 % 0x40, rs2, rs1, funct3,
            imm / 2 % 0x10 * 2 + imm / 0x800 % 2, op)
  }

  function UFormat(upper: Bits20, rd: Bits5, op: Bits7): u32 {
    upper * 0x1000 + rd * 0x80 + op
  }

  /** imm[20|10:1|11|19:12] rd opcode */
  function JFormat(imm: Bits21, rd: Bits5, op: Bits7): u32 {
    UFormat(imm / 0x10_0000 * 0x8_0000 + imm / 2 % 0x400 * 0x200 + imm / 0x800 % 2 * 0x100
            + imm / 0x1000 % 0x100, rd, op)
  }

  function BranchFunct(k: BranchKind): Bits3 {
    match k case Beq => 0 case Bne => 1 case Blt => 4 case Bge => 5 case Bltu => 6 case Bgeu => 7
  }

  function LoadFunct(k: LoadKind): Bits3 {
    match k case Lb => 0 case Lh => 1 case Lw => 2 case Lbu => 4 case Lhu => 5
  }

  function StoreFunct(k: StoreKind): Bits3 {
    match k case Sb => 0 case Sh => 1 case Sw => 2
  }

  function ImmFunct(k: ImmKind): Bits3 {
    match k case Addi => 0 case Slti => 2 case Sltiu => 3 case Xori => 4 case Ori => 6 case Andi => 7
  }

  function RegFunct(k: RegKind): (Bits7, Bits3) {
    match k
    case Add => (0, 0) case Sub => (0x20, 0) case Sll => (0, 1) case Slt => (0, 2)
    case Sltu => (0, 3) case Xor => (0, 4) case Srl => (0, 5) case Sra => (0x20, 5)
    case Or => (0, 6) case And => (0, 7)
    case Mul => (1, 0) case Mulh => (1, 1) case Mulhsu => (1, 2) case Mulhu => (1, 3)
    case Div => (1, 4) case Divu => (1, 5) case Rem => (1, 6) case Remu => (1, 7)
  }

  function Encode(i: Instr): u32
    requires Legal(i)
  {
    match i
    case Lui(rd, upper) => UFormat(upper, rd, 0x37)
    case Auipc(rd, upper) => UFormat(upper, rd, 0x17)
    case Jal(rd, offset) => JFormat(offset % 0x20_0000, rd, 0x6F)
    case Jalr(rd, rs1, offset) => IFormat(offset % 0x1000, rs1, 0, rd, 0x67)
    case Branch(k, rs1, rs2, offset) => BFormat(offset % 0x2000, rs2, rs1, BranchFunct(k), 0x63)
    case Load(k, rd, rs1, offset) => IFormat(offset % 0x1000, rs1, LoadFunct(k), rd, 0x03)
    case Store(k, rs1, rs2, offset) => SFormat(offset % 0x1000, rs2, rs1, StoreFunct(k), 0x23)
    case OpImm(k, rd, rs1, imm) => IFormat(imm % 0x1000, rs1, ImmFunct(k), rd, 0x13)
    case Shift(k, rd, rs1, shamt) =>
      RFormat(if k.Srai? then 0x20 else 0, shamt, rs1, if k.Slli? then 1 else 5, rd, 0x13)
    case Op(k, rd, rs1, rs2) => RFormat(RegFunct(k).0, rs2, rs1, RegFunct(k).1, rd, 0x33)
    case Fence(order, rd, rs1) => IFormat(order, rs1, 0, rd, 0x0F)
    case Ecall => 0x73
    case Ebreak => 0x10_0073
  }
}
