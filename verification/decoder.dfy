/** The instruction decoder: bit-field slicing, immediate assembly and format selection. */
module Decoder {
  import opened Words
  import opened Insns

  const OP_JALR: u32 := 0x67
  const OP_LOAD: u32 := 0x03
  const OP_ARITH: u32 := 0x13
  const OP_SYNCH: u32 := 0x0F
  const OP_ENV: u32 := 0x73
  const OP_REG: u32 := 0x33
  const OP_STORE: u32 := 0x23
  const OP_LUI: u32 := 0x37
  const OP_AUIPC: u32 := 0x17
  const OP_JAL: u32 := 0x6F
  const OP_BRANCH: u32 := 0x63
  const OP_FLOAT_R: u32 := 0x53
  const OP_FLOAT_LOAD: u32 := 0x07
  const OP_FLOAT_STORE: u32 := 0x27

  const FLT_SINGLE: u16 := 2
  const FLT_DOUBLE: u16 := 3

  /** The overlapping bit-field layouts of `union insn_base`. */
  datatype Base = Base(
    opcode: Bits7, rd: Bits5, funct3: Bits3, rs1: Bits5, rs2: Bits5, funct7: Bits7,
    rs3: Bits5,
    i_11_0: Bits12,
    s_4_0: Bits5, s_11_5: Bits7,
    b_11: Bits1, b_4_1: Bits4, b_10_5: Bits6, b_12: Bits1,
    u_31_12: Bits20,
    j_19_12: Bits8, j_11: Bits1, j_10_1: Bits10, j_20: Bits1)

  function View(w: u32): Base {
    Base(
      w % 0x80, w / 0x80 % 0x20, w / 0x1000 % 8, w / 0x8000 % 0x20, w / 0x10_0000 % 0x20,
      w / 0x200_0000,
      w / 0x800_0000,
      w / 0x10_0000,
      w / 0x80 % 0x20, w / 0x200_0000,
      w / 0x80 % 2, w / 0x100 % 0x10, w / 0x200_0000 % 0x40, w / 0x8000_0000,
      w / 0x1000,
      w / 0x1000 % 0x100, w / 0x10_0000 % 2, w / 0x20_0000 % 0x400, w / 0x8000_0000)
  }

  // ----- immediates ----------------------------------------------------------

  function ImmI(b: Base): u32 { SignExt(b.i_11_0, 11) }

  function ImmS(b: Base): u32 { AssembleS(b.s_11_5, b.s_4_0) }

  function ImmB(b: Base): u32 {
    AssembleB(b.b_12, b.b_11, b.b_10_5, b.b_4_1)
  }

  function ImmJ(b: Base): u32 {
    AssembleJ(b.j_20, b.j_19_12, b.j_11, b.j_10_1)
  }

  function AssembleS(b11_5: u32, b4_0: u32): u32 {
    SignExt(Or32(Shl32(b11_5, 5), b4_0), 11)
  }

  function AssembleB(b12: u32, b11: u32, b10_5: u32, b4_1: u32): u32 {
    SignExt(
      Or32(Or32(Or32(Shl32(b12, 12), Shl32(b11, 11)), Shl32(b10_5, 5)), Shl32(b4_1, 1)), 12)
  }

  function AssembleJ(b20: u32, b19_12: u32, b11: u32, b10_1: u32): u32 {
    SignExt(
      Or32(Or32(Or32(Shl32(b20, 20), Shl32(b19_12, 12)), Shl32(b11, 11)), Shl32(b10_1, 1)), 20)
  }

  /** (funct7 << 3) | funct3 */
  function FunctR(b: Base): u16 {
    FunctRValue(b);
    Or32(Shl32(b.funct7, 3), b.funct3)
  }

  // ----- selection tables ----------------------------------------------------

  /** What a selection table says of a word: accept it with a type, reject it with or without a
      diagnostic (which suspends the emulator), or fall into `__builtin_unreachable`. */
  datatype Verdict = Accept(ty: Mnemonic) | Reject(diagn: bool) | Unreachable

  function SelectLoad(b: Base): Verdict {
    match b.funct3
    case 0 => Accept(LB)
    case 1 => Accept(LH)
    case 2 => Accept(LW)
    case 4 => Accept(LBU)
    case 5 => Accept(LHU)
    case _ => Reject(true)
  }

  function SelectArith(b: Base): Verdict {
    match b.funct3
    case 0 => Accept(ADDI)
    case 2 => Accept(SLTI)
    case 3 => Accept(SLTIU)
    case 4 => Accept(XORI)
    case 6 => Accept(ORI)
    case 7 => Accept(ANDI)
    case 1 => if b.funct7 == 0 then Accept(SLLI) else Unreachable
    case _ =>
      if b.funct7 == 0 then Accept(SRLI)
      else if b.funct7 == 0x20 then Accept(SRAI)
      else Reject(true)
  }

  function SelectSynch(b: Base): Verdict {
    if b.rd == 0 && b.funct3 == 0 && b.rs1 == 0 && b.i_11_0 == 0xFF then
      Accept(FENCE)
    else if b.rd == 0 && b.funct3 == 1 && b.rs1 == 0 && b.i_11_0 == 0 then
      Accept(FENCE_I)
    else
      Reject(true)
  }

  function SelectEnv(b: Base): Verdict {
    if b.funct3 == 0 && b.rd == 0 && b.rs1 == 0 then
      if b.i_11_0 == 0 then Accept(ECALL)
      else if b.i_11_0 == 1 then Accept(EBREAK)
      else Reject(true)
    else
      match b.funct3
      case 1 => Accept(CSRRW)
      case 2 => Accept(CSRRS)
      case 3 => Accept(CSRRC)
      case 5 => Accept(CSRRWI)
      case 6 => Accept(CSRRSI)
      case 7 => Accept(CSRRCI)
      case _ => Reject(true)
  }

  function SelectFloatLoad(b: Base): Verdict {
    if b.funct3 == FLT_SINGLE || b.funct3 == FLT_DOUBLE then Accept(FLx) else Reject(true)
  }

  function SelectI(b: Base): Verdict {
    var op := b.opcode;
    if op == OP_JALR then Accept(JALR)
    else if op == OP_LOAD then SelectLoad(b)
    else if op == OP_ARITH then SelectArith(b)
    else if op == OP_SYNCH then SelectSynch(b)
    else if op == OP_ENV then SelectEnv(b)
    else SelectFloatLoad(b)
  }

  function SelectReg(b: Base): Verdict {
    match FunctR(b)
    case 0x000 => Accept(ADD)
    case 0x100 => Accept(SUB)
    case 0x001 => Accept(SLL)
    case 0x002 => Accept(SLT)
    case 0x003 => Accept(SLTU)
    case 0x004 => Accept(XOR)
    case 0x005 => Accept(SRL)
    case 0x105 => Accept(SRA)
    case 0x006 => Accept(OR)
    case 0x007 => Accept(AND)
    case 0x008 => Accept(MUL)
    case 0x009 => Accept(MULH)
    case 0x00A => Accept(MULHSU)
    case 0x00B => Accept(MULHU)
    case 0x00C => Accept(DIV)
    case 0x00D => Accept(DIVU)
    case 0x00E => Accept(REM)
    case 0x00F => Accept(REMU)
    case _ => Reject(false)
  }

  /** (funct7 << 5) | rs2 */
  function FloatSelector(b: Base): u32 { Or32(Shl32(b.funct7, 5), b.rs2) }

  function SelectFloat(b: Base): Verdict {
    match FloatSelector(b)
    case 0x401 => Accept(FCVT_S_D)
    case 0x420 => Accept(FCVT_D_S)
    case _ => SelectFloatUnary(b)
  }

  /** The selector with its single/double format bit cleared. */
  function FloatUnarySelector(b: Base): u32 { And32(FloatSelector(b), Not32(0x20)) }

  function SelectFloatUnary(b: Base): Verdict {
    match FloatUnarySelector(b)
    case 0xC00 => Accept(FCVT_W_x)
    case 0xC01 => Accept(FCVT_WU_x)
    case 0xD00 => Accept(FCVT_x_W)
    case 0xD01 => Accept(FCVT_x_W)
    case 0xE00 =>
      (match b.funct3
       case 0 => Accept(FMV_X_W)
       case 1 => Accept(FCLASSx)
       case _ => Reject(true))
    case 0xF00 => Accept(FMV_W_X)
    case 0x580 => Accept(FSQRTx)
    case _ => SelectFloatBinary(b)
  }

  function SelectFloatBinary(b: Base): Verdict {
    match And32(b.funct7, Not32(1))
    case 0x00 => Accept(FADDx)
    case 0x04 => Accept(FSUBx)
    case 0x08 => Accept(FMULx)
    case 0x0C => Accept(FDIVx)
    case 0x10 =>
      (match b.funct3
       case 0 => Accept(FSGNJx)
       case 1 => Accept(FSGNJNx)
       case 2 => Accept(FSGNJXx)
       case _ => Reject(true))
    case 0x14 =>
      (match b.funct3
       case 0 => Accept(FMINx)
       case 1 => Accept(FMAXx)
       case _ => Reject(true))
    case 0x50 =>
      (match b.funct3
       case 2 => Accept(FEQx)
       case 1 => Accept(FLTx)
       case 0 => Accept(FLEx)
       case _ => Reject(true))
    case _ => Reject(true)
  }

  function SelectR(b: Base): Verdict {
    if b.opcode == OP_REG then SelectReg(b) else SelectFloat(b)
  }

  function SelectS(b: Base): Verdict {
    if b.opcode == OP_STORE then
      match b.funct3
      case 0 => Accept(SB)
      case 1 => Accept(SH)
      case 2 => Accept(SW)
      case _ => Reject(true)
    else
      if b.funct3 == FLT_SINGLE || b.funct3 == FLT_DOUBLE then Accept(FSx) else Reject(true)
  }

  function SelectB(b: Base): Verdict {
    match b.funct3
    case 0 => Accept(BEQ)
    case 1 => Accept(BNE)
    case 4 => Accept(BLT)
    case 5 => Accept(BGE)
    case 6 => Accept(BLTU)
    case 7 => Accept(BGEU)
    case _ => Reject(true)
  }

  /** The R4 type comes from opcode bits 2 and 3: `(opcode & 0b1100) >> 2`. */
  function SelectR4(b: Base): Verdict {
    match b.opcode / 4 % 4
    case 0 => Accept(FMADDx)
    case 1 => Accept(FMSUBx)
    case 2 => Accept(FNMSUBx)
    case _ => Accept(FNMADDx)
  }

  // ----- the decoder ---------------------------------------------------------

  /** `diagn` records whether decoding suspended the emulator; an `INVALID` type marks failure.
      Trapped: emitting a CSR instruction's disassembly aborts the process.
      Undecided: the selection fell into `__builtin_unreachable`. */
  datatype Decoded = Decoded(insn: Insn, diagn: bool) | Trapped | Undecided

  predicate IsCsr(ty: Mnemonic) {
    ty.CSRRW? || ty.CSRRS? || ty.CSRRC? || ty.CSRRWI? || ty.CSRRSI? || ty.CSRRCI?
  }

  /** The tail of every format's decoder: fill in the type, then emit the disassembly. */
  function Emit(v: Verdict, fields: Insn): Decoded {
    match v
    case Accept(ty) => if IsCsr(ty) then Trapped else Decoded(fields.(ty := ty), false)
    case Reject(diagn) => Decoded(fields.(ty := INVALID), diagn)
    case Unreachable => Undecided
  }

  predicate IsRFormat(op: u8) { op == OP_REG || op == OP_FLOAT_R }

  predicate IsIFormat(op: u8) {
    op == OP_JALR || op == OP_LOAD || op == OP_ARITH || op == OP_SYNCH || op == OP_ENV ||
    op == OP_FLOAT_LOAD
  }

  predicate IsSFormat(op: u8) { op == OP_STORE || op == OP_FLOAT_STORE }

  predicate IsUFormat(op: u8) { op == OP_LUI || op == OP_AUIPC }

  predicate IsR4Format(op: u8) { op == 0x43 || op == 0x47 || op == 0x4B || op == 0x4F }

  function RType(b: Base): Decoded {
    Emit(SelectR(b), Insn(INVALID, b.rd, b.rs1, b.rs2, 0, FunctR(b), 0))
  }

  function IType(b: Base): Decoded {
    Emit(SelectI(b), Insn(INVALID, b.rd, b.rs1, 0, 0, b.funct3, ImmI(b)))
  }

  function SType(b: Base): Decoded {
    Emit(SelectS(b), Insn(INVALID, 0, b.rs1, b.rs2, 0, b.funct3, ImmS(b)))
  }

  function UType(b: Base): Decoded {
    Emit(Accept(if b.opcode == OP_LUI then LUI else AUIPC),
         Insn(INVALID, b.rd, 0, 0, 0, 0, b.u_31_12))
  }

  function JType(b: Base): Decoded {
    Emit(Accept(JAL), Insn(INVALID, b.rd, 0, 0, 0, 0, ImmJ(b)))
  }

  function BType(b: Base): Decoded {
    Emit(SelectB(b), Insn(INVALID, 0, b.rs1, b.rs2, 0, b.funct3, ImmB(b)))
  }

  function R4Type(b: Base): Decoded {
    Emit(SelectR4(b), Insn(INVALID, b.rd, b.rs1, b.rs2, b.rs3, b.funct3, 0))
  }

  function Decode(w: u32): Decoded {
    var b := View(w);
    if IsRFormat(b.opcode) then RType(b)
    else if IsIFormat(b.opcode) then IType(b)
    else if IsSFormat(b.opcode) then SType(b)
    else if IsUFormat(b.opcode) then UType(b)
    else if b.opcode == OP_JAL then JType(b)
    else if b.opcode == OP_BRANCH then BType(b)
    else if IsR4Format(b.opcode) then R4Type(b)
    else Decoded(Insn(INVALID, 0, 0, 0, 0, 0, 0), true)
  }

  // ----- what the assembled fields are worth ---------------------------------

  lemma ShlSmall(a: u32, k: nat, p: nat)
    requires p == Pow2(k) && a * p < TWO32
    ensures Shl32(a, k) == a * p
  {
  }

  /** Or-ing a field into the zero low bits of a word adds it. */
  lemma OrBelow(acc: u32, k: nat, p: nat, low: u32)
    requires p == Pow2(k) && acc % p == 0 && low < p && acc + low < TWO32
    ensures Or32(acc, low) == acc + low
  {
    hide Bitwise, Pow2;
    Pow2Of32();
    DivideByPositive(acc, p);
    var hi := acc / p;
    assert acc == hi * p;
    OrDisjoint(32, hi, k, low);
  }

  lemma FunctRValue(b: Base)
    ensures Or32(Shl32(b.funct7, 3), b.funct3) == 8 * b.funct7 + b.funct3 < 1024
  {
    assert Pow2(3) == 8;
    ShlSmall(b.funct7, 3, 8);
    OrBelow(8 * b.funct7, 3, 8, b.funct3);
  }

  lemma FunctRIs(b: Base)
    ensures FunctR(b) == 8 * b.funct7 + b.funct3
  {
    FunctRValue(b);
  }

  /** The `u32` two's complement of a field whose sign bit is worth p. */
  function FromField(field: u32, p: nat): u32 {
    Wrap32(if field < p then field else field - 2 * p)
  }

  lemma SignExtIs(field: u32, k: nat, p: nat)
    requires k < 31 && p == Pow2(k) && field < 2 * p
    ensures SignExt(field, k) == FromField(field, p)
  {
    SignExtValue(field, k);
  }

  lemma ImmIValue(field: u32)
    requires field < 0x1000
    ensures SignExt(field, 11) == FromField(field, 0x800)
  {
    Powers();
    SignExtIs(field, 11, 0x800);
  }

  lemma Powers()
    ensures Pow2(1) == 2 && Pow2(5) == 32 && Pow2(11) == 0x800 && Pow2(12) == 0x1000
    ensures Pow2(20) == 0x10_0000
  {
    Pow2Add(8, 3);
    Pow2Add(8, 4);
    Pow2Add(12, 8);
  }

  lemma AssembleSValue(b11_5: u32, b4_0: u32)
    requires b11_5 < 0x80 && b4_0 < 0x20
    ensures AssembleS(b11_5, b4_0) == FromField(0x20 * b11_5 + b4_0, 0x800)
  {
    Powers();
    ShlSmall(b11_5, 5, 0x20);
    OrBelow(0x20 * b11_5, 5, 0x20, b4_0);
    SignExtIs(0x20 * b11_5 + b4_0, 11, 0x800);
  }

  lemma AssembleBValue(b12: u32, b11: u32, b10_5: u32, b4_1: u32)
    requires b12 < 2 && b11 < 2 && b10_5 < 0x40 && b4_1 < 0x10
    ensures AssembleB(b12, b11, b10_5, b4_1)
         == FromField(0x1000 * b12 + 0x800 * b11 + 0x20 * b10_5 + 2 * b4_1, 0x1000)
  {
    hide Bitwise;
    Powers();
    Merge(b12, 12, 0x1000, b11, 11, 0x800);
    Merge(2 * b12 + b11, 11, 0x800, b10_5, 5, 0x20);
    Merge(0x80 * b12 + 0x40 * b11 + b10_5, 5, 0x20, b4_1, 1, 2);
    ShlSmall(b12, 12, 0x1000);
    SignExtIs(0x1000 * b12 + 0x800 * b11 + 0x20 * b10_5 + 2 * b4_1, 12, 0x1000);
  }

  lemma AssembleJValue(b20: u32, b19_12: u32, b11: u32, b10_1: u32)
    requires b20 < 2 && b19_12 < 0x100 && b11 < 2 && b10_1 < 0x400
    ensures AssembleJ(b20, b19_12, b11, b10_1)
         == FromField(0x10_0000 * b20 + 0x1000 * b19_12 + 0x800 * b11 + 2 * b10_1, 0x10_0000)
  {
    hide Bitwise;
    Powers();
    Merge(b20, 20, 0x10_0000, b19_12, 12, 0x1000);
    Merge(0x100 * b20 + b19_12, 12, 0x1000, b11, 11, 0x800);
    Merge(0x200 * b20 + 2 * b19_12 + b11, 11, 0x800, b10_1, 1, 2);
    ShlSmall(b20, 20, 0x10_0000);
    SignExtIs(0x10_0000 * b20 + 0x1000 * b19_12 + 0x800 * b11 + 2 * b10_1, 20, 0x10_0000);
  }

  /** Or-ing a shifted field below the fields already merged. */
  lemma Merge(hi: u32, k: nat, p: nat, low: u32, j: nat, q: nat)
    requires p == Pow2(k) && q == Pow2(j)
    requires low * q < p && hi * p + low * q < TWO32
    ensures Or32(hi * p, Shl32(low, j)) == hi * p + low * q
  {
    Pow2Of32();
    ShlSmall(low, j, q);
    OrDisjoint(32, hi, k, low * q);
  }
}
