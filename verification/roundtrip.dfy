/** The decoder inverts the manual's encodings of RV32IM instructions. */
module RoundTrip {
  import opened Words
  import opened Insns
  import opened Decoder
  import opened Encoding
  import opened Fields

  function BranchTy(k: BranchKind): Mnemonic {
    match k
    case Beq => BEQ case Bne => BNE case Blt => BLT
    case Bge => BGE case Bltu => BLTU case Bgeu => BGEU
  }

  function LoadTy(k: LoadKind): Mnemonic {
    match k case Lb => LB case Lh => LH case Lw => LW case Lbu => LBU case Lhu => LHU
  }

  function StoreTy(k: StoreKind): Mnemonic {
    match k case Sb => SB case Sh => SH case Sw => SW
  }

  function ImmTy(k: ImmKind): Mnemonic {
    match k
    case Addi => ADDI case Slti => SLTI case Sltiu => SLTIU
    case Xori => XORI case Ori => ORI case Andi => ANDI
  }

  function ShiftTy(k: ShiftKind): Mnemonic {
    match k case Slli => SLLI case Srli => SRLI case Srai => SRAI
  }

  function RegTy(k: RegKind): Mnemonic {
    match k
    case Add => ADD case Sub => SUB case Sll => SLL case Slt => SLT case Sltu => SLTU
    case Xor => XOR case Srl => SRL case Sra => SRA case Or => OR case And => AND
    case Mul => MUL case Mulh => MULH case Mulhsu => MULHSU case Mulhu => MULHU
    case Div => DIV case Divu => DIVU case Rem => REM case Remu => REMU
  }

  /** The decoded record of an instruction: its fields, with signed immediates in two's complement. */
  function AsInsn(i: Instr): Insn
    requires Legal(i)
  {
    match i
    case Lui(rd, upper) => Insn(LUI, rd, 0, 0, 0, 0, upper)
    case Auipc(rd, upper) => Insn(AUIPC, rd, 0, 0, 0, 0, upper)
    case Jal(rd, offset) => Insn(JAL, rd, 0, 0, 0, 0, Wrap32(offset))
    case Jalr(rd, rs1, offset) => Insn(JALR, rd, rs1, 0, 0, 0, Wrap32(offset))
    case Branch(k, rs1, rs2, offset) =>
      Insn(BranchTy(k), 0, rs1, rs2, 0, BranchFunct(k), Wrap32(offset))
    case Load(k, rd, rs1, offset) => Insn(LoadTy(k), rd, rs1, 0, 0, LoadFunct(k), Wrap32(offset))
    case Store(k, rs1, rs2, offset) =>
      Insn(StoreTy(k), 0, rs1, rs2, 0, StoreFunct(k), Wrap32(offset))
    case OpImm(k, rd, rs1, imm) => Insn(ImmTy(k), rd, rs1, 0, 0, ImmFunct(k), Wrap32(imm))
    case Shift(k, rd, rs1, shamt) =>
      Insn(ShiftTy(k), rd, rs1, 0, 0, if k.Slli? then 1 else 5,
           if k.Srai? then 0x400 + shamt else shamt)
    case Op(k, rd, rs1, rs2) =>
      Insn(RegTy(k), rd, rs1, rs2, 0, RegFunct(k).0 * 8 + RegFunct(k).1, 0)
    case Fence(order, rd, rs1) => Insn(FENCE, rd, rs1, 0, 0, 0, FromField(order, 0x800))
    case Ecall => Insn(ECALL, 0, 0, 0, 0, 0, 0)
    case Ebreak => Insn(EBREAK, 0, 0, 0, 0, 0, 1)
  }

  // ----- decoding an encoding ------------------------------------------------

  lemma DecodeI(imm: int, rs1: Reg, f3: Bits3, rd: Reg, op: Bits7)
    requires -0x800 <= imm < 0x800 && IsIFormat(op)
    ensures var w := IFormat(imm % 0x1000, rs1, f3, rd, op);
      && Decode(w) == Emit(SelectI(View(w)), Insn(INVALID, rd, rs1, 0, 0, f3, Wrap32(imm)))
      && var b := View(w); b.opcode == op && b.funct3 == f3 && b.rd == rd && b.rs1 == rs1
                           && b.funct7 == imm % 0x1000 / 0x20 && b.i_11_0 == imm % 0x1000
  {
    hide View, SignExt, RType, SType, UType, JType, BType, R4Type;
    IFields(imm % 0x1000, rs1, f3, rd, op);
    ImmIValue(imm % 0x1000);
  }

  lemma DecodeS(imm: int, rs2: Reg, rs1: Reg, f3: Bits3, op: Bits7)
    requires -0x800 <= imm < 0x800 && IsSFormat(op)
    ensures var w := SFormat(imm % 0x1000, rs2, rs1, f3, op);
      && Decode(w) == Emit(SelectS(View(w)), Insn(INVALID, 0, rs1, rs2, 0, f3, Wrap32(imm)))
      && View(w).opcode == op && View(w).funct3 == f3
  {
    hide View, AssembleS, SFormat, RType, IType, UType, JType, BType, R4Type;
    SFormatFields(imm % 0x1000, rs2, rs1, f3, op);
    StoreImmediate(imm);
  }

  lemma StoreImmediate(imm: int)
    requires -0x800 <= imm < 0x800
    ensures var f := imm % 0x1000; AssembleS(f / 0x20, f % 0x20) == Wrap32(imm)
  {
    hide AssembleS;
    var f := imm % 0x1000;
    AssembleSValue(f / 0x20, f % 0x20);
  }

  lemma BranchAssembled(f: Bits13)
    requires f % 2 == 0
    ensures AssembleB(f / 0x1000, f / 0x800 % 2, f / 0x20 % 0x40, f / 2 % 0x10) == FromField(f, 0x1000)
  {
    hide AssembleB, FromField;
    BranchSplit(f);
    AssembleBValue(f / 0x1000, f / 0x800 % 2, f / 0x20 % 0x40, f / 2 % 0x10);
  }

  lemma BranchImmediate(imm: int)
    requires -0x1000 <= imm < 0x1000 && imm % 2 == 0
    ensures var f := imm % 0x2000; AssembleB(f / 0x1000, f / 0x800 % 2, f / 0x20 % 0x40, f / 2 % 0x10) == Wrap32(imm)
  {
    hide AssembleB, FromField, Wrap32;
    BranchAssembled(imm % 0x2000);
    BranchSigned(imm);
  }

  lemma BranchSigned(imm: int)
    requires -0x1000 <= imm < 0x1000
    ensures FromField(imm % 0x2000, 0x1000) == Wrap32(imm)
  {
  }

  lemma BranchSplit(f: Bits13)
    requires f % 2 == 0
    ensures 0x1000 * (f / 0x1000) + 0x800 * (f / 0x800 % 2) + 0x20 * (f / 0x20 % 0x40) + 2 * (f / 2 % 0x10) == f
  {
    NestedDivision(f, 2, 0x10);
    NestedDivision(f, 0x20, 0x40);
    NestedDivision(f, 0x800, 2);
  }

  lemma DecodeB(imm: int, rs2: Reg, rs1: Reg, f3: Bits3)
    requires -0x1000 <= imm < 0x1000 && imm % 2 == 0
    ensures var w := BFormat(imm % 0x2000, rs2, rs1, f3, OP_BRANCH);
      && Decode(w) == Emit(SelectB(View(w)), Insn(INVALID, 0, rs1, rs2, 0, f3, Wrap32(imm)))
      && View(w).funct3 == f3
  {
    hide View, AssembleB, BFormat, RType, IType, SType, UType, JType, R4Type;
    BFormatFields(imm % 0x2000, rs2, rs1, f3, OP_BRANCH);
    BranchImmediate(imm);
  }

  lemma JumpAssembled(f: Bits21)
    requires f % 2 == 0
    ensures AssembleJ(f / 0x10_0000, f / 0x1000 % 0x100, f / 0x800 % 2, f / 2 % 0x400) == FromField(f, 0x10_0000)
  {
    hide AssembleJ, FromField;
    JumpSplit(f);
    AssembleJValue(f / 0x10_0000, f / 0x1000 % 0x100, f / 0x800 % 2, f / 2 % 0x400);
  }

  lemma JumpImmediate(imm: int)
    requires -0x10_0000 <= imm < 0x10_0000 && imm % 2 == 0
    ensures var f := imm % 0x20_0000;
      AssembleJ(f / 0x10_0000, f / 0x1000 % 0x100, f / 0x800 % 2, f / 2 % 0x400) == Wrap32(imm)
  {
    hide AssembleJ, FromField, Wrap32;
    JumpAssembled(imm % 0x20_0000);
    JumpSigned(imm);
  }

  lemma JumpSigned(imm: int)
    requires -0x10_0000 <= imm < 0x10_0000
    ensures FromField(imm % 0x20_0000, 0x10_0000) == Wrap32(imm)
  {
  }

  lemma JumpSplit(f: Bits21)
    requires f % 2 == 0
    ensures 0x10_0000 * (f / 0x10_0000) + 0x1000 * (f / 0x1000 % 0x100) + 0x800 * (f / 0x800 % 2)
            + 2 * (f / 2 % 0x400) == f
  {
    NestedDivision(f, 2, 0x400);
    NestedDivision(f, 0x800, 2);
    NestedDivision(f, 0x1000, 0x100);
  }

  lemma DecodeJ(imm: int, rd: Reg)
    requires -0x10_0000 <= imm < 0x10_0000 && imm % 2 == 0
    ensures var w := JFormat(imm % 0x20_0000, rd, OP_JAL);
      Decode(w) == Decoded(Insn(JAL, rd, 0, 0, 0, 0, Wrap32(imm)), false)
  {
    hide View, AssembleJ, JFormat, RType, IType, SType, UType, BType, R4Type;
    JFormatFields(imm % 0x20_0000, rd, OP_JAL);
    JumpImmediate(imm);
  }

  lemma DecodeU(upper: Bits20, rd: Reg, op: Bits7)
    requires IsUFormat(op)
    ensures Decode(UFormat(upper, rd, op))
         == Decoded(Insn(if op == OP_LUI then LUI else AUIPC, rd, 0, 0, 0, 0, upper), false)
  {
    hide View, UFormat, RType, IType, SType, JType, BType, R4Type;
    UFields(upper, rd, op);
  }

  lemma DecodeOp(k: RegKind, rd: Reg, rs1: Reg, rs2: Reg)
    ensures Decode(Encode(Op(k, rd, rs1, rs2))) == Decoded(AsInsn(Op(k, rd, rs1, rs2)), false)
  {
    hide View, FunctR, RFormat, IType, SType, UType, JType, BType, R4Type;
    var (f7, f3) := RegFunct(k);
    var w := RFormat(f7, rs2, rs1, f3, rd, OP_REG);
    RFields(f7, rs2, rs1, f3, rd, OP_REG);
    FunctRIs(View(w));
  }

  lemma ShiftAsI(f7: Bits7, shamt: Bits5, rs1: Bits5, f3: Bits3, rd: Bits5, op: Bits7)
    ensures RFormat(f7, shamt, rs1, f3, rd, op) == IFormat(f7 * 0x20 + shamt, rs1, f3, rd, op)
  {
  }

  lemma DecodeArith(f7: Bits7, f3: Bits3, rd: Reg, rs1: Reg, shamt: Bits5)
    requires f7 <= 0x20
    ensures var w := RFormat(f7, shamt, rs1, f3, rd, OP_ARITH);
      && Decode(w) == Emit(SelectArith(View(w)), Insn(INVALID, rd, rs1, 0, 0, f3, f7 * 0x20 + shamt))
      && View(w).funct3 == f3 && View(w).funct7 == f7
  {
    hide View, Decode, IFormat, RFormat, SelectArith;
    ShiftAsI(f7, shamt, rs1, f3, rd, OP_ARITH);
    QuotientIs(f7 * 0x20 + shamt, 0x20, f7, shamt);
    DecodeI(f7 * 0x20 + shamt, rs1, f3, rd, OP_ARITH);
  }

  lemma DecodeShift(k: ShiftKind, rd: Reg, rs1: Reg, shamt: Bits5)
    ensures Decode(Encode(Shift(k, rd, rs1, shamt))) == Decoded(AsInsn(Shift(k, rd, rs1, shamt)), false)
  {
    hide View, Decode, RFormat;
    DecodeArith(if k.Srai? then 0x20 else 0, if k.Slli? then 1 else 5, rd, rs1, shamt);
  }

  lemma DecodeLoad(k: LoadKind, rd: Reg, rs1: Reg, offset: int)
    requires -0x800 <= offset < 0x800
    ensures Decode(Encode(Load(k, rd, rs1, offset))) == Decoded(AsInsn(Load(k, rd, rs1, offset)), false)
  {
    hide View, Decode, IFormat;
    DecodeI(offset, rs1, LoadFunct(k), rd, OP_LOAD);
  }

  lemma DecodeOpImm(k: ImmKind, rd: Reg, rs1: Reg, imm: int)
    requires -0x800 <= imm < 0x800
    ensures Decode(Encode(OpImm(k, rd, rs1, imm))) == Decoded(AsInsn(OpImm(k, rd, rs1, imm)), false)
  {
    hide View, Decode, IFormat;
    DecodeI(imm, rs1, ImmFunct(k), rd, OP_ARITH);
  }

  lemma DecodeBranch(k: BranchKind, rs1: Reg, rs2: Reg, offset: int)
    requires Legal(Branch(k, rs1, rs2, offset))
    ensures Decode(Encode(Branch(k, rs1, rs2, offset)))
         == Decoded(AsInsn(Branch(k, rs1, rs2, offset)), false)
  {
    hide View, Decode, BFormat;
    DecodeB(offset, rs2, rs1, BranchFunct(k));
  }

  lemma DecodeStore(k: StoreKind, rs1: Reg, rs2: Reg, offset: int)
    requires -0x800 <= offset < 0x800
    ensures Decode(Encode(Store(k, rs1, rs2, offset)))
         == Decoded(AsInsn(Store(k, rs1, rs2, offset)), false)
  {
    hide View, Decode, SFormat;
    DecodeS(offset, rs2, rs1, StoreFunct(k), OP_STORE);
  }

  lemma DecodeJalr(rd: Reg, rs1: Reg, f3: Bits3, offset: int)
    requires -0x800 <= offset < 0x800
    ensures Decode(IFormat(offset % 0x1000, rs1, f3, rd, OP_JALR))
         == Decoded(Insn(JALR, rd, rs1, 0, 0, f3, Wrap32(offset)), false)
  {
    hide View, Decode, IFormat;
    DecodeI(offset, rs1, f3, rd, OP_JALR);
  }

  lemma DecodeEnv(imm: Bits1)
    ensures Decode(IFormat(imm, 0, 0, 0, OP_ENV))
         == Decoded(Insn(if imm == 0 then ECALL else EBREAK, 0, 0, 0, 0, 0, imm), false)
  {
    hide View, Decode, IFormat;
    DecodeI(imm, 0, 0, 0, OP_ENV);
  }

  /** The one fence the decoder knows: FENCE IORW, IORW. */
  const FULL_FENCE := Fence(0xFF, 0, 0)

  /** Every legal instruction but the other fences. */
  predicate Decodable(i: Instr) { i.Fence? ==> i == FULL_FENCE }

  lemma DecodeFence(order: Bits12, rd: Reg, rs1: Reg)
    ensures var w := IFormat(order, rs1, 0, rd, OP_SYNCH);
      Decode(w) == if order == 0xFF && rd == 0 && rs1 == 0 then Decoded(AsInsn(FULL_FENCE), false)
                   else Decoded(Insn(INVALID, rd, rs1, 0, 0, 0, FromField(order, 0x800)), true)
  {
    hide View, Decode, IFormat;
    var imm := if order < 0x800 then order else order - 0x1000;
    assert imm % 0x1000 == order;
    DecodeI(imm, rs1, 0, rd, OP_SYNCH);
  }

  /** Decoding the encoding of a legal RV32IM instruction yields exactly that instruction, unless it is a
      fence other than FENCE IORW, IORW; those are rejected with a diagnostic. */
  lemma DecodeEncode(i: Instr)
    requires Legal(i)
    ensures Decodable(i) ==> Decode(Encode(i)) == Decoded(AsInsn(i), false)
    ensures !Decodable(i) ==> Decode(Encode(i)) == Decoded(AsInsn(i).(ty := INVALID), true)
  {
    hide View, Decode;
    match i
    case Lui(rd, upper) => DecodeU(upper, rd, OP_LUI);
    case Auipc(rd, upper) => DecodeU(upper, rd, OP_AUIPC);
    case Jal(rd, offset) => DecodeJ(offset, rd);
    case Jalr(rd, rs1, offset) => DecodeJalr(rd, rs1, 0, offset);
    case Branch(k, rs1, rs2, offset) => DecodeBranch(k, rs1, rs2, offset);
    case Load(k, rd, rs1, offset) => DecodeLoad(k, rd, rs1, offset);
    case Store(k, rs1, rs2, offset) => DecodeStore(k, rs1, rs2, offset);
    case OpImm(k, rd, rs1, imm) => DecodeOpImm(k, rd, rs1, imm);
    case Shift(k, rd, rs1, shamt) => DecodeShift(k, rd, rs1, shamt);
    case Op(k, rd, rs1, rs2) => DecodeOp(k, rd, rs1, rs2);
    case Fence(order, rd, rs1) => DecodeFence(order, rd, rs1);
    case Ecall => DecodeEnv(0);
    case Ebreak => DecodeEnv(1);
  }

  /** The instruction a decoded RV32IM record stands for. */
  function InstrOf(n: Insn): Instr {
    var rd, rs1, rs2, imm := n.rd % 32, n.rs1 % 32, n.rs2 % 32, Signed32(n.imm);
    match n.ty
    case LUI => Lui(rd, n.imm)
    case AUIPC => Auipc(rd, n.imm)
    case JAL => Jal(rd, imm)
    case JALR => Jalr(rd, rs1, imm)
    case BEQ => Branch(Beq, rs1, rs2, imm)
    case BNE => Branch(Bne, rs1, rs2, imm)
    case BLT => Branch(Blt, rs1, rs2, imm)
    case BGE => Branch(Bge, rs1, rs2, imm)
    case BLTU => Branch(Bltu, rs1, rs2, imm)
    case BGEU => Branch(Bgeu, rs1, rs2, imm)
    case LB => Load(Lb, rd, rs1, imm)
    case LH => Load(Lh, rd, rs1, imm)
    case LW => Load(Lw, rd, rs1, imm)
    case LBU => Load(Lbu, rd, rs1, imm)
    case LHU => Load(Lhu, rd, rs1, imm)
    case SB => Store(Sb, rs1, rs2, imm)
    case SH => Store(Sh, rs1, rs2, imm)
    case SW => Store(Sw, rs1, rs2, imm)
    case ADDI => OpImm(Addi, rd, rs1, imm)
    case SLTI => OpImm(Slti, rd, rs1, imm)
    case SLTIU => OpImm(Sltiu, rd, rs1, imm)
    case XORI => OpImm(Xori, rd, rs1, imm)
    case ORI => OpImm(Ori, rd, rs1, imm)
    case ANDI => OpImm(Andi, rd, rs1, imm)
    case SLLI => Shift(Slli, rd, rs1, n.imm)
    case SRLI => Shift(Srli, rd, rs1, n.imm)
    case SRAI => Shift(Srai, rd, rs1, if n.imm >= 0x400 then n.imm - 0x400 else 0)
    case ADD => Op(Add, rd, rs1, rs2)
    case SUB => Op(Sub, rd, rs1, rs2)
    case SLL => Op(Sll, rd, rs1, rs2)
    case SLT => Op(Slt, rd, rs1, rs2)
    case SLTU => Op(Sltu, rd, rs1, rs2)
    case XOR => Op(Xor, rd, rs1, rs2)
    case SRL => Op(Srl, rd, rs1, rs2)
    case SRA => Op(Sra, rd, rs1, rs2)
    case OR => Op(Or, rd, rs1, rs2)
    case AND => Op(And, rd, rs1, rs2)
    case MUL => Op(Mul, rd, rs1, rs2)
    case MULH => Op(Mulh, rd, rs1, rs2)
    case MULHSU => Op(Mulhsu, rd, rs1, rs2)
    case MULHU => Op(Mulhu, rd, rs1, rs2)
    case DIV => Op(Div, rd, rs1, rs2)
    case DIVU => Op(Divu, rd, rs1, rs2)
    case REM => Op(Rem, rd, rs1, rs2)
    case REMU => Op(Remu, rd, rs1, rs2)
    case FENCE => Fence(n.imm % 0x1000, rd, rs1)
    case ECALL => Ecall
    case _ => Ebreak
  }

  lemma SignedWrap(imm: int)
    requires -0x8000_0000 <= imm < 0x8000_0000
    ensures Signed32(Wrap32(imm)) == imm
  {
  }

  lemma OpBack(k: RegKind, rd: Reg, rs1: Reg, rs2: Reg)
    ensures InstrOf(AsInsn(Op(k, rd, rs1, rs2))) == Op(k, rd, rs1, rs2)
  {
  }

  lemma ImmBack(i: Instr)
    requires Legal(i) && (i.OpImm? || i.Shift?)
    ensures InstrOf(AsInsn(i)) == i
  {
    hide Wrap32, Signed32;
    if i.OpImm? { SignedWrap(i.imm); }
  }

  lemma AccessBack(i: Instr)
    requires Legal(i) && (i.Load? || i.Store? || i.Branch?)
    ensures InstrOf(AsInsn(i)) == i
  {
    hide Wrap32, Signed32;
    SignedWrap(i.offset);
  }

  lemma FenceBack(order: Bits12, rd: Reg, rs1: Reg)
    ensures InstrOf(AsInsn(Fence(order, rd, rs1))) == Fence(order, rd, rs1)
  {
    if order >= 0x800 { QuotientIs(order - 0x1000, TWO32, -1, order - 0x1000 + TWO32); }
  }

  lemma InstrOfAsInsn(i: Instr)
    requires Legal(i)
    ensures InstrOf(AsInsn(i)) == i
  {
    hide FromField, Wrap32, Signed32;
    match i
    case Op(k, rd, rs1, rs2) => OpBack(k, rd, rs1, rs2);
    case OpImm(_, _, _, _) => ImmBack(i);
    case Shift(_, _, _, _) => ImmBack(i);
    case Load(_, _, _, _) => AccessBack(i);
    case Store(_, _, _, _) => AccessBack(i);
    case Branch(_, _, _, _) => AccessBack(i);
    case Jal(_, offset) => SignedWrap(offset);
    case Jalr(_, _, offset) => SignedWrap(offset);
    case Fence(order, rd, rs1) => FenceBack(order, rd, rs1);
    case _ =>
  }

  /** An instruction is determined by its encoding. */
  lemma EncodeInjective(i: Instr, j: Instr)
    requires Legal(i) && Legal(j) && Encode(i) == Encode(j)
    ensures i == j
  {
    hide Encode, Decode, AsInsn, InstrOf, Decodable;
    DecodeEncode(i);
    DecodeEncode(j);
    InstrOfAsInsn(i);
    InstrOfAsInsn(j);
    FenceAsInsn(i);
    FenceAsInsn(j);
    if !Decodable(i) && !Decodable(j) {
      assert AsInsn(i) == AsInsn(i).(ty := INVALID).(ty := FENCE);
      assert AsInsn(j) == AsInsn(j).(ty := INVALID).(ty := FENCE);
    }
  }

  lemma FenceAsInsn(i: Instr)
    requires Legal(i)
    ensures AsInsn(i).ty != INVALID
    ensures !Decodable(i) ==> AsInsn(i).ty == FENCE
  {
  }
}
