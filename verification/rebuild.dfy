/** Rebuilding a word from its decoded record: the decoder loses nothing it accepts. */
module Rebuild {
  import opened Words
  import opened Insns
  import opened Decoder
  import opened Encoding
  import opened Fields

  function OpcodeOf(ty: Mnemonic): Bits7 {
    match ty
    case LUI => OP_LUI
    case AUIPC => OP_AUIPC
    case JAL => OP_JAL
    case JALR => OP_JALR
    case BEQ => OP_BRANCH case BNE => OP_BRANCH case BLT => OP_BRANCH
    case BGE => OP_BRANCH case BLTU => OP_BRANCH case BGEU => OP_BRANCH
    case LB => OP_LOAD case LH => OP_LOAD case LW => OP_LOAD case LBU => OP_LOAD case LHU => OP_LOAD
    case SB => OP_STORE case SH => OP_STORE case SW => OP_STORE
    case ADDI => OP_ARITH case SLTI => OP_ARITH case SLTIU => OP_ARITH
    case XORI => OP_ARITH case ORI => OP_ARITH case ANDI => OP_ARITH
    case SLLI => OP_ARITH case SRLI => OP_ARITH case SRAI => OP_ARITH
    case ADD => OP_REG case SUB => OP_REG case SLL => OP_REG case SLT => OP_REG
    case SLTU => OP_REG case XOR => OP_REG case SRL => OP_REG case SRA => OP_REG
    case OR => OP_REG case AND => OP_REG
    case MUL => OP_REG case MULH => OP_REG case MULHSU => OP_REG case MULHU => OP_REG
    case DIV => OP_REG case DIVU => OP_REG case REM => OP_REG case REMU => OP_REG
    case FENCE => OP_SYNCH case FENCE_I => OP_SYNCH
    case ECALL => OP_ENV case EBREAK => OP_ENV
    case CSRRW => OP_ENV case CSRRS => OP_ENV case CSRRC => OP_ENV
    case CSRRWI => OP_ENV case CSRRSI => OP_ENV case CSRRCI => OP_ENV
    case FLx => OP_FLOAT_LOAD
    case FSx => OP_FLOAT_STORE
    case FMADDx => 0x43
    case FMSUBx => 0x47
    case FNMSUBx => 0x4B
    case FNMADDx => 0x4F
    case _ => OP_FLOAT_R
  }

  /** The word a decoded record came from; bits 25 and 26 of an R4 word are taken as zero. */
  function Rebuild(n: Insn): u32 {
    var op := OpcodeOf(n.ty);
    var rd, rs1, rs2, f3 := n.rd % 0x20, n.rs1 % 0x20, n.rs2 % 0x20, n.funct % 8;
    if IsRFormat(op) then RFormat(n.funct / 8 % 0x80, rs2, rs1, f3, rd, op)
    else if IsIFormat(op) then IFormat(n.imm % 0x1000, rs1, f3, rd, op)
    else if IsSFormat(op) then SFormat(n.imm % 0x1000, rs2, rs1, f3, op)
    else if IsUFormat(op) then UFormat(n.imm % 0x10_0000, rd, op)
    else if op == OP_JAL then JFormat(n.imm % 0x20_0000, rd, op)
    else if op == OP_BRANCH then BFormat(n.imm % 0x2000, rs2, rs1, f3, op)
    else RFormat(n.rs3 % 0x20 * 4, rs2, rs1, f3, rd, op)
  }

  // ----- the type determines the opcode --------------------------------------

  /** An accepted type is a real one and belongs to the given opcode. */
  predicate TypedBy(v: Verdict, op: Bits7) { v.Accept? ==> OpcodeOf(v.ty) == op && v.ty != INVALID }

  lemma SelectedR(b: Base)
    requires IsRFormat(b.opcode)
    ensures TypedBy(SelectR(b), b.opcode)
  {
    hide OpcodeOf, SelectReg, SelectFloat;
    SelectedReg(b);
    SelectedFloat(b);
  }

  lemma SelectedReg(b: Base)
    ensures TypedBy(SelectReg(b), OP_REG)
  {
    hide FunctR;
  }

  lemma SelectedFloat(b: Base)
    ensures TypedBy(SelectFloat(b), OP_FLOAT_R)
  {
    hide FloatSelector, SelectFloatUnary;
    SelectedFloatUnary(b);
  }

  lemma SelectedFloatUnary(b: Base)
    ensures TypedBy(SelectFloatUnary(b), OP_FLOAT_R)
  {
    hide FloatUnarySelector, SelectFloatBinary;
    SelectedFloatBinary(b);
  }

  lemma SelectedFloatBinary(b: Base)
    ensures TypedBy(SelectFloatBinary(b), OP_FLOAT_R)
  {
    hide And32;
  }

  lemma SelectedI(b: Base)
    requires IsIFormat(b.opcode)
    ensures TypedBy(SelectI(b), b.opcode)
  {
    hide OpcodeOf, SelectLoad, SelectArith, SelectSynch, SelectEnv, SelectFloatLoad;
    SelectedLoad(b);
    SelectedArith(b);
    SelectedEnv(b);
    SelectedSynch(b);
  }

  lemma SelectedLoad(b: Base)
    ensures TypedBy(SelectLoad(b), OP_LOAD) && TypedBy(SelectFloatLoad(b), OP_FLOAT_LOAD)
  {
  }

  lemma SelectedArith(b: Base)
    ensures TypedBy(SelectArith(b), OP_ARITH)
  {
  }

  lemma SelectedEnv(b: Base)
    ensures TypedBy(SelectEnv(b), OP_ENV)
  {
  }

  lemma SelectedSynch(b: Base)
    ensures TypedBy(SelectSynch(b), OP_SYNCH)
    ensures OpcodeOf(JALR) == OP_JALR
  {
  }

  lemma SelectedSBR4(b: Base)
    ensures IsSFormat(b.opcode) ==> TypedBy(SelectS(b), b.opcode)
    ensures TypedBy(SelectB(b), OP_BRANCH)
    ensures IsR4Format(b.opcode) ==> TypedBy(SelectR4(b), b.opcode)
  {
    hide OpcodeOf, SelectS, SelectB, SelectR4;
    if IsSFormat(b.opcode) { SelectedS(b); }
    SelectedB(b);
    if IsR4Format(b.opcode) { SelectedR4(b); }
  }

  lemma SelectedS(b: Base)
    requires IsSFormat(b.opcode)
    ensures TypedBy(SelectS(b), b.opcode)
  {
  }

  lemma SelectedB(b: Base)
    ensures TypedBy(SelectB(b), OP_BRANCH)
  {
  }

  lemma SelectedR4(b: Base)
    requires IsR4Format(b.opcode)
    ensures TypedBy(SelectR4(b), b.opcode)
  {
  }

  // ----- words from their layouts --------------------------------------------

  lemma WordAsI(w: u32)
    ensures var b := View(w); w == IFormat(b.i_11_0, b.rs1, b.funct3, b.rd, b.opcode)
  {
    hide View;
    WordAsR(w);
    ImmediateOfI(w);
  }

  lemma WordAsS(w: u32)
    ensures var b := View(w);
      w == SFormat(0x20 * b.s_11_5 + b.s_4_0, b.rs2, b.rs1, b.funct3, b.opcode)
  {
    hide View;
    WordAsR(w);
    SFields(w);
    var b := View(w);
    QuotientIs(0x20 * b.s_11_5 + b.s_4_0, 0x20, b.s_11_5, b.s_4_0);
  }

  function FieldB(b: Base): Bits13 {
    0x1000 * b.b_12 + 0x800 * b.b_11 + 0x20 * b.b_10_5 + 2 * b.b_4_1
  }

  lemma WordAsB(w: u32)
    ensures var b := View(w); w == BFormat(FieldB(b), b.rs2, b.rs1, b.funct3, b.opcode)
  {
    hide View;
    WordAsR(w);
    FieldsOfB(w);
    var b := View(w);
    SplitFieldB(b.b_12, b.b_11, b.b_10_5, b.b_4_1);
  }

  lemma SplitFieldB(b12: Bits1, b11: Bits1, b10_5: Bits6, b4_1: Bits4)
    ensures var f := 0x1000 * b12 + 0x800 * b11 + 0x20 * b10_5 + 2 * b4_1;
      f / 0x1000 == b12 && f / 0x800 % 2 == b11 && f / 0x20 % 0x40 == b10_5 && f / 2 % 0x10 == b4_1
  {
    var f := 0x1000 * b12 + 0x800 * b11 + 0x20 * b10_5 + 2 * b4_1;
    var q2 := 2 * b12 + b11;
    var q1 := 0x40 * q2 + b10_5;
    TakeField(f, 2, 0x10 * q1 + b4_1, q1, b4_1, 0, 0x10);
    TakeField(f, 0x20, q1, q2, b10_5, 2 * b4_1, 0x40);
    TakeField(f, 0x800, q2, b12, b11, 0x20 * b10_5 + 2 * b4_1, 2);
    QuotientIs(f, 0x1000, b12, f - 0x1000 * b12);
  }

  lemma WordAsU(w: u32)
    ensures var b := View(w); w == UFormat(b.u_31_12, b.rd, b.opcode)
  {
    hide View;
    WordAsR(w);
    FieldsOfU(w);
  }

  function FieldJ(b: Base): Bits21 {
    0x10_0000 * b.j_20 + 0x1000 * b.j_19_12 + 0x800 * b.j_11 + 2 * b.j_10_1
  }

  lemma WordAsJ(w: u32)
    ensures var b := View(w); w == JFormat(FieldJ(b), b.rd, b.opcode)
  {
    hide View;
    WordAsU(w);
    FieldsOfJ(w);
    var b := View(w);
    SplitFieldJ(b.j_20, b.j_19_12, b.j_11, b.j_10_1);
    JoinUpper(b.u_31_12);
  }

  lemma JoinUpper(u: Bits20)
    ensures u == u / 0x8_0000 * 0x8_0000 + u / 0x200 % 0x400 * 0x200 + u / 0x100 % 2 * 0x100 + u % 0x100
  {
    NestedDivision(u, 1, 0x100);
    NestedDivision(u, 0x100, 2);
    NestedDivision(u, 0x200, 0x400);
  }

  lemma SplitFieldJ(b20: Bits1, b19_12: Bits8, b11: Bits1, b10_1: Bits10)
    ensures var f := 0x10_0000 * b20 + 0x1000 * b19_12 + 0x800 * b11 + 2 * b10_1;
      && f / 0x10_0000 == b20 && f / 0x1000 % 0x100 == b19_12
      && f / 0x800 % 2 == b11 && f / 2 % 0x400 == b10_1
  {
    var f := 0x10_0000 * b20 + 0x1000 * b19_12 + 0x800 * b11 + 2 * b10_1;
    var q2 := 0x100 * b20 + b19_12;
    var q1 := 2 * q2 + b11;
    TakeField(f, 2, 0x400 * q1 + b10_1, q1, b10_1, 0, 0x400);
    TakeField(f, 0x800, q1, q2, b11, 2 * b10_1, 2);
    TakeField(f, 0x1000, q2, b20, b19_12, 0x800 * b11 + 2 * b10_1, 0x100);
    QuotientIs(f, 0x10_0000, b20, f - 0x10_0000 * b20);
  }

  // ----- immediates give their fields back -----------------------------------

  lemma FieldBack(f: u32)
    ensures f < 0x1000 ==> FromField(f, 0x800) % 0x1000 == f
    ensures f < 0x2000 ==> FromField(f, 0x1000) % 0x2000 == f
    ensures f < 0x20_0000 ==> FromField(f, 0x10_0000) % 0x20_0000 == f
  {
  }

  lemma FieldOfImmI(b: Base)
    ensures ImmI(b) % 0x1000 == b.i_11_0
  {
    hide SignExt, FromField;
    ImmIValue(b.i_11_0);
    FieldBack(b.i_11_0);
  }

  lemma FieldOfImmS(b: Base)
    ensures ImmS(b) % 0x1000 == 0x20 * b.s_11_5 + b.s_4_0
  {
    hide AssembleS, FromField;
    AssembleSValue(b.s_11_5, b.s_4_0);
    FieldBack(0x20 * b.s_11_5 + b.s_4_0);
  }

  lemma FieldOfImmB(b: Base)
    ensures ImmB(b) % 0x2000 == FieldB(b)
  {
    hide AssembleB, FromField;
    AssembleBValue(b.b_12, b.b_11, b.b_10_5, b.b_4_1);
    FieldBack(FieldB(b));
  }

  lemma FieldOfImmJ(b: Base)
    ensures ImmJ(b) % 0x20_0000 == FieldJ(b)
  {
    hide AssembleJ, FromField;
    AssembleJValue(b.j_20, b.j_19_12, b.j_11, b.j_10_1);
    FieldBack(FieldJ(b));
  }

  // ----- the theorem ---------------------------------------------------------

  predicate Valid(d: Decoded) { d.Decoded? && d.insn.ty != INVALID }

  lemma RebuildR(w: u32)
    requires IsRFormat(View(w).opcode) && Valid(RType(View(w)))
    ensures Rebuild(RType(View(w)).insn) == w
  {
    hide View, FunctR, SelectR, RFormat;
    var b := View(w);
    WordAsR(w);
    FunctRIs(b);
    QuotientIs(FunctR(b), 8, b.funct7, b.funct3);
    SelectedR(b);
  }

  lemma RebuildI(w: u32)
    requires IsIFormat(View(w).opcode) && Valid(IType(View(w)))
    ensures Rebuild(IType(View(w)).insn) == w
  {
    hide View, OpcodeOf, SelectI, IFormat, ImmI;
    var b := View(w);
    WordAsI(w);
    FieldOfImmI(b);
    SelectedI(b);
  }

  lemma RebuildS(w: u32)
    requires IsSFormat(View(w).opcode) && Valid(SType(View(w)))
    ensures Rebuild(SType(View(w)).insn) == w
  {
    hide View, OpcodeOf, SelectS, SFormat, ImmS;
    var b := View(w);
    WordAsS(w);
    FieldOfImmS(b);
    SelectedSBR4(b);
  }

  lemma RebuildB(w: u32)
    requires View(w).opcode == OP_BRANCH && Valid(BType(View(w)))
    ensures Rebuild(BType(View(w)).insn) == w
  {
    hide View, OpcodeOf, FieldB, SelectB, BFormat, ImmB;
    var b := View(w);
    WordAsB(w);
    FieldOfImmB(b);
    SelectedSBR4(b);
  }

  lemma RebuildU(w: u32)
    requires IsUFormat(View(w).opcode)
    ensures Valid(UType(View(w))) && Rebuild(UType(View(w)).insn) == w
  {
    hide View, UFormat;
    WordAsU(w);
  }

  lemma RebuildJ(w: u32)
    requires View(w).opcode == OP_JAL
    ensures Valid(JType(View(w))) && Rebuild(JType(View(w)).insn) == w
  {
    hide View, FieldJ, JFormat, ImmJ;
    WordAsJ(w);
    FieldOfImmJ(View(w));
  }

  /** A word with bits 25 and 26 cleared. */
  function ClearFormat(w: u32): u32 { w - w / 0x200_0000 % 4 * 0x200_0000 }

  lemma ClearFormatAsR(w: u32)
    ensures var b := View(w);
      ClearFormat(w) == RFormat(b.rs3 * 4, b.rs2, b.rs1, b.funct3, b.rd, b.opcode)
  {
    WordAsR(w);
    SFields(w);
  }

  lemma RebuildR4(w: u32)
    requires IsR4Format(View(w).opcode)
    ensures Valid(R4Type(View(w))) && Rebuild(R4Type(View(w)).insn) == ClearFormat(w)
  {
    hide View, RFormat, ClearFormat, OpcodeOf;
    SelectedR4(View(w));
    ClearFormatAsR(w);
  }

  /** Every word with a valid decode can be rebuilt from its record, up to bits 25 and 26 of R4 words. */
  lemma RebuildDecode(w: u32)
    requires Valid(Decode(w))
    ensures Rebuild(Decode(w).insn) == if IsR4Format(View(w).opcode) then ClearFormat(w) else w
  {
    hide View, Rebuild, RType, IType, SType, UType, JType, BType, R4Type, ClearFormat;
    var op := View(w).opcode;
    if IsRFormat(op) { RebuildR(w); }
    else if IsIFormat(op) { RebuildI(w); }
    else if IsSFormat(op) { RebuildS(w); }
    else if IsUFormat(op) { RebuildU(w); }
    else if op == OP_JAL { RebuildJ(w); }
    else if op == OP_BRANCH { RebuildB(w); }
    else if IsR4Format(op) { RebuildR4(w); }
  }

  lemma DecodedOpcode(w: u32)
    requires Valid(Decode(w))
    ensures OpcodeOf(Decode(w).insn.ty) == View(w).opcode
  {
    hide View, SelectR, SelectI, SelectS, SelectB, SelectR4, FunctR, ImmI, ImmS, ImmB, ImmJ;
    var b := View(w);
    if IsRFormat(b.opcode) { SelectedR(b); }
    else if IsIFormat(b.opcode) { SelectedI(b); }
    else { SelectedSBR4(b); }
  }

  lemma R4Alike(w1: u32, w2: u32)
    requires IsR4Format(View(w1).opcode) && ClearFormat(w1) == ClearFormat(w2)
    ensures Decode(w1) == Decode(w2)
  {
    hide View, ClearFormat, RFormat, RType, IType, SType, UType, JType, BType, SelectR4;
    var b1, b2 := View(w1), View(w2);
    ClearFormatAsR(w1);
    ClearFormatAsR(w2);
    RFields(b1.rs3 * 4, b1.rs2, b1.rs1, b1.funct3, b1.rd, b1.opcode);
    RFields(b2.rs3 * 4, b2.rs2, b2.rs1, b2.funct3, b2.rd, b2.opcode);
    SelectR4Alike(b1, b2);
  }

  lemma SelectR4Alike(b1: Base, b2: Base)
    requires b1.opcode == b2.opcode
    ensures SelectR4(b1) == SelectR4(b2)
  {
  }

  /** Two valid words have the same record exactly when they are equal, or are R4 words that differ
      only in bits 25 and 26. */
  lemma DecodeInjective(w1: u32, w2: u32)
    requires Valid(Decode(w1)) && Valid(Decode(w2))
    ensures Decode(w1) == Decode(w2)
       <==> w1 == w2 || (IsR4Format(View(w1).opcode) && ClearFormat(w1) == ClearFormat(w2))
  {
    hide View, Decode, Rebuild, ClearFormat;
    if Decode(w1) == Decode(w2) {
      DecodedOpcode(w1);
      DecodedOpcode(w2);
      RebuildDecode(w1);
      RebuildDecode(w2);
    } else if w1 != w2 && IsR4Format(View(w1).opcode) && ClearFormat(w1) == ClearFormat(w2) {
      R4Alike(w1, w2);
    }
  }
}
