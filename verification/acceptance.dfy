/** Which words the decoder takes for RV32IM instructions. */
module Acceptance {
  import opened Words
  import opened Insns
  import opened Decoder
  import opened Encoding
  import opened Fields
  import opened RoundTrip
  import opened Rebuild

  predicate IsRv32im(ty: Mnemonic) {
    match ty
    case LUI => true case AUIPC => true case JAL => true case JALR => true
    case BEQ => true case BNE => true case BLT => true case BGE => true case BLTU => true case BGEU => true
    case LB => true case LH => true case LW => true case LBU => true case LHU => true
    case SB => true case SH => true case SW => true
    case ADDI => true case SLTI => true case SLTIU => true
    case XORI => true case ORI => true case ANDI => true
    case SLLI => true case SRLI => true case SRAI => true
    case ADD => true case SUB => true case SLL => true case SLT => true case SLTU => true
    case XOR => true case SRL => true case SRA => true case OR => true case AND => true
    case FENCE => true case ECALL => true case EBREAK => true
    case MUL => true case MULH => true case MULHSU => true case MULHU => true
    case DIV => true case DIVU => true case REM => true case REMU => true
    case _ => false
  }

  /** The signed value of a field whose sign bit is worth p. */
  function SignedField(f: nat, p: nat): int { if f < p then f else f - 2 * p }

  function KindOfLoad(f3: Bits3): LoadKind {
    if f3 == 0 then Lb else if f3 == 1 then Lh else if f3 == 2 then Lw else if f3 == 4 then Lbu else Lhu
  }

  function KindOfStore(f3: Bits3): StoreKind { if f3 == 0 then Sb else if f3 == 1 then Sh else Sw }

  function KindOfImm(f3: Bits3): ImmKind {
    if f3 == 0 then Addi else if f3 == 2 then Slti else if f3 == 3 then Sltiu
    else if f3 == 4 then Xori else if f3 == 6 then Ori else Andi
  }

  function KindOfBranch(f3: Bits3): BranchKind {
    if f3 == 0 then Beq else if f3 == 1 then Bne else if f3 == 4 then Blt
    else if f3 == 5 then Bge else if f3 == 6 then Bltu else Bgeu
  }

  function KindOfReg(f7: Bits7, f3: Bits3): RegKind {
    match f3
    case 0 => if f7 == 1 then Mul else if f7 == 0 then Add else Sub
    case 1 => if f7 == 1 then Mulh else Sll
    case 2 => if f7 == 1 then Mulhsu else Slt
    case 3 => if f7 == 1 then Mulhu else Sltu
    case 4 => if f7 == 1 then Div else Xor
    case 5 => if f7 == 1 then Divu else if f7 == 0 then Srl else Sra
    case 6 => if f7 == 1 then Rem else Or
    case _ => if f7 == 1 then Remu else And
  }

  /** The instruction a word encodes, if it encodes one. */
  function InstrAt(b: Base): Instr {
    var op := b.opcode;
    if op == OP_LUI then Lui(b.rd, b.u_31_12)
    else if op == OP_AUIPC then Auipc(b.rd, b.u_31_12)
    else if op == OP_JAL then Jal(b.rd, SignedField(FieldJ(b), 0x10_0000))
    else if op == OP_JALR then Jalr(b.rd, b.rs1, SignedField(b.i_11_0, 0x800))
    else if op == OP_BRANCH then
      Branch(KindOfBranch(b.funct3), b.rs1, b.rs2, SignedField(FieldB(b), 0x1000))
    else if op == OP_LOAD then Load(KindOfLoad(b.funct3), b.rd, b.rs1, SignedField(b.i_11_0, 0x800))
    else if op == OP_STORE then
      Store(KindOfStore(b.funct3), b.rs1, b.rs2, SignedField(0x20 * b.s_11_5 + b.s_4_0, 0x800))
    else if op == OP_ARITH then
      if b.funct3 == 1 then Shift(Slli, b.rd, b.rs1, b.rs2)
      else if b.funct3 == 5 then Shift(if b.funct7 == 0 then Srli else Srai, b.rd, b.rs1, b.rs2)
      else OpImm(KindOfImm(b.funct3), b.rd, b.rs1, SignedField(b.i_11_0, 0x800))
    else if op == OP_REG then Op(KindOfReg(b.funct7, b.funct3), b.rd, b.rs1, b.rs2)
    else if op == OP_SYNCH then Fence(b.i_11_0, b.rd, b.rs1)
    else if b.i_11_0 == 0 then Ecall
    else Ebreak
  }

  predicate Encodes(w: u32, i: Instr) { Legal(i) && Encode(i) == w }

  lemma SignedFieldBack(f: nat)
    ensures f < 0x1000 ==> SignedField(f, 0x800) % 0x1000 == f
    ensures f < 0x2000 ==> SignedField(f, 0x1000) % 0x2000 == f
    ensures f < 0x20_0000 ==> SignedField(f, 0x10_0000) % 0x20_0000 == f
  {
  }

  lemma EncodesI(w: u32)
    requires var b := View(w);
      || (b.opcode == OP_JALR && b.funct3 == 0)
      || (b.opcode == OP_LOAD && SelectLoad(b).Accept?)
    ensures Encodes(w, InstrAt(View(w)))
  {
    hide View, IFormat, SignedField;
    var b := View(w);
    WordAsI(w);
    SignedFieldBack(b.i_11_0);
    SignedFieldRange(b.i_11_0, 0x800);
  }

  lemma SignedFieldRange(f: nat, p: nat)
    requires f < 2 * p
    ensures -(p as int) <= SignedField(f, p) < p
    ensures f % 2 == 0 ==> SignedField(f, p) % 2 == 0
  {
  }

  lemma EncodesArith(w: u32)
    requires View(w).opcode == OP_ARITH && SelectArith(View(w)).Accept?
    ensures Encodes(w, InstrAt(View(w)))
  {
    hide View, IFormat, RFormat, SignedField;
    var b := View(w);
    WordAsI(w);
    WordAsR(w);
    SignedFieldBack(b.i_11_0);
    SignedFieldRange(b.i_11_0, 0x800);
  }

  lemma EncodesStore(w: u32)
    requires View(w).opcode == OP_STORE && SelectS(View(w)).Accept?
    ensures Encodes(w, InstrAt(View(w)))
  {
    hide View, SFormat, SignedField;
    var b := View(w);
    WordAsS(w);
    SignedFieldBack(0x20 * b.s_11_5 + b.s_4_0);
    SignedFieldRange(0x20 * b.s_11_5 + b.s_4_0, 0x800);
  }

  lemma EncodesBranch(w: u32)
    requires View(w).opcode == OP_BRANCH && SelectB(View(w)).Accept?
    ensures Encodes(w, InstrAt(View(w)))
  {
    hide View, BFormat, SignedField;
    var b := View(w);
    WordAsB(w);
    SignedFieldBack(FieldB(b));
    SignedFieldRange(FieldB(b), 0x1000);
  }

  lemma EncodesUpper(w: u32)
    requires IsUFormat(View(w).opcode)
    ensures Encodes(w, InstrAt(View(w)))
  {
    hide View, UFormat;
    WordAsU(w);
  }

  lemma EncodesJump(w: u32)
    requires View(w).opcode == OP_JAL
    ensures Encodes(w, InstrAt(View(w)))
  {
    hide View, JFormat, FieldJ, SignedField;
    var b := View(w);
    WordAsJ(w);
    EvenFieldJ(b);
    SignedFieldBack(FieldJ(b));
    SignedFieldRange(FieldJ(b), 0x10_0000);
  }

  lemma EvenFieldJ(b: Base)
    ensures FieldJ(b) % 2 == 0
  {
  }

  lemma EncodesReg(w: u32)
    requires View(w).opcode == OP_REG && SelectReg(View(w)).Accept?
    ensures Encodes(w, InstrAt(View(w)))
  {
    hide View, RFormat, FunctR;
    var b := View(w);
    WordAsR(w);
    FunctRIs(b);
    assert RegFunct(KindOfReg(b.funct7, b.funct3)) == (b.funct7, b.funct3);
  }

  lemma EncodesEnv(w: u32)
    requires var b := View(w); b.opcode == OP_ENV && b.funct3 == 0 && b.rd == 0 && b.rs1 == 0 && b.i_11_0 < 2
    ensures Encodes(w, InstrAt(View(w)))
  {
    hide View;
    WordAsI(w);
  }

  lemma EncodesSynch(w: u32)
    requires View(w).opcode == OP_SYNCH && SelectSynch(View(w)) == Accept(FENCE)
    ensures InstrAt(View(w)) == FULL_FENCE && Encodes(w, FULL_FENCE)
  {
    hide View;
    WordAsI(w);
  }

  predicate TakenAsRv32im(w: u32) { Valid(Decode(w)) && IsRv32im(Decode(w).insn.ty) }

  lemma TakenIsEncoded(w: u32)
    requires TakenAsRv32im(w)
    ensures (Encodes(w, InstrAt(View(w))) && Decodable(InstrAt(View(w))))
         || (View(w).opcode == OP_JALR && View(w).funct3 != 0)
  {
    hide View, Encodes, InstrAt, SelectSynch, SelectLoad, SelectArith, SelectReg, SelectFloat, SelectB, SelectR4,
      ImmI, ImmS, ImmB, ImmJ, FunctR;
    var b := View(w);
    if b.opcode == OP_LOAD { EncodesI(w); }
    else if b.opcode == OP_JALR { if b.funct3 == 0 { EncodesI(w); } }
    else if b.opcode == OP_ARITH { EncodesArith(w); }
    else if b.opcode == OP_STORE { EncodesStore(w); }
    else if b.opcode == OP_BRANCH { EncodesBranch(w); }
    else if IsUFormat(b.opcode) { EncodesUpper(w); }
    else if b.opcode == OP_JAL { EncodesJump(w); }
    else if b.opcode == OP_REG { EncodesReg(w); }
    else if b.opcode == OP_ENV { EncodesEnv(w); }
    else if b.opcode == OP_SYNCH { SynchTaken(b); EncodesSynch(w); }
    else { NotTaken(w); assert false; }
    if b.opcode != OP_SYNCH { OnlySynchFences(b); }
  }

  lemma SynchTaken(b: Base)
    ensures SelectSynch(b).Accept? && IsRv32im(SelectSynch(b).ty) ==> SelectSynch(b) == Accept(FENCE)
  {
  }

  lemma OnlySynchFences(b: Base)
    requires b.opcode != OP_SYNCH
    ensures !InstrAt(b).Fence?
  {
  }

  lemma Rv32imOpcode(ty: Mnemonic)
    requires IsRv32im(ty)
    ensures var op := OpcodeOf(ty);
      && op != OP_FLOAT_R && op != OP_FLOAT_LOAD && op != OP_FLOAT_STORE
      && !IsR4Format(op)
  {
  }

  lemma NotTaken(w: u32)
    requires var op := View(w).opcode;
      op == OP_FLOAT_R || op == OP_FLOAT_LOAD || op == OP_FLOAT_STORE || IsR4Format(op)
    ensures !TakenAsRv32im(w)
  {
    hide View, Decode, OpcodeOf, IsRv32im;
    if TakenAsRv32im(w) {
      DecodedOpcode(w);
      Rv32imOpcode(Decode(w).insn.ty);
    }
  }

  lemma TyOfInstr(i: Instr)
    requires Legal(i)
    ensures IsRv32im(AsInsn(i).ty)
  {
  }

  lemma EncodedIsTaken(i: Instr)
    requires Legal(i)
    ensures TakenAsRv32im(Encode(i)) <==> Decodable(i)
  {
    hide Decode, Encode, AsInsn, Decodable;
    DecodeEncode(i);
    TyOfInstr(i);
  }

  lemma JalrIsTaken(w: u32)
    requires View(w).opcode == OP_JALR
    ensures TakenAsRv32im(w)
  {
    hide View, ImmI;
  }

  /** The decoder takes for RV32IM exactly the encodings of legal instructions, all fences but one
      excepted, and besides them the JALR words whose funct3 is not zero, which the manual leaves
      reserved. */
  lemma TakesExactly(w: u32)
    ensures TakenAsRv32im(w)
       <==> (exists i :: Encodes(w, i) && Decodable(i)) || (View(w).opcode == OP_JALR && View(w).funct3 != 0)
  {
    hide View, Encode, TakenAsRv32im, Decodable, InstrAt;
    if TakenAsRv32im(w) {
      TakenIsEncoded(w);
    } else {
      if View(w).opcode == OP_JALR { JalrIsTaken(w); }
      forall i | Encodes(w, i) ensures !Decodable(i) { EncodedIsTaken(i); }
    }
  }

  // ----- the other verdicts --------------------------------------------------

  /** The reserved JALR words encode nothing. */
  lemma ReservedJalr(w: u32)
    requires View(w).opcode == OP_JALR && View(w).funct3 != 0
    ensures !exists i :: Encodes(w, i)
  {
    hide View, Encode, Decode, AsInsn, Decodable;
    JalrDecoded(w);
    forall i | Encodes(w, i) ensures false {
      DecodeEncode(i);
      if Decodable(i) { JalrFunct(i); }
    }
  }

  lemma JalrDecoded(w: u32)
    requires View(w).opcode == OP_JALR
    ensures Decode(w).Decoded? && Decode(w).insn.ty == JALR && Decode(w).insn.funct == View(w).funct3
  {
    hide View, ImmI;
  }

  lemma JalrFunct(i: Instr)
    requires Legal(i) && AsInsn(i).ty == JALR
    ensures AsInsn(i).funct == 0
  {
  }

  lemma CsrVerdict(b: Base)
    ensures SelectEnv(b).Accept? && IsCsr(SelectEnv(b).ty) <==> b.funct3 != 0 && b.funct3 != 4
    ensures !SelectEnv(b).Unreachable?
  {
  }

  /** Decoding aborts the process exactly on the CSR words, and falls into undefined behaviour exactly
      on left-shift-immediate words with a nonzero funct7. */
  lemma AbnormalVerdicts(w: u32)
    ensures var b := View(w);
      && (Decode(w).Trapped? <==> b.opcode == OP_ENV && b.funct3 != 0 && b.funct3 != 4)
      && (Decode(w).Undecided? <==> b.opcode == OP_ARITH && b.funct3 == 1 && b.funct7 != 0)
  {
    hide View, SelectR, SelectEnv, SelectS, SelectB, SelectR4, FunctR, ImmI, ImmS, ImmB, ImmJ, IsCsr;
    var b := View(w);
    CsrVerdict(b);
    NoCsr(b);
  }

  lemma NoCsr(b: Base)
    ensures !SelectR(b).Unreachable? && (SelectR(b).Accept? ==> !IsCsr(SelectR(b).ty))
    ensures !SelectS(b).Unreachable? && (SelectS(b).Accept? ==> !IsCsr(SelectS(b).ty))
    ensures !SelectB(b).Unreachable? && (SelectB(b).Accept? ==> !IsCsr(SelectB(b).ty))
    ensures !SelectR4(b).Unreachable? && (SelectR4(b).Accept? ==> !IsCsr(SelectR4(b).ty))
    ensures SelectLoad(b).Accept? ==> !IsCsr(SelectLoad(b).ty)
    ensures SelectArith(b).Accept? ==> !IsCsr(SelectArith(b).ty)
    ensures SelectSynch(b).Accept? ==> !IsCsr(SelectSynch(b).ty)
    ensures !IsCsr(JALR) && !IsCsr(FLx) && !IsCsr(LUI) && !IsCsr(AUIPC) && !IsCsr(JAL)
  {
    hide FunctR, FloatSelector, FloatUnarySelector, And32;
  }

  /** Every rejection comes with a diagnostic but that of a register-register word. */
  lemma DiagnExactly(w: u32)
    requires Decode(w).Decoded? && Decode(w).insn.ty == INVALID
    ensures Decode(w).diagn <==> View(w).opcode != OP_REG
  {
    hide View, SelectReg, SelectFloat, SelectI, SelectS, SelectB, SelectR4, FunctR, ImmI, ImmS, ImmB, ImmJ, OpcodeOf;
    var b := View(w);
    Rejections(b);
    SelectedRejects(b);
  }

  lemma Rejections(b: Base)
    ensures SelectReg(b).Reject? ==> !SelectReg(b).diagn
    ensures SelectFloat(b).Reject? ==> SelectFloat(b).diagn
    ensures SelectI(b).Reject? ==> SelectI(b).diagn
    ensures SelectS(b).Reject? ==> SelectS(b).diagn
    ensures SelectB(b).Reject? ==> SelectB(b).diagn
    ensures !SelectR4(b).Reject?
  {
    hide FunctR, FloatSelector, FloatUnarySelector, And32;
  }

  /** A verdict with the type INVALID is a rejection. */
  lemma SelectedRejects(b: Base)
    ensures SelectReg(b) != Accept(INVALID) && SelectFloat(b) != Accept(INVALID)
    ensures IsIFormat(b.opcode) ==> SelectI(b) != Accept(INVALID)
    ensures IsSFormat(b.opcode) ==> SelectS(b) != Accept(INVALID)
    ensures SelectB(b) != Accept(INVALID)
    ensures IsR4Format(b.opcode) ==> SelectR4(b) != Accept(INVALID)
  {
    hide SelectReg, SelectFloat, SelectI, SelectS, SelectB, SelectR4, OpcodeOf;
    SelectedReg(b);
    SelectedFloat(b);
    if IsIFormat(b.opcode) { SelectedI(b); }
    SelectedSBR4(b);
  }

  /** A JALR word with funct3 1 is taken though it encodes nothing; an SLLI word with funct7 1 falls into
      undefined behaviour; a CSRRW word aborts. */
  lemma ReservedWitness()
    ensures TakenAsRv32im(0x0000_1067) && !exists i :: Encodes(0x0000_1067, i)
    ensures Decode(0x0200_1013) == Undecided
    ensures Decode(0x0000_1073) == Trapped
  {
    hide Decode, Encode, View;
    IFields(0, 0, 1, 0, OP_JALR);
    RFields(1, 0, 0, 1, 0, OP_ARITH);
    IFields(0, 0, 1, 0, OP_ENV);
    JalrIsTaken(0x0000_1067);
    ReservedJalr(0x0000_1067);
    AbnormalVerdicts(0x0200_1013);
    AbnormalVerdicts(0x0000_1073);
  }

  /** FENCE RW, RW is an RV32I instruction the decoder rejects, with a diagnostic. */
  lemma FenceWitness()
    ensures Encodes(0x0330_000F, Fence(0x33, 0, 0)) && Decode(0x0330_000F).Decoded?
    ensures Decode(0x0330_000F).insn.ty == INVALID && Decode(0x0330_000F).diagn
  {
    hide Decode;
    DecodeEncode(Fence(0x33, 0, 0));
  }

  /** The two fences are single words; every other word of their opcode is rejected with a diagnostic. */
  lemma FenceWords(w: u32)
    requires View(w).opcode == OP_SYNCH
    ensures Decode(w).Decoded?
    ensures Decode(w).insn.ty == FENCE <==> w == 0x0FF0_000F
    ensures Decode(w).insn.ty == FENCE_I <==> w == 0x0000_100F
    ensures w != 0x0FF0_000F && w != 0x0000_100F ==> Decode(w).insn.ty == INVALID && Decode(w).diagn
  {
    hide View, ImmI;
    WordAsI(w);
    IFields(0xFF, 0, 0, 0, OP_SYNCH);
    IFields(0, 0, 1, 0, OP_SYNCH);
  }
}
