/** The manual's encodings of the single- and double-precision register operations (RISC-V Instruction
    Set Manual, Volume I, chapters 11, 12 and 24), and how the decoder reads them. */
module FloatEncoding {
  import opened Words
  import opened Insns
  import opened Decoder
  import opened Encoding
  import opened Fields

  datatype FloatOp =
    | Fadd | Fsub | Fmul | Fdiv | Fsqrt
    | Fsgnj | Fsgnjn | Fsgnjx | Fmin | Fmax | Feq | Flt | Fle
    | FcvtToW | FcvtToWu | FcvtFromW | FcvtFromWu
    | FmvToX | FmvFromX | Fclass | FcvtSD | FcvtDS

  /** What an operation fixes of the word: funct7 without its format bit, and rs2 and funct3 where they
      select the operation rather than an operand or a rounding mode. */
  datatype Pattern = Pattern(funct7: Bits7, rs2: Option<Bits5>, funct3: Option<Bits3>)

  function PatternOf(op: FloatOp): Pattern {
    match op
    case Fadd => Pattern(0x00, None, None)
    case Fsub => Pattern(0x04, None, None)
    case Fmul => Pattern(0x08, None, None)
    case Fdiv => Pattern(0x0C, None, None)
    case Fsqrt => Pattern(0x2C, Some(0), None)
    case Fsgnj => Pattern(0x10, None, Some(0))
    case Fsgnjn => Pattern(0x10, None, Some(1))
    case Fsgnjx => Pattern(0x10, None, Some(2))
    case Fmin => Pattern(0x14, None, Some(0))
    case Fmax => Pattern(0x14, None, Some(1))
    case Feq => Pattern(0x50, None, Some(2))
    case Flt => Pattern(0x50, None, Some(1))
    case Fle => Pattern(0x50, None, Some(0))
    case FcvtToW => Pattern(0x60, Some(0), None)
    case FcvtToWu => Pattern(0x60, Some(1), None)
    case FcvtFromW => Pattern(0x68, Some(0), None)
    case FcvtFromWu => Pattern(0x68, Some(1), None)
    case FmvToX => Pattern(0x70, Some(0), Some(0))
    case FmvFromX => Pattern(0x78, Some(0), Some(0))
    case Fclass => Pattern(0x70, Some(0), Some(1))
    case FcvtSD => Pattern(0x20, Some(1), None)
    case FcvtDS => Pattern(0x20, Some(0), None)
  }

  /** The formats an operation exists in: the moves are single-precision, FCVT.S.D carries the single
      format and FCVT.D.S the double. */
  predicate HasFormat(op: FloatOp, double: bool) {
    match op
    case FmvToX => !double
    case FmvFromX => !double
    case FcvtSD => !double
    case FcvtDS => double
    case _ => true
  }

  predicate Fixes(op: FloatOp, rs2: Bits5, funct3: Bits3) {
    var p := PatternOf(op);
    (p.rs2.Some? ==> p.rs2.value == rs2) && (p.funct3.Some? ==> p.funct3.value == funct3)
  }

  function FloatWord(op: FloatOp, double: bool, rs2: Bits5, rs1: Bits5, funct3: Bits3, rd: Bits5): u32 {
    RFormat(PatternOf(op).funct7 + if double then 1 else 0, rs2, rs1, funct3, rd, 0x53)
  }

  function FloatTy(op: FloatOp): Mnemonic {
    match op
    case Fadd => FADDx case Fsub => FSUBx case Fmul => FMULx case Fdiv => FDIVx case Fsqrt => FSQRTx
    case Fsgnj => FSGNJx case Fsgnjn => FSGNJNx case Fsgnjx => FSGNJXx
    case Fmin => FMINx case Fmax => FMAXx
    case Feq => FEQx case Flt => FLTx case Fle => FLEx
    case FcvtToW => FCVT_W_x case FcvtToWu => FCVT_WU_x
    case FcvtFromW => FCVT_x_W case FcvtFromWu => FCVT_x_W
    case FmvToX => FMV_X_W case FmvFromX => FMV_W_X case Fclass => FCLASSx
    case FcvtSD => FCVT_S_D case FcvtDS => FCVT_D_S
  }

  /** (funct7 << 5) | rs2, and the same with the format bit cleared. */
  lemma SelectorValues(b: Base)
    ensures FloatSelector(b) == b.funct7 * 0x20 + b.rs2
    ensures FloatUnarySelector(b) == (b.funct7 - b.funct7 % 2) * 0x20 + b.rs2
    ensures And32(b.funct7, Not32(1)) == b.funct7 - b.funct7 % 2
  {
    hide Bitwise, And32, Or32;
    Powers();
    ShlSmall(b.funct7, 5, 0x20);
    OrBelow(b.funct7 * 0x20, 5, 0x20, b.rs2);
    ClearFormatBit(b.funct7, b.rs2);
    AndNotOne(b.funct7);
  }

  lemma ClearFormatBit(f7: Bits7, rs2: Bits5)
    ensures And32(f7 * 0x20 + rs2, Not32(0x20)) == (f7 - f7 % 2) * 0x20 + rs2
  {
    hide Bitwise;
    var x := f7 * 0x20 + rs2;
    assert Pow2(5) == 32;
    Pow2Of32();
    AndClearBit(32, x, 5);
    BitOfQuotient(x, 5, 0);
    QuotientIs(x, 0x20, f7, rs2);
  }

  lemma SelectFloatOp(op: FloatOp, double: bool, b: Base)
    requires HasFormat(op, double) && Fixes(op, b.rs2, b.funct3)
    requires b.funct7 == PatternOf(op).funct7 + if double then 1 else 0
    ensures SelectFloat(b) == Accept(FloatTy(op))
  {
    hide FloatSelector, FloatUnarySelector, And32, Not32;
    SelectorValues(b);
  }

  /** Decoding the encoding of any F or D register operation yields its type and operand fields, with
      funct7 and funct3 side by side in `funct`. The conversions from signed and from unsigned integers
      share one type. */
  lemma DecodeFloatOp(op: FloatOp, double: bool, rs2: Bits5, rs1: Bits5, funct3: Bits3, rd: Bits5)
    requires HasFormat(op, double) && Fixes(op, rs2, funct3)
    ensures Decode(FloatWord(op, double, rs2, rs1, funct3, rd))
         == Decoded(Insn(FloatTy(op), rd, rs1, rs2, 0,
                         (PatternOf(op).funct7 + if double then 1 else 0) * 8 + funct3, 0), false)
  {
    hide View, RFormat, FunctR, SelectFloat, HasFormat, Fixes, FloatTy,
      IType, SType, UType, JType, BType, R4Type;
    var f7 := PatternOf(op).funct7 + if double then 1 else 0;
    RFields(f7, rs2, rs1, funct3, rd, 0x53);
    var b := View(FloatWord(op, double, rs2, rs1, funct3, rd));
    FunctRIs(b);
    SelectFloatOp(op, double, b);
    FloatTyIsFloat(op);
  }

  lemma FloatTyIsFloat(op: FloatOp)
    ensures !IsCsr(FloatTy(op))
  {
  }

  // ----- what a decoded record tells of the operation ------------------------

  /** An encoded F or D register operation: its format, and every field the encoding holds. */
  datatype FloatInstr =
    FloatInstr(op: FloatOp, double: bool, rs2: Bits5, rs1: Bits5, funct3: Bits3, rd: Bits5)

  /** The fields that select the operation are right. */
  predicate Patterned(i: FloatInstr) { HasFormat(i.op, i.double) && Fixes(i.op, i.rs2, i.funct3) }

  /** Where funct3 is a rounding mode, 5 and 6 are reserved. */
  predicate ReservedMode(op: FloatOp, funct3: Bits3) {
    PatternOf(op).funct3.None? && (funct3 == 5 || funct3 == 6)
  }

  predicate LegalFloat(i: FloatInstr) { Patterned(i) && !ReservedMode(i.op, i.funct3) }

  function EncodeFloat(i: FloatInstr): u32 { FloatWord(i.op, i.double, i.rs2, i.rs1, i.funct3, i.rd) }

  function FloatInsn(i: FloatInstr): Insn {
    Insn(FloatTy(i.op), i.rd, i.rs1, i.rs2, 0,
         (PatternOf(i.op).funct7 + if i.double then 1 else 0) * 8 + i.funct3, 0)
  }

  predicate FromInteger(op: FloatOp) { op == FcvtFromW || op == FcvtFromWu }

  /** The operation of a type, a conversion from an integer taken to be from a signed one. */
  function OpOf(ty: Mnemonic): FloatOp {
    if ty.FADDx? then Fadd else if ty.FSUBx? then Fsub
    else if ty.FMULx? then Fmul else if ty.FDIVx? then Fdiv
    else if ty.FSQRTx? then Fsqrt else if ty.FSGNJx? then Fsgnj
    else if ty.FSGNJNx? then Fsgnjn else if ty.FSGNJXx? then Fsgnjx
    else if ty.FMINx? then Fmin else if ty.FMAXx? then Fmax
    else if ty.FEQx? then Feq else if ty.FLTx? then Flt
    else if ty.FLEx? then Fle else if ty.FCVT_W_x? then FcvtToW
    else if ty.FCVT_WU_x? then FcvtToWu else if ty.FCVT_x_W? then FcvtFromW
    else if ty.FMV_X_W? then FmvToX else if ty.FMV_W_X? then FmvFromX
    else if ty.FCLASSx? then Fclass else if ty.FCVT_S_D? then FcvtSD
    else FcvtDS
  }

  lemma OpOfType(op: FloatOp)
    ensures OpOf(FloatTy(op)) == if op == FcvtFromWu then FcvtFromW else op
    ensures op == FcvtFromWu ==> FloatTy(op) == FloatTy(FcvtFromW)
  {
  }

  /** The type tells all operations apart but the conversions from signed and from unsigned integers. */
  lemma FloatTyExactly(op: FloatOp, op': FloatOp)
    ensures FloatTy(op) == FloatTy(op') <==> op == op' || (FromInteger(op) && FromInteger(op'))
  {
    hide OpOf, FloatTy;
    OpOfType(op);
    OpOfType(op');
  }

  /** The type of a decoded word tells its operation exactly when that is not a conversion from an
      integer; the whole record always tells operation and format. */
  lemma TypeTellsOperation(i: FloatInstr, j: FloatInstr)
    requires Patterned(i) && Patterned(j)
    ensures Decode(EncodeFloat(i)).Decoded? && Decode(EncodeFloat(j)).Decoded?
    ensures var m, n := Decode(EncodeFloat(i)).insn, Decode(EncodeFloat(j)).insn;
      && (m.ty == n.ty <==> i.op == j.op || (FromInteger(i.op) && FromInteger(j.op)))
      && (m == n <==> i == j)
  {
    hide Decode, FloatWord, FloatTy, PatternOf, HasFormat, Fixes;
    DecodeFloatOp(i.op, i.double, i.rs2, i.rs1, i.funct3, i.rd);
    DecodeFloatOp(j.op, j.double, j.rs2, j.rs1, j.funct3, j.rd);
    FloatTyExactly(i.op, j.op);
    EvenPattern(i.op);
    EvenPattern(j.op);
    if FloatInsn(i) == FloatInsn(j) {
      SameFields(PatternOf(i.op).funct7 + if i.double then 1 else 0, i.funct3,
                 PatternOf(j.op).funct7 + if j.double then 1 else 0, j.funct3);
      if i.op != j.op { IntegerSource(i); IntegerSource(j); }
    }
  }

  lemma SameFields(f: nat, x: Bits3, g: nat, y: Bits3)
    requires f * 8 + x == g * 8 + y
    ensures f == g && x == y
  {
  }

  lemma EvenPattern(op: FloatOp)
    ensures PatternOf(op).funct7 % 2 == 0
  {
  }

  lemma IntegerSource(i: FloatInstr)
    requires Patterned(i) && FromInteger(i.op)
    ensures i.rs2 == if i.op == FcvtFromW then 0 else 1
  {
  }

  /** FCVT.S.W f0, x0 and FCVT.S.WU f0, x0 decode to one type. */
  lemma ConversionWitness()
    ensures var w, wu := Decode(0xD000_0053), Decode(0xD010_0053);
      w.Decoded? && wu.Decoded? && w.insn.ty == wu.insn.ty == FCVT_x_W
  {
    hide Decode;
    DecodeFloatOp(FcvtFromW, false, 0, 0, 0, 0);
    DecodeFloatOp(FcvtFromWu, false, 1, 0, 0, 0);
  }

  function FusedTy(op: Bits7): Mnemonic {
    if op == 0x43 then FMADDx else if op == 0x47 then FMSUBx else if op == 0x4B then FNMSUBx else FNMADDx
  }

  /** The four fused multiply-add instructions are told apart by their opcodes; the format bits below
      rs3 are dropped. */
  lemma DecodeFused(op: Bits7, rs3: Bits5, format: nat, rs2: Bits5, rs1: Bits5, funct3: Bits3, rd: Bits5)
    requires IsR4Format(op) && format < 4
    ensures Decode(RFormat(rs3 * 4 + format, rs2, rs1, funct3, rd, op))
         == Decoded(Insn(FusedTy(op), rd, rs1, rs2, rs3, funct3, 0), false)
  {
    hide View, RFormat, RType, IType, SType, UType, JType, BType;
    var f7 := rs3 * 4 + format;
    RFields(f7, rs2, rs1, funct3, rd, op);
    SFields(RFormat(f7, rs2, rs1, funct3, rd, op));
  }
}
