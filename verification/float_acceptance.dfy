/** Which words the decoder takes for F and D register operations, and which execute as float loads,
    stores and moves. */
module FloatAcceptance {
  import opened Words
  import opened Insns
  import opened Decoder
  import opened Encoding
  import opened Fields
  import opened Rebuild
  import opened Emulator
  import opened FloatEncoding
  import opened Floats
  import Acceptance

  /** The word has the fields of the operation, whatever its rounding mode. */
  predicate WrittenAs(w: u32, i: FloatInstr) { Patterned(i) && EncodeFloat(i) == w }

  predicate EncodesFloat(w: u32, i: FloatInstr) { LegalFloat(i) && EncodeFloat(i) == w }

  /** Words the manual reserves, or leaves to RV64, that are taken for moves: FMV.X.D, FMV.D.X, and FMV.W.X
      with a nonzero funct3. */
  predicate ReservedMove(b: Base) {
    && b.opcode == OP_FLOAT_R && b.rs2 == 0
    && ((b.funct7 == 0x71 && b.funct3 == 0) || b.funct7 == 0x79 || (b.funct7 == 0x78 && b.funct3 != 0))
  }

  /** Words of operations that round, with a rounding mode the manual marks invalid. */
  predicate ReservedRounding(b: Base) {
    var f := b.funct7 - b.funct7 % 2;
    && b.opcode == OP_FLOAT_R && (b.funct3 == 5 || b.funct3 == 6)
    && (|| f == 0x00 || f == 0x04 || f == 0x08 || f == 0x0C
        || (f == 0x2C && b.rs2 == 0)
        || ((f == 0x60 || f == 0x68) && b.rs2 < 2)
        || (b.funct7 == 0x20 && b.rs2 == 1) || (b.funct7 == 0x21 && b.rs2 == 0))
  }

  /** The operation a word encodes, if it encodes one. */
  function OpAt(b: Base): FloatOp {
    var f := b.funct7 - b.funct7 % 2;
    if f == 0x00 then Fadd else if f == 0x04 then Fsub else if f == 0x08 then Fmul else if f == 0x0C then Fdiv
    else if f == 0x2C then Fsqrt
    else if f == 0x10 then (if b.funct3 == 0 then Fsgnj else if b.funct3 == 1 then Fsgnjn else Fsgnjx)
    else if f == 0x14 then (if b.funct3 == 0 then Fmin else Fmax)
    else if f == 0x50 then (if b.funct3 == 0 then Fle else if b.funct3 == 1 then Flt else Feq)
    else if f == 0x60 then (if b.rs2 == 0 then FcvtToW else FcvtToWu)
    else if f == 0x68 then (if b.rs2 == 0 then FcvtFromW else FcvtFromWu)
    else if f == 0x70 then (if b.funct3 == 0 then FmvToX else Fclass)
    else if f == 0x78 then FmvFromX
    else if b.rs2 == 1 then FcvtSD else FcvtDS
  }

  function InstrAt(b: Base): FloatInstr {
    FloatInstr(OpAt(b), b.funct7 % 2 == 1, b.rs2, b.rs1, b.funct3, b.rd)
  }

  /** The fields are those of the operation read from them. */
  predicate Matches(b: Base) {
    Patterned(InstrAt(b)) && b.funct7 == PatternOf(OpAt(b)).funct7 + b.funct7 % 2
  }

  lemma AcceptedBinary(b: Base)
    requires SelectFloatBinary(b).Accept? && And32(b.funct7, Not32(1)) == b.funct7 - b.funct7 % 2
    ensures Matches(b)
  {
    hide And32, Not32;
  }

  lemma AcceptedUnary(b: Base)
    requires SelectFloatUnary(b).Accept? && b.opcode == OP_FLOAT_R
    requires FloatUnarySelector(b) == (b.funct7 - b.funct7 % 2) * 0x20 + b.rs2
    requires And32(b.funct7, Not32(1)) == b.funct7 - b.funct7 % 2
    ensures Matches(b) || ReservedMove(b)
  {
    hide And32, Not32, SelectFloatBinary, FloatUnarySelector;
    if SelectFloatUnary(b) == SelectFloatBinary(b) { AcceptedBinary(b); }
  }

  lemma AcceptedFloat(b: Base)
    requires SelectFloat(b).Accept? && b.opcode == OP_FLOAT_R
    ensures Matches(b) || ReservedMove(b)
  {
    hide And32, Not32, SelectFloatUnary, FloatUnarySelector, FloatSelector;
    SelectorValues(b);
    if SelectFloat(b) == SelectFloatUnary(b) { AcceptedUnary(b); }
  }

  lemma ReservedAccepted(b: Base)
    requires ReservedMove(b)
    ensures SelectFloat(b) == Accept(if b.funct7 == 0x71 then FMV_X_W else FMV_W_X)
  {
    hide And32, Not32, SelectFloatBinary, FloatUnarySelector, FloatSelector;
    SelectorValues(b);
  }

  lemma WordMatches(w: u32)
    ensures View(w).opcode == OP_FLOAT_R && Matches(View(w)) ==> WrittenAs(w, InstrAt(View(w)))
  {
    hide View, RFormat, Patterned, OpAt, PatternOf;
    WordAsR(w);
  }

  /** Of the words with the fields of an operation exactly those of a reserved rounding mode are not legal. */
  lemma MatchesRounding(b: Base)
    requires b.opcode == OP_FLOAT_R
    ensures Matches(b) ==> (ReservedRounding(b) <==> ReservedMode(OpAt(b), b.funct3))
    ensures ReservedRounding(b) ==> Matches(b)
  {
  }

  lemma FloatVerdict(w: u32)
    requires View(w).opcode == OP_FLOAT_R
    ensures Valid(Decode(w)) <==> SelectFloat(View(w)).Accept?
    ensures Valid(Decode(w)) ==> Decode(w).insn.ty == SelectFloat(View(w)).ty
    ensures Valid(Decode(w)) ==> Decode(w).insn.funct == 8 * View(w).funct7 + View(w).funct3
  {
    hide View, SelectFloat, FunctR;
    SelectedFloat(View(w));
    Acceptance.NoCsr(View(w));
    FunctRIs(View(w));
  }

  lemma ReservedEncodesNothing(w: u32, i: FloatInstr)
    requires ReservedMove(View(w)) && Patterned(i)
    ensures EncodeFloat(i) != w
  {
    hide View, RFormat, Decode, FloatWord;
    if EncodeFloat(i) == w {
      DecodeFloatOp(i.op, i.double, i.rs2, i.rs1, i.funct3, i.rd);
      ReservedAccepted(View(w));
      FloatVerdict(w);
      NotReserved(i, View(w));
    }
  }

  lemma NotReserved(i: FloatInstr, b: Base)
    requires Patterned(i) && ReservedMove(b)
    requires FloatTy(i.op) == if b.funct7 == 0x71 then FMV_X_W else FMV_W_X
    ensures (PatternOf(i.op).funct7 + if i.double then 1 else 0) * 8 + i.funct3 != 8 * b.funct7 + b.funct3
  {
    assert i.op == FmvToX || i.op == FmvFromX;
  }

  lemma ReservedModeEncodesNothing(w: u32)
    ensures ReservedRounding(View(w)) ==> !exists i :: EncodesFloat(w, i)
  {
    hide View, Decode, EncodeFloat, Matches, ReservedRounding, ReservedMode, Patterned, OpAt;
    var b := View(w);
    if ReservedRounding(b) {
      RoundingOpcode(b);
      MatchesRounding(b);
      WordMatches(w);
      forall i | EncodesFloat(w, i) ensures false { TypeTellsOperation(i, InstrAt(b)); }
    }
  }

  lemma RoundingOpcode(b: Base)
    requires ReservedRounding(b)
    ensures b.opcode == OP_FLOAT_R
  {
  }

  lemma ReservedModeValid(w: u32)
    ensures ReservedRounding(View(w)) ==> Valid(Decode(w))
  {
    hide View, Decode, EncodeFloat, Matches, ReservedRounding, Patterned, OpAt;
    var b := View(w);
    if ReservedRounding(b) {
      RoundingOpcode(b);
      MatchesRounding(b);
      WordMatches(w);
      EncodedIsValid(InstrAt(b));
    }
  }

  /** Under the opcode of the register operations the decoder takes exactly the encodings of F and D
      operations, and besides them the reserved moves and the words with a reserved rounding mode, which
      encode none. */
  lemma TakesFloatExactly(w: u32)
    requires View(w).opcode == OP_FLOAT_R
    ensures Valid(Decode(w))
       <==> (exists i :: EncodesFloat(w, i)) || ReservedMove(View(w)) || ReservedRounding(View(w))
    ensures ReservedMove(View(w)) || ReservedRounding(View(w)) ==> !exists i :: EncodesFloat(w, i)
  {
    hide View, Decode, SelectFloat, EncodeFloat, Patterned, Matches, ReservedMove, ReservedRounding,
      ReservedMode, OpAt;
    var b := View(w);
    FloatVerdict(w);
    if SelectFloat(b).Accept? {
      AcceptedFloat(b);
      if Matches(b) {
          WordMatches(w);
        MatchesRounding(b);
        assert !ReservedRounding(b) ==> EncodesFloat(w, InstrAt(b));
      }
    }
    if ReservedMove(b) {
      ReservedAccepted(b);
      forall i | EncodesFloat(w, i) ensures false { ReservedEncodesNothing(w, i); }
    }
    if ReservedRounding(b) {
      ReservedModeEncodesNothing(w);
      ReservedModeValid(w);
    }
    if i :| EncodesFloat(w, i) { EncodedIsValid(i); }
  }

  /** FADD.S f0, f0, f0 with rounding mode 5 is accepted though it is no encoding. */
  lemma RoundingWitness()
    ensures Valid(Decode(0x0000_5053)) && !exists i :: EncodesFloat(0x0000_5053, i)
  {
    hide Decode, View, EncodeFloat, Patterned, ReservedMode;
    RFields(0, 0, 0, 5, 0, 0x53);
    TakesFloatExactly(0x0000_5053);
  }

  lemma EncodedIsValid(i: FloatInstr)
    requires Patterned(i)
    ensures Valid(Decode(EncodeFloat(i)))
  {
    hide Decode, FloatWord;
    DecodeFloatOp(i.op, i.double, i.rs2, i.rs1, i.funct3, i.rd);
  }

  // ----- loads, stores and moves ---------------------------------------------

  /** The decoder takes the word for a float load, store or move. */
  predicate TakenAsFloatMove(w: u32) { Valid(Decode(w)) && IsFloatMove(Decode(w).insn.ty) }

  predicate InImmediate(offset: int) { -0x800 <= offset < 0x800 }

  predicate IsFloatLoadWord(w: u32, double: bool, fd: Reg, rs1: Reg, offset: int) {
    InImmediate(offset) && w == FloatLoadWord(double, fd, rs1, offset)
  }

  predicate IsFloatStoreWord(w: u32, double: bool, fs: Reg, rs1: Reg, offset: int) {
    InImmediate(offset) && w == FloatStoreWord(double, fs, rs1, offset)
  }

  /** The word encodes FLW, FLD, FSW, FSD, FMV.X.W or FMV.W.X. */
  ghost predicate EncodesFloatMove(w: u32) {
    || (exists double, fd, rs1, offset :: IsFloatLoadWord(w, double, fd, rs1, offset))
    || (exists double, fs, rs1, offset :: IsFloatStoreWord(w, double, fs, rs1, offset))
    || (exists r: Reg, r': Reg :: w == MoveFromFloatWord(r, r') || w == MoveToFloatWord(r, r'))
  }

  lemma LoadTaken(w: u32)
    requires View(w).opcode == OP_FLOAT_LOAD
    ensures TakenAsFloatMove(w) <==> View(w).funct3 == 2 || View(w).funct3 == 3
    ensures TakenAsFloatMove(w) ==> EncodesFloatMove(w)
  {
    hide View, IFormat, ImmI, Acceptance.SignedField, EncodesFloatMove;
    var b := View(w);
    if TakenAsFloatMove(w) {
      WordAsI(w);
      Acceptance.SignedFieldBack(b.i_11_0);
      Acceptance.SignedFieldRange(b.i_11_0, 0x800);
      var offset := Acceptance.SignedField(b.i_11_0, 0x800);
      assert IsFloatLoadWord(w, b.funct3 == 3, b.rd, b.rs1, offset);
      assert EncodesFloatMove(w) by { LoadEncodes(w, b.funct3 == 3, b.rd, b.rs1, offset); }
    }
  }

  lemma LoadEncodes(w: u32, double: bool, fd: Reg, rs1: Reg, offset: int)
    requires IsFloatLoadWord(w, double, fd, rs1, offset)
    ensures EncodesFloatMove(w)
  {
    hide FloatLoadWord;
  }

  lemma StoreTaken(w: u32)
    requires View(w).opcode == OP_FLOAT_STORE
    ensures TakenAsFloatMove(w) <==> View(w).funct3 == 2 || View(w).funct3 == 3
    ensures TakenAsFloatMove(w) ==> EncodesFloatMove(w)
  {
    hide View, SFormat, ImmS, Acceptance.SignedField, EncodesFloatMove;
    var b := View(w);
    if TakenAsFloatMove(w) {
      WordAsS(w);
      var f := 0x20 * b.s_11_5 + b.s_4_0;
      Acceptance.SignedFieldBack(f);
      Acceptance.SignedFieldRange(f, 0x800);
      var offset := Acceptance.SignedField(f, 0x800);
      assert IsFloatStoreWord(w, b.funct3 == 3, b.rs2, b.rs1, offset);
      assert EncodesFloatMove(w) by { StoreEncodes(w, b.funct3 == 3, b.rs2, b.rs1, offset); }
    }
  }

  lemma StoreEncodes(w: u32, double: bool, fs: Reg, rs1: Reg, offset: int)
    requires IsFloatStoreWord(w, double, fs, rs1, offset)
    ensures EncodesFloatMove(w)
  {
    hide FloatStoreWord;
  }

  lemma MoveTaken(w: u32)
    requires View(w).opcode == OP_FLOAT_R && TakenAsFloatMove(w)
    ensures EncodesFloatMove(w) || ReservedMove(View(w))
  {
    hide View, Decode, SelectFloat, RFormat, EncodesFloatMove, Matches;
    var b := View(w);
    FloatVerdict(w);
    AcceptedFloat(b);
    if Matches(b) {
      WordMatches(w);
      var i := InstrAt(b);
      DecodeFloatOp(i.op, i.double, i.rs2, i.rs1, i.funct3, i.rd);
      MoveEncodes(w, i);
    }
  }

  lemma MoveEncodes(w: u32, i: FloatInstr)
    requires WrittenAs(w, i) && IsFloatMove(FloatTy(i.op))
    ensures EncodesFloatMove(w)
  {
    hide RFormat;
    assert i.op == FmvToX || i.op == FmvFromX;
    assert w == if i.op == FmvToX then MoveFromFloatWord(i.rd, i.rs1) else MoveToFloatWord(i.rd, i.rs1);
  }

  lemma OtherOpcodes(w: u32)
    requires TakenAsFloatMove(w)
    ensures var op := View(w).opcode; op == OP_FLOAT_LOAD || op == OP_FLOAT_STORE || op == OP_FLOAT_R
  {
    hide View, Decode;
    DecodedOpcode(w);
  }

  lemma EncodedMoveTaken(w: u32)
    requires EncodesFloatMove(w)
    ensures TakenAsFloatMove(w)
  {
    hide View, Decode, FloatLoadWord, FloatStoreWord, MoveFromFloatWord, MoveToFloatWord;
    if double, fd, rs1, offset :| IsFloatLoadWord(w, double, fd, rs1, offset) {
      DecodeFloatLoad(double, fd, rs1, offset);
    } else if double, fs, rs1, offset :| IsFloatStoreWord(w, double, fs, rs1, offset) {
      DecodeFloatStore(double, fs, rs1, offset);
    } else {
      var r: Reg, r': Reg :| w == MoveFromFloatWord(r, r') || w == MoveToFloatWord(r, r');
      DecodeMoves(r, r');
    }
  }

  /** The words that execute as float loads, stores and moves are exactly the encodings of FLW, FLD, FSW,
      FSD, FMV.X.W and FMV.W.X, and the reserved moves. */
  lemma TakesFloatMovesExactly(w: u32)
    ensures TakenAsFloatMove(w) <==> EncodesFloatMove(w) || ReservedMove(View(w))
  {
    hide View, Decode, SelectFloat, EncodesFloatMove, ReservedMove;
    if TakenAsFloatMove(w) {
      OtherOpcodes(w);
      var op := View(w).opcode;
      if op == OP_FLOAT_LOAD { LoadTaken(w); }
      else if op == OP_FLOAT_STORE { StoreTaken(w); }
      else { MoveTaken(w); }
    }
    if EncodesFloatMove(w) { EncodedMoveTaken(w); }
    if ReservedMove(View(w)) { ReservedTaken(w); }
  }

  lemma ReservedTaken(w: u32)
    requires ReservedMove(View(w))
    ensures TakenAsFloatMove(w)
    ensures Decode(w).insn.ty == if View(w).funct7 == 0x71 then FMV_X_W else FMV_W_X
  {
    hide View, Decode, SelectFloat;
    ReservedAccepted(View(w));
    FloatVerdict(w);
  }

  /** FMV.X.D x0, f0 is taken for FMV.X.W, and FMV.D.X f0, x0 for FMV.W.X. */
  lemma ReservedMoveWitness()
    ensures Decode(0xE200_0053).Decoded? && Decode(0xE200_0053).insn.ty == FMV_X_W
    ensures Decode(0xF200_0053).Decoded? && Decode(0xF200_0053).insn.ty == FMV_W_X
  {
    hide Decode, View;
    RFields(0x71, 0, 0, 0, 0, 0x53);
    RFields(0x79, 0, 0, 0, 0, 0x53);
    ReservedTaken(0xE200_0053);
    ReservedTaken(0xF200_0053);
  }

  // ----- fused operations ----------------------------------------------------

  /** The word encodes a single- or double-precision fused multiply-add with a valid rounding mode. */
  ghost predicate EncodesFused(w: u32) {
    exists op: Bits7, rs3: Bits5, double: bool, rs2: Bits5, rs1: Bits5, funct3: Bits3, rd: Bits5 ::
      IsFusedWord(w, op, rs3, double, rs2, rs1, funct3, rd)
  }

  predicate IsFusedWord(w: u32, op: Bits7, rs3: Bits5, double: bool, rs2: Bits5, rs1: Bits5, funct3: Bits3,
                        rd: Bits5) {
    && IsR4Format(op) && funct3 != 5 && funct3 != 6
    && w == RFormat(rs3 * 4 + if double then 1 else 0, rs2, rs1, funct3, rd, op)
  }

  /** Every word of the four fused opcodes is accepted; those that encode an F or D operation are the
      ones with a format below 2 and a valid rounding mode. */
  lemma TakesFusedExactly(w: u32)
    requires IsR4Format(View(w).opcode)
    ensures Valid(Decode(w))
    ensures EncodesFused(w) <==> View(w).funct7 % 4 < 2 && View(w).funct3 != 5 && View(w).funct3 != 6
  {
    hide View, Decode, RFormat, IsR4Format;
    var b := View(w);
    WordAsR(w);
    var rs3, format := b.funct7 / 4, b.funct7 % 4;
    assert b.funct7 == rs3 * 4 + format;
    DecodeFused(b.opcode, rs3, format, b.rs2, b.rs1, b.funct3, b.rd);
    if format < 2 && b.funct3 != 5 && b.funct3 != 6 {
      assert IsFusedWord(w, b.opcode, rs3, format == 1, b.rs2, b.rs1, b.funct3, b.rd);
    }
    if op: Bits7, rs3: Bits5, double: bool, rs2: Bits5, rs1: Bits5, funct3: Bits3, rd: Bits5 :|
      IsFusedWord(w, op, rs3, double, rs2, rs1, funct3, rd)
    {
      RFields(rs3 * 4 + if double then 1 else 0, rs2, rs1, funct3, rd, op);
    }
  }
}
