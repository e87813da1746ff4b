/** What a step over each F and D operation does: the decoder keeps funct7 and funct3 in `funct`, while
    the dispatcher looks there for the single and double format codes. */
module FloatSteps {
  import opened Words
  import opened Insns
  import opened Decoder
  import opened Encoding
  import opened Rebuild
  import opened Emulator
  import opened FloatEncoding
  import opened FloatAcceptance
  import opened Frame
  import opened Floats
  import Alu

  /** Of all words taken for register operations, only FADD.S words whose rounding mode is 2 or 3 show the
      dispatcher a format code. */
  lemma FormatCodesReached(w: u32)
    requires View(w).opcode == OP_FLOAT_R && Valid(Decode(w))
    ensures HasFormatFunct(Decode(w).insn) <==> View(w).funct7 == 0 && (View(w).funct3 == 2 || View(w).funct3 == 3)
    ensures HasFormatFunct(Decode(w).insn) ==> Decode(w).insn.ty == FADDx
  {
    hide View, Decode, SelectFloat, OpAt;
    var b := View(w);
    FloatVerdict(w);
    if b.funct7 == 0 {
      AcceptedFloat(b);
      ZeroIsAdd(b);
      assert Matches(b);
      WordMatches(w);
      var i := InstrAt(b);
      DecodeFloatOp(i.op, i.double, i.rs2, i.rs1, i.funct3, i.rd);
    }
  }

  lemma ZeroIsAdd(b: Base)
    requires b.funct7 == 0
    ensures OpAt(b) == Fadd && !ReservedMove(b)
  {
  }

  /** A step over an encoded operation. FADD.S is computed in single precision under rounding mode 2 and
      in double precision under mode 3; minimum, maximum and comparisons write nothing; the format
      conversions and the moves do their work; FCLASS suspends; all else is undefined. */
  function FloatOutcome(i: FloatInstr, s: State, host: Host): Outcome
    requires Shaped(s)
  {
    match i.op
    case FmvToX => Running(Advance(SetReg(s, i.rd, Wrap32(NanUnbox(s.fregs[i.rs1])))))
    case FmvFromX => Running(Advance(SetFreg(s, i.rd, NanBox(s.regs[i.rs1]))))
    case Fclass => Running(s.(suspended := true))
    case FcvtSD => Running(Advance(WriteFloat(s, i.rd, false, host.fpu)))
    case FcvtDS => Running(Advance(WriteFloat(s, i.rd, true, host.fpu)))
    case Fadd =>
      if !i.double && (i.funct3 == 2 || i.funct3 == 3) then
        Running(Advance(WriteFloat(s, i.rd, i.funct3 == 3, host.fpu)))
      else Unspecified
    case Fmin => Running(Advance(s))
    case Fmax => Running(Advance(s))
    case Feq => Running(Advance(s))
    case Flt => Running(Advance(s))
    case Fle => Running(Advance(s))
    case _ => Unspecified
  }

  lemma FloatStep(i: FloatInstr, s: State, host: Host)
    requires Patterned(i) && Shaped(s) && !s.suspended && FetchesWord(s, EncodeFloat(i))
    ensures Step(s, host) == FloatOutcome(i, Prepared(s, FloatInsn(i)), host)
  {
    hide Decode, EncodeFloat, FetchesWord, Step, Execute, FloatOutcome, Patterned, FloatInsn, FloatTy;
    DecodesTo(i);
    StepDecoded(s, EncodeFloat(i), FloatInsn(i), host);
    ExecutesTo(i, Prepared(s, FloatInsn(i)), host);
  }

  lemma DecodesTo(i: FloatInstr)
    requires Patterned(i)
    ensures Decode(EncodeFloat(i)) == Decoded(FloatInsn(i), false) && FloatInsn(i).ty != INVALID
  {
    hide Decode, FloatWord;
    DecodeFloatOp(i.op, i.double, i.rs2, i.rs1, i.funct3, i.rd);
  }

  lemma ExecutesTo(i: FloatInstr, s: State, host: Host)
    requires Patterned(i) && Shaped(s)
    ensures Fits(FloatInsn(i)) && Execute(s, FloatInsn(i), host) == FloatOutcome(i, s, host)
  {
    hide ExecFloatUnit, ExecFloatMove, NanBox, NanUnbox;
    FunctCodes(i);
    IsUnitOrMove(i.op);
    if IsFloatUnit(FloatTy(i.op)) { UnitTo(i, s, host); }
    if IsFloatMove(FloatTy(i.op)) { MoveTo(i, s, host); }
  }

  lemma FunctCodes(i: FloatInstr)
    requires Patterned(i)
    ensures HasFormatFunct(FloatInsn(i)) <==> i.op == Fadd && !i.double && (i.funct3 == 2 || i.funct3 == 3)
    ensures HasFormatFunct(FloatInsn(i)) ==> FloatInsn(i).funct == i.funct3
  {
  }

  lemma IsUnitOrMove(op: FloatOp)
    ensures var ty := FloatTy(op);
      && !Alu.IsRegReg(ty) && !Alu.IsRegImm(ty) && !Alu.IsBranch(ty) && !IsLoad(ty) && !Emulator.IsStore(ty)
      && !IsJumpOrUpper(ty) && !IsStub(ty)
      && (IsFloatMove(ty) <==> op == FmvToX || op == FmvFromX)
      && (IsFloatUnit(ty) <==> op != FmvToX && op != FmvFromX && op != Fclass)
      && (ty.FCLASSx? <==> op == Fclass)
  {
  }

  lemma UnitTo(i: FloatInstr, s: State, host: Host)
    requires Patterned(i) && Shaped(s) && IsFloatUnit(FloatTy(i.op))
    ensures ExecFloatUnit(s, FloatInsn(i), host) == FloatOutcome(i, s, host)
  {
    hide WriteFloat, HasFormatFunct, Patterned;
    FunctCodes(i);
  }

  lemma MoveTo(i: FloatInstr, s: State, host: Host)
    requires Patterned(i) && Shaped(s) && IsFloatMove(FloatTy(i.op))
    ensures ExecFloatMove(s, FloatInsn(i)) == FloatOutcome(i, s, host)
  {
    hide NanBox, NanUnbox, ExecFloatLoad, ExecFloatStore, Wrap32;
    IsUnitOrMove(i.op);
  }

  /** A fused multiply-add goes by its rounding mode too: 2 computes in single precision, 3 in double,
      whatever its format bits say, and any other mode is undefined. */
  lemma FusedStep(op: Bits7, rs3: Bits5, format: nat, rs2: Bits5, rs1: Bits5, funct3: Bits3, rd: Bits5,
                  s: State, host: Host)
    requires IsR4Format(op) && format < 4 && Shaped(s) && !s.suspended
    requires FetchesWord(s, RFormat(rs3 * 4 + format, rs2, rs1, funct3, rd, op))
    ensures var s1 := Prepared(s, Insn(FusedTy(op), rd, rs1, rs2, rs3, funct3, 0));
      Step(s, host) == if funct3 == 2 || funct3 == 3
                       then Running(Advance(WriteFloat(s1, rd, funct3 == 3, host.fpu)))
                       else Unspecified
  {
    hide Decode, RFormat, FetchesWord, Step, WriteFloat, Execute;
    DecodeFused(op, rs3, format, rs2, rs1, funct3, rd);
    var n := Insn(FusedTy(op), rd, rs1, rs2, rs3, funct3, 0);
    StepDecoded(s, RFormat(rs3 * 4 + format, rs2, rs1, funct3, rd, op), n, host);
    FusedExecutes(op, n, Prepared(s, n), host);
  }

  lemma FusedExecutes(op: Bits7, n: Insn, s: State, host: Host)
    requires Shaped(s) && Fits(n) && n.ty == FusedTy(op)
    ensures Execute(s, n, host)
         == if n.funct == 2 || n.funct == 3
            then Running(Advance(WriteFloat(s, n.rd, n.funct == 3, host.fpu)))
            else Unspecified
  {
    hide WriteFloat, Advance, ExecFloatUnit;
    FusedTypes(op);
    FusedUnit(op, n, s, host);
  }

  lemma FusedTypes(op: Bits7)
    ensures var ty := FusedTy(op);
      && IsFloatUnit(ty) && !Alu.IsRegReg(ty) && !Alu.IsRegImm(ty) && !Alu.IsBranch(ty) && !IsLoad(ty)
      && !Emulator.IsStore(ty) && !IsJumpOrUpper(ty) && !IsFloatMove(ty) && !IsStub(ty)
  {
  }

  lemma FusedUnit(op: Bits7, n: Insn, s: State, host: Host)
    requires Shaped(s) && Fits(n) && n.ty == FusedTy(op) && IsFloatUnit(n.ty)
    ensures ExecFloatUnit(s, n, host)
         == if n.funct == 2 || n.funct == 3
            then Running(Advance(WriteFloat(s, n.rd, n.funct == 3, host.fpu)))
            else Unspecified
  {
    hide WriteFloat, Advance, IsFloatUnit;
  }

  // ----- what the registers hold afterwards ----------------------------------

  /** The step goes on to the next pc with these registers and nothing else changed but the slots. */
  ghost predicate Leaves(s: State, o: Outcome, regs: seq<u32>, fregs: seq<u64>) {
    && o.Running? && o.s.regs == regs && o.s.fregs == fregs && o.s.mem == s.mem
    && o.s.pc == (s.pc + 4) % 0x1_0000_0000 && o.s.suspended == s.suspended
  }

  lemma WriteFloatValue(s: State, rd: nat, bits: u64)
    requires Shaped(s) && rd < 32
    ensures WriteFloat(s, rd, true, bits) == s.(fregs := s.fregs[rd := bits])
    ensures WriteFloat(s, rd, false, bits)
         == s.(fregs := s.fregs[rd := 0xFFFF_FFFF_0000_0000 + bits % 0x1_0000_0000])
  {
    hide NanBox;
    NanBoxValue(Wrap32(bits));
  }

  /** The operations whose arm of the dispatcher does not fall into undefined behaviour. */
  predicate IsDefined(i: FloatInstr) {
    var op := i.op;
    || op.FcvtDS? || op.FcvtSD? || op.FmvToX? || op.FmvFromX? || op.Fmin? || op.Fmax? || op.Feq? || op.Flt?
    || op.Fle? || op.Fclass? || (op.Fadd? && !i.double && (i.funct3 == 2 || i.funct3 == 3))
  }

  /** After a step over an encoded operation. FCVT.D.S, and FADD.S under mode 3, leave the host's 64 bits;
      FCVT.S.D, and FADD.S under mode 2, leave its low 32 bits below 32 ones; FMV.X.W gives the low 32 bits
      of the float register and FMV.W.X puts 32 ones above the integer; minimum, maximum and comparisons
      leave all registers as they were; FCLASS suspends without moving on; all else is undefined. */
  lemma FloatResult(i: FloatInstr, s: State, host: Host)
    requires Patterned(i) && Shaped(s) && !s.suspended && FetchesWord(s, EncodeFloat(i))
    ensures var o, op, x, f := Step(s, host), i.op, s.regs[0 := 0], s.fregs;
      var single, double := op.Fadd? && !i.double && i.funct3 == 2, op.Fadd? && !i.double && i.funct3 == 3;
      && (op.FcvtDS? || double ==> Leaves(s, o, x, f[i.rd := host.fpu]))
      && (op.FcvtSD? || single ==>
            Leaves(s, o, x, f[i.rd := 0xFFFF_FFFF_0000_0000 + host.fpu % 0x1_0000_0000]))
      && (op.FmvToX? ==> Leaves(s, o, x[i.rd := f[i.rs1] % 0x1_0000_0000], f))
      && (op.FmvFromX? ==> Leaves(s, o, x, f[i.rd := 0xFFFF_FFFF_0000_0000 + x[i.rs1]]))
      && (op.Fmin? || op.Fmax? || op.Feq? || op.Flt? || op.Fle? ==> Leaves(s, o, x, f))
      && (op.Fclass? ==>
            && o.Running? && o.s.suspended && o.s.pc == s.pc
            && o.s.regs == x && o.s.fregs == f && o.s.mem == s.mem)
      && (!IsDefined(i) ==> o.Unspecified?)
  {
    hide Step, FetchesWord, EncodeFloat, FloatInsn, Patterned, WriteFloat, NanBox, NanUnbox;
    FloatStep(i, s, host);
    var s1 := Prepared(s, FloatInsn(i));
    WriteFloatValue(s1, i.rd, host.fpu);
    NanUnboxValue(s.fregs[i.rs1]);
    NanBoxValue(s1.regs[i.rs1]);
  }

  /** After a step over a fused multiply-add: under mode 3 the host's 64 bits, under mode 2 its low 32 bits
      below 32 ones, and otherwise undefined. */
  lemma FusedResult(op: Bits7, rs3: Bits5, format: nat, rs2: Bits5, rs1: Bits5, funct3: Bits3, rd: Bits5,
                    s: State, host: Host)
    requires IsR4Format(op) && format < 4 && Shaped(s) && !s.suspended
    requires FetchesWord(s, RFormat(rs3 * 4 + format, rs2, rs1, funct3, rd, op))
    ensures var o, x, f := Step(s, host), s.regs[0 := 0], s.fregs;
      && (funct3 == 3 ==> Leaves(s, o, x, f[rd := host.fpu]))
      && (funct3 == 2 ==> Leaves(s, o, x, f[rd := 0xFFFF_FFFF_0000_0000 + host.fpu % 0x1_0000_0000]))
      && (funct3 != 2 && funct3 != 3 ==> o.Unspecified?)
  {
    hide Step, FetchesWord, RFormat, WriteFloat;
    FusedStep(op, rs3, format, rs2, rs1, funct3, rd, s, host);
    WriteFloatValue(Prepared(s, Insn(FusedTy(op), rd, rs1, rs2, rs3, funct3, 0)), rd, host.fpu);
  }

  /** What the arms that find a format code in `funct` write: comparisons a truth value and conversions
      to integers the low word to rd, all others the host's bits in that format to the float register. */
  lemma FormatArms(n: Insn, s: State, host: Host)
    requires Shaped(s) && Fits(n) && IsFloatUnit(n.ty) && (n.funct == 2 || n.funct == 3)
    requires n.ty != FCVT_S_D && n.ty != FCVT_D_S
    ensures var o, low := ExecFloatUnit(s, n, host), host.fpu % 0x1_0000_0000;
      if n.ty in {FEQx, FLTx, FLEx} then Leaves(s, o, s.regs[n.rd := if host.fpu == 0 then 0 else 1], s.fregs)
      else if n.ty in {FCVT_W_x, FCVT_WU_x} then Leaves(s, o, s.regs[n.rd := low], s.fregs)
      else Leaves(s, o, s.regs, s.fregs[n.rd := if n.funct == 3 then host.fpu else 0xFFFF_FFFF_0000_0000 + low])
  {
    hide WriteFloat, IsFloatUnit, NanBox;
    WriteFloatValue(s, n.rd, host.fpu);
  }

  /** FADD.D f0, f0, f0 falls into undefined behaviour; FEQ.S x1, f0, f0 leaves x1 as it was. */
  lemma FormatWitness(s: State, host: Host)
    requires Shaped(s) && !s.suspended
    ensures FetchesWord(s, 0x0200_0053) ==> Step(s, host) == Unspecified
    ensures FetchesWord(s, 0xA000_20D3) ==>
              Step(s, host).Running? && Step(s, host).s.regs == s.regs[0 := 0]
  {
    hide Step, FetchesWord, Shaped;
    var add := FloatInstr(Fadd, true, 0, 0, 0, 0);
    var feq := FloatInstr(Feq, false, 0, 0, 2, 1);
    assert EncodeFloat(add) == 0x0200_0053 && EncodeFloat(feq) == 0xA000_20D3;
    if FetchesWord(s, 0x0200_0053) { FloatStep(add, s, host); }
    if FetchesWord(s, 0xA000_20D3) { FloatStep(feq, s, host); }
  }
}
