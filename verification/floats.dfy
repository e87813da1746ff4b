/** Moving floating-point bit patterns: NaN boxing, float loads and stores, and moves to and from the
    integer registers (RISC-V Instruction Set Manual, Volume I, sections 11.5, 11.7 and 12.2). */
module Floats {
  import opened Words
  import opened Insns
  import opened Decoder
  import opened Encoding
  import opened FloatEncoding
  import opened RoundTrip
  import opened Memory
  import opened ProgramBreak
  import opened Emulator
  import opened Refinement
  import opened Frame

  // ----- NaN boxing ----------------------------------------------------------

  /** Boxing sets the upper 32 bits of the register and keeps the value below them. */
  lemma NanBoxValue(v: u32)
    ensures NanBox(v) == 0xFFFF_FFFF_0000_0000 + v
  {
    Pow2Of32();
    Pow2Of64();
    hide Pow2, Bitwise;
    OrHighMask(64, v, 32);
  }

  lemma NanUnboxValue(v: u64)
    ensures NanUnbox(v) == v % TWO32
  {
    Pow2Of32();
    hide Pow2, Bitwise;
    AndLowMask(64, v, 32);
  }

  lemma UnboxBox(v: u32)
    ensures NanUnbox(NanBox(v)) == v
  {
    hide NanBox, NanUnbox;
    NanBoxValue(v);
    NanUnboxValue(NanBox(v));
    QuotientIs(0xFFFF_FFFF_0000_0000 + v, TWO32, 0xFFFF_FFFF, v);
  }

  // ----- the instructions and their words ------------------------------------

  /** The format field of single and double accesses. */
  function FloatFunct(double: bool): Bits3 { if double then 3 else 2 }

  function FloatWidth(double: bool): nat { if double then 8 else 4 }

  /** FLW and FLD */
  function FloatLoadWord(double: bool, fd: Reg, rs1: Reg, offset: int): u32 {
    IFormat(offset % 0x1000, rs1, FloatFunct(double), fd, 0x07)
  }

  /** FSW and FSD */
  function FloatStoreWord(double: bool, fs: Reg, rs1: Reg, offset: int): u32 {
    SFormat(offset % 0x1000, fs, rs1, FloatFunct(double), 0x27)
  }

  /** FMV.W.X */
  function MoveToFloatWord(fd: Reg, rs1: Reg): u32 { RFormat(0x78, 0, rs1, 0, fd, 0x53) }

  /** FMV.X.W */
  function MoveFromFloatWord(rd: Reg, fs: Reg): u32 { RFormat(0x70, 0, fs, 0, rd, 0x53) }

  function FloatLoadInsn(double: bool, fd: Reg, rs1: Reg, offset: int): Insn {
    Insn(FLx, fd, rs1, 0, 0, FloatFunct(double), Wrap32(offset))
  }

  function FloatStoreInsn(double: bool, fs: Reg, rs1: Reg, offset: int): Insn {
    Insn(FSx, 0, rs1, fs, 0, FloatFunct(double), Wrap32(offset))
  }

  lemma DecodeFloatLoad(double: bool, fd: Reg, rs1: Reg, offset: int)
    requires -0x800 <= offset < 0x800
    ensures Decode(FloatLoadWord(double, fd, rs1, offset))
         == Decoded(FloatLoadInsn(double, fd, rs1, offset), false)
  {
    hide View, Decode, IFormat;
    DecodeI(offset, rs1, FloatFunct(double), fd, OP_FLOAT_LOAD);
  }

  lemma DecodeFloatStore(double: bool, fs: Reg, rs1: Reg, offset: int)
    requires -0x800 <= offset < 0x800
    ensures Decode(FloatStoreWord(double, fs, rs1, offset))
         == Decoded(FloatStoreInsn(double, fs, rs1, offset), false)
  {
    hide View, Decode, SFormat;
    DecodeS(offset, fs, rs1, FloatFunct(double), OP_FLOAT_STORE);
  }

  lemma DecodeMoves(rd: Reg, rs1: Reg)
    ensures Decode(MoveFromFloatWord(rd, rs1)) == Decoded(Insn(FMV_X_W, rd, rs1, 0, 0, 0x380, 0), false)
    ensures Decode(MoveToFloatWord(rd, rs1)) == Decoded(Insn(FMV_W_X, rd, rs1, 0, 0, 0x3C0, 0), false)
  {
    hide Decode, RFormat;
    DecodeFloatOp(FmvToX, false, 0, rs1, 0, rd);
    DecodeFloatOp(FmvFromX, false, 0, rs1, 0, rd);
  }

  // ----- copying through a floating register ---------------------------------

  /** What a float load leaves in the register, a float store of the same width puts back unchanged. */
  lemma StoredIsLoaded(bs: seq<u8>, double: bool)
    requires |bs| == FloatWidth(double)
    ensures FromBytes(bs) < if double then TWO64 else TWO32
    ensures ToBytes(if double then FromBytes(bs) else NanUnbox(NanBox(FromBytes(bs))), FloatWidth(double)) == bs
  {
    hide NanBox, NanUnbox, FromBytes, ToBytes;
    Pow2Of32();
    Pow2Of64();
    FromBytesBound(bs);
    BytesRoundTrip(bs);
    if !double { UnboxBox(FromBytes(bs)); }
  }

  lemma LoadStep(s: State, double: bool, fd: Reg, rs1: Reg, offset: int, host: Host)
    requires Shaped(s) && !s.suspended && -0x800 <= offset < 0x800
    requires FetchesWord(s, FloatLoadWord(double, fd, rs1, offset))
    ensures var s1 := Prepared(s, FloatLoadInsn(double, fd, rs1, offset));
      Step(s, host) == ExecFloatLoad(s1, FloatLoadInsn(double, fd, rs1, offset))
  {
    hide Decode, Memory.Load, FromBytes, Step, ExecFloatLoad, FloatLoadWord, FetchesWord;
    DecodeFloatLoad(double, fd, rs1, offset);
    StepDecoded(s, FloatLoadWord(double, fd, rs1, offset), FloatLoadInsn(double, fd, rs1, offset), host);
  }

  lemma StoreStep(s: State, double: bool, fs: Reg, rs1: Reg, offset: int, host: Host)
    requires Shaped(s) && !s.suspended && -0x800 <= offset < 0x800
    requires FetchesWord(s, FloatStoreWord(double, fs, rs1, offset))
    ensures var s1 := Prepared(s, FloatStoreInsn(double, fs, rs1, offset));
      Step(s, host) == ExecFloatStore(s1, FloatStoreInsn(double, fs, rs1, offset))
  {
    hide Decode, Memory.Load, FromBytes, Step, ExecFloatStore, FloatStoreWord, FetchesWord;
    DecodeFloatStore(double, fs, rs1, offset);
    StepDecoded(s, FloatStoreWord(double, fs, rs1, offset), FloatStoreInsn(double, fs, rs1, offset), host);
  }

  /** The address an access names; x0 counts as zero. */
  function Address(s: State, rs1: Reg, offset: int): u32
    requires Shaped(s)
  {
    Wrap32(if rs1 == 0 then offset else s.regs[rs1] + offset)
  }

  lemma LoadsInto(s: State, double: bool, fd: Reg, rs1: Reg, offset: int, host: Host)
    requires Inv(s) && !s.suspended && -0x800 <= offset < 0x800
    requires FetchesWord(s, FloatLoadWord(double, fd, rs1, offset))
    requires Inside(Layout(s.mem), Address(s, rs1, offset), FloatWidth(double))
    ensures AllMapped(Flat(s.mem), Address(s, rs1, offset), FloatWidth(double))
    ensures var bs := FlatLoad(Flat(s.mem), Address(s, rs1, offset), FloatWidth(double));
      var o := Step(s, host);
      && FromBytes(bs) < (if double then TWO64 else TWO32)
      && o.Running? && Inv(o.s) && !o.s.suspended && o.s.mem == s.mem && o.s.pc == Wrap32(s.pc + 4)
      && o.s.regs == s.regs[0 := 0]
      && o.s.fregs[fd] == if double then FromBytes(bs) else NanBox(FromBytes(bs))
  {
    hide MemOk, HasHeap, Heap, Flat, Inside, Step, FetchesWord, FloatLoadWord, FromBytes, NanBox, Memory.Load;
    LoadStep(s, double, fd, rs1, offset, host);
    WrapSum(if rs1 == 0 then 0 else s.regs[rs1], offset);
    LoadIsFlat(s.mem, Address(s, rs1, offset), FloatWidth(double));
    StoredIsLoaded(FlatLoad(Flat(s.mem), Address(s, rs1, offset), FloatWidth(double)), double);
  }

  /** FLW and FLD trap exactly when the first byte is unmapped, go on exactly when the first region to
      cover it holds the last, and otherwise are undefined. Inside a region FLD leaves the eight bytes'
      value in the register and FLW the four bytes' value below 32 ones. */
  lemma FloatLoadExactly(s: State, double: bool, fd: Reg, rs1: Reg, offset: int, host: Host)
    requires Inv(s) && !s.suspended && -0x800 <= offset < 0x800
    requires FetchesWord(s, FloatLoadWord(double, fd, rs1, offset))
    ensures var a, n, o := Address(s, rs1, offset), if double then 8 else 4, Step(s, host);
      && (o.Fatal? <==> a !in Flat(s.mem))
      && (o.Running? <==> Contained(Layout(s.mem), a, n))
      && (o.Fatal? || o.Running? || o.Unspecified?)
      && (Inside(Layout(s.mem), a, n) ==>
            && AllMapped(Flat(s.mem), a, n)
            && var v := FromBytes(FlatLoad(Flat(s.mem), a, n));
               && o.Running? && Shaped(o.s)
               && o.s.regs == s.regs[0 := 0] && o.s.mem == s.mem && o.s.pc == Wrap32(s.pc + 4)
               && forall k :: 0 <= k < 32 ==>
                    o.s.fregs[k] == if k != fd then s.fregs[k] else if double then v else 0xFFFF_FFFF_0000_0000 + v)
  {
    hide MemOk, HasHeap, Heap, Flat, Inside, Contained, Step, FetchesWord, FloatLoadWord, FromBytes, NanBox,
      Memory.Load;
    LoadStep(s, double, fd, rs1, offset, host);
    WrapSum(if rs1 == 0 then 0 else s.regs[rs1], offset);
    var a, n := Address(s, rs1, offset), FloatWidth(double);
    LoadIsFlat(s.mem, a, n);
    if Inside(Layout(s.mem), a, n) {
      var bs := FlatLoad(Flat(s.mem), a, n);
      StoredIsLoaded(bs, double);
      if !double { NanBoxValue(FromBytes(bs)); }
    }
  }

  /** FSW and FSD trap, go on and are undefined on the same addresses. Inside a region FSD stores the
      register and FSW its low 32 bits, boxed or not, and no other byte changes. */
  lemma FloatStoreExactly(s: State, double: bool, fs: Reg, rs1: Reg, offset: int, host: Host)
    requires Inv(s) && !s.suspended && -0x800 <= offset < 0x800
    requires FetchesWord(s, FloatStoreWord(double, fs, rs1, offset))
    ensures var a, n, o := Address(s, rs1, offset), if double then 8 else 4, Step(s, host);
      && (o.Fatal? <==> a !in Flat(s.mem))
      && (o.Running? <==> Contained(Layout(s.mem), a, n))
      && (o.Fatal? || o.Running? || o.Unspecified?)
      && (o.Running? ==>
            Inv(o.s) && o.s.regs == s.regs[0 := 0] && o.s.fregs == s.fregs && o.s.pc == Wrap32(s.pc + 4))
      && (Inside(Layout(s.mem), a, n) ==>
            && o.Running? && Inv(o.s)
            && Flat(o.s.mem)
               == FlatStore(Flat(s.mem), a,
                            ToBytes(if double then s.fregs[fs] else s.fregs[fs] % 0x1_0000_0000, n)))
  {
    hide MemOk, HasHeap, Heap, Flat, Inside, Contained, Step, FetchesWord, FloatStoreWord, ToBytes, NanUnbox,
      Memory.Store;
    StoreStep(s, double, fs, rs1, offset, host);
    WrapSum(if rs1 == 0 then 0 else s.regs[rs1], offset);
    NanUnboxValue(s.fregs[fs]);
    var n := FloatStoreInsn(double, fs, rs1, offset);
    var a, data := Address(s, rs1, offset),
      ToBytes(if double then s.fregs[fs] else s.fregs[fs] % 0x1_0000_0000, FloatWidth(double));
    StoreIsFlat(s.mem, a, data);
    StoreAgrees(Prepared(s, n), a, data);
  }

  /** FLW then FSW copies any four bytes, FLD then FSD any eight, exactly and whatever bits they hold:
      the destination receives the source's bytes and no other byte of memory changes. */
  lemma CopyThroughFloat(s: State, double: bool, f: Reg, rs1: Reg, src: int, rs2: Reg, dst: int,
                         host1: Host, host2: Host)
    requires Inv(s) && !s.suspended && -0x800 <= src < 0x800 && -0x800 <= dst < 0x800
    requires FetchesWord(s, FloatLoadWord(double, f, rs1, src))
    requires FetchesWord(s.(pc := Wrap32(s.pc + 4)), FloatStoreWord(double, f, rs2, dst))
    requires Inside(Layout(s.mem), Address(s, rs1, src), FloatWidth(double))
    requires Inside(Layout(s.mem), Address(s, rs2, dst), FloatWidth(double))
    ensures Step(s, host1).Running? && Inv(Step(s, host1).s)
    ensures AllMapped(Flat(s.mem), Address(s, rs1, src), FloatWidth(double))
    ensures var o := Step(Step(s, host1).s, host2);
      && o.Running? && Inv(o.s)
      && Flat(o.s.mem) == FlatStore(Flat(s.mem), Address(s, rs2, dst),
                                    FlatLoad(Flat(s.mem), Address(s, rs1, src), FloatWidth(double)))
  {
    hide MemOk, HasHeap, Heap, Flat, Inside, Step, FetchesWord, FloatLoadWord, FloatStoreWord, FromBytes,
      ToBytes, NanBox, NanUnbox, Memory.Load, StoreAt;
    LoadsInto(s, double, f, rs1, src, host1);
    var s1 := Step(s, host1).s;
    FetchMoved(s, s1, FloatStoreWord(double, f, rs2, dst));
    StoreStep(s1, double, f, rs2, dst, host2);
    WrapSum(if rs2 == 0 then 0 else s.regs[rs2], dst);
    var bs := FlatLoad(Flat(s.mem), Address(s, rs1, src), FloatWidth(double));
    StoredIsLoaded(bs, double);
    var n := FloatStoreInsn(double, f, rs2, dst);
    StoreAgrees(Prepared(s1, n), Address(s, rs2, dst), bs);
  }

  lemma MoveToStep(s: State, f: Reg, rs1: Reg, host: Host)
    requires Shaped(s) && !s.suspended && FetchesWord(s, MoveToFloatWord(f, rs1))
    ensures var o := Step(s, host);
      && o.Running? && Shaped(o.s) && !o.s.suspended && o.s.mem == s.mem && o.s.pc == Wrap32(s.pc + 4)
      && o.s.regs == s.regs[0 := 0]
      && o.s.fregs == s.fregs[f := NanBox(if rs1 == 0 then 0 else s.regs[rs1])]
  {
    hide Step, FetchesWord, MoveToFloatWord, Decode, NanBox;
    DecodeMoves(f, rs1);
    StepDecoded(s, MoveToFloatWord(f, rs1), Insn(FMV_W_X, f, rs1, 0, 0, 0x3C0, 0), host);
  }

  lemma MoveFromStep(s: State, rd: Reg, f: Reg, host: Host)
    requires Shaped(s) && !s.suspended && FetchesWord(s, MoveFromFloatWord(rd, f))
    ensures var o := Step(s, host);
      && o.Running? && Shaped(o.s) && o.s.mem == s.mem
      && o.s.regs == s.regs[0 := 0][rd := Wrap32(NanUnbox(s.fregs[f]))]
  {
    hide Step, FetchesWord, MoveFromFloatWord, Decode, NanUnbox, Wrap32;
    DecodeMoves(rd, f);
    StepDecoded(s, MoveFromFloatWord(rd, f), Insn(FMV_X_W, rd, f, 0, 0, 0x380, 0), host);
  }

  /** FMV.W.X then FMV.X.W gives back the integer register. */
  lemma MoveThroughFloat(s: State, f: Reg, rs1: Reg, rd: Reg, host1: Host, host2: Host)
    requires Shaped(s) && !s.suspended && rd != 0
    requires FetchesWord(s, MoveToFloatWord(f, rs1))
    requires FetchesWord(s.(pc := Wrap32(s.pc + 4)), MoveFromFloatWord(rd, f))
    ensures Step(s, host1).Running? && Shaped(Step(s, host1).s)
    ensures var o := Step(Step(s, host1).s, host2);
      && o.Running?
      && o.s.regs == s.regs[0 := 0][rd := if rs1 == 0 then 0 else s.regs[rs1]]
      && o.s.mem == s.mem
  {
    hide Step, FetchesWord, NanBox, NanUnbox;
    MoveToStep(s, f, rs1, host1);
    var s1 := Step(s, host1).s;
    FetchMoved(s, s1, MoveFromFloatWord(rd, f));
    MoveFromStep(s1, rd, f, host2);
    UnboxBox(if rs1 == 0 then 0 else s.regs[rs1]);
  }
}
