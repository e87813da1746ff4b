/** The emulator refines the architectural machine: one step, and whole runs. */
module Refinement {
  import opened Words
  import opened Insns
  import opened Decoder
  import opened Encoding
  import opened RoundTrip
  import opened Alu
  import opened Memory
  import opened ProgramBreak
  import opened Operations
  import opened Emulator
  import opened Isa
  import Breakpoints

  // ----- the abstraction -----------------------------------------------------

  /** The limit is the heap's end in 32 bits; a heap whose end overflows admits no request. */
  function BreakOf(h: Region): Break {
    Break(h.vmaBase, h.vmaBase + h.szAlloc, Wrap32(h.vmaBase + h.szReserved))
  }

  /** Nothing is asked of the address ranges: they may overlap or overflow. */
  ghost predicate Inv(s: State) {
    && Shaped(s)
    && MemOk(s.mem)
    && HasHeap(s.mem) && Heap(s.mem).szAlloc <= Heap(s.mem).szReserved
  }

  /** The architectural state an emulator state stands for: x0 reads as zero whatever the last step
      left in `regs[0]`; the region table becomes one flat memory. */
  ghost function Abs(s: State): Machine
    requires Inv(s)
  {
    Machine(s.pc, s.regs[0 := 0], Flat(s.mem), BreakOf(Heap(s.mem)), s.suspended)
  }

  /** The emulator's outcome is the architectural machine's. */
  ghost predicate Agrees(o: Outcome, r: Result) {
    match r
    case Next(m) => o.Running? && Inv(o.s) && Abs(o.s) == m
    case Halted(m) => o.Stopped? && Inv(o.s) && Abs(o.s) == m
    case Fault => o.Fatal?
    case Foreign => true
  }

  // ----- when the emulator is defined and right ------------------------------

  /** An access stays inside one region, or its first byte is unmapped. */
  ghost predicate AccessOk(l: seq<Span>, m: Machine, a: u32, n: nat) { Inside(l, a, n) || a !in m.mem }

  /** Operands on which a register-register instruction is right, or on which a wrong but defined high
      product is discarded. */
  predicate OpOk(k: RegKind, rd: Reg, a: u32, b: u32) {
    OperandsOk(k, a, b) || (rd == 0 && (k.Mulhsu? || (k.Mulh? && a * b < TWO63)))
  }

  /** The instruction executes as it should. A load into x0 may read stray bytes; a fence never does, as
      it suspends a running emulator. */
  ghost predicate InstrOk(l: seq<Span>, i: Instr, m: Machine, host: Host)
    requires Formed(m)
  {
    match i
    case Load(k, rd, rs1, offset) =>
      var a := Wrap32(Get(m, rs1) + offset);
      AccessOk(l, m, a, Width(k)) || (rd == 0 && Contained(l, a, Width(k)))
    case Store(k, rs1, _, offset) => AccessOk(l, m, Wrap32(Get(m, rs1) + offset), StoreWidth(k))
    case Op(k, rd, rs1, rs2) => OpOk(k, rd, Get(m, rs1), Get(m, rs2))
    case Fence(_, _, _) => m.halted
    case Ecall => Get(m, 17) == LINUX_FSTAT ==> AccessOk(l, m, Get(m, 11), |host.stat|)
    case _ => true
  }

  ghost predicate Conforms(l: seq<Span>, m: Machine, host: Host)
    requires Formed(m)
  {
    m.halted ||
    (AccessOk(l, m, m.pc, 4) && forall i :: IsInstrAt(m, i) ==> InstrOk(l, i, m, host))
  }

  // ----- registers -----------------------------------------------------------

  lemma AbsSetReg(s: State, r: Reg, v: u32)
    requires Inv(s)
    ensures Inv(SetReg(s, r, v)) && Abs(SetReg(s, r, v)) == Set(Abs(s), r, v)
  {
    hide MemOk, HasHeap, Heap;
    assert s.regs[r := v][0 := 0] == if r == 0 then s.regs[0 := 0] else s.regs[0 := 0][r := v];
  }

  lemma AbsGet(s: State, r: Reg)
    requires Inv(s) && s.regs[0] == 0
    ensures Get(Abs(s), r) == s.regs[r]
  {
    hide MemOk, HasHeap, Heap;
  }

  /** Writing a register and moving on, on both sides. */
  lemma WriteAgrees(s: State, r: Reg, v: u32, w: u32)
    requires Inv(s)
    ensures Agrees(Running(Advance(SetReg(s, r, v))), Next(NextPc(Set(Abs(s), r, w)))) <==> v == w || r == 0
  {
    hide MemOk, HasHeap, Heap;
    AbsSetReg(s, r, v);
    var x, y := Set(Abs(s), r, v), Set(Abs(s), r, w);
    if r != 0 {
      assert x.x[r] == v && y.x[r] == w;
    }
  }

  // ----- one instruction -----------------------------------------------------

  predicate AccessesMemory(i: Instr) { i.Load? || i.Store? || i.Ecall? }

  /** The instruction agrees where `InstrOk` holds, and only there, provided that no two address ranges
      overlap if it accesses memory. */
  ghost predicate Exact(i: Instr, s: State, host: Host)
    requires Inv(s) && Legal(i)
  {
    AsInsnFits(i);
    var agrees := Agrees(Execute(s, AsInsn(i), host), Exec(i, Abs(s), host));
    var ok := InstrOk(Layout(s.mem), i, Abs(s), host);
    (ok ==> agrees) && ((AccessesMemory(i) ==> VmaDisjoint(s.mem)) ==> (agrees ==> ok))
  }

  lemma AsInsnFits(i: Instr)
    requires Legal(i)
    ensures Fits(AsInsn(i))
  {
  }

  lemma ExecOp(k: RegKind, rd: Reg, rs1: Reg, rs2: Reg, s: State, host: Host)
    requires Inv(s) && s.regs[0] == 0
    ensures Exact(Op(k, rd, rs1, rs2), s, host)
  {
    hide MemOk, HasHeap, Heap, Manual, OperandsOk, Layout;
    var a, b := s.regs[rs1], s.regs[rs2];
    AbsGet(s, rs1);
    AbsGet(s, rs2);
    RegRegAgrees(k, a, b);
    ManualIsWord(k, a, b);
    RegTyIsRegReg(k);
    RegRegDefined(k, a, b);
    var n := AsInsn(Op(k, rd, rs1, rs2));
    match RegReg(n.ty, a, b)
    case None =>
    case Some(v) => WriteAgrees(s, rd, v, Manual(k, a, b));
  }

  lemma RegTyIsRegReg(k: RegKind)
    ensures IsRegReg(RegTy(k))
  {
  }

  /** Where the result is defined although it need not be right. */
  lemma RegRegDefined(k: RegKind, a: u32, b: u32)
    ensures IsRegReg(RegTy(k))
    ensures RegReg(RegTy(k), a, b).Some? <==> OperandsOk(k, a, b) || k.Mulhsu? || (k.Mulh? && a * b < TWO63)
  {
    hide And32, Or32, Xor32, Shl32, Shr32, Sar32, Wrap32, Signed32, HighHalf, TruncDiv, TruncRem;
    if k.Mulh? && MulhOk(a, b) { MulhOkDefined(a, b); }
  }

  lemma ImmAgrees(k: ImmKind, a: u32, imm: int)
    requires -0x800 <= imm < 0x800
    ensures IsRegImm(ImmTy(k)) && RegImm(ImmTy(k), a, Wrap32(imm)) == ManualImm(k, a, imm)
  {
    hide And32, Or32, Xor32, BitAnd, BitOr, BitXor;
    var b := Wrap32(imm);
    assert Wrap32(a + b) == Wrap32(Signed32(a) + imm) && Signed32(b) == imm;
    match k
    case Andi => AndIsBitAnd(a, b);
    case Ori => OrIsBitOr(a, b);
    case Xori => XorIsBitXor(a, b);
    case _ =>
  }

  /** The shift amount is the low five bits of the immediate; bit 10 only tells SRAI from SRLI. */
  lemma ShiftAgrees(k: ShiftKind, a: u32, shamt: Bits5)
    ensures IsRegImm(ShiftTy(k))
    ensures RegImm(ShiftTy(k), a, if k.Srai? then 0x400 + shamt else shamt) == ManualShift(k, a, shamt)
  {
    hide And32, Shl32, Shr32, Sar32, ShiftLeft, ShiftRight, ShiftRightArith;
    ShiftsAgree(a, if k.Srai? then 0x400 + shamt else shamt);
  }

  lemma ImmExecutes(s: State, n: Insn, host: Host)
    requires Shaped(s) && Fits(n)
    ensures !IsRegReg(n.ty) && IsRegImm(n.ty) ==>
              Execute(s, n, host) == Running(Advance(SetReg(s, n.rd, RegImm(n.ty, s.regs[n.rs1], n.imm))))
  {
    hide RegImm, IsRegReg, IsRegImm;
  }

  /** Both sides write the same value and move on. */
  lemma SameWrite(i: Instr, s: State, host: Host, rd: Reg, v: u32)
    requires Inv(s) && Legal(i) && (i.OpImm? || i.Shift?) && Fits(AsInsn(i))
    requires Execute(s, AsInsn(i), host) == Running(Advance(SetReg(s, rd, v)))
    requires Exec(i, Abs(s), host) == Next(NextPc(Set(Abs(s), rd, v)))
    ensures Exact(i, s, host)
  {
    hide MemOk, HasHeap, Heap, Layout, Flat, Execute, Exec, AsInsn, Agrees;
    WriteAgrees(s, rd, v, v);
  }

  lemma ExecImm(k: ImmKind, rd: Reg, rs1: Reg, imm: int, s: State, host: Host)
    requires Inv(s) && s.regs[0] == 0 && Legal(OpImm(k, rd, rs1, imm))
    ensures Exact(OpImm(k, rd, rs1, imm), s, host)
  {
    hide MemOk, HasHeap, Heap, ManualImm, Layout, RegImm, Wrap32, Flat, Agrees, Execute, Exact, Abs;
    Pow2Of32();
    AbsGet(s, rs1);
    var i := OpImm(k, rd, rs1, imm);
    ImmExecutes(s, AsInsn(i), host);
    ImmAgrees(k, s.regs[rs1], imm);
    ImmNotRegReg(k);
    SameWrite(i, s, host, rd, ManualImm(k, s.regs[rs1], imm));
  }

  lemma ExecShift(k: ShiftKind, rd: Reg, rs1: Reg, shamt: nat, s: State, host: Host)
    requires Inv(s) && s.regs[0] == 0 && Legal(Shift(k, rd, rs1, shamt))
    ensures Exact(Shift(k, rd, rs1, shamt), s, host)
  {
    hide MemOk, HasHeap, Heap, ManualShift, Layout, RegImm, Wrap32, Flat, Agrees, Execute, Exact, Abs;
    Pow2Of32();
    AbsGet(s, rs1);
    var i := Shift(k, rd, rs1, shamt);
    ImmExecutes(s, AsInsn(i), host);
    ShiftAgrees(k, s.regs[rs1], shamt);
    ShiftNotRegReg(k);
    SameWrite(i, s, host, rd, ManualShift(k, s.regs[rs1], shamt));
  }

  lemma ShiftNotRegReg(k: ShiftKind)
    ensures !IsRegReg(ShiftTy(k))
  {
  }

  lemma ImmNotRegReg(k: ImmKind)
    ensures !IsRegReg(ImmTy(k))
  {
  }

  lemma ExecBranchExact(k: BranchKind, rs1: Reg, rs2: Reg, offset: int, s: State, host: Host)
    requires Inv(s) && s.regs[0] == 0 && Legal(Branch(k, rs1, rs2, offset))
    ensures Exact(Branch(k, rs1, rs2, offset), s, host)
  {
    hide MemOk, HasHeap, Heap, Layout, Wrap32, Taken, BranchTaken;
    AbsGet(s, rs1);
    AbsGet(s, rs2);
    BranchAgrees(k, s.regs[rs1], s.regs[rs2]);
    WrapOffset(s.pc, offset);
  }

  lemma BranchAgrees(k: BranchKind, a: u32, b: u32)
    ensures !IsRegReg(BranchTy(k)) && !IsRegImm(BranchTy(k)) && IsBranch(BranchTy(k))
    ensures Taken(BranchTy(k), a, b) == BranchTaken(k, a, b)
  {
  }

  lemma WrapOffset(pc: u32, offset: int)
    requires -0x8000_0000 <= offset < 0x8000_0000
    ensures Wrap32(pc + Signed32(Wrap32(offset))) == Wrap32(pc + offset)
    ensures Wrap32(pc + Wrap32(offset)) == Wrap32(pc + offset)
  {
  }

  // ----- loads and stores ----------------------------------------------------

  /** C's conversion from the loaded type is sign or zero extension. */
  lemma LoadValueAgrees(k: LoadKind, bs: seq<u8>)
    requires |bs| == Width(k)
    ensures LoadValue(LoadTy(k), bs) == Extended(k, FromBytes(bs))
  {
    hide FromBytes, SignExtended, Pow2;
    FromBytesBound(bs);
    PowersOfBytes();
    var v := FromBytes(bs);
    match k
    case Lb => SignedIsExtended(v, 8, 0x80);
    case Lh => SignedIsExtended(v, 16, 0x8000);
    case _ =>
  }

  lemma PowersOfBytes()
    ensures Pow2(7) == 0x80 && Pow2(8) == 0x100 && Pow2(15) == 0x8000 && Pow2(16) == 0x1_0000
    ensures Pow2(32) == TWO32
  {
    Pow2Of32();
    Pow2Add(8, 7);
    Pow2Add(8, 8);
  }

  lemma SignedIsExtended(v: nat, n: nat, half: nat)
    requires 0 < n < 32 && half == Pow2(n - 1) && v < 2 * half
    ensures Wrap32(if v < half then v else v - 2 * half) == SignExtended(v, n)
  {
    Pow2Of32();
    assert Pow2(n) == 2 * half;
    Pow2Monotone(n, 31);
    var w := Wrap32(if v < half then v else v - 2 * half);
    var f := (i: nat) => Bit(v, if i < n then i else n - 1);
    forall i: nat | i < 32 ensures Bit(w, i) == f(i) {
      ExtendedBit(v, n, half, i);
    }
    EqualsFromBits(w, f);
  }

  lemma TopBit(v: nat, n: nat)
    requires v < Pow2(n + 1)
    ensures Bit(v, n) == (v >= Pow2(n))
  {
    BitOfQuotient(v, n, 0);
    var p := Pow2(n);
    if v >= p { QuotientIs(v, p, 1, v - p); } else { QuotientIs(v, p, 0, v); }
  }

  lemma ExtendedBit(v: nat, n: nat, half: nat, i: nat)
    requires 0 < n < 32 && half == Pow2(n - 1) && v < 2 * half && Pow2(n) == 2 * half <= 0x8000_0000
    requires i < 32
    ensures Bit(Wrap32(if v < half then v else v - 2 * half), i) == Bit(v, if i < n then i else n - 1)
  {
    hide Pow2, Bit;
    Pow2Of32();
    TopBit(v, n - 1);
    if v < half {
      if i >= n { BitOfSmall(v, n, i); }
    } else {
      BitOfHighOnes(v, n, 32, i);
    }
  }

  lemma ExecLoadExact(k: LoadKind, rd: Reg, rs1: Reg, offset: int, s: State, host: Host)
    requires Inv(s) && s.regs[0] == 0 && Legal(Load(k, rd, rs1, offset))
    ensures Exact(Load(k, rd, rs1, offset), s, host)
  {
    hide MemOk, HasHeap, Heap, Layout, Wrap32, Memory.Load, LoadValue, Extended, Flat, Inside, Contained,
      VmaDisjoint;
    AbsGet(s, rs1);
    LoadTyIsLoad(k);
    WrapSum(s.regs[rs1], offset);
    var a := Wrap32(s.regs[rs1] + offset);
    LoadIsFlat(s.mem, a, Width(k));
    if VmaDisjoint(s.mem) { InsideExactly(s.mem, a, Width(k)); }
    if Contained(Layout(s.mem), a, Width(k)) { ContainedMapped(s.mem, a, Width(k)); }
    match Memory.Load(s.mem, a, Width(k))
    case Trap =>
    case Undefined =>
    case Done(bs) =>
      var flat := FlatLoad(Flat(s.mem), a, Width(k));
      LoadValueAgrees(k, bs);
      WriteAgrees(s, rd, LoadValue(LoadTy(k), bs), Extended(k, FromBytes(flat)));
  }

  lemma LoadTyIsLoad(k: LoadKind)
    ensures var ty := LoadTy(k);
      && !IsRegReg(ty) && !IsRegImm(ty) && !IsBranch(ty) && Emulator.IsLoad(ty)
      && AccessWidth(ty) == Width(k)
  {
  }

  lemma WrapSum(a: u32, offset: int)
    ensures Wrap32(a + Wrap32(offset)) == Wrap32(a + offset)
  {
  }

  lemma StoreTyIsStore(k: StoreKind)
    ensures var ty := StoreTy(k);
      && !IsRegReg(ty) && !IsRegImm(ty) && !IsBranch(ty) && !Emulator.IsLoad(ty) && Emulator.IsStore(ty)
      && AccessWidth(ty) == StoreWidth(k)
  {
  }

  /** A store through the region table is a store to the flat memory, and moves no break. */
  lemma StoreAgrees(s: State, a: u32, data: seq<u8>)
    requires Inv(s)
    ensures var o := StoreAt(s, a, data);
      && (o.Fatal? <==> a !in Flat(s.mem))
      && (o.Running? || o.Fatal? || o.Unspecified?)
      && (o.Running? ==> Inv(o.s) && Layout(o.s.mem) == Layout(s.mem) && o.s == s.(mem := o.s.mem))
      && (VmaDisjoint(s.mem) && o.Running? ==> Inside(Layout(s.mem), a, |data|))
      && (Inside(Layout(s.mem), a, |data|) ==>
            && AllMapped(Flat(s.mem), a, |data|)
            && o.Running? && Abs(o.s) == Abs(s).(mem := FlatStore(Flat(s.mem), a, data)))
  {
    hide MemOk, Flat, Inside, VmaDisjoint;
    StoreIsFlat(s.mem, a, data);
    LoadIsFlat(s.mem, a, |data|);
    match Memory.Store(s.mem, a, data)
    case Trap =>
    case Undefined =>
    case Done(mem) => StoreKeepsHeap(s.mem, a, data);
  }

  lemma StoreKeepsHeap(rs: seq<Region>, a: u32, data: seq<u8>)
    requires MemOk(rs) && HasHeap(rs) && Memory.Store(rs, a, data).Done?
    ensures var rs' := Memory.Store(rs, a, data).value;
      HasHeap(rs') && BreakOf(Heap(rs')) == BreakOf(Heap(rs))
      && Heap(rs').szAlloc == Heap(rs).szAlloc && Heap(rs').szReserved == Heap(rs).szReserved
  {
    hide MemOk, Flat, Inside, VmaDisjoint, Find;
    StoreIsFlat(rs, a, data);
    FindTagByLayout(rs, Memory.Store(rs, a, data).value, HeapTag, 0);
  }

  lemma ExecStoreExact(k: StoreKind, rs1: Reg, rs2: Reg, offset: int, s: State, host: Host)
    requires Inv(s) && s.regs[0] == 0 && Legal(Store(k, rs1, rs2, offset))
    ensures Exact(Store(k, rs1, rs2, offset), s, host)
  {
    hide MemOk, HasHeap, Heap, Layout, Wrap32, Flat, Inside, StoreAt, ToBytes;
    AbsGet(s, rs1);
    AbsGet(s, rs2);
    StoreTyIsStore(k);
    WrapSum(s.regs[rs1], offset);
    StoreAgrees(s, Wrap32(s.regs[rs1] + offset), ToBytes(s.regs[rs2], StoreWidth(k)));
  }

  // ----- system calls and control --------------------------------------------

  lemma BrkAgrees(s: State, request: u32)
    requires Inv(s)
    ensures var (mem, ret) := Brk(s.mem, request);
      var s' := s.(mem := mem);
      && Inv(s') && Layout(mem) == Layout(s.mem)
      && Abs(s') == Abs(s).(brk := MoveBreak(Abs(s).brk, request))
      && ret == Wrap32(Abs(s').brk.cur)
  {
    hide Flat;
    BrkFrame(s.mem, request);
    RequestExact(Heap(s.mem), request);
  }

  lemma SyscallAgrees(s: State, host: Host)
    requires Inv(s) && s.regs[0] == 0
    ensures var no, a1 := s.regs[17], s.regs[11];
      var agrees := Agrees(Syscall(s, host), Environment(Abs(s), host));
      var ok := no == SYS_FSTAT ==> AccessOk(Layout(s.mem), Abs(s), a1, |host.stat|);
      (ok ==> agrees) && (VmaDisjoint(s.mem) ==> (agrees ==> ok))
  {
    hide VmaDisjoint, MemOk, HasHeap, Heap, Layout, Flat, Inside, StoreAt, Brk, MoveBreak;
    AbsGet(s, 10);
    AbsGet(s, 11);
    AbsGet(s, 17);
    var no, a0, a1 := s.regs[17], s.regs[10], s.regs[11];
    if no == SYS_READ || no == SYS_WRITE {
      FlatAt(s.mem, a1);
      AbsSetReg(s, 10, if no == SYS_READ then 0 else host.ret);
    } else if no == SYS_FSTAT {
      StoreAgrees(s, a1, host.stat);
      var o := StoreAt(s, a1, host.stat);
      if o.Running? { AbsSetReg(o.s, 10, host.ret); }
    } else if no == SYS_BRK {
      BrkAgrees(s, a0);
      var (mem, ret) := Brk(s.mem, a0);
      AbsSetReg(s.(mem := mem), 10, ret);
    }
  }

  lemma Shl12(upper: Bits20)
    ensures Shl32(upper, 12) == upper * 0x1000
  {
    assert Pow2(12) == 0x1000 by { Powers(); }
  }

  lemma ExecUpper(i: Instr, s: State, host: Host)
    requires Inv(s) && s.regs[0] == 0 && Legal(i) && (i.Lui? || i.Auipc?)
    ensures Exact(i, s, host)
  {
    hide MemOk, HasHeap, Heap, Layout, Shl32;
    Shl12(i.upper);
    match i
    case Lui(rd, upper) => WriteAgrees(s, rd, upper * 0x1000, upper * 0x1000);
    case Auipc(rd, upper) =>
      WriteAgrees(s, rd, Wrap32(s.pc + upper * 0x1000), Wrap32(s.pc + upper * 0x1000));
    case _ =>
  }

  lemma ExecJal(rd: Reg, offset: int, s: State, host: Host)
    requires Inv(s) && Legal(Jal(rd, offset))
    ensures Exact(Jal(rd, offset), s, host)
  {
    hide MemOk, HasHeap, Heap, Layout, Wrap32;
    AbsSetReg(s, rd, Wrap32(s.pc + 4));
    WrapOffset(s.pc, offset);
  }

  lemma ExecJalr(rd: Reg, rs1: Reg, offset: int, s: State, host: Host)
    requires Inv(s) && s.regs[0] == 0 && Legal(Jalr(rd, rs1, offset))
    ensures Exact(Jalr(rd, rs1, offset), s, host)
  {
    hide MemOk, HasHeap, Heap, Layout, Wrap32, And32;
    AbsSetReg(s, rd, Wrap32(s.pc + 4));
    AbsGet(s, rs1);
    WrapSum(s.regs[rs1], offset);
    AndNotOne(Wrap32(s.regs[rs1] + offset));
  }

  lemma ExecEbreakExact(s: State, host: Host)
    requires Inv(s)
    ensures Exact(Ebreak, s, host)
  {
    hide MemOk, HasHeap, Heap, Layout;
    AdvanceAgrees(s, Abs(s));
  }

  /** A fence suspends the emulator, so it agrees only where that is suspended already. */
  lemma ExecFenceExact(order: nat, rd: Reg, rs1: Reg, s: State, host: Host)
    requires Inv(s) && Legal(Fence(order, rd, rs1))
    ensures Exact(Fence(order, rd, rs1), s, host)
  {
    hide MemOk, HasHeap, Heap, Layout, Flat, FromField, Wrap32;
    AdvanceAgrees(s, Abs(s));
  }

  lemma ExecEcallExact(s: State, host: Host)
    requires Inv(s) && s.regs[0] == 0
    ensures Exact(Ecall, s, host)
  {
    hide MemOk, HasHeap, Heap, Flat, Layout, Syscall, ExecEcall, Environment, AccessOk, Agrees;
    assert Get(Abs(s), 11) == s.regs[11] by { AbsGet(s, 11); }
    assert Get(Abs(s), 17) == s.regs[17] by { AbsGet(s, 17); }
    SyscallAgrees(s, host);
    EcallAgrees(s, host);
  }

  lemma EcallAgrees(s: State, host: Host)
    requires Inv(s)
    ensures Agrees(ExecEcall(s, host), Exec(Ecall, Abs(s), host))
       <==> Agrees(Syscall(s, host), Environment(Abs(s), host))
  {
    hide MemOk, HasHeap, Heap, Flat, Layout, Syscall, Environment, Wrap32;
    var o, r := Syscall(s, host), Environment(Abs(s), host);
    if o.Running? && r.Next? { AdvanceAgrees(o.s, r.m); }
  }

  /** Moving on after the same state, and only then, gives the same state. */
  lemma AdvanceAgrees(s: State, m: Machine)
    ensures (Inv(Advance(s)) && Abs(Advance(s)) == NextPc(m)) <==> (Inv(s) && Abs(s) == m)
  {
    hide MemOk, HasHeap, Heap, Flat;
    if Inv(s) && Abs(Advance(s)) == NextPc(m) {
      assert m.pc == s.pc;
      assert Abs(s) == m;
    }
  }

  /** Executing one legal instruction agrees with the manual exactly where `InstrOk` holds. */
  lemma ExecExact(i: Instr, s: State, host: Host)
    requires Inv(s) && s.regs[0] == 0 && Legal(i)
    ensures Exact(i, s, host)
  {
    hide Exact, Inv;
    match i
    case Lui(_, _) => ExecUpper(i, s, host);
    case Auipc(_, _) => ExecUpper(i, s, host);
    case Jal(rd, offset) => ExecJal(rd, offset, s, host);
    case Jalr(rd, rs1, offset) => ExecJalr(rd, rs1, offset, s, host);
    case Branch(k, rs1, rs2, offset) => ExecBranchExact(k, rs1, rs2, offset, s, host);
    case Load(k, rd, rs1, offset) => ExecLoadExact(k, rd, rs1, offset, s, host);
    case Store(k, rs1, rs2, offset) => ExecStoreExact(k, rs1, rs2, offset, s, host);
    case OpImm(k, rd, rs1, imm) => ExecImm(k, rd, rs1, imm, s, host);
    case Shift(k, rd, rs1, shamt) => ExecShift(k, rd, rs1, shamt, s, host);
    case Op(k, rd, rs1, rs2) => ExecOp(k, rd, rs1, rs2, s, host);
    case Fence(order, rd, rs1) => ExecFenceExact(order, rd, rs1, s, host);
    case Ecall => ExecEcallExact(s, host);
    case Ebreak => ExecEbreakExact(s, host);
  }

  // ----- one step ------------------------------------------------------------

  lemma FetchFlat(s: State)
    requires Inv(s)
    ensures Fetch(s).Trap? <==> s.pc !in Flat(s.mem)
    ensures VmaDisjoint(s.mem) && Fetch(s).Done? ==> Inside(Layout(s.mem), s.pc, 4)
    ensures Inside(Layout(s.mem), s.pc, 4) ==>
              && AllMapped(Flat(s.mem), s.pc, 4) && Fetch(s).Done?
              && Fetch(s).value == FromBytes(FlatLoad(Flat(s.mem), s.pc, 4))
  {
    hide VmaDisjoint, MemOk, Flat, Inside, HasHeap, Heap, FromBytes;
    LoadIsFlat(s.mem, s.pc, 4);
  }

  /** The breakpoint slots are no part of the architectural state. */
  lemma AbsIgnoresBkpts(s: State, bkpts: seq<Breakpoints.Event>)
    requires Inv(s)
    ensures Inv(s.(bkpts := bkpts)) && Abs(s.(bkpts := bkpts)) == Abs(s)
  {
  }

  lemma StepFromExact(s: State, host: Host)
    requires Inv(s) && s.regs[0] == 0 && !s.suspended && IsaStep(Abs(s), host) != Foreign
    ensures Conforms(Layout(s.mem), Abs(s), host) ==> Agrees(StepFrom(s, host), IsaStep(Abs(s), host))
    ensures VmaDisjoint(s.mem) && Agrees(StepFrom(s, host), IsaStep(Abs(s), host)) ==>
              Conforms(Layout(s.mem), Abs(s), host)
  {
    hide VmaDisjoint, MemOk, HasHeap, Heap, Flat, Layout, Inside, Encode, Decode, Execute, Exec, InstrOk,
      FromBytes, AsInsn;
    var m := Abs(s);
    FetchFlat(s);
    if AllMapped(m.mem, m.pc, 4) && Inside(Layout(s.mem), s.pc, 4) {
      var i :| IsInstrAt(m, i) && IsaStep(m, host) == Exec(i, m, host);
      forall j | IsInstrAt(m, j) ensures j == i { EncodeInjective(i, j); }
      DecodeEncode(i);
      AsInsnFits(i);
      FenceAsInsn(i);
      if !Decodable(i) { RejectedFence(i, s, host); }
      var s1 := s.(bkpts := Breakpoints.CheckAll(s.bkpts, s.pc, AsInsn(i)));
      AbsIgnoresBkpts(s, s1.bkpts);
      ExecExact(i, s1, host);
    }
  }

  /** All other fences stop the emulator, which no legal instruction does to the architectural machine. */
  lemma RejectedFence(i: Instr, s: State, host: Host)
    requires Inv(s) && !s.suspended && Legal(i) && !Decodable(i)
    ensures Exec(i, Abs(s), host).Next? && !InstrOk(Layout(s.mem), i, Abs(s), host)
  {
    hide MemOk, HasHeap, Heap, Layout, Flat;
  }

  /** One step of the emulator agrees with one step of the architectural machine when the step conforms:
      every access stays inside one region (or starts unmapped), and the operands of DIV, REM, MULH and
      MULHSU avoid the cases C leaves undefined or computes otherwise. Where no two address ranges
      overlap it agrees on no other step. */
  lemma StepRefines(s: State, host: Host)
    requires Inv(s) && IsaStep(Abs(s), host) != Foreign
    ensures Conforms(Layout(s.mem), Abs(s), host) ==> Agrees(Step(s, host), IsaStep(Abs(s), host))
    ensures VmaDisjoint(s.mem) && Agrees(Step(s, host), IsaStep(Abs(s), host)) ==>
              Conforms(Layout(s.mem), Abs(s), host)
  {
    hide VmaDisjoint, MemOk, HasHeap, Heap, Flat, Layout, IsaStep, StepFrom, Conforms;
    if s.suspended {
      HaltedStep(s, host);
    } else {
      var s0 := s.(regs := s.regs[0 := 0]);
      assert s0.regs[0 := 0] == s.regs[0 := 0];
      assert Abs(s0) == Abs(s);
      StepFromExact(s0, host);
    }
  }

  lemma HaltedStep(s: State, host: Host)
    requires Inv(s) && s.suspended
    ensures IsaStep(Abs(s), host) == Halted(Abs(s)) && Conforms(Layout(s.mem), Abs(s), host)
  {
  }
}
