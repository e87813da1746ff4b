/** The emulator's state as a value and what one step makes of it. */
module Emulator {
  import opened Words
  import opened Insns
  import opened Decoder
  import opened Alu
  import opened Memory
  import opened ProgramBreak
  import opened Breakpoints

  datatype State = State(
    regs: seq<u32>, fregs: seq<u64>, pc: u32, suspended: bool, mem: seq<Region>, bkpts: seq<Event>)

  predicate Shaped(s: State) { |s.regs| == 32 && |s.fregs| == 32 }

  /** What the host's write and fstat return, the bytes fstat leaves in the buffer, and the bits its
      floating-point unit computes. */
  datatype Host = Host(ret: u32, stat: seq<u8>, fpu: u64)

  /** `Running` and `Stopped` are the step returning true and false. `Fatal`: the process traps.
      `Unspecified`: C leaves the behaviour undefined. */
  datatype Outcome = Running(s: State) | Stopped(s: State) | Fatal | Unspecified

  // ----- nan boxing ----------------------------------------------------------

  function NanBox(v: u32): u64 { Or64(v, 0xFFFF_FFFF_0000_0000) }

  function NanUnbox(v: u64): u64 { And64(v, 0xFFFF_FFFF) }

  // ----- pieces of the dispatcher --------------------------------------------

  /** Decoded register selectors. */
  predicate Fits(n: Insn) { n.rd < 32 && n.rs1 < 32 && n.rs2 < 32 && n.rs3 < 32 }

  function SetReg(s: State, r: nat, v: u32): State
    requires Shaped(s) && r < 32
  {
    s.(regs := s.regs[r := v])
  }

  function SetFreg(s: State, r: nat, v: u64): State
    requires Shaped(s) && r < 32
  {
    s.(fregs := s.fregs[r := v])
  }

  function Advance(s: State): State { s.(pc := Wrap32(s.pc + 4)) }

  predicate IsLoad(ty: Mnemonic) { ty.LB? || ty.LH? || ty.LW? || ty.LBU? || ty.LHU? }

  predicate IsStore(ty: Mnemonic) { ty.SB? || ty.SH? || ty.SW? }

  function AccessWidth(ty: Mnemonic): nat {
    match ty
    case LB => 1 case LBU => 1 case SB => 1
    case LH => 2 case LHU => 2 case SH => 2
    case _ => 4
  }

  /** The bytes read as the C type of the load, converted to `u32`. */
  function LoadValue(ty: Mnemonic, bs: seq<u8>): u32 {
    var v := FromBytes(bs);
    match ty
    case LB => Wrap32(if v < 0x80 then v else v - 0x100)
    case LH => Wrap32(if v < 0x8000 then v else v - 0x1_0000)
    case _ => Wrap32(v)
  }

  function EffectiveAddress(s: State, n: Insn): u32
    requires Shaped(s) && Fits(n)
  {
    Wrap32(s.regs[n.rs1] + n.imm)
  }

  function ExecLoad(s: State, n: Insn): Outcome
    requires Shaped(s) && Fits(n)
  {
    match Load(s.mem, EffectiveAddress(s, n), AccessWidth(n.ty))
    case Trap => Fatal
    case Undefined => Unspecified
    case Done(bs) => Running(Advance(SetReg(s, n.rd, LoadValue(n.ty, bs))))
  }

  function StoreAt(s: State, p: u32, data: seq<u8>): Outcome {
    match Store(s.mem, p, data)
    case Trap => Fatal
    case Undefined => Unspecified
    case Done(mem) => Running(s.(mem := mem))
  }

  function ExecStore(s: State, n: Insn): Outcome
    requires Shaped(s) && Fits(n)
  {
    match StoreAt(s, EffectiveAddress(s, n), ToBytes(s.regs[n.rs2], AccessWidth(n.ty)))
    case Running(s') => Running(Advance(s'))
    case o => o
  }

  function ExecFloatLoad(s: State, n: Insn): Outcome
    requires Shaped(s) && Fits(n)
  {
    var single := n.funct == FLT_SINGLE;
    match Load(s.mem, EffectiveAddress(s, n), if single then 4 else 8)
    case Trap => Fatal
    case Undefined => Unspecified
    case Done(bs) =>
      FromBytesBound(bs);
      Pow2Of32();
      Pow2Of64();
      Running(Advance(SetFreg(s, n.rd, if single then NanBox(FromBytes(bs)) else FromBytes(bs))))
  }

  function ExecFloatStore(s: State, n: Insn): Outcome
    requires Shaped(s) && Fits(n)
  {
    var f := s.fregs[n.rs2];
    var data := if n.funct == FLT_SINGLE then ToBytes(NanUnbox(f), 4) else ToBytes(f, 8);
    match StoreAt(s, EffectiveAddress(s, n), data)
    case Running(s') => Running(Advance(s'))
    case o => o
  }

  const SYS_READ: u32 := 63
  const SYS_WRITE: u32 := 64
  const SYS_FSTAT: u32 := 80
  const SYS_BRK: u32 := 214

  /** A system call: number in x17, arguments from x10, result in x10. Exit (93) and every number the
      emulator does not know suspend it and leave the registers alone. */
  function Syscall(s: State, host: Host): Outcome
    requires Shaped(s)
  {
    var no, a0, a1 := s.regs[17], s.regs[10], s.regs[11];
    if no == SYS_READ then
      if Translate(s.mem, a1).None? then Fatal else Running(SetReg(s, 10, 0))
    else if no == SYS_WRITE then
      if Translate(s.mem, a1).None? then Fatal else Running(SetReg(s, 10, host.ret))
    else if no == SYS_FSTAT then
      match StoreAt(s, a1, host.stat)
      case Running(s') => Running(SetReg(s', 10, host.ret))
      case o => o
    else if no == SYS_BRK then
      if !HasHeap(s.mem) then Unspecified
      else
        var (mem, ret) := Brk(s.mem, a0);
        Running(SetReg(s.(mem := mem), 10, ret))
    else
      Running(s.(suspended := true))
  }

  predicate IsJumpOrUpper(ty: Mnemonic) { ty.LUI? || ty.AUIPC? || ty.JAL? || ty.JALR? }

  function ExecJumpOrUpper(s: State, n: Insn): State
    requires Shaped(s) && Fits(n) && IsJumpOrUpper(n.ty)
  {
    match n.ty
    case LUI => Advance(SetReg(s, n.rd, Shl32(n.imm, 12)))
    case AUIPC => Advance(SetReg(s, n.rd, Wrap32(s.pc + Shl32(n.imm, 12))))
    case JAL => SetReg(s, n.rd, Wrap32(s.pc + 4)).(pc := Wrap32(s.pc + Signed32(n.imm)))
    case JALR =>
      var target := And32(Wrap32(s.regs[n.rs1] + n.imm), Not32(1));
      SetReg(s, n.rd, Wrap32(s.pc + 4)).(pc := target)
  }

  predicate IsFloatMove(ty: Mnemonic) { ty.FLx? || ty.FSx? || ty.FMV_X_W? || ty.FMV_W_X? }

  function ExecFloatMove(s: State, n: Insn): Outcome
    requires Shaped(s) && Fits(n) && IsFloatMove(n.ty)
  {
    match n.ty
    case FLx => ExecFloatLoad(s, n)
    case FSx => ExecFloatStore(s, n)
    case FMV_X_W => Running(Advance(SetReg(s, n.rd, Wrap32(NanUnbox(s.fregs[n.rs1])))))
    case FMV_W_X => Running(Advance(SetFreg(s, n.rd, NanBox(s.regs[n.rs1]))))
  }

  function ExecEcall(s: State, host: Host): Outcome
    requires Shaped(s)
  {
    match Syscall(s, host)
    case Running(s') => Running(Advance(s'))
    case o => o
  }

  /** Float operations whose arms compare `funct` with the two formats and have no default: any other
      value falls through and writes nothing. */
  predicate FallsThrough(ty: Mnemonic) { ty.FMINx? || ty.FMAXx? || IsFloatCompare(ty) }

  predicate IsFloatCompare(ty: Mnemonic) { ty.FEQx? || ty.FLTx? || ty.FLEx? }

  predicate IsFloatToInt(ty: Mnemonic) { ty.FCVT_W_x? || ty.FCVT_WU_x? }

  /** Operations of the host's floating-point unit. */
  predicate IsFloatUnit(ty: Mnemonic) {
    match ty
    case FMADDx => true case FMSUBx => true case FNMSUBx => true case FNMADDx => true
    case FADDx => true case FSUBx => true case FMULx => true case FDIVx => true case FSQRTx => true
    case FSGNJx => true case FSGNJNx => true case FSGNJXx => true case FMINx => true case FMAXx => true
    case FEQx => true case FLTx => true case FLEx => true
    case FCVT_x_W => true case FCVT_W_x => true case FCVT_WU_x => true
    case FCVT_S_D => true case FCVT_D_S => true
    case _ => false
  }

  predicate HasFormatFunct(n: Insn) { n.funct == FLT_SINGLE || n.funct == FLT_DOUBLE }

  function WriteFloat(s: State, rd: nat, double: bool, bits: u64): State
    requires Shaped(s) && rd < 32
  {
    SetFreg(s, rd, if double then bits else NanBox(Wrap32(bits)))
  }

  /** The arms test `funct` for the single and double format codes; most treat every other value as
      unreachable. The format conversions do not look at it. */
  function ExecFloatUnit(s: State, n: Insn, host: Host): Outcome
    requires Shaped(s) && Fits(n) && IsFloatUnit(n.ty)
  {
    if n.ty.FCVT_S_D? then Running(Advance(WriteFloat(s, n.rd, false, host.fpu)))
    else if n.ty.FCVT_D_S? then Running(Advance(WriteFloat(s, n.rd, true, host.fpu)))
    else if !HasFormatFunct(n) then
      if FallsThrough(n.ty) then Running(Advance(s)) else Unspecified
    else if IsFloatCompare(n.ty) then Running(Advance(SetReg(s, n.rd, if host.fpu == 0 then 0 else 1)))
    else if IsFloatToInt(n.ty) then Running(Advance(SetReg(s, n.rd, Wrap32(host.fpu))))
    else Running(Advance(WriteFloat(s, n.rd, n.funct == FLT_DOUBLE, host.fpu)))
  }

  /** Instructions the dispatcher answers by suspending the emulator. */
  predicate IsStub(ty: Mnemonic) { ty.FENCE? || ty.FENCE_I? || IsCsr(ty) }

  function ExecSystem(s: State, n: Insn, host: Host): Outcome
    requires Shaped(s) && Fits(n)
  {
    if n.ty.ECALL? then ExecEcall(s, host)
    else if n.ty.EBREAK? then Running(Advance(s))
    else if n.ty.FCLASSx? then Running(s.(suspended := true))
    else if IsStub(n.ty) then Running(Advance(s.(suspended := true)))
    else if IsFloatUnit(n.ty) then ExecFloatUnit(s, n, host)
    else Unspecified
  }

  function ExecControl(s: State, n: Insn, host: Host): Outcome
    requires Shaped(s) && Fits(n)
  {
    if IsJumpOrUpper(n.ty) then Running(ExecJumpOrUpper(s, n))
    else if IsFloatMove(n.ty) then ExecFloatMove(s, n)
    else ExecSystem(s, n, host)
  }

  function ExecArith(s: State, n: Insn): Outcome
    requires Shaped(s) && Fits(n) && (IsRegReg(n.ty) || IsRegImm(n.ty))
  {
    if IsRegReg(n.ty) then
      match RegReg(n.ty, s.regs[n.rs1], s.regs[n.rs2])
      case None => Unspecified
      case Some(v) => Running(Advance(SetReg(s, n.rd, v)))
    else Running(Advance(SetReg(s, n.rd, RegImm(n.ty, s.regs[n.rs1], n.imm))))
  }

  function ExecBranch(s: State, n: Insn): State
    requires Shaped(s) && Fits(n) && IsBranch(n.ty)
  {
    if Taken(n.ty, s.regs[n.rs1], s.regs[n.rs2]) then s.(pc := Wrap32(s.pc + Signed32(n.imm)))
    else Advance(s)
  }

  function Execute(s: State, n: Insn, host: Host): Outcome
    requires Shaped(s) && Fits(n)
  {
    if IsRegReg(n.ty) || IsRegImm(n.ty) then ExecArith(s, n)
    else if IsBranch(n.ty) then Running(ExecBranch(s, n))
    else if IsLoad(n.ty) then ExecLoad(s, n)
    else if IsStore(n.ty) then ExecStore(s, n)
    else ExecControl(s, n, host)
  }

  /** The breakpoints see every instruction before it takes effect. */
  function Dispatched(s: State, n: Insn, host: Host): Outcome
    requires Shaped(s) && Fits(n)
  {
    Execute(s.(bkpts := CheckAll(s.bkpts, s.pc, n)), n, host)
  }

  function Fetch(s: State): Access<u32> {
    match Load(s.mem, s.pc, 4)
    case Trap => Trap
    case Undefined => Undefined
    case Done(bs) => FromBytesBound(bs); Pow2Of32(); Done(FromBytes(bs))
  }

  /** One step of a state that is not suspended and whose x0 has just been cleared. */
  function StepFrom(s: State, host: Host): Outcome
    requires Shaped(s)
  {
    match Fetch(s)
    case Trap => Fatal
    case Undefined => Unspecified
    case Done(w) =>
      match Decode(w)
      case Trapped => Fatal
      case Undecided => Unspecified
      case Decoded(n, diagn) =>
        if n.ty.INVALID? then Stopped(s.(suspended := s.suspended || diagn))
        else DecodedFits(w); Dispatched(s, n, host)
  }

  /** `rvemu_step`: x0 is cleared at the start of a step, not when it is written. */
  function Step(s: State, host: Host): Outcome
    requires Shaped(s)
  {
    if s.suspended then Stopped(s) else StepFrom(s.(regs := s.regs[0 := 0]), host)
  }

  lemma DecodedFits(w: u32)
    ensures Decode(w).Decoded? ==> Fits(Decode(w).insn)
  {
    hide View, SelectR, SelectI, SelectS, SelectB, SelectR4, FunctR, ImmI, ImmS, ImmB, ImmJ;
  }

  function InitialRegs(sp: u32): (r: seq<u32>)
    ensures |r| == 32 && forall k :: 0 <= k < 32 ==> r[k] == if k == 2 then sp else 0
  {
    seq(32, k => if k == 2 then sp else 0)
  }

  /** The state `rvstate_init` builds: everything zero except the entry point and the stack pointer. */
  function Boot(rs: seq<Region>, entry: u32, sp: u32): (s: State)
    ensures Shaped(s)
  {
    State(InitialRegs(sp), seq(32, _ => 0), entry, false, rs, seq(MAX_BKPT, _ => EMPTY))
  }
}
