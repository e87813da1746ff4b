/** What no step changes: the region layout, all but one register, the parity of pc; what a stopped
    emulator keeps forever; and that the breakpoint slots influence nothing. */
module Frame {
  import opened Words
  import opened Insns
  import opened Decoder
  import opened Alu
  import opened Memory
  import opened ProgramBreak
  import opened Emulator
  import Breakpoints
  import Rebuild
  import Acceptance

  /** The one register an instruction may change, integer or floating. */
  datatype Target = NoTarget | IntTarget(r: nat) | FloatTarget(r: nat)

  predicate WritesFloat(ty: Mnemonic) {
    ty.FLx? || ty.FMV_W_X? || (IsFloatUnit(ty) && !IsFloatCompare(ty) && !IsFloatToInt(ty))
  }

  predicate WritesNothing(ty: Mnemonic) {
    IsBranch(ty) || IsStore(ty) || ty.FSx? || ty.EBREAK? || ty.FCLASSx? || IsStub(ty)
  }

  function TargetOf(n: Insn): Target {
    if n.ty.ECALL? then IntTarget(10)
    else if WritesFloat(n.ty) then FloatTarget(n.rd)
    else if WritesNothing(n.ty) then NoTarget
    else IntTarget(n.rd)
  }

  /** All registers but the target are the same. */
  predicate SameBut(s: State, s': State, t: Target)
    requires Shaped(s) && Shaped(s')
  {
    && (forall k :: 0 <= k < 32 && t != IntTarget(k) ==> s'.regs[k] == s.regs[k])
    && (forall k :: 0 <= k < 32 && t != FloatTarget(k) ==> s'.fregs[k] == s.fregs[k])
  }

  /** The heap exists and its allocation is within its reservation. */
  predicate HeapOk(rs: seq<Region>) { HasHeap(rs) && Heap(rs).szAlloc <= Heap(rs).szReserved }

  /** rs' has the region layout of rs and, wherever rs is well formed, so is rs'. */
  ghost predicate SameTable(rs: seq<Region>, rs': seq<Region>) {
    && Layout(rs') == Layout(rs)
    && (MemOk(rs) ==> MemOk(rs'))
    && (HeapOk(rs) ==> HeapOk(rs'))
  }

  ghost predicate Framed(s: State, o: Outcome, t: Target)
    requires Shaped(s)
  {
    o.Running? ==> Shaped(o.s) && SameTable(s.mem, o.s.mem) && SameBut(s, o.s, t) && o.s.bkpts == s.bkpts
  }

  lemma SameBlocks(rs: seq<Region>, rs': seq<Region>)
    requires Layout(rs') == Layout(rs)
    requires forall i :: 0 <= i < |rs| && i < |rs'| ==> |rs'[i].bytes| == |rs[i].bytes|
    ensures MemOk(rs) ==> MemOk(rs')
  {
    assert |rs| == |Layout(rs)| == |rs'|;
    if MemOk(rs) { StoreKeepsMemOk(rs, rs'); }
  }

  lemma StoreFrame(s: State, p: u32, data: seq<u8>)
    requires Shaped(s)
    ensures var o := StoreAt(s, p, data); o.Running? ==> SameTable(s.mem, o.s.mem) && o.s == s.(mem := o.s.mem)
    ensures !StoreAt(s, p, data).Stopped?
  {
    hide MemOk;
    var o := StoreAt(s, p, data);
    if o.Running? {
      var rs, rs' := s.mem, o.s.mem;
      assert Layout(rs') == Layout(rs);
      SameBlocks(rs, rs');
      FindTagByLayout(rs, rs', HeapTag, 0);
    }
  }

  lemma BrkFrames(rs: seq<Region>, request: u32)
    requires HasHeap(rs)
    ensures SameTable(rs, Brk(rs, request).0)
  {
    hide MemOk;
    var rs' := Brk(rs, request).0;
    assert Layout(rs') == Layout(rs);
    SameBlocks(rs, rs');
    FindTagByLayout(rs, rs', HeapTag, 0);
    RequestExact(Heap(rs), request);
  }

  lemma SyscallFrame(s: State, host: Host)
    requires Shaped(s)
    ensures Framed(s, Syscall(s, host), IntTarget(10)) && !Syscall(s, host).Stopped?
    ensures Syscall(s, host).Running? ==> Syscall(s, host).s.pc == s.pc
  {
    hide MemOk, HeapOk, StoreAt, Brk;
    StoreFrame(s, s.regs[11], host.stat);
    if HasHeap(s.mem) { BrkFrames(s.mem, s.regs[10]); }
  }

  lemma FloatLoadFrame(s: State, n: Insn)
    requires Shaped(s) && Fits(n)
    ensures Framed(s, ExecFloatLoad(s, n), FloatTarget(n.rd)) && !ExecFloatLoad(s, n).Stopped?
    ensures ExecFloatLoad(s, n).Running? ==> ExecFloatLoad(s, n).s.pc == Wrap32(s.pc + 4)
  {
    hide MemOk, HeapOk, Memory.Load, FromBytes, NanBox;
  }

  lemma FloatStoreFrame(s: State, n: Insn)
    requires Shaped(s) && Fits(n)
    ensures Framed(s, ExecFloatStore(s, n), NoTarget) && !ExecFloatStore(s, n).Stopped?
    ensures ExecFloatStore(s, n).Running? ==> ExecFloatStore(s, n).s.pc == Wrap32(s.pc + 4)
  {
    hide MemOk, HeapOk, StoreAt, ToBytes, NanUnbox;
    var f := s.fregs[n.rs2];
    StoreFrame(s, EffectiveAddress(s, n), if n.funct == FLT_SINGLE then ToBytes(NanUnbox(f), 4) else ToBytes(f, 8));
  }

  lemma FloatUnitFrame(s: State, n: Insn, host: Host)
    requires Shaped(s) && Fits(n) && IsFloatUnit(n.ty)
    ensures Framed(s, ExecFloatUnit(s, n, host), TargetOf(n)) && !ExecFloatUnit(s, n, host).Stopped?
    ensures ExecFloatUnit(s, n, host).Running? ==> ExecFloatUnit(s, n, host).s.pc == Wrap32(s.pc + 4)
  {
    hide Framed, NanBox, Wrap32, IsFloatUnit, HasFormatFunct, WritesNothing;
    UnitWrites(n.ty);
    NoFrame(s, TargetOf(n));
    RegFrame(s, n.rd, Wrap32(host.fpu));
    RegFrame(s, n.rd, if host.fpu == 0 then 0 else 1);
    FregFrame(s, n.rd, host.fpu);
    FregFrame(s, n.rd, NanBox(Wrap32(host.fpu)));
  }

  lemma NoFrame(s: State, t: Target)
    requires Shaped(s)
    ensures Framed(s, Running(Advance(s)), t) && Framed(s, Unspecified, t)
  {
    hide MemOk, HeapOk;
  }

  lemma RegFrame(s: State, r: nat, v: u32)
    requires Shaped(s) && r < 32
    ensures Framed(s, Running(SetReg(s, r, v)), IntTarget(r))
    ensures Framed(s, Running(Advance(SetReg(s, r, v))), IntTarget(r))
  {
    hide MemOk, HeapOk;
  }

  lemma FregFrame(s: State, r: nat, v: u64)
    requires Shaped(s) && r < 32
    ensures Framed(s, Running(Advance(SetFreg(s, r, v))), FloatTarget(r))
  {
    hide MemOk, HeapOk;
  }

  lemma UnitWrites(ty: Mnemonic)
    requires IsFloatUnit(ty)
    ensures !WritesNothing(ty) && !ty.ECALL? && !IsStub(ty) && !ty.FLx? && !ty.FMV_W_X?
    ensures ty.FCVT_S_D? || ty.FCVT_D_S? ==> WritesFloat(ty)
  {
  }

  lemma JumpFrame(s: State, n: Insn)
    requires Shaped(s) && Fits(n) && IsJumpOrUpper(n.ty)
    ensures TargetOf(n) == IntTarget(n.rd) && Framed(s, Running(ExecJumpOrUpper(s, n)), TargetOf(n))
  {
    hide MemOk, HeapOk, And32, Shl32, Wrap32;
  }

  lemma FloatMoveFrame(s: State, n: Insn)
    requires Shaped(s) && Fits(n) && IsFloatMove(n.ty)
    ensures Framed(s, ExecFloatMove(s, n), TargetOf(n)) && !ExecFloatMove(s, n).Stopped?
    ensures ExecFloatMove(s, n).Running? ==> ExecFloatMove(s, n).s.pc == Wrap32(s.pc + 4)
  {
    hide MemOk, HeapOk, ExecFloatLoad, ExecFloatStore, NanBox, NanUnbox, Wrap32;
    FloatLoadFrame(s, n);
    FloatStoreFrame(s, n);
  }

  lemma SystemFrame(s: State, n: Insn, host: Host)
    requires Shaped(s) && Fits(n)
    ensures Framed(s, ExecSystem(s, n, host), TargetOf(n)) && !ExecSystem(s, n, host).Stopped?
    ensures var o := ExecSystem(s, n, host); o.Running? ==> o.s.pc == s.pc || o.s.pc == Wrap32(s.pc + 4)
  {
    hide MemOk, HeapOk, Syscall, ExecFloatUnit, IsFloatUnit, Wrap32;
    SyscallFrame(s, host);
    if IsFloatUnit(n.ty) {
      UnitWrites(n.ty);
      FloatUnitFrame(s, n, host);
    }
  }

  lemma ControlFrame(s: State, n: Insn, host: Host)
    requires Shaped(s) && Fits(n)
    ensures Framed(s, ExecControl(s, n, host), TargetOf(n)) && !ExecControl(s, n, host).Stopped?
  {
    hide MemOk, HeapOk, ExecJumpOrUpper, ExecFloatMove, ExecSystem, TargetOf, SameTable;
    if IsJumpOrUpper(n.ty) { JumpFrame(s, n); }
    if IsFloatMove(n.ty) { FloatMoveFrame(s, n); }
    SystemFrame(s, n, host);
  }

  lemma PlainTargets(n: Insn)
    ensures IsRegReg(n.ty) || IsRegImm(n.ty) || IsLoad(n.ty) ==> TargetOf(n) == IntTarget(n.rd)
    ensures IsBranch(n.ty) || IsStore(n.ty) ==> TargetOf(n) == NoTarget
  {
  }

  lemma ExecuteFrame(s: State, n: Insn, host: Host)
    requires Shaped(s) && Fits(n)
    ensures Framed(s, Execute(s, n, host), TargetOf(n)) && !Execute(s, n, host).Stopped?
  {
    hide MemOk, HeapOk, StoreAt, ExecControl, RegReg, RegImm, Taken, Memory.Load, LoadValue, ToBytes,
      IsFloatUnit;
    ControlFrame(s, n, host);
    PlainTargets(n);
    StoreFrame(s, EffectiveAddress(s, n), ToBytes(s.regs[n.rs2], AccessWidth(n.ty)));
  }

  // ----- parity of pc --------------------------------------------------------

  predicate EvenTarget(n: Insn) { IsBranch(n.ty) || n.ty.JAL? ==> n.imm % 2 == 0 }

  lemma FromFieldEven(f: u32, p: nat)
    requires f < 2 * p <= 0x20_0000 && f % 2 == 0
    ensures FromField(f, p) % 2 == 0
  {
    if f >= p {
      QuotientIs(f - 2 * p, TWO32, -1, f - 2 * p + TWO32);
    }
  }

  lemma ImmediatesEven(b: Base)
    ensures ImmB(b) % 2 == 0 && ImmJ(b) % 2 == 0
  {
    hide AssembleB, AssembleJ, FromField;
    AssembleBValue(b.b_12, b.b_11, b.b_10_5, b.b_4_1);
    AssembleJValue(b.j_20, b.j_19_12, b.j_11, b.j_10_1);
    FromFieldEven(0x1000 * b.b_12 + 0x800 * b.b_11 + 0x20 * b.b_10_5 + 2 * b.b_4_1, 0x1000);
    FromFieldEven(0x10_0000 * b.j_20 + 0x1000 * b.j_19_12 + 0x800 * b.j_11 + 2 * b.j_10_1, 0x10_0000);
  }

  /** Only the B and J formats produce branches and JAL, and their immediates are even. */
  lemma DecodedEven(w: u32)
    requires Rebuild.Valid(Decode(w))
    ensures EvenTarget(Decode(w).insn)
  {
    hide View, SelectR, SelectI, SelectS, SelectB, SelectR4, FunctR, ImmI, ImmS, ImmB, ImmJ;
    var n := Decode(w).insn;
    ImmediatesEven(View(w));
    Rebuild.DecodedOpcode(w);
  }

  lemma EvenStep(pc: u32, offset: u32)
    requires pc % 2 == 0 && offset % 2 == 0
    ensures Wrap32(pc + Signed32(offset)) % 2 == 0 && Wrap32(pc + 4) % 2 == 0
  {
  }

  lemma ExecuteEven(s: State, n: Insn, host: Host)
    requires Shaped(s) && Fits(n) && EvenTarget(n) && s.pc % 2 == 0
    ensures Execute(s, n, host).Running? ==> Execute(s, n, host).s.pc % 2 == 0
  {
    hide MemOk, HeapOk, StoreAt, ExecControl, IsRegReg, IsRegImm, RegReg, RegImm, Taken, Memory.Load,
      LoadValue, ToBytes, Wrap32;
    EvenStep(s.pc, if IsBranch(n.ty) then n.imm else 0);
    StoreFrame(s, EffectiveAddress(s, n), ToBytes(s.regs[n.rs2], AccessWidth(n.ty)));
    ControlEven(s, n, host);
  }

  lemma ControlEven(s: State, n: Insn, host: Host)
    requires Shaped(s) && Fits(n) && EvenTarget(n) && s.pc % 2 == 0
    ensures ExecControl(s, n, host).Running? ==> ExecControl(s, n, host).s.pc % 2 == 0
  {
    hide MemOk, HeapOk, Framed, ExecFloatMove, ExecSystem, And32, Shl32, Wrap32;
    EvenStep(s.pc, if n.ty.JAL? then n.imm else 0);
    if IsFloatMove(n.ty) { FloatMoveFrame(s, n); }
    SystemFrame(s, n, host);
    AndNotOne(Wrap32(s.regs[n.rs1] + n.imm));
  }

  // ----- one step ------------------------------------------------------------

  /** The instruction the step at s dispatches, if it dispatches one. */
  function Dispatching(s: State): (r: Option<Insn>)
    ensures r.Some? ==> Fits(r.value)
  {
    if s.suspended || !Fetch(s).Done? || !Rebuild.Valid(Decode(Fetch(s).value)) then None
    else DecodedFits(Fetch(s).value); Some(Decode(Fetch(s).value).insn)
  }

  /** The register a step may change besides x0. */
  function StepTarget(s: State): Target {
    match Dispatching(s)
    case None => NoTarget
    case Some(n) => TargetOf(n)
  }

  /** A step is the dispatch of its instruction with x0 cleared, or does not go on. */
  lemma StepDispatches(s: State, host: Host)
    requires Shaped(s)
    ensures match Dispatching(s)
            case None => !Step(s, host).Running?
            case Some(n) => Step(s, host) == Dispatched(s.(regs := s.regs[0 := 0]), n, host)
  {
    hide Decode, Dispatched, Fetch;
    FetchIgnoresRegs(s, s.regs[0 := 0]);
    if Fetch(s).Done? { DecodedFits(Fetch(s).value); }
  }

  /** Every step that goes on, float operations included, keeps the region layout and the table's
      well-formedness, changes at most one register besides x0 (an integer one or a floating one: rd, or
      x10 for a system call), and keeps pc even if it was. */
  lemma StepFrame(s: State, host: Host)
    requires Shaped(s)
    ensures var o := Step(s, host);
      o.Running? ==>
        && Shaped(o.s) && SameTable(s.mem, o.s.mem)
        && (forall k :: 1 <= k < 32 && StepTarget(s) != IntTarget(k) ==> o.s.regs[k] == s.regs[k])
        && (forall k :: 0 <= k < 32 && StepTarget(s) != FloatTarget(k) ==> o.s.fregs[k] == s.fregs[k])
        && (s.pc % 2 == 0 ==> o.s.pc % 2 == 0)
  {
    hide MemOk, HeapOk, Decode, Execute, Layout, Fetch, Step, TargetOf, EvenTarget, SameTable;
    StepDispatches(s, host);
    match Dispatching(s)
    case None =>
    case Some(n) =>
      DecodedEven(Fetch(s).value);
      var s0 := s.(regs := s.regs[0 := 0]);
      var s1 := s0.(bkpts := Breakpoints.CheckAll(s0.bkpts, s0.pc, n));
      ExecuteFrame(s1, n, host);
      if s.pc % 2 == 0 { ExecuteEven(s1, n, host); }
  }

  predicate FetchesWord(s: State, w: u32) { Fetch(s) == Done(w) }

  /** The state a decoded instruction executes in: x0 cleared, breakpoints updated. */
  function Prepared(s: State, n: Insn): State
    requires Shaped(s)
  {
    s.(regs := s.regs[0 := 0], bkpts := Breakpoints.CheckAll(s.bkpts, s.pc, n))
  }

  /** A step over a word that decodes to an instruction executes exactly that instruction. */
  lemma StepDecoded(s: State, w: u32, n: Insn, host: Host)
    requires Shaped(s) && !s.suspended && FetchesWord(s, w)
    requires Decode(w) == Decoded(n, false) && n.ty != INVALID
    ensures Fits(n) && Step(s, host) == Execute(Prepared(s, n), n, host)
  {
    hide Decode, Execute, Fetch;
    DecodedFits(w);
    FetchIgnoresRegs(s, s.regs[0 := 0]);
  }

  lemma FetchMoved(s: State, s': State, w: u32)
    requires s'.mem == s.mem && FetchesWord(s.(pc := s'.pc), w)
    ensures FetchesWord(s', w)
  {
  }

  lemma FetchIgnoresRegs(s: State, regs: seq<u32>)
    ensures Fetch(s.(regs := regs)) == Fetch(s)
  {
  }

  lemma StepShape(s: State, host: Host)
    requires Shaped(s)
    ensures Step(s, host).Running? ==> Shaped(Step(s, host).s)
    ensures Step(s, host).Stopped? ==> Shaped(Step(s, host).s)
  {
    hide MemOk, HeapOk, SameTable, Step;
    StepFrame(s, host);
    if Step(s, host).Stopped? { StopAbsorbs(s, host, host); }
  }

  // ----- stopping ------------------------------------------------------------

  /** When a step returns false, it has changed nothing but x0 and the suspended flag, and the state is
      at rest: it steps to itself, returning false, whatever the host does. The verdict on an invalid
      word depends on the word alone, so a stop that set no flag recurs as well. */
  lemma StopAbsorbs(s: State, host: Host, host': Host)
    requires Shaped(s) && Step(s, host).Stopped?
    ensures var s' := Step(s, host).s;
      && Shaped(s') && Step(s', host') == Stopped(s')
      && s'.pc == s.pc && s'.mem == s.mem && s'.fregs == s.fregs && s'.bkpts == s.bkpts
      && (forall k :: 1 <= k < 32 ==> s'.regs[k] == s.regs[k])
  {
    hide Decode, Execute, Memory.Load;
    if !s.suspended {
      var s0 := s.(regs := s.regs[0 := 0]);
      var s' := Step(s, host).s;
      StopIsDecode(s0, host);
      var d := Decode(Fetch(s0).value);
      assert s' == s0.(suspended := d.diagn);
      assert s'.regs[0 := 0] == s'.regs;
      assert s'.(regs := s'.regs[0 := 0]) == s';
      assert Fetch(s') == Fetch(s0);
    }
  }

  lemma StopIsDecode(s: State, host: Host)
    requires Shaped(s) && StepFrom(s, host).Stopped?
    ensures Fetch(s).Done? && Decode(Fetch(s).value).Decoded?
    ensures Decode(Fetch(s).value).insn.ty == INVALID
  {
    hide Decode, Execute, Fetch;
    var w := Fetch(s).value;
    if Rebuild.Valid(Decode(w)) {
      DecodedFits(w);
      ExecuteFrame(s.(bkpts := Breakpoints.CheckAll(s.bkpts, s.pc, Decode(w).insn)), Decode(w).insn, host);
    }
  }

  /** A step stops exactly when the emulator is suspended or the word at pc decodes to no instruction. */
  lemma StopsExactly(s: State, host: Host)
    requires Shaped(s)
    ensures Step(s, host).Stopped? <==>
              s.suspended || (Fetch(s).Done? && Decode(Fetch(s).value).Decoded?
                              && Decode(Fetch(s).value).insn.ty == INVALID)
  {
    hide Decode, Execute, Fetch;
    var s0 := s.(regs := s.regs[0 := 0]);
    FetchIgnoresRegs(s, s.regs[0 := 0]);
    if !s.suspended && StepFrom(s0, host).Stopped? { StopIsDecode(s0, host); }
  }

  /** A step over a CSR word traps the process, and one over an SLLI word with a nonzero funct7 is
      undefined. */
  lemma StepVerdicts(s: State, w: u32, host: Host)
    requires Shaped(s) && !s.suspended && FetchesWord(s, w)
    ensures w % 0x80 == 0x73 && w / 0x1000 % 4 != 0 ==> Step(s, host).Fatal?
    ensures w % 0x80 == 0x13 && w / 0x1000 % 8 == 1 && w >= 0x200_0000 ==> Step(s, host).Unspecified?
  {
    hide Decode, Fetch, Dispatched;
    FetchIgnoresRegs(s, s.regs[0 := 0]);
    Acceptance.AbnormalVerdicts(w);
    FunctOfWord(w);
  }

  lemma FunctOfWord(w: u32)
    ensures View(w).opcode == w % 0x80 && View(w).funct3 == w / 0x1000 % 8
    ensures View(w).funct7 != 0 <==> w >= 0x200_0000
    ensures w / 0x1000 % 4 != 0 <==> View(w).funct3 != 0 && View(w).funct3 != 4
  {
    LowBits(w / 0x1000);
  }

  lemma LowBits(q: nat)
    ensures q % 4 != 0 <==> q % 8 != 0 && q % 8 != 4
  {
  }

  /** When a step stops on a word, the emulator is suspended except after a register-register word that
      matches no operation, which sets no flag. */
  lemma StopSuspends(s: State, w: u32, host: Host)
    requires Shaped(s) && !s.suspended && FetchesWord(s, w) && Step(s, host).Stopped?
    ensures Step(s, host).s.suspended <==> w % 0x80 != 0x33
  {
    hide Decode, Fetch, Dispatched;
    FetchIgnoresRegs(s, s.regs[0 := 0]);
    StopIsDecode(s.(regs := s.regs[0 := 0]), host);
    Acceptance.DiagnExactly(w);
    FunctOfWord(w);
  }

  /** A fence ends the program: the step goes on to the next pc with nothing else changed, and every
      later step returns false. */
  lemma FenceStops(s: State, host: Host, host': Host)
    requires Shaped(s) && !s.suspended
    requires Fetch(s) == Done(0x0FF0_000F) || Fetch(s) == Done(0x0000_100F)
    ensures var o := Step(s, host);
      && o.Running? && Shaped(o.s) && Step(o.s, host') == Stopped(o.s)
      && o.s.regs == s.regs[0 := 0] && o.s.fregs == s.fregs && o.s.mem == s.mem
      && o.s.pc == Wrap32(s.pc + 4)
  {
    hide Decode, Fetch, Execute;
    var w := Fetch(s).value;
    FenceOpcodes();
    Acceptance.FenceWords(w);
    NotDiagnosed(w);
    DecodedFits(w);
    FetchIgnoresRegs(s, s.regs[0 := 0]);
    var n, s0 := Decode(w).insn, s.(regs := s.regs[0 := 0]);
    StubExecutes(s0.(bkpts := Breakpoints.CheckAll(s0.bkpts, s0.pc, n)), n, host);
  }

  /** Fences, and CSR instructions if one were dispatched, suspend the emulator and move on. */
  lemma StubExecutes(s: State, n: Insn, host: Host)
    requires Shaped(s) && Fits(n)
    requires n.ty in {FENCE, FENCE_I, CSRRW, CSRRS, CSRRC, CSRRWI, CSRRSI, CSRRCI}
    ensures Execute(s, n, host) == Running(Advance(s.(suspended := true)))
  {
  }

  /** A break request is undefined when the table has no heap, as in an image without .bss. */
  lemma BreakWithoutHeap(s: State, host: Host)
    requires Shaped(s) && s.regs[17] == 214 && forall i :: 0 <= i < |s.mem| ==> s.mem[i].tag != HeapTag
    ensures Syscall(s, host).Unspecified?
  {
  }

  lemma FenceOpcodes()
    ensures View(0x0FF0_000F).opcode == OP_SYNCH && View(0x0000_100F).opcode == OP_SYNCH
  {
  }

  lemma NotDiagnosed(w: u32)
    requires Rebuild.Valid(Decode(w))
    ensures !Decode(w).diagn
  {
    hide View, SelectR, SelectI, SelectS, SelectB, SelectR4, FunctR, ImmI, ImmS, ImmB, ImmJ;
    Rebuild.DecodedOpcode(w);
  }

  // ----- the breakpoint slots influence nothing ------------------------------

  /** The same outcome with the given breakpoint slots. */
  function WithSlots(o: Outcome, es: seq<Breakpoints.Event>): Outcome {
    match o
    case Running(s) => Running(s.(bkpts := es))
    case Stopped(s) => Stopped(s.(bkpts := es))
    case _ => o
  }

  lemma SyscallIgnoresSlots(s: State, es: seq<Breakpoints.Event>, host: Host)
    requires Shaped(s)
    ensures Syscall(s.(bkpts := es), host) == WithSlots(Syscall(s, host), es)
  {
    hide Brk, Memory.Store, Find;
  }

  lemma FloatUnitIgnoresSlots(s: State, es: seq<Breakpoints.Event>, n: Insn, host: Host)
    requires Shaped(s) && Fits(n) && IsFloatUnit(n.ty)
    ensures ExecFloatUnit(s.(bkpts := es), n, host) == WithSlots(ExecFloatUnit(s, n, host), es)
  {
    hide NanBox, Wrap32, IsFloatUnit, HasFormatFunct, FallsThrough, IsFloatCompare, IsFloatToInt;
  }

  lemma SystemIgnoresSlots(s: State, es: seq<Breakpoints.Event>, n: Insn, host: Host)
    requires Shaped(s) && Fits(n)
    ensures ExecSystem(s.(bkpts := es), n, host) == WithSlots(ExecSystem(s, n, host), es)
  {
    hide Syscall, ExecFloatUnit, Wrap32, IsFloatUnit, IsStub;
    if n.ty.ECALL? { SyscallIgnoresSlots(s, es, host); }
    if IsFloatUnit(n.ty) { FloatUnitIgnoresSlots(s, es, n, host); }
  }

  lemma ControlIgnoresSlots(s: State, es: seq<Breakpoints.Event>, n: Insn, host: Host)
    requires Shaped(s) && Fits(n)
    ensures ExecControl(s.(bkpts := es), n, host) == WithSlots(ExecControl(s, n, host), es)
  {
    hide ExecSystem, Memory.Load, Memory.Store, NanBox, NanUnbox, ToBytes, FromBytes, And32, Shl32, Wrap32, Pow2;
    SystemIgnoresSlots(s, es, n, host);
  }

  lemma ExecuteIgnoresSlots(s: State, es: seq<Breakpoints.Event>, n: Insn, host: Host)
    requires Shaped(s) && Fits(n)
    ensures Execute(s.(bkpts := es), n, host) == WithSlots(Execute(s, n, host), es)
  {
    hide ExecControl, Memory.Load, Memory.Store, LoadValue, ToBytes, RegReg, RegImm, Taken, Wrap32;
    ControlIgnoresSlots(s, es, n, host);
  }

  /** What a step makes of given slots: those of the instruction dispatched are checked, whatever it
      then does. */
  function NextSlots(s: State, es: seq<Breakpoints.Event>): seq<Breakpoints.Event> {
    match Dispatching(s)
    case None => es
    case Some(n) => Breakpoints.CheckAll(es, s.pc, n)
  }

  /** Every step, conforming or not, has the same outcome whatever the breakpoint slots hold, up to the
      slots themselves, and these depend on nothing but themselves, pc and the instruction. */
  lemma StepIgnoresSlots(s: State, es: seq<Breakpoints.Event>, host: Host)
    requires Shaped(s)
    ensures Step(s.(bkpts := es), host) == WithSlots(Step(s, host), NextSlots(s, es))
  {
    hide Decode, Execute, Fetch;
    var s', s0 := s.(bkpts := es), s.(regs := s.regs[0 := 0]);
    assert Fetch(s') == Fetch(s) by { FetchIgnoresSlots(s, es); }
    StepDispatches(s, host);
    StepDispatches(s', host);
    match Dispatching(s)
    case None => StoppedSlots(s, es, host);
    case Some(n) =>
      var es1 := Breakpoints.CheckAll(s.bkpts, s.pc, n);
      var es2 := Breakpoints.CheckAll(es, s.pc, n);
      ExecuteIgnoresSlots(s0.(bkpts := es1), es2, n, host);
      assert s0.(bkpts := es1).(bkpts := es2) == s'.(regs := s.regs[0 := 0]).(bkpts := es2);
  }

  lemma FetchIgnoresSlots(s: State, es: seq<Breakpoints.Event>)
    ensures Fetch(s.(bkpts := es)) == Fetch(s)
  {
  }

  lemma StoppedSlots(s: State, es: seq<Breakpoints.Event>, host: Host)
    requires Shaped(s) && Dispatching(s).None?
    ensures Step(s.(bkpts := es), host) == WithSlots(Step(s, host), es)
  {
    hide Decode, Dispatched, Memory.Load, FromBytes;
    FetchIgnoresRegs(s, s.regs[0 := 0]);
    FetchIgnoresSlots(s, es);
    FetchIgnoresSlots(s.(regs := s.regs[0 := 0]), es);
  }
}
