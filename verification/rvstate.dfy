/** The emulator as the program runs it: registers, floating registers and breakpoint slots in arrays,
    the region table behind a reference, all updated in place. */
module RvStates {
  import opened Words
  import opened Insns
  import opened Decoder
  import opened Alu
  import opened Memory
  import opened ProgramBreak
  import opened Emulator
  import opened ElfContexts
  import Breakpoints
  import Runs

  datatype Status = Continue | Halt | Aborted | UndefinedC

  /** A diagnostic while decoding always comes with an invalid instruction. */
  lemma DiagnIsInvalid(w: u32)
    ensures Decode(w).Decoded? && Decode(w).diagn ==> Decode(w).insn.ty == INVALID
  {
    hide View, SelectR, SelectI, SelectS, SelectB, SelectR4, FunctR, ImmI, ImmS, ImmB, ImmJ;
  }

  class RvState {
    const regs: array<u32>
    const fregs: array<u64>
    const mem: ElfContext
    const bkpts: Breakpoints.Table
    var pc: u32
    var suspended: bool

    ghost predicate Valid()
      reads this, mem, mem.Repr
    {
      && mem.Valid()
      && regs.Length == 32 && fregs.Length == 32
      && this !in mem.Repr && regs !in mem.Repr && fregs !in mem.Repr && bkpts.events !in mem.Repr
      && (regs as object) != fregs && (regs as object) != bkpts.events && (fregs as object) != bkpts.events
    }

    ghost function Value(): (s: State)
      requires Valid()
      reads this, regs, fregs, bkpts.events, mem, mem.Repr
      ensures Shaped(s)
    {
      State(regs[..], fregs[..], pc, suspended, mem.Regions(), bkpts.events[..])
    }

    /** The outcome of a method is the given outcome. */
    ghost predicate Tracks(st: Status, o: Outcome)
      reads this, regs, fregs, bkpts.events, mem, mem.Repr
    {
      match o
      case Running(s) => st == Continue && Valid() && Value() == s
      case Stopped(s) => st == Halt && Valid() && Value() == s
      case Fatal => st == Aborted
      case Unspecified => st == UndefinedC
    }

    /** `rvstate_init`: everything zero except the entry point and the stack pointer. */
    constructor (ctx: ElfContext)
      requires ctx.Valid()
      ensures Valid() && mem == ctx && fresh(regs) && fresh(fregs) && fresh(bkpts.events)
      ensures Value() == Boot(ctx.Regions(), ctx.entryPoint, ctx.sp)
    {
      regs := new u32[32](_ => 0);
      fregs := new u64[32](_ => 0);
      mem := ctx;
      bkpts := new Breakpoints.Table();
      pc := ctx.entryPoint;
      suspended := false;
      new;
      regs[2] := ctx.sp;
    }

    method WriteReg(r: nat, v: u32)
      requires Valid() && r < 32
      modifies regs
      ensures Valid() && Value() == SetReg(old(Value()), r, v)
    {
      regs[r] := v;
    }

    method WriteFreg(r: nat, v: u64)
      requires Valid() && r < 32
      modifies fregs
      ensures Valid() && Value() == SetFreg(old(Value()), r, v)
    {
      fregs[r] := v;
    }

    method WriteMem(p: u32, data: seq<u8>) returns (st: Status)
      requires Valid()
      modifies mem.Repr
      ensures Valid() && mem.Repr == old(mem.Repr)
      ensures Tracks(st, StoreAt(old(Value()), p, data))
    {
      var r := mem.StoreBytes(p, data);
      st := match r case Trap => Aborted case Undefined => UndefinedC case Done(_) => Continue;
    }

    method SysFstat(host: Host) returns (st: Status)
      requires Valid() && regs[17] == SYS_FSTAT
      modifies regs, mem.Repr
      ensures Valid() && mem.Repr == old(mem.Repr)
      ensures Tracks(st, Syscall(old(Value()), host))
    {
      hide StoreAt, Brk;
      st := WriteMem(regs[11], host.stat);
      if st == Continue { WriteReg(10, host.ret); }
    }

    method SysBrk(host: Host) returns (st: Status)
      requires Valid() && regs[17] == SYS_BRK
      modifies regs, mem.Repr
      ensures Valid() && mem.Repr == old(mem.Repr)
      ensures Tracks(st, Syscall(old(Value()), host))
    {
      hide StoreAt, Brk;
      var which := mem.RegionByTag(HeapTag);
      if which == None { return UndefinedC; }
      var ret := mem.Brk(regs[10]);
      WriteReg(10, ret);
      return Continue;
    }

    /** `rvemu_dispatch_syscall` */
    method ExecSyscall(host: Host) returns (st: Status)
      requires Valid()
      modifies this, regs, mem.Repr
      ensures Valid() && mem.Repr == old(mem.Repr)
      ensures Tracks(st, Syscall(old(Value()), host))
    {
      hide StoreAt, Brk;
      var no := regs[17];
      if no == SYS_FSTAT {
        st := SysFstat(host);
      } else if no == SYS_BRK {
        st := SysBrk(host);
      } else {
        if no == SYS_READ || no == SYS_WRITE {
          var buff := mem.VmaToMem(regs[11]);
          if buff == None { return Aborted; }
          WriteReg(10, if no == SYS_READ then 0 else host.ret);
        } else {
          suspended := true;
        }
        return Continue;
      }
    }

    method Retire()
      requires Valid()
      modifies this`pc
      ensures Valid() && Value() == Advance(old(Value()))
    {
      pc := Wrap32(pc + 4);
    }

    method DoLoad(n: Insn) returns (st: Status)
      requires Valid() && Fits(n)
      modifies this, regs
      ensures Valid() && Tracks(st, ExecLoad(old(Value()), n))
    {
      hide LoadValue, Memory.Load;
      var r := mem.LoadBytes(Wrap32(regs[n.rs1] + n.imm), AccessWidth(n.ty));
      match r {
        case Trap => return Aborted;
        case Undefined => return UndefinedC;
        case Done(bs) => WriteReg(n.rd, LoadValue(n.ty, bs));
      }
      Retire();
      return Continue;
    }

    method DoStore(n: Insn) returns (st: Status)
      requires Valid() && Fits(n)
      modifies this, mem.Repr
      ensures Valid() && mem.Repr == old(mem.Repr)
      ensures Tracks(st, ExecStore(old(Value()), n))
    {
      hide StoreAt;
      st := WriteMem(Wrap32(regs[n.rs1] + n.imm), ToBytes(regs[n.rs2], AccessWidth(n.ty)));
      if st == Continue { Retire(); }
    }

    method DoFloatLoad(n: Insn) returns (st: Status)
      requires Valid() && Fits(n)
      modifies this, fregs
      ensures Valid() && Tracks(st, ExecFloatLoad(old(Value()), n))
    {
      hide NanBox, Memory.Load, FromBytes, Pow2;
      var single := n.funct == FLT_SINGLE;
      var r := mem.LoadBytes(Wrap32(regs[n.rs1] + n.imm), if single then 4 else 8);
      match r {
        case Trap => return Aborted;
        case Undefined => return UndefinedC;
        case Done(bs) =>
          FromBytesBound(bs);
          Pow2Of32();
          Pow2Of64();
          WriteFreg(n.rd, if single then NanBox(FromBytes(bs)) else FromBytes(bs));
      }
      Retire();
      return Continue;
    }

    method DoFloatStore(n: Insn) returns (st: Status)
      requires Valid() && Fits(n)
      modifies this, mem.Repr
      ensures Valid() && mem.Repr == old(mem.Repr)
      ensures Tracks(st, ExecFloatStore(old(Value()), n))
    {
      hide StoreAt, NanUnbox, ToBytes;
      var f := fregs[n.rs2];
      var data := if n.funct == FLT_SINGLE then ToBytes(NanUnbox(f), 4) else ToBytes(f, 8);
      st := WriteMem(Wrap32(regs[n.rs1] + n.imm), data);
      if st == Continue { Retire(); }
    }

    method DoJumpOrUpper(n: Insn)
      requires Valid() && Fits(n) && IsJumpOrUpper(n.ty)
      modifies this, regs
      ensures Valid() && Value() == ExecJumpOrUpper(old(Value()), n)
    {
      hide And32, Shl32, Wrap32, Signed32;
      match n.ty {
        case LUI => WriteReg(n.rd, Shl32(n.imm, 12)); Retire();
        case AUIPC => WriteReg(n.rd, Wrap32(pc + Shl32(n.imm, 12))); Retire();
        case JAL =>
          WriteReg(n.rd, Wrap32(pc + 4));
          pc := Wrap32(pc + Signed32(n.imm));
        case JALR =>
          var target := And32(Wrap32(regs[n.rs1] + n.imm), Not32(1));
          WriteReg(n.rd, Wrap32(pc + 4));
          pc := target;
      }
    }

    method DoFloatMove(n: Insn) returns (st: Status)
      requires Valid() && Fits(n) && IsFloatMove(n.ty)
      modifies this, regs, fregs, mem.Repr
      ensures Valid() && mem.Repr == old(mem.Repr)
      ensures Tracks(st, ExecFloatMove(old(Value()), n))
    {
      hide ExecFloatLoad, ExecFloatStore, NanBox, NanUnbox, Wrap32;
      st := Continue;
      match n.ty {
        case FLx => st := DoFloatLoad(n);
        case FSx => st := DoFloatStore(n);
        case FMV_X_W => WriteReg(n.rd, Wrap32(NanUnbox(fregs[n.rs1]))); Retire();
        case FMV_W_X => WriteFreg(n.rd, NanBox(regs[n.rs1])); Retire();
      }
    }

    method DoSuspend()
      requires Valid()
      modifies this`suspended
      ensures Valid() && Value() == old(Value()).(suspended := true)
    {
      suspended := true;
    }

    method DoEcall(host: Host) returns (st: Status)
      requires Valid()
      modifies this, regs, mem.Repr
      ensures Valid() && mem.Repr == old(mem.Repr)
      ensures Tracks(st, ExecEcall(old(Value()), host))
    {
      hide Syscall, Wrap32;
      st := ExecSyscall(host);
      if st == Continue { Retire(); }
    }

    method DoWriteFloat(rd: nat, double: bool, bits: u64)
      requires Valid() && rd < 32
      modifies fregs
      ensures Valid() && Value() == WriteFloat(old(Value()), rd, double, bits)
    {
      hide NanBox, Wrap32;
      if double { WriteFreg(rd, bits); } else { WriteFreg(rd, NanBox(Wrap32(bits))); }
    }

    /** `host.fpu` stands for what the host's floating-point unit computes from the operands. */
    method DoFloatUnit(n: Insn, host: Host) returns (st: Status)
      requires Valid() && Fits(n) && IsFloatUnit(n.ty)
      modifies this, regs, fregs
      ensures Valid() && Tracks(st, ExecFloatUnit(old(Value()), n, host))
    {
      hide WriteFloat, Wrap32, IsFloatUnit;
      if n.ty.FCVT_S_D? || n.ty.FCVT_D_S? {
        DoWriteFloat(n.rd, n.ty.FCVT_D_S?, host.fpu);
      } else if !HasFormatFunct(n) {
        if !FallsThrough(n.ty) { return UndefinedC; }
      } else if IsFloatCompare(n.ty) {
        WriteReg(n.rd, if host.fpu == 0 then 0 else 1);
      } else if IsFloatToInt(n.ty) {
        WriteReg(n.rd, Wrap32(host.fpu));
      } else {
        DoWriteFloat(n.rd, n.funct == FLT_DOUBLE, host.fpu);
      }
      Retire();
      return Continue;
    }

    method DoSystem(n: Insn, host: Host) returns (st: Status)
      requires Valid() && Fits(n)
      modifies this, regs, fregs, mem.Repr
      ensures Valid() && mem.Repr == old(mem.Repr)
      ensures Tracks(st, ExecSystem(old(Value()), n, host))
    {
      hide ExecEcall, Wrap32, IsStub, IsFloatUnit, ExecFloatUnit;
      if n.ty.ECALL? {
        st := DoEcall(host);
      } else if n.ty.EBREAK? {
        Retire();
        st := Continue;
      } else if n.ty.FCLASSx? {
        DoSuspend();
        st := Continue;
      } else if IsStub(n.ty) {
        DoSuspend();
        Retire();
        st := Continue;
      } else if IsFloatUnit(n.ty) {
        st := DoFloatUnit(n, host);
      } else {
        st := UndefinedC;
      }
    }

    method DoControl(n: Insn, host: Host) returns (st: Status)
      requires Valid() && Fits(n)
      modifies this, regs, fregs, mem.Repr
      ensures Valid() && mem.Repr == old(mem.Repr)
      ensures Tracks(st, ExecControl(old(Value()), n, host))
    {
      hide ExecJumpOrUpper, ExecFloatMove, ExecSystem;
      if IsJumpOrUpper(n.ty) {
        DoJumpOrUpper(n);
        st := Continue;
      } else if IsFloatMove(n.ty) {
        st := DoFloatMove(n);
      } else {
        st := DoSystem(n, host);
      }
    }

    method DoArith(n: Insn) returns (st: Status)
      requires Valid() && Fits(n) && (IsRegReg(n.ty) || IsRegImm(n.ty))
      modifies this, regs
      ensures Valid() && Tracks(st, ExecArith(old(Value()), n))
    {
      hide RegReg, RegImm;
      if IsRegReg(n.ty) {
        var v := RegReg(n.ty, regs[n.rs1], regs[n.rs2]);
        if v == None { return UndefinedC; }
        WriteReg(n.rd, v.value);
      } else {
        WriteReg(n.rd, RegImm(n.ty, regs[n.rs1], n.imm));
      }
      Retire();
      return Continue;
    }

    method DoBranch(n: Insn)
      requires Valid() && Fits(n) && IsBranch(n.ty)
      modifies this`pc
      ensures Valid() && Value() == ExecBranch(old(Value()), n)
    {
      hide Taken, Wrap32, Signed32;
      if Taken(n.ty, regs[n.rs1], regs[n.rs2]) {
        pc := Wrap32(pc + Signed32(n.imm));
      } else {
        pc := Wrap32(pc + 4);
      }
    }

    /** `rvemu_dispatch` */
    method Dispatch(n: Insn, host: Host) returns (st: Status)
      requires Valid() && Fits(n)
      modifies this, regs, fregs, bkpts.events, mem.Repr
      ensures Valid() && mem.Repr == old(mem.Repr)
      ensures Tracks(st, Dispatched(old(Value()), n, host))
    {
      hide ExecArith, ExecBranch, ExecLoad, ExecStore, ExecControl, Breakpoints.CheckAll;
      bkpts.Check(pc, n);
      if IsRegReg(n.ty) || IsRegImm(n.ty) {
        st := DoArith(n);
      } else if IsBranch(n.ty) {
        DoBranch(n);
        st := Continue;
      } else if IsLoad(n.ty) {
        st := DoLoad(n);
      } else if IsStore(n.ty) {
        st := DoStore(n);
      } else {
        st := DoControl(n, host);
      }
    }

    /** `rvemu_step` */
    method Step(host: Host) returns (st: Status)
      requires Valid()
      modifies this, regs, fregs, bkpts.events, mem.Repr
      ensures Valid() && mem.Repr == old(mem.Repr)
      ensures Tracks(st, Emulator.Step(old(Value()), host))
    {
      hide Decode, Dispatched, FromBytes, Memory.Load, Pow2;
      if suspended { return Halt; }
      WriteReg(0, 0);
      var fetched := mem.LoadBytes(pc, 4);
      match fetched {
        case Trap => return Aborted;
        case Undefined => return UndefinedC;
        case Done(bs) =>
          FromBytesBound(bs);
          Pow2Of32();
          match Decode(FromBytes(bs)) {
            case Trapped => return Aborted;
            case Undecided => return UndefinedC;
            case Decoded(n, diagn) =>
              DiagnIsInvalid(FromBytes(bs));
              if diagn { suspended := true; }
              if n.ty.INVALID? { return Halt; }
              DecodedFits(FromBytes(bs));
              st := Dispatch(n, host);
          }
      }
    }

    /** The steps the user asks for at the breakpoint prompt; their results are ignored. */
    method Prompt(hosts: seq<Host>) returns (st: Status)
      requires Valid()
      modifies this, regs, fregs, bkpts.events, mem.Repr
      ensures Valid() && mem.Repr == old(mem.Repr)
      ensures Tracks(st, Runs.StepAnyway(old(Value()), hosts))
    {
      hide Emulator.Step;
      var i := 0;
      while i < |hosts|
        invariant 0 <= i <= |hosts|
        invariant Valid() && mem.Repr == old(mem.Repr)
        invariant Runs.StepAnyway(old(Value()), hosts) == Runs.StepAnyway(Value(), hosts[i..])
      {
        assert hosts[i..][1..] == hosts[i + 1..];
        st := Step(hosts[i]);
        if st == Aborted || st == UndefinedC { return st; }
        i := i + 1;
      }
      return Continue;
    }

    /** The main loop, for as many turns as the host and the user have replies. */
    method Session(turns: seq<Runs.Turn>) returns (st: Status)
      requires Valid()
      modifies this, regs, fregs, bkpts.events, mem.Repr
      ensures Valid() && mem.Repr == old(mem.Repr)
      ensures Tracks(st, Runs.Session(old(Value()), turns))
    {
      hide Emulator.Step, Runs.StepAnyway, Breakpoints.PollAll, Breakpoints.FirstReportable;
      var i := 0;
      while i < |turns|
        invariant 0 <= i <= |turns|
        invariant Valid() && mem.Repr == old(mem.Repr)
        invariant Runs.Session(old(Value()), turns) == Runs.Session(Value(), turns[i..])
      {
        assert turns[i..][1..] == turns[i + 1..];
        st := Step(turns[i].host);
        if st != Continue { return st; }
        var which := bkpts.Poll();
        st := Prompt(if which.Some? then turns[i].prompt else []);
        if st != Continue { return st; }
        i := i + 1;
      }
      return Continue;
    }
  }
}
