/** The architectural machine of the ISA manual: x0 is hard-wired to zero, memory is one flat map of
    bytes, a fence on the single hart does nothing, instructions are recognised by their encodings and
    compute with signed integers (RISC-V Instruction Set Manual, Volume I, chapters 2 and 7), inside a small Linux-like
    execution environment. Instruction addresses are aligned to two bytes. */
module Isa {
  import opened Words
  import opened Encoding
  import opened Memory
  import opened Operations
  import opened Emulator

  /** The program break in absolute addresses. */
  datatype Break = Break(base: int, cur: int, limit: int)

  datatype Machine = Machine(pc: u32, x: seq<u32>, mem: map<int, u8>, brk: Break, halted: bool)

  /** `Fault`: an access to an unmapped address. `Foreign`: not an RV32IM instruction. */
  datatype Result = Next(m: Machine) | Halted(m: Machine) | Fault | Foreign

  predicate Formed(m: Machine) { |m.x| == 32 }

  function Get(m: Machine, r: Reg): u32
    requires Formed(m)
  {
    if r == 0 then 0 else m.x[r]
  }

  function Set(m: Machine, r: Reg, v: u32): Machine
    requires Formed(m)
  {
    if r == 0 then m else m.(x := m.x[r := v])
  }

  function NextPc(m: Machine): Machine { m.(pc := Wrap32(m.pc + 4)) }

  function Jump(m: Machine, offset: int): Machine { m.(pc := Wrap32(m.pc + offset)) }

  function Width(k: LoadKind): nat {
    match k case Lb => 1 case Lbu => 1 case Lh => 2 case Lhu => 2 case Lw => 4
  }

  function StoreWidth(k: StoreKind): nat {
    match k case Sb => 1 case Sh => 2 case Sw => 4
  }

  /** n-bit sign extension: bit n - 1 is copied into the upper bits. */
  ghost function SignExtended(v: nat, n: nat): nat
    requires n > 0
  {
    FromBits((i: nat) => Bit(v, if i < n then i else n - 1), 32)
  }

  ghost function Extended(k: LoadKind, v: nat): u32 {
    Pow2Of32();
    match k
    case Lb => SignExtended(v, 8)
    case Lh => SignExtended(v, 16)
    case _ => Wrap32(v)
  }

  predicate BranchTaken(k: BranchKind, a: u32, b: u32) {
    match k
    case Beq => a == b
    case Bne => a != b
    case Blt => Signed32(a) < Signed32(b)
    case Bge => Signed32(a) >= Signed32(b)
    case Bltu => a < b
    case Bgeu => a >= b
  }

  /** The immediate is sign-extended to 32 bits first. */
  ghost function ManualImm(k: ImmKind, a: u32, imm: int): nat {
    var b := Wrap32(imm);
    match k
    case Addi => Wrap32(Signed32(a) + imm)
    case Slti => if Signed32(a) < imm then 1 else 0
    case Sltiu => if a < b then 1 else 0
    case Xori => BitXor(a, b)
    case Ori => BitOr(a, b)
    case Andi => BitAnd(a, b)
  }

  ghost function ManualShift(k: ShiftKind, a: u32, shamt: nat): nat {
    match k
    case Slli => ShiftLeft(a, shamt)
    case Srli => ShiftRight(a, shamt)
    case Srai => ShiftRightArith(a, shamt)
  }

  /** brk(2): a nonzero request within the limits moves the break; the break in force is returned. */
  function MoveBreak(b: Break, request: u32): Break {
    if request != 0 && b.base <= request <= b.limit then b.(cur := request) else b
  }

  // System call numbers of Linux on RISC-V.
  const LINUX_READ := 63
  const LINUX_WRITE := 64
  const LINUX_FSTAT := 80
  const LINUX_BRK := 214

  /** The execution environment's calls; exit and unknown calls halt the machine. */
  ghost function Environment(m: Machine, host: Host): Result
    requires Formed(m)
  {
    var no, a0, a1 := Get(m, 17), Get(m, 10), Get(m, 11);
    if no == LINUX_READ then
      if a1 in m.mem then Next(Set(m, 10, 0)) else Fault
    else if no == LINUX_WRITE then
      if a1 in m.mem then Next(Set(m, 10, host.ret)) else Fault
    else if no == LINUX_FSTAT then
      if a1 in m.mem && AllMapped(m.mem, a1, |host.stat|) then
        Next(Set(m.(mem := FlatStore(m.mem, a1, host.stat)), 10, host.ret))
      else Fault
    else if no == LINUX_BRK then
      var b := MoveBreak(m.brk, a0);
      Next(Set(m.(brk := b), 10, Wrap32(b.cur)))
    else
      Next(m.(halted := true))
  }

  ghost function Exec(i: Instr, m: Machine, host: Host): Result
    requires Formed(m) && Legal(i)
  {
    match i
    case Lui(rd, upper) => Next(NextPc(Set(m, rd, upper * 0x1000)))
    case Auipc(rd, upper) => Next(NextPc(Set(m, rd, Wrap32(m.pc + upper * 0x1000))))
    case Jal(rd, offset) => Next(Jump(Set(m, rd, Wrap32(m.pc + 4)), offset))
    case Jalr(rd, rs1, offset) =>
      var target := Wrap32(Get(m, rs1) + offset);
      Next(Set(m, rd, Wrap32(m.pc + 4)).(pc := target - target % 2))
    case Branch(k, rs1, rs2, offset) =>
      Next(if BranchTaken(k, Get(m, rs1), Get(m, rs2)) then Jump(m, offset) else NextPc(m))
    case Load(k, rd, rs1, offset) =>
      var a := Wrap32(Get(m, rs1) + offset);
      if AllMapped(m.mem, a, Width(k)) then
        Next(NextPc(Set(m, rd, Extended(k, FromBytes(FlatLoad(m.mem, a, Width(k)))))))
      else Fault
    case Store(k, rs1, rs2, offset) =>
      var a := Wrap32(Get(m, rs1) + offset);
      if AllMapped(m.mem, a, StoreWidth(k)) then
        Next(NextPc(m.(mem := FlatStore(m.mem, a, ToBytes(Get(m, rs2), StoreWidth(k))))))
      else Fault
    case OpImm(k, rd, rs1, imm) =>
      Pow2Of32();
      Next(NextPc(Set(m, rd, ManualImm(k, Get(m, rs1), imm))))
    case Shift(k, rd, rs1, shamt) =>
      Pow2Of32();
      Next(NextPc(Set(m, rd, ManualShift(k, Get(m, rs1), shamt))))
    case Op(k, rd, rs1, rs2) =>
      ManualIsWord(k, Get(m, rs1), Get(m, rs2));
      Next(NextPc(Set(m, rd, Manual(k, Get(m, rs1), Get(m, rs2)))))
    case Ecall =>
      (match Environment(m, host)
       case Next(m') => Next(NextPc(m'))
       case r => r)
    case Fence(_, _, _) => Next(NextPc(m))
    case Ebreak => Next(NextPc(m))
  }

  lemma ManualIsWord(k: RegKind, a: u32, b: u32)
    ensures 0 <= Manual(k, a, b) < TWO32
  {
    Pow2Of32();
    hide Quotient, Remainder, FromBits, Pow2;
    Alu.ProductFits(a, b);
    if b != 0 { DivisionAgrees(a, b); }
  }

  ghost predicate IsInstrAt(m: Machine, i: Instr) {
    Legal(i) && AllMapped(m.mem, m.pc, 4) && Encode(i) == FromBytes(FlatLoad(m.mem, m.pc, 4))
  }

  /** One step: the instruction is the one whose encoding lies at pc. */
  ghost function IsaStep(m: Machine, host: Host): Result
    requires Formed(m)
  {
    if m.halted then Halted(m)
    else if !AllMapped(m.mem, m.pc, 4) then Fault
    else if exists i :: IsInstrAt(m, i) then
      var i :| IsInstrAt(m, i);
      Exec(i, m, host)
    else Foreign
  }
}
