/** Instructions whatever the memory blocks hold: where address ranges overlap, the conditions under which
    the emulator agrees with the architectural machine are still the exact ones. */
module Contents {
  import opened Words
  import opened Insns
  import opened Encoding
  import opened RoundTrip
  import opened Memory
  import opened ProgramBreak
  import opened Emulator
  import opened Isa
  import opened Refinement

  lemma RefilledInv(s: State, mem: seq<Region>)
    requires Inv(s) && Refilled(s.mem, mem)
    ensures Inv(s.(mem := mem)) && Layout(mem) == Layout(s.mem)
    ensures forall a :: a in Flat(mem) <==> a in Flat(s.mem)
    ensures Abs(s.(mem := mem)) == Abs(s).(mem := Flat(mem))
  {
    hide Find;
    RefilledKeeps(s.mem, mem);
    FindTagByLayout(s.mem, mem, HeapTag, 0);
    forall a: u32 ensures Find(mem, a, 0) == Find(s.mem, a, 0) { FindByLayout(s.mem, mem, a, 0); }
  }

  /** With these block contents the instruction agrees with the manual. */
  ghost predicate AgreesOn(i: Instr, s: State, host: Host, mem: seq<Region>)
    requires Legal(i)
  {
    AsInsnFits(i);
    && Inv(s.(mem := mem))
    && Agrees(Execute(s.(mem := mem), AsInsn(i), host), Exec(i, Abs(s.(mem := mem)), host))
  }

  /** `InstrOk` does not look at the contents. */
  lemma SameCondition(i: Instr, s: State, host: Host, mem: seq<Region>)
    requires Inv(s) && Refilled(s.mem, mem) && Legal(i)
    ensures Inv(s.(mem := mem)) && Layout(mem) == Layout(s.mem)
    ensures InstrOk(Layout(mem), i, Abs(s.(mem := mem)), host) == InstrOk(Layout(s.mem), i, Abs(s), host)
  {
    hide MemOk, HasHeap, Heap, Flat, Inside, Contained, Refilled, Abs, Layout;
    RefilledInv(s, mem);
    var m, m' := Abs(s), Abs(s.(mem := mem));
    assert m.mem == Flat(s.mem) && m'.mem == Flat(mem) by { AbsMem(s); AbsMem(s.(mem := mem)); }
  }

  lemma AbsMem(s: State)
    requires Inv(s)
    ensures Abs(s).mem == Flat(s.mem) && Abs(s).x == s.regs[0 := 0]
  {
  }

  // ----- loads ---------------------------------------------------------------

  lemma {:induction false} FromBytesZero(bs: seq<u8>)
    ensures FromBytes(bs) == 0 <==> forall k :: 0 <= k < |bs| ==> bs[k] == 0
  {
    if |bs| == 0 {
    } else {
      FromBytesZero(bs[1..]);
      assert forall k :: 1 <= k < |bs| ==> bs[k] == bs[1..][k - 1];
    }
  }

  lemma LoadValueZero(k: LoadKind, bs: seq<u8>)
    requires |bs| == Width(k)
    ensures LoadValue(LoadTy(k), bs) == 0 <==> FromBytes(bs) == 0
  {
    hide FromBytes, Pow2;
    FromBytesBound(bs);
    PowersOfBytes();
  }

  /** A load that strays into a block filled with zeros while the addresses hold a one. */
  lemma StrayLoad(k: LoadKind, rd: Reg, rs1: Reg, offset: int, s: State, host: Host) returns (mem: seq<Region>)
    requires Inv(s) && s.regs[0] == 0 && Legal(Load(k, rd, rs1, offset)) && rd != 0
    requires var a := Wrap32(s.regs[rs1] + offset);
      Contained(Layout(s.mem), a, Width(k)) && !Inside(Layout(s.mem), a, Width(k))
    ensures Refilled(s.mem, mem) && !AgreesOn(Load(k, rd, rs1, offset), s, host, mem)
  {
    hide MemOk, HasHeap, Heap, Layout, Wrap32, Memory.Load, LoadValue, Extended, Flat, Inside, Contained, Find,
      FromBytes, Execute, Exec, Agrees, Refilled;
    var a, n := Wrap32(s.regs[rs1] + offset), Width(k);
    LoadIsFlat(s.mem, a, n);
    var b, j := StrayByte(s.mem, a, n);
    mem := Fill(s.mem, j, 1);
    FillHolds(s.mem, j, 1, b, j);
    FillLoads(s.mem, j, 1, a, n);
    RefilledInv(s, mem);
    ContainedMapped(mem, a, n);
    StrayValue(k, mem, a, b);
    LoadDisagrees(k, rd, rs1, offset, s.(mem := mem), host);
  }

  lemma LoadDisagrees(k: LoadKind, rd: Reg, rs1: Reg, offset: int, s: State, host: Host)
    requires Inv(s) && s.regs[0] == 0 && Legal(Load(k, rd, rs1, offset)) && rd != 0
    requires var a := Wrap32(s.regs[rs1] + offset);
      && AllMapped(Flat(s.mem), a, Width(k)) && Memory.Load(s.mem, a, Width(k)).Done?
      && LoadValue(LoadTy(k), Memory.Load(s.mem, a, Width(k)).value)
         != Extended(k, FromBytes(FlatLoad(Flat(s.mem), a, Width(k))))
    ensures !AgreesOn(Load(k, rd, rs1, offset), s, host, s.mem)
  {
    hide MemOk, HasHeap, Heap, Layout, Wrap32, Memory.Load, LoadValue, Extended, Flat, FromBytes;
    var a := Wrap32(s.regs[rs1] + offset);
    WrapSum(s.regs[rs1], offset);
    LoadTyIsLoad(k);
    AbsGet(s, rs1);
    WriteAgrees(s, rd, LoadValue(LoadTy(k), Memory.Load(s.mem, a, Width(k)).value),
                Extended(k, FromBytes(FlatLoad(Flat(s.mem), a, Width(k)))));
    assert s.(mem := s.mem) == s;
  }

  lemma StrayValue(k: LoadKind, mem: seq<Region>, a: u32, b: u32)
    requires MemOk(mem) && AllMapped(Flat(mem), a, Width(k)) && a <= b < a + Width(k) && Flat(mem)[b] != 0
    ensures Extended(k, FromBytes(FlatLoad(Flat(mem), a, Width(k)))) != 0
    ensures LoadValue(LoadTy(k), seq(Width(k), _ => 0)) == 0
  {
    hide MemOk, Flat, LoadValue, Extended, FromBytes;
    var flat := FlatLoad(Flat(mem), a, Width(k));
    var zeros: seq<u8> := seq(Width(k), _ => 0);
    assert flat[b - a] != 0;
    FromBytesZero(flat);
    FromBytesZero(zeros);
    LoadValueZero(k, flat);
    LoadValueZero(k, zeros);
    LoadValueAgrees(k, flat);
  }

  lemma LoadCounterexample(k: LoadKind, rd: Reg, rs1: Reg, offset: int, s: State, host: Host)
    returns (mem: seq<Region>)
    requires Inv(s) && s.regs[0] == 0 && Legal(Load(k, rd, rs1, offset))
    requires !InstrOk(Layout(s.mem), Load(k, rd, rs1, offset), Abs(s), host)
    ensures Refilled(s.mem, mem) && !AgreesOn(Load(k, rd, rs1, offset), s, host, mem)
  {
    hide MemOk, HasHeap, Heap, Layout, Wrap32, Memory.Load, LoadValue, Extended, Flat, Inside, Contained,
      FromBytes;
    var a, n := Wrap32(s.regs[rs1] + offset), Width(k);
    AbsGet(s, rs1);
    WrapSum(s.regs[rs1], offset);
    LoadIsFlat(s.mem, a, n);
    if Contained(Layout(s.mem), a, n) {
      mem := StrayLoad(k, rd, rs1, offset, s, host);
    } else {
      LoadTyIsLoad(k);
      RefilledSelf(s.mem);
      mem := s.mem;
      assert s.(mem := mem) == s;
    }
  }

  // ----- stores --------------------------------------------------------------

  /** Where a store does not write the flat memory, neither machine's outcome is the other's. */
  lemma StoreDisagrees(s: State, a: u32, data: seq<u8>)
    requires Inv(s) && a in Flat(s.mem) && !WritesFlat(s.mem, a, data)
    ensures var o := StoreAt(s, a, data);
      !o.Fatal? && (o.Running? ==> Inv(o.s) && Flat(o.s.mem) != FlatStore(Flat(s.mem), a, data))
  {
    hide Flat, Inside, Contained, Memory.Store, MemOk;
    StoreIsFlat(s.mem, a, data);
    StoreAgrees(s, a, data);
  }

  lemma StoreCounterexample(k: StoreKind, rs1: Reg, rs2: Reg, offset: int, s: State, host: Host)
    returns (mem: seq<Region>)
    requires Inv(s) && s.regs[0] == 0 && Legal(Store(k, rs1, rs2, offset))
    requires !InstrOk(Layout(s.mem), Store(k, rs1, rs2, offset), Abs(s), host)
    ensures Refilled(s.mem, mem) && !AgreesOn(Store(k, rs1, rs2, offset), s, host, mem)
  {
    hide MemOk, HasHeap, Heap, Layout, Wrap32, Flat, Inside, StoreAt, ToBytes, WritesFlat, Refilled;
    var a, data := Wrap32(s.regs[rs1] + offset), ToBytes(s.regs[rs2], StoreWidth(k));
    AbsGet(s, rs1);
    WrapSum(s.regs[rs1], offset);
    mem := StrayWrite(s.mem, a, data);
    RefilledInv(s, mem);
    var s' := s.(mem := mem);
    AbsGet(s', rs1);
    AbsGet(s', rs2);
    StoreTyIsStore(k);
    StoreDisagrees(s', a, data);
    StoreAgrees(s', a, data);
  }

  lemma FstatCounterexample(s: State, host: Host) returns (mem: seq<Region>)
    requires Inv(s) && s.regs[0] == 0 && !InstrOk(Layout(s.mem), Ecall, Abs(s), host)
    ensures Refilled(s.mem, mem) && !AgreesOn(Ecall, s, host, mem)
  {
    hide MemOk, HasHeap, Heap, Layout, Wrap32, Flat, Inside, WritesFlat, Refilled, Agrees, Syscall, Environment,
      ExecEcall;
    AbsGet(s, 11);
    AbsGet(s, 17);
    mem := StrayWrite(s.mem, s.regs[11], host.stat);
    RefilledInv(s, mem);
    var s' := s.(mem := mem);
    FstatDisagrees(s', host);
    EcallAgrees(s', host);
    EcallExecutes(s', host);
  }

  lemma EcallExecutes(s: State, host: Host)
    requires Shaped(s)
    ensures AsInsn(Ecall) == Insn(ECALL, 0, 0, 0, 0, 0, 0) && Fits(AsInsn(Ecall))
    ensures Execute(s, AsInsn(Ecall), host) == ExecEcall(s, host)
  {
    hide ExecEcall;
  }

  lemma FstatDisagrees(s: State, host: Host)
    requires Inv(s) && s.regs[0] == 0 && s.regs[17] == SYS_FSTAT
    requires s.regs[11] in Flat(s.mem) && !WritesFlat(s.mem, s.regs[11], host.stat)
    ensures !Agrees(Syscall(s, host), Environment(Abs(s), host))
  {
    hide MemOk, HasHeap, Heap, Layout, Flat, StoreAt, WritesFlat;
    AbsGet(s, 11);
    AbsGet(s, 17);
    StoreDisagrees(s, s.regs[11], host.stat);
    var o := StoreAt(s, s.regs[11], host.stat);
    if o.Running? { AbsSetReg(o.s, 10, host.ret); }
  }

  // ----- every instruction ---------------------------------------------------

  lemma Counterexample(i: Instr, s: State, host: Host) returns (mem: seq<Region>)
    requires Inv(s) && s.regs[0] == 0 && Legal(i) && !InstrOk(Layout(s.mem), i, Abs(s), host)
    ensures Refilled(s.mem, mem) && !AgreesOn(i, s, host, mem)
  {
    hide Inv, InstrOk, Agrees, Execute, Exec;
    if i.Load? {
      mem := LoadCounterexample(i.load, i.rd, i.rs1, i.offset, s, host);
    } else if i.Store? {
      mem := StoreCounterexample(i.store, i.rs1, i.rs2, i.offset, s, host);
    } else if i.Ecall? {
      mem := FstatCounterexample(s, host);
    } else {
      ExecExact(i, s, host);
      RefilledSelf(s.mem);
      mem := s.mem;
      assert s.(mem := mem) == s;
    }
  }

  /** Whatever the address ranges, overlapping or not: an instruction agrees with the manual for all
      contents of the memory blocks exactly when `InstrOk` holds. */
  lemma ExecExactly(i: Instr, s: State, host: Host)
    requires Inv(s) && s.regs[0] == 0 && Legal(i)
    ensures InstrOk(Layout(s.mem), i, Abs(s), host)
       <==> forall mem :: Refilled(s.mem, mem) ==> AgreesOn(i, s, host, mem)
  {
    hide InstrOk, Agrees, Execute, Exec, MemOk, HasHeap, Heap, Refilled, Layout;
    if InstrOk(Layout(s.mem), i, Abs(s), host) {
      forall mem | Refilled(s.mem, mem) ensures AgreesOn(i, s, host, mem) {
        SameCondition(i, s, host, mem);
        ExecExact(i, s.(mem := mem), host);
      }
    } else {
      var mem := Counterexample(i, s, host);
    }
  }
}
