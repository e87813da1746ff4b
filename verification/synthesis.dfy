/** Instruction pairs fetched from memory, decoded and executed: those that build 32-bit constants and
    pc-relative targets, and a load after a store. */
module Synthesis {
  import opened Words
  import opened Decoder
  import opened Encoding
  import opened RoundTrip
  import opened Memory
  import opened Emulator
  import opened Isa
  import opened Refinement
  import opened Frame

  /** The upper 20 bits of c, rounded so that the signed lower 12 bits add up. */
  function Upper(c: u32): Bits20 { (c + 0x800) / 0x1000 % 0x10_0000 }

  function Lower(c: u32): int { if c % 0x1000 < 0x800 then c % 0x1000 else c % 0x1000 - 0x1000 }

  lemma SplitAdds(c: u32)
    ensures -0x800 <= Lower(c) < 0x800
    ensures Wrap32(Upper(c) * 0x1000 + Lower(c)) == c
  {
    var q, r := c / 0x1000, c % 0x1000;
    assert c == q * 0x1000 + r;
    if r < 0x800 {
      QuotientIs(c + 0x800, 0x1000, q, r + 0x800);
    } else {
      QuotientIs(c + 0x800, 0x1000, q + 1, r - 0x800);
    }
  }

  /** The word at pc is the encoding of i. */
  predicate Fetches(s: State, i: Instr) { Legal(i) && FetchesWord(s, Encode(i)) }

  /** A step over an encoded instruction, fences aside, executes exactly that instruction. */
  lemma StepEncoded(s: State, i: Instr, host: Host)
    requires Shaped(s) && !s.suspended && Fetches(s, i) && Decodable(i)
    ensures Fits(AsInsn(i)) && Step(s, host) == Execute(Prepared(s, AsInsn(i)), AsInsn(i), host)
  {
    hide Encode, Decode, Execute, AsInsn, FetchesWord, Step;
    DecodeEncode(i);
    FenceAsInsn(i);
    StepDecoded(s, Encode(i), AsInsn(i), host);
  }

  lemma StepLui(s: State, rd: Reg, upper: Bits20, host: Host)
    requires Shaped(s) && !s.suspended && Fetches(s, Lui(rd, upper))
    ensures Step(s, host)
         == Running(Advance(SetReg(Prepared(s, AsInsn(Lui(rd, upper))), rd, upper * 0x1000)))
  {
    hide Encode, Decode, FetchesWord, Step, Shl32;
    StepEncoded(s, Lui(rd, upper), host);
    Shl12(upper);
  }

  lemma StepAuipc(s: State, rd: Reg, upper: Bits20, host: Host)
    requires Shaped(s) && !s.suspended && Fetches(s, Auipc(rd, upper))
    ensures Step(s, host)
         == Running(Advance(SetReg(Prepared(s, AsInsn(Auipc(rd, upper))), rd, Wrap32(s.pc + upper * 0x1000))))
  {
    hide Encode, Decode, FetchesWord, Step, Shl32;
    StepEncoded(s, Auipc(rd, upper), host);
    Shl12(upper);
  }

  lemma StepAddi(s: State, rd: Reg, rs1: Reg, imm: int, host: Host)
    requires Shaped(s) && !s.suspended && Fetches(s, OpImm(Addi, rd, rs1, imm))
    ensures var s1 := Prepared(s, AsInsn(OpImm(Addi, rd, rs1, imm)));
      Step(s, host) == Running(Advance(SetReg(s1, rd, Wrap32(s1.regs[rs1] + imm))))
  {
    hide Encode, Decode, FetchesWord, Step, Wrap32;
    var i := OpImm(Addi, rd, rs1, imm);
    StepEncoded(s, i, host);
    WrapSum(Prepared(s, AsInsn(i)).regs[rs1], imm);
  }

  lemma StepJalr(s: State, rd: Reg, rs1: Reg, offset: int, host: Host)
    requires Shaped(s) && !s.suspended && Fetches(s, Jalr(rd, rs1, offset))
    ensures var s1 := Prepared(s, AsInsn(Jalr(rd, rs1, offset)));
      var target := Wrap32(s1.regs[rs1] + offset);
      Step(s, host) == Running(SetReg(s1, rd, Wrap32(s.pc + 4)).(pc := target - target % 2))
  {
    hide Encode, Decode, FetchesWord, Step, Wrap32, And32;
    var i := Jalr(rd, rs1, offset);
    StepEncoded(s, i, host);
    WrapSum(Prepared(s, AsInsn(i)).regs[rs1], offset);
    AndNotOne(Wrap32(Prepared(s, AsInsn(i)).regs[rs1] + offset));
  }

  /** LUI rd then ADDI rd, rd leaves any 32-bit constant in any rd but x0, moves pc by eight and changes
      no other register, memory or breakpoint-independent state. */
  lemma LoadConstant(s: State, rd: Reg, c: u32, host1: Host, host2: Host)
    requires Shaped(s) && !s.suspended && rd != 0
    requires Fetches(s, Lui(rd, Upper(c)))
    requires Fetches(s.(pc := Wrap32(s.pc + 4)), OpImm(Addi, rd, rd, Lower(c)))
    ensures Step(s, host1).Running? && Shaped(Step(s, host1).s)
    ensures var o := Step(Step(s, host1).s, host2);
      && o.Running?
      && o.s.regs == s.regs[0 := 0][rd := c]
      && o.s.pc == Wrap32(s.pc + 8) && o.s.mem == s.mem && o.s.fregs == s.fregs && !o.s.suspended
  {
    hide Encode, Decode, FetchesWord, Step, Upper, Lower;
    StepLui(s, rd, Upper(c), host1);
    var s1 := Step(s, host1).s;
    FetchMoved(s, s1, Encode(OpImm(Addi, rd, rd, Lower(c))));
    StepAddi(s1, rd, rd, Lower(c), host2);
    SplitAdds(c);
  }

  /** AUIPC rd then JALR through rd reaches every even displacement from an even pc, modulo 2^32, and
      leaves the return address in the link register. */
  lemma ReachDisplacement(s: State, rd: Reg, link: Reg, d: u32, host1: Host, host2: Host)
    requires Shaped(s) && !s.suspended && rd != 0 && s.pc % 2 == 0 && d % 2 == 0
    requires Fetches(s, Auipc(rd, Upper(d)))
    requires Fetches(s.(pc := Wrap32(s.pc + 4)), Jalr(link, rd, Lower(d)))
    ensures Step(s, host1).Running? && Shaped(Step(s, host1).s)
    ensures var o := Step(Step(s, host1).s, host2);
      && o.Running? && Shaped(o.s) && o.s.pc == Wrap32(s.pc + d) && o.s.regs[link] == Wrap32(s.pc + 8)
      && o.s.mem == s.mem && o.s.fregs == s.fregs && !o.s.suspended
  {
    hide Encode, Decode, FetchesWord, Step, Upper, Lower;
    StepAuipc(s, rd, Upper(d), host1);
    var s1 := Step(s, host1).s;
    FetchMoved(s, s1, Encode(Jalr(link, rd, Lower(d))));
    StepJalr(s1, link, rd, Lower(d), host2);
    SplitAdds(d);
    PcRelative(s.pc, d, Upper(d) * 0x1000, Lower(d));
  }

  lemma PcRelative(pc: u32, d: u32, upper: int, lower: int)
    requires Wrap32(upper + lower) == d
    ensures Wrap32(Wrap32(pc + upper) + lower) == Wrap32(pc + d)
    ensures pc % 2 == 0 && d % 2 == 0 ==> Wrap32(pc + d) % 2 == 0
    ensures Wrap32(Wrap32(pc + 4) + 4) == Wrap32(pc + 8)
  {
    hide Wrap32;
    WrapTwice(pc + upper, lower);
    WrapTwice(upper + lower, pc);
    WrapTwice(pc + 4, 4);
    WrapEven(pc + d);
  }

  lemma WrapTwice(x: int, y: int)
    ensures Wrap32(Wrap32(x) + y) == Wrap32(x + y)
  {
  }

  lemma WrapEven(x: nat)
    requires x < 2 * TWO32
    ensures Wrap32(x) % 2 == x % 2
  {
    if x >= TWO32 { QuotientIs(x, TWO32, 1, x - TWO32); }
  }

  // ----- a load after a store ------------------------------------------------

  lemma StepStore(s: State, k: StoreKind, rs1: Reg, rs2: Reg, offset: int, host: Host)
    requires Shaped(s) && !s.suspended && Fetches(s, Store(k, rs1, rs2, offset))
    ensures var s1 := Prepared(s, AsInsn(Store(k, rs1, rs2, offset)));
      match StoreAt(s1, Wrap32(s1.regs[rs1] + offset), ToBytes(s1.regs[rs2], StoreWidth(k)))
      case Running(s') => Step(s, host) == Running(Advance(s'))
      case o => Step(s, host) == o
  {
    hide Encode, Decode, FetchesWord, Step, Wrap32, StoreAt, ToBytes;
    var i := Store(k, rs1, rs2, offset);
    StepEncoded(s, i, host);
    StoreTyIsStore(k);
    WrapSum(Prepared(s, AsInsn(i)).regs[rs1], offset);
  }

  lemma StepLoad(s: State, k: LoadKind, rd: Reg, rs1: Reg, offset: int, host: Host)
    requires Shaped(s) && !s.suspended && Fetches(s, Load(k, rd, rs1, offset))
    ensures var s1 := Prepared(s, AsInsn(Load(k, rd, rs1, offset)));
      match Memory.Load(s1.mem, Wrap32(s1.regs[rs1] + offset), Width(k))
      case Done(bs) => Step(s, host) == Running(Advance(SetReg(s1, rd, LoadValue(LoadTy(k), bs))))
      case Trap => Step(s, host) == Fatal
      case Undefined => Step(s, host) == Unspecified
  {
    hide Encode, Decode, FetchesWord, Step, Wrap32, Memory.Load, LoadValue;
    var i := Load(k, rd, rs1, offset);
    StepEncoded(s, i, host);
    LoadTyIsLoad(k);
    WrapSum(Prepared(s, AsInsn(i)).regs[rs1], offset);
  }

  /** SB, SH or SW, where the store goes on, then a load of that width from the same address: the
      register receives the stored register's low bytes, extended as the load demands. */
  lemma StoreThenLoad(s: State, ks: StoreKind, rs1: Reg, rs2: Reg, offset: int,
                      kl: LoadKind, rd: Reg, base: Reg, offset': int, host1: Host, host2: Host)
    requires Shaped(s) && !s.suspended && rd != 0 && Width(kl) == StoreWidth(ks)
    requires Fetches(s, Store(ks, rs1, rs2, offset)) && Step(s, host1).Running?
    requires Wrap32(s.regs[0 := 0][base] + offset') == Wrap32(s.regs[0 := 0][rs1] + offset)
    ensures Shaped(Step(s, host1).s)
    ensures Fetches(Step(s, host1).s, Load(kl, rd, base, offset')) ==>
              var o := Step(Step(s, host1).s, host2);
              && o.Running?
              && o.s.regs
                 == s.regs[0 := 0][rd := Extended(kl, s.regs[0 := 0][rs2] % Pow2(8 * Width(kl)))]
              && o.s.mem == Step(s, host1).s.mem && o.s.pc == Wrap32(Wrap32(s.pc + 4) + 4)
  {
    hide Encode, Decode, FetchesWord, Step, Wrap32, Memory.Load, Memory.Store, ToBytes, LoadValue, Extended, Pow2;
    StepStore(s, ks, rs1, rs2, offset, host1);
    var s1 := Step(s, host1).s;
    if Fetches(s1, Load(kl, rd, base, offset')) {
      var v, a := s.regs[0 := 0][rs2], Wrap32(s.regs[0 := 0][rs1] + offset);
      StepLoad(s1, kl, rd, base, offset', host2);
      StoredIsRead(s.mem, a, ToBytes(v, Width(kl)));
      LoadValueAgrees(kl, ToBytes(v, Width(kl)));
      ValueOfBytes(v, Width(kl));
      assert s1.regs[0 := 0] == s.regs[0 := 0];
    }
  }
}
