/** The program from end to end: load an image, build the emulator over it, and run the main loop. */
module Program {
  import opened Words
  import opened Memory
  import opened ProgramBreak
  import opened Emulator
  import opened Isa
  import opened Refinement
  import opened Runs
  import opened Loader
  import opened RvStates
  import opened Encoding
  import opened Frame
  import opened Floats
  import Breakpoints

  /** The breakpoint the program registers at start: a one-shot at a fixed pc. */
  const START_BREAKPOINT := Breakpoints.Event(
    Breakpoints.CompEq, false, 0x10954, Breakpoints.NO_INSN, Breakpoints.NO_INSN, true, true, false)

  /** The state the main loop starts in. */
  function StartState(rs: seq<Region>, entry: u32, sp: u32): (s: State)
    ensures Shaped(s)
  {
    var s0 := Boot(rs, entry, sp);
    s0.(bkpts := Breakpoints.AddEvent(s0.bkpts, START_BREAKPOINT))
  }

  /** Loading and running an image; an image that leaves no stack aborts the program. */
  method Emulate(file: seq<u8>, phdrs: seq<Phdr>, entry: u32, bssStart: u32, bssSize: u32,
                 addrs: seq<nat>, turns: seq<Turn>)
    returns (st: Status, emulator: RvState?)
    requires Sane(phdrs, |file|) && |addrs| >= |phdrs| + 2
    ensures var bp := if bssStart == 0 then 0 else (bssStart + bssSize + 0x10_0000) % 0x1_0000_0000;
      var rs := Table(file, phdrs, bssStart, bssSize, addrs);
      if bp == 0 then st == Aborted
      else emulator != null
           && emulator.Tracks(
                st, Session(StartState(rs, entry, (bp + 0xF_FFFF) % 0x1_0000_0000), turns))
  {
    hide Table, Runs.Session, Breakpoints.AddEvent, Boot;
    emulator := null;
    var ctx := ElfInit(file, phdrs, entry, bssStart, bssSize, addrs);
    if ctx.bp == 0 { return Aborted, null; }
    emulator := new RvState(ctx);
    emulator.bkpts.Add(START_BREAKPOINT);
    assert emulator.Value() == StartState(ctx.Regions(), entry, ctx.sp);
    st := emulator.Session(turns);
  }

  /** In the start state every register but pc and sp is zero, the floating ones included, and of the
      sixteen slots the first alone is in use: a one-shot at pc 0x10954. */
  lemma StartExactly(rs: seq<Region>, entry: u32, sp: u32)
    ensures var s := StartState(rs, entry, sp);
      && s.pc == entry && !s.suspended && s.mem == rs && Shaped(s)
      && (forall k :: 0 <= k < 32 ==> s.regs[k] == if k == 2 then sp else 0)
      && (forall k :: 0 <= k < 32 ==> s.fregs[k] == 0)
      && |s.bkpts| == 16 && Armed(s.bkpts, 0x10954)
  {
    assert Breakpoints.FirstFree(Boot(rs, entry, sp).bkpts, 0) == Some(0);
  }

  /** FMV.X.W of any register as the program's first instruction gives zero. */
  lemma FirstMoveIsZero(rs: seq<Region>, entry: u32, sp: u32, rd: Reg, f: Reg, host: Host)
    requires FetchesWord(StartState(rs, entry, sp), MoveFromFloatWord(rd, f)) && rd != 0
    ensures var o := Step(StartState(rs, entry, sp), host); o.Running? && Shaped(o.s) && o.s.regs[rd] == 0
  {
    hide FetchesWord, MoveFromFloatWord, Step, StartState, NanUnbox;
    StartExactly(rs, entry, sp);
    MoveFromStep(StartState(rs, entry, sp), rd, f, host);
    NanUnboxValue(0);
  }

  /** Whatever the image and the user do, the prompt opens exactly once, after a dispatch at pc 0x10954,
      if the main loop ever dispatches there, and otherwise never. */
  lemma PromptsExactly(rs: seq<Region>, entry: u32, sp: u32, turns: seq<Turn>)
    ensures var s := StartState(rs, entry, sp);
      LoopPcs(s, turns, true) == if 0x10954 in LoopPcs(s, turns, false) then [0x10954] else []
  {
    hide LoopPcs, StartState;
    StartExactly(rs, entry, sp);
    ArmedPrompts(StartState(rs, entry, sp), 0x10954, turns);
  }

  /** End to end. The emulator started on an image with a .bss section, wherever its segments, heap and
      stack lie, does what the architectural machine does on the loaded memory, whatever the user does
      at the breakpoint prompt, for as long as the program stays within RV32IM and conforms. */
  lemma ProgramRefines(file: seq<u8>, phdrs: seq<Phdr>, entry: u32, bssStart: u32, bssSize: u32,
                       addrs: seq<nat>, sp: u32, turns: seq<Turn>)
    requires Sane(phdrs, |file|) && |addrs| >= |phdrs| + 2 && bssStart != 0
    ensures var rs := Table(file, phdrs, bssStart, bssSize, addrs);
      var s := StartState(rs, entry, sp);
      var calls := CallsOf(s, turns);
      && Inv(s)
      && Abs(s).pc == entry && !Abs(s).halted
      && (forall k :: 0 <= k < 32 ==> Get(Abs(s), k) == if k == 2 then sp else 0)
      && (forall k :: 0 <= k < 32 ==> s.fregs[k] == 0)
      && (NativeRun(Abs(s), Replies(calls)) && ConformingRun(Layout(rs), Abs(s), Replies(calls)) ==>
            Agrees(Session(s, turns), IsaCalls(Abs(s), calls)))
  {
    hide Table, Runs.Session, NativeRun, ConformingRun, IsaCalls, MemOk, HasHeap, Heap, Flat, CallsOf, Replies;
    var rs := Table(file, phdrs, bssStart, bssSize, addrs);
    BootInv(file, phdrs, bssStart, bssSize, addrs, entry, sp);
    var s := StartState(rs, entry, sp);
    AbsIgnoresBkpts(Boot(rs, entry, sp), s.bkpts);
    var calls := CallsOf(s, turns);
    if NativeRun(Abs(s), Replies(calls)) && ConformingRun(Layout(rs), Abs(s), Replies(calls)) {
      SessionRefines(s, turns);
    }
  }
}
