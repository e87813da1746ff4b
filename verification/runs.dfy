/** Whole runs: the emulator in lockstep with the architectural machine, and what every run keeps. */
module Runs {
  import opened Words
  import opened Insns
  import opened Memory
  import opened Emulator
  import opened Isa
  import opened Refinement
  import opened Frame
  import Breakpoints

  /** Steps until the host replies run out or a step does not go on. */
  function Run(s: State, hosts: seq<Host>): Outcome
    requires Shaped(s)
    decreases |hosts|
  {
    if |hosts| == 0 then Running(s)
    else
      match Step(s, hosts[0])
      case Running(s') => StepShape(s, hosts[0]); Run(s', hosts[1..])
      case o => o
  }

  ghost function IsaRun(m: Machine, hosts: seq<Host>): Result
    requires Formed(m)
    decreases |hosts|
  {
    if |hosts| == 0 then Next(m)
    else
      match IsaStep(m, hosts[0])
      case Next(m') => IsaShape(m, hosts[0]); IsaRun(m', hosts[1..])
      case r => r
  }

  lemma IsaShape(m: Machine, host: Host)
    requires Formed(m)
    ensures IsaStep(m, host).Next? ==> Formed(IsaStep(m, host).m)
    ensures IsaStep(m, host).Halted? ==> m.halted && IsaStep(m, host).m == m
  {
    hide Encoding.Encode, Operations.Manual, ManualImm, ManualShift;
  }

  /** The architectural run meets only RV32IM instructions. */
  ghost predicate NativeRun(m: Machine, hosts: seq<Host>)
    requires Formed(m)
    decreases |hosts|
  {
    |hosts| == 0 ||
    (IsaShape(m, hosts[0]);
     var r := IsaStep(m, hosts[0]);
     r != Foreign && (r.Next? ==> NativeRun(r.m, hosts[1..])))
  }

  /** Every step of the architectural run conforms. */
  ghost predicate ConformingRun(l: seq<Span>, m: Machine, hosts: seq<Host>)
    requires Formed(m)
    decreases |hosts|
  {
    |hosts| == 0 ||
    (IsaShape(m, hosts[0]);
     var r := IsaStep(m, hosts[0]);
     Conforms(l, m, hosts[0]) && (r.Next? ==> ConformingRun(l, r.m, hosts[1..])))
  }

  lemma KeepsInv(s: State, host: Host)
    requires Inv(s)
    ensures Step(s, host).Running? ==> Inv(Step(s, host).s) && Layout(Step(s, host).s.mem) == Layout(s.mem)
    ensures Step(s, host).Running? && VmaDisjoint(s.mem) ==> VmaDisjoint(Step(s, host).s.mem)
  {
    hide MemOk, Step, VmaDisjoint;
    StepFrame(s, host);
    if Step(s, host).Running? && VmaDisjoint(s.mem) { DisjointByLayout(s.mem, Step(s, host).s.mem); }
  }

  /** Whole-run refinement. On a run over RV32IM instructions whose every step conforms, the emulator
      with its lazily cleared x0 and its region table ends as the architectural machine with hard-wired
      x0 and flat memory does: in the same pc, registers, memory, break and halting state, or with a
      trap where the other faults. */
  lemma {:induction false} RunRefines(s: State, hosts: seq<Host>)
    requires Inv(s) && NativeRun(Abs(s), hosts) && ConformingRun(Layout(s.mem), Abs(s), hosts)
    ensures Agrees(Run(s, hosts), IsaRun(Abs(s), hosts)) && IsaRun(Abs(s), hosts) != Foreign
    decreases |hosts|
  {
    hide Conforms, Step, IsaStep, MemOk, Flat;
    if |hosts| == 0 {
    } else {
      StepRefines(s, hosts[0]);
      match Step(s, hosts[0])
      case Running(s') => KeepsInv(s, hosts[0]); RunRefines(s', hosts[1..]);
      case _ =>
    }
  }

  /** The two machines agree after every step of the run. */
  ghost predicate Lockstep(s: State, hosts: seq<Host>)
    requires Inv(s)
    decreases |hosts|
  {
    |hosts| == 0 ||
    (KeepsInv(s, hosts[0]);
     var o := Step(s, hosts[0]);
     Agrees(o, IsaStep(Abs(s), hosts[0])) && (o.Running? ==> Lockstep(o.s, hosts[1..])))
  }

  /** On RV32IM runs the machines stay in lockstep when every step conforms and, where no two address
      ranges overlap, on no other run. */
  lemma {:induction false} LockstepExactly(s: State, hosts: seq<Host>)
    requires Inv(s) && NativeRun(Abs(s), hosts)
    ensures ConformingRun(Layout(s.mem), Abs(s), hosts) ==> Lockstep(s, hosts)
    ensures VmaDisjoint(s.mem) && Lockstep(s, hosts) ==> ConformingRun(Layout(s.mem), Abs(s), hosts)
    decreases |hosts|
  {
    hide Conforms, Step, IsaStep, MemOk, Flat, VmaDisjoint;
    if |hosts| == 0 {
    } else {
      StepRefines(s, hosts[0]);
      KeepsInv(s, hosts[0]);
      var o, r := Step(s, hosts[0]), IsaStep(Abs(s), hosts[0]);
      if Agrees(o, r) && o.Running? { LockstepExactly(o.s, hosts[1..]); }
    }
  }

  // ----- the main loop and the breakpoint prompt -----------------------------

  /** Calls of the step function whose result is ignored, as the prompt makes them. */
  function StepAnyway(s: State, hosts: seq<Host>): (o: Outcome)
    requires Shaped(s)
    ensures o.Running? ==> Shaped(o.s)
    decreases |hosts|
  {
    if |hosts| == 0 then Running(s)
    else
      match Step(s, hosts[0])
      case Running(s') => StepShape(s, hosts[0]); StepAnyway(s', hosts[1..])
      case Stopped(s') => StepShape(s, hosts[0]); StepAnyway(s', hosts[1..])
      case o => o
  }

  /** One turn of the main loop: the host's replies to its step, and to the steps the user asks for if
      the turn ends at the breakpoint prompt. */
  datatype Turn = Turn(host: Host, prompt: seq<Host>)

  predicate Reports(s: State) { Breakpoints.FirstReportable(s.bkpts, 0).Some? }

  /** The steps taken at the prompt after a turn's step led to s. */
  function AtPrompt(s: State, turn: Turn): seq<Host> { if Reports(s) then turn.prompt else [] }

  function Polled(s: State): (r: State)
    ensures Shaped(s) ==> Shaped(r)
  {
    s.(bkpts := Breakpoints.PollAll(s.bkpts))
  }

  /** The program's main loop: step, poll the breakpoints if the step goes on, and prompt the user if one
      is reported. */
  function Session(s: State, turns: seq<Turn>): Outcome
    requires Shaped(s)
    decreases |turns|
  {
    if |turns| == 0 then Running(s)
    else
      match Step(s, turns[0].host)
      case Running(s') =>
        StepShape(s, turns[0].host);
        (match StepAnyway(Polled(s'), AtPrompt(s', turns[0]))
         case Running(s'') => Session(s'', turns[1..])
         case o => o)
      case o => o
  }

  /** A call of the step function: by the main loop, which polls afterwards and ends when it returns
      false, or by the prompt, which does neither. */
  datatype Call = Looped(host: Host) | Prompted(host: Host)

  /** Any interleaving of the two. */
  function Calls(s: State, calls: seq<Call>): Outcome
    requires Shaped(s)
    decreases |calls|
  {
    if |calls| == 0 then Running(s)
    else
      match Step(s, calls[0].host)
      case Running(s') =>
        StepShape(s, calls[0].host);
        Calls(if calls[0].Looped? then Polled(s') else s', calls[1..])
      case Stopped(s') =>
        StepShape(s, calls[0].host);
        if calls[0].Looped? then Stopped(s') else Calls(s', calls[1..])
      case o => o
  }

  /** The architectural machine under the same calls. */
  ghost function IsaCalls(m: Machine, calls: seq<Call>): Result
    requires Formed(m)
    decreases |calls|
  {
    if |calls| == 0 then Next(m)
    else
      match IsaStep(m, calls[0].host)
      case Next(m') => IsaShape(m, calls[0].host); IsaCalls(m', calls[1..])
      case Halted(m') =>
        IsaShape(m, calls[0].host);
        if calls[0].Looped? then Halted(m') else IsaCalls(m', calls[1..])
      case r => r
  }

  function Replies(calls: seq<Call>): (r: seq<Host>)
    ensures |r| == |calls| && forall k :: 0 <= k < |r| ==> r[k] == calls[k].host
  {
    seq(|calls|, k requires 0 <= k < |calls| => calls[k].host)
  }

  lemma RepliesRest(calls: seq<Call>)
    requires |calls| > 0
    ensures Replies(calls)[0] == calls[0].host && Replies(calls)[1..] == Replies(calls[1..])
  {
  }

  /** Steps of a halted machine are native and conform, and change nothing. */
  lemma HaltedRun(l: seq<Span>, m: Machine, hosts: seq<Host>)
    requires Formed(m) && m.halted
    ensures NativeRun(m, hosts) && ConformingRun(l, m, hosts)
  {
  }

  /** Whatever steps the user inserts at the prompt, and whatever breakpoints are armed or reported, the
      emulator does what the architectural machine does under the same calls. */
  lemma {:induction false} CallsRefine(s: State, calls: seq<Call>)
    requires Inv(s) && NativeRun(Abs(s), Replies(calls))
    requires ConformingRun(Layout(s.mem), Abs(s), Replies(calls))
    ensures Agrees(Calls(s, calls), IsaCalls(Abs(s), calls))
    decreases |calls|
  {
    hide Conforms, Step, IsaStep, MemOk, Flat, Replies;
    if |calls| == 0 {
    } else {
      var host, rest := calls[0].host, calls[1..];
      RepliesRest(calls);
      StepRefines(s, host);
      match Step(s, host)
      case Running(s') =>
        KeepsInv(s, host);
        AbsIgnoresBkpts(s', Polled(s').bkpts);
        CallsRefine(if calls[0].Looped? then Polled(s') else s', rest);
      case Stopped(s') =>
        IsaShape(Abs(s), host);
        if calls[0].Prompted? {
          HaltedRun(Layout(s'.mem), Abs(s'), Replies(rest));
          CallsRefine(s', rest);
        }
      case _ =>
    }
  }

  /** The calls a session makes: where the prompt opens depends on the breakpoints. */
  function CallsOf(s: State, turns: seq<Turn>): seq<Call>
    requires Shaped(s)
    decreases |turns|
  {
    if |turns| == 0 then []
    else
      var first := [Looped(turns[0].host)];
      match Step(s, turns[0].host)
      case Running(s') =>
        StepShape(s, turns[0].host);
        var prompt := AtPrompt(s', turns[0]);
        (match StepAnyway(Polled(s'), prompt)
         case Running(s'') => first + (AllPrompted(prompt) + CallsOf(s'', turns[1..]))
         case _ => first + (AllPrompted(prompt) + []))
      case _ => first
  }

  function AllPrompted(hosts: seq<Host>): (r: seq<Call>)
    ensures |r| == |hosts| && forall k :: 0 <= k < |r| ==> r[k] == Prompted(hosts[k])
  {
    seq(|hosts|, k requires 0 <= k < |hosts| => Prompted(hosts[k]))
  }

  lemma {:induction false} PromptCalls(s: State, hosts: seq<Host>, calls: seq<Call>)
    requires Shaped(s)
    ensures Calls(s, AllPrompted(hosts) + calls)
         == match StepAnyway(s, hosts)
            case Running(s') => Calls(s', calls)
            case o => o
    decreases |hosts|
  {
    hide Step;
    var all := AllPrompted(hosts) + calls;
    if |hosts| == 0 {
      assert all == calls;
    } else {
      assert all[0] == Prompted(hosts[0]) && all[1..] == AllPrompted(hosts[1..]) + calls;
      StepShape(s, hosts[0]);
      match Step(s, hosts[0])
      case Running(s') => PromptCalls(s', hosts[1..], calls);
      case Stopped(s') => PromptCalls(s', hosts[1..], calls);
      case _ =>
    }
  }

  /** A session is an interleaving of the main loop's calls and the prompt's. */
  lemma {:induction false} SessionIsCalls(s: State, turns: seq<Turn>)
    requires Shaped(s)
    ensures Session(s, turns) == Calls(s, CallsOf(s, turns))
    decreases |turns|
  {
    hide Step, StepAnyway, Polled, AtPrompt;
    if |turns| == 0 {
    } else {
      var host, calls := turns[0].host, CallsOf(s, turns);
      StepShape(s, host);
      if Step(s, host).Running? {
        var s' := Step(s, host).s;
        var prompt := AtPrompt(s', turns[0]);
        var o := StepAnyway(Polled(s'), prompt);
        var rest := if o.Running? then CallsOf(o.s, turns[1..]) else [];
        assert calls == [Looped(host)] + (AllPrompted(prompt) + rest);
        assert calls[0] == Looped(host) && calls[1..] == AllPrompted(prompt) + rest;
        PromptCalls(Polled(s'), prompt, rest);
        if o.Running? { SessionIsCalls(o.s, turns[1..]); }
      }
    }
  }

  /** One turn of a session. When the step leaves some slot in use triggered, one of them is retired if
      it is one-shot and the user's steps follow; when it leaves none, the session goes on as it is and
      the user has no say. When the step does not go on the session ends. */
  lemma SessionTurn(s: State, turn: Turn, turns: seq<Turn>)
    requires Shaped(s)
    ensures Session(s, []) == Running(s)
    ensures var o, all := Step(s, turn.host), [turn] + turns;
      if !o.Running? then Session(s, all) == o
      else
        Shaped(o.s)
        && if exists i :: 0 <= i < |o.s.bkpts| && o.s.bkpts[i].active && o.s.bkpts[i].triggered then
             var o' := StepAnyway(Polled(o.s), turn.prompt);
             Session(s, all) == if o'.Running? then Session(o'.s, turns) else o'
           else Session(s, all) == Session(o.s, turns)
  {
    hide Step;
    var all := [turn] + turns;
    assert all[0] == turn && all[1..] == turns;
    StepShape(s, turn.host);
  }

  /** Breakpoints, armed or reported, and the user's steps at the prompt leave the refinement intact. */
  lemma SessionRefines(s: State, turns: seq<Turn>)
    requires Inv(s) && NativeRun(Abs(s), Replies(CallsOf(s, turns)))
    requires ConformingRun(Layout(s.mem), Abs(s), Replies(CallsOf(s, turns)))
    ensures Agrees(Session(s, turns), IsaCalls(Abs(s), CallsOf(s, turns)))
  {
    hide Calls, Session, IsaCalls, NativeRun, ConformingRun, Replies, Abs, Agrees;
    SessionIsCalls(s, turns);
    CallsRefine(s, CallsOf(s, turns));
  }

  /** Without steps at the prompt a session does what the plain architectural run does. */
  lemma {:induction false} QuietSessionRefines(s: State, turns: seq<Turn>)
    requires Inv(s) && forall k :: 0 <= k < |turns| ==> turns[k].prompt == []
    requires NativeRun(Abs(s), HostsOf(turns)) && ConformingRun(Layout(s.mem), Abs(s), HostsOf(turns))
    ensures Agrees(Session(s, turns), IsaRun(Abs(s), HostsOf(turns)))
    decreases |turns|
  {
    hide Conforms, Step, IsaStep, MemOk, Flat, HostsOf;
    if |turns| == 0 {
      assert HostsOf(turns) == [];
    } else {
      HostsRest(turns);
      StepRefines(s, turns[0].host);
      match Step(s, turns[0].host)
      case Running(s') =>
        KeepsInv(s, turns[0].host);
        AbsIgnoresBkpts(s', Polled(s').bkpts);
        QuietSessionRefines(Polled(s'), turns[1..]);
      case _ =>
    }
  }

  function HostsOf(turns: seq<Turn>): (r: seq<Host>)
    ensures |r| == |turns| && forall k :: 0 <= k < |r| ==> r[k] == turns[k].host
  {
    seq(|turns|, k requires 0 <= k < |turns| => turns[k].host)
  }

  lemma HostsRest(turns: seq<Turn>)
    requires |turns| > 0
    ensures HostsOf(turns)[0] == turns[0].host && HostsOf(turns)[1..] == HostsOf(turns[1..])
  {
  }

  // ----- when the prompt opens -----------------------------------------------

  /** Some slot in use is triggered. */
  ghost predicate Due(es: seq<Breakpoints.Event>) {
    exists i :: 0 <= i < |es| && es[i].active && es[i].triggered
  }

  /** The pcs the main loop's steps dispatch at; `prompted` keeps only those after which the prompt opens. */
  ghost function LoopPcs(s: State, turns: seq<Turn>, prompted: bool): seq<u32>
    requires Shaped(s)
    decreases |turns|
  {
    if |turns| == 0 then []
    else
      match Step(s, turns[0].host)
      case Running(s') =>
        StepShape(s, turns[0].host);
        (if Due(s'.bkpts) || !prompted then [s.pc] else [])
        + (match StepAnyway(Polled(s'), if Due(s'.bkpts) then turns[0].prompt else [])
           case Running(s'') => LoopPcs(s'', turns[1..], prompted)
           case _ => [])
      case _ => []
  }

  /** All slots in use are one-shot. */
  ghost predicate OneShots(es: seq<Breakpoints.Event>) {
    forall i :: 0 <= i < |es| && es[i].active ==> es[i].oneShot
  }

  /** The number of slots in use. */
  function InUse(es: seq<Breakpoints.Event>): nat {
    if |es| == 0 then 0 else (if es[0].active then 1 else 0) + InUse(es[1..])
  }

  lemma {:induction false} SameInUse(es: seq<Breakpoints.Event>, es': seq<Breakpoints.Event>)
    requires |es'| == |es| && forall i :: 0 <= i < |es| ==> es'[i].active == es[i].active
    ensures InUse(es') == InUse(es)
  {
    if |es| == 0 {
    } else {
      assert forall i :: 0 <= i < |es| - 1 ==> es'[1..][i] == es'[i + 1] && es[1..][i] == es[i + 1];
      SameInUse(es[1..], es'[1..]);
    }
  }

  lemma {:induction false} RetiringOne(es: seq<Breakpoints.Event>, i: nat)
    requires i < |es| && es[i].active
    ensures InUse(es[i := es[i].(active := false)]) == InUse(es) - 1 && InUse(es) >= 1
  {
    var es' := es[i := es[i].(active := false)];
    if i == 0 {
      assert es'[1..] == es[1..];
    } else {
      assert es'[1..] == es[1..][i - 1 := es[i].(active := false)];
      RetiringOne(es[1..], i - 1);
    }
  }

  lemma StepSlots(s: State, host: Host)
    requires Shaped(s)
    ensures var o := Step(s, host);
      o.Running? || o.Stopped? ==>
        (OneShots(s.bkpts) ==> OneShots(o.s.bkpts)) && InUse(o.s.bkpts) == InUse(s.bkpts)
  {
    hide Step, Dispatching;
    StepIgnoresSlots(s, s.bkpts, host);
    assert s.(bkpts := s.bkpts) == s;
    SameInUse(s.bkpts, NextSlots(s, s.bkpts));
  }

  lemma {:induction false} PromptSlots(s: State, hosts: seq<Host>)
    requires Shaped(s)
    ensures var o := StepAnyway(s, hosts);
      o.Running? ==> (OneShots(s.bkpts) ==> OneShots(o.s.bkpts)) && InUse(o.s.bkpts) == InUse(s.bkpts)
    decreases |hosts|
  {
    hide Step, OneShots, InUse;
    if |hosts| == 0 {
    } else {
      StepShape(s, hosts[0]);
      StepSlots(s, hosts[0]);
      match Step(s, hosts[0])
      case Running(s') => PromptSlots(s', hosts[1..]);
      case Stopped(s') => PromptSlots(s', hosts[1..]);
      case _ =>
    }
  }

  lemma PolledSlots(s: State)
    requires OneShots(s.bkpts)
    ensures OneShots(Polled(s).bkpts)
    ensures InUse(s.bkpts) >= (if Due(s.bkpts) then 1 else 0)
    ensures InUse(Polled(s).bkpts) == InUse(s.bkpts) - if Due(s.bkpts) then 1 else 0
  {
    hide InUse;
    match Breakpoints.FirstReportable(s.bkpts, 0)
    case None =>
    case Some(i) => RetiringOne(s.bkpts, i);
  }

  /** When all slots in use are one-shot, the prompt opens at most once for each. */
  lemma {:induction false} PromptsBounded(s: State, turns: seq<Turn>)
    requires Shaped(s) && OneShots(s.bkpts)
    ensures |LoopPcs(s, turns, true)| <= InUse(s.bkpts)
    decreases |turns|
  {
    hide Step, OneShots, InUse, StepAnyway, Polled, Due;
    if |turns| == 0 {
    } else {
      var host := turns[0].host;
      StepShape(s, host);
      StepSlots(s, host);
      if Step(s, host).Running? {
        var s' := Step(s, host).s;
        var prompt := if Due(s'.bkpts) then turns[0].prompt else [];
        PolledSlots(s');
        PromptSlots(Polled(s'), prompt);
        var o := StepAnyway(Polled(s'), prompt);
        if o.Running? { PromptsBounded(o.s, turns[1..]); }
      }
    }
  }

  // ----- a single breakpoint on pc -------------------------------------------

  /** Slot 0 holds an untriggered one-shot on a pc, and no other is in use. */
  predicate Armed(es: seq<Breakpoints.Event>, pc: u32) {
    && |es| > 0 && es[0].comp.CompEq? && es[0].pcVal == pc && es[0].oneShot && es[0].active && !es[0].triggered
    && forall i :: 1 <= i < |es| ==> !es[i].active
  }

  predicate Idle(es: seq<Breakpoints.Event>) { forall i :: 0 <= i < |es| ==> !es[i].active }

  lemma IdleStep(s: State, host: Host)
    requires Shaped(s) && Idle(s.bkpts)
    ensures var o := Step(s, host); o.Running? || o.Stopped? ==> Idle(o.s.bkpts)
  {
    hide Step, Dispatching;
    StepIgnoresSlots(s, s.bkpts, host);
    assert s.(bkpts := s.bkpts) == s;
  }

  lemma {:induction false} IdleAnyway(s: State, hosts: seq<Host>)
    requires Shaped(s) && Idle(s.bkpts)
    ensures var o := StepAnyway(s, hosts); o.Running? ==> Idle(o.s.bkpts)
    decreases |hosts|
  {
    hide Step, Idle;
    if |hosts| == 0 {
    } else {
      StepShape(s, hosts[0]);
      IdleStep(s, hosts[0]);
      match Step(s, hosts[0])
      case Running(s') => IdleAnyway(s', hosts[1..]);
      case Stopped(s') => IdleAnyway(s', hosts[1..]);
      case _ =>
    }
  }

  lemma {:induction false} IdleNeverPrompts(s: State, turns: seq<Turn>)
    requires Shaped(s) && Idle(s.bkpts)
    ensures LoopPcs(s, turns, true) == []
    decreases |turns|
  {
    hide Step, StepAnyway;
    if |turns| == 0 {
    } else {
      StepShape(s, turns[0].host);
      IdleStep(s, turns[0].host);
      if Step(s, turns[0].host).Running? {
        var s' := Step(s, turns[0].host).s;
        assert !Due(s'.bkpts);
        IdleAnyway(Polled(s'), []);
        var o := StepAnyway(Polled(s'), []);
        if o.Running? { IdleNeverPrompts(o.s, turns[1..]); }
      }
    }
  }

  lemma ArmedCheck(es: seq<Breakpoints.Event>, pc: u32, at: u32, insn: Insn)
    requires Armed(es, pc)
    ensures var es' := Breakpoints.CheckAll(es, at, insn);
      && (Due(es') <==> at == pc)
      && (at == pc ==> Idle(Breakpoints.PollAll(es')))
      && (at != pc ==> Breakpoints.PollAll(es') == es' == es)
  {
    hide Breakpoints.Matches;
    var es' := Breakpoints.CheckAll(es, at, insn);
    Breakpoints.CheckTriggers(es, at, insn, 0);
    assert forall i :: 1 <= i < |es| ==> es'[i] == es[i];
    if at == pc {
      assert Breakpoints.FirstReportable(es', 0) == Some(0);
    } else {
      assert Breakpoints.FirstReportable(es', 0) == None;
      assert es' == es;
    }
  }

  lemma ArmedStep(s: State, pc: u32, host: Host)
    requires Shaped(s) && Armed(s.bkpts, pc) && Step(s, host).Running?
    ensures var es := Step(s, host).s.bkpts;
      && (Due(es) <==> s.pc == pc)
      && (s.pc == pc ==> Idle(Breakpoints.PollAll(es)))
      && (s.pc != pc ==> Breakpoints.PollAll(es) == es == s.bkpts)
  {
    hide Step, Dispatching, Dispatched, Armed, Due, Idle, Breakpoints.CheckAll, Breakpoints.PollAll;
    StepDispatches(s, host);
    StepIgnoresSlots(s, s.bkpts, host);
    assert s.(bkpts := s.bkpts) == s;
    ArmedCheck(s.bkpts, pc, s.pc, Dispatching(s).value);
  }

  /** With one breakpoint on a pc the prompt opens exactly once, after a dispatch there, if the main loop
      ever dispatches there, and otherwise never. */
  lemma {:induction false} ArmedPrompts(s: State, pc: u32, turns: seq<Turn>)
    requires Shaped(s) && Armed(s.bkpts, pc)
    ensures LoopPcs(s, turns, true) == if pc in LoopPcs(s, turns, false) then [pc] else []
    decreases |turns|
  {
    hide Step, Armed, Idle, Due;
    if |turns| == 0 {
    } else {
      StepShape(s, turns[0].host);
      if Step(s, turns[0].host).Running? {
        var s' := Step(s, turns[0].host).s;
        ArmedStep(s, pc, turns[0].host);
        if s.pc == pc {
          IdleAnyway(Polled(s'), turns[0].prompt);
          var o := StepAnyway(Polled(s'), turns[0].prompt);
          if o.Running? { IdleNeverPrompts(o.s, turns[1..]); }
        } else {
          assert Polled(s') == s' && StepAnyway(s', []) == Running(s');
          ArmedPrompts(s', pc, turns[1..]);
        }
      }
    }
  }

  /** A run's outcome does not depend on the breakpoint slots it starts with, up to the slots it ends with. */
  lemma {:induction false} RunIgnoresSlots(s: State, es: seq<Breakpoints.Event>, hosts: seq<Host>)
    requires Shaped(s)
    ensures exists es' :: Run(s.(bkpts := es), hosts) == WithSlots(Run(s, hosts), es')
    decreases |hosts|
  {
    hide Step;
    if |hosts| == 0 {
      assert Run(s.(bkpts := es), hosts) == WithSlots(Run(s, hosts), es);
    } else {
      StepIgnoresSlots(s, es, hosts[0]);
      StepShape(s, hosts[0]);
      StepShape(s.(bkpts := es), hosts[0]);
      match Step(s, hosts[0])
      case Running(s') => RunIgnoresSlots(s', NextSlots(s, es), hosts[1..]);
      case o =>
        assert Run(s.(bkpts := es), hosts) == WithSlots(Run(s, hosts), NextSlots(s, es));
    }
  }

  // ----- what every run keeps ------------------------------------------------

  /** Every run, conforming or not and whether it goes on or has stopped, keeps the region layout, hence
      the set of mapped addresses, keeps the table well formed, and keeps pc even from an even entry. */
  lemma {:induction false} RunFrame(s: State, hosts: seq<Host>)
    requires Shaped(s)
    ensures var o := Run(s, hosts);
      o.Running? || o.Stopped? ==>
        && Shaped(o.s) && SameTable(s.mem, o.s.mem)
        && (forall p: u32 :: Mapped(o.s.mem, p) == Mapped(s.mem, p))
        && (s.pc % 2 == 0 ==> o.s.pc % 2 == 0)
    decreases |hosts|
  {
    hide Step, MemOk, HeapOk, Layout;
    if |hosts| > 0 && Step(s, hosts[0]).Running? {
      var s' := Step(s, hosts[0]).s;
      StepFrame(s, hosts[0]);
      RunFrame(s', hosts[1..]);
      forall p: u32 ensures Mapped(s'.mem, p) == Mapped(s.mem, p) { FindByLayout(s.mem, s'.mem, p, 0); }
    } else if |hosts| > 0 && Step(s, hosts[0]).Stopped? {
      StopAbsorbs(s, hosts[0], hosts[0]);
    }
  }

  /** Once a step has returned false, any number of further steps leaves the state as it is. */
  lemma {:induction false} StoppedForever(s: State, host: Host, hosts: seq<Host>)
    requires Shaped(s) && Step(s, host).Stopped?
    ensures Shaped(Step(s, host).s) && StepAnyway(Step(s, host).s, hosts) == Running(Step(s, host).s)
    decreases |hosts|
  {
    hide Step;
    var s' := Step(s, host).s;
    StepShape(s, host);
    if |hosts| == 0 {
    } else {
      StopAbsorbs(s, host, hosts[0]);
      StoppedForever(s', hosts[0], hosts[1..]);
    }
  }
}
