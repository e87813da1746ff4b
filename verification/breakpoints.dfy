/** Breakpoint slots: registering, checking against each dispatched instruction, and polling. */
module Breakpoints {
  import opened Words
  import opened Insns

  const MAX_BKPT: nat := 16

  datatype Comparator = CompNone | CompGt | CompLt | CompEq

  /** `pcVal` is read as signed when `sign` is set. */
  datatype Event = Event(
    comp: Comparator, sign: bool, pcVal: u32,
    insnMask: Insn, insnComp: Insn,
    oneShot: bool, active: bool, triggered: bool)

  const NO_INSN := Insn(INVALID, 0, 0, 0, 0, 0, 0)

  /** A zeroed slot. */
  const EMPTY := Event(CompNone, false, 0, NO_INSN, NO_INSN, false, false, false)

  // ----- one slot ------------------------------------------------------------

  predicate MaskedEqual(mask: u32, x: u32, y: u32) { And32(x, mask) == And32(y, mask) }

  predicate InsnMatches(e: Event, insn: Insn) {
    var m, c := e.insnMask, e.insnComp;
    && c.ty != INVALID
    && c.ty == insn.ty
    && MaskedEqual(m.rd, c.rd, insn.rd)
    && MaskedEqual(m.rs1, c.rs1, insn.rs1)
    && MaskedEqual(m.rs2, c.rs2, insn.rs2)
    && MaskedEqual(m.funct, c.funct, insn.funct)
    && MaskedEqual(m.imm, c.imm, insn.imm)
  }

  function PcOperand(sign: bool, x: u32): int { if sign then Signed32(x) else x }

  /** A pc condition, when there is one, replaces the instruction condition. */
  predicate Matches(e: Event, pc: u32, insn: Insn) {
    match e.comp
    case CompGt => PcOperand(e.sign, pc) > PcOperand(e.sign, e.pcVal)
    case CompLt => PcOperand(e.sign, pc) < PcOperand(e.sign, e.pcVal)
    case CompEq => PcOperand(e.sign, pc) == PcOperand(e.sign, e.pcVal)
    case CompNone => InsnMatches(e, insn)
  }

  function CheckSlot(e: Event, pc: u32, insn: Insn): Event {
    if !e.active then e
    else if e.triggered then e.(triggered := false)
    else e.(triggered := Matches(e, pc, insn))
  }

  predicate SameUnder(mask: u32, x: u32, y: u32) {
    forall i: nat :: i < 32 && Bit(mask, i) ==> Bit(x, i) == Bit(y, i)
  }

  /** Masked fields are equal exactly when the bits under the mask are. */
  lemma MaskedEqualBits(mask: u32, x: u32, y: u32)
    ensures MaskedEqual(mask, x, y) <==> SameUnder(mask, x, y)
  {
    hide Bit, And32;
    var mx, my := And32(x, mask), And32(y, mask);
    if mx == my {
      assert SameUnder(mask, x, y) by {
        forall i: nat | i < 32 && Bit(mask, i) ensures Bit(x, i) == Bit(y, i) {
          MaskedBit(mask, x, i);
          MaskedBit(mask, y, i);
        }
      }
    } else if SameUnder(mask, x, y) {
      Pow2Of32();
      forall i: nat | i < 32 ensures Bit(mx, i) == Bit(my, i) {
        MaskedBit(mask, x, i);
        MaskedBit(mask, y, i);
      }
      BitsDetermine(mx, my, 32);
    }
  }

  lemma MaskedBit(mask: u32, x: u32, i: nat)
    requires i < 32
    ensures Bit(And32(x, mask), i) == (Bit(x, i) && Bit(mask, i))
  {
    hide Bitwise, Bit;
    BitOfBitwise(AndOp, 32, x, mask, i);
  }

  /** Under full masks the fields are compared whole. */
  predicate FullMasks(m: Insn) {
    m.rd == 0xFF && m.rs1 == 0xFF && m.rs2 == 0xFF && m.funct == 0xFFFF && m.imm == 0xFFFF_FFFF
  }

  /** With full masks an instruction condition matches its own instruction and no other, rs3 aside. */
  lemma FullMasksMatch(e: Event, insn: Insn)
    requires e.insnComp.ty != INVALID && FullMasks(e.insnMask)
    ensures InsnMatches(e, insn) <==> insn == e.insnComp.(rs3 := insn.rs3)
  {
    hide MaskedEqual;
    var c := e.insnComp;
    WidthPowers();
    FullMask(c.rd, insn.rd, 8);
    FullMask(c.rs1, insn.rs1, 8);
    FullMask(c.rs2, insn.rs2, 8);
    FullMask(c.funct, insn.funct, 16);
    FullMask(c.imm, insn.imm, 32);
  }

  lemma WidthPowers()
    ensures Pow2(8) == 0x100 && Pow2(16) == 0x1_0000 && Pow2(32) == TWO32
  {
    Pow2Of32();
    Pow2Add(8, 8);
  }

  /** All ones keep a k-bit field. */
  lemma FullMask(x: u32, y: u32, k: nat)
    requires k <= 32 && x < Pow2(k) && y < Pow2(k)
    ensures Pow2(k) - 1 < TWO32
    ensures MaskedEqual(Pow2(k) - 1, x, y) <==> x == y
  {
    Pow2Of32();
    Pow2Monotone(k, 32);
    hide Bitwise, Pow2;
    AndLowMask(32, x, k);
    AndLowMask(32, y, k);
    QuotientIs(x, Pow2(k), 0, x);
    QuotientIs(y, Pow2(k), 0, y);
  }

  // ----- the slots -----------------------------------------------------------

  function CheckAll(es: seq<Event>, pc: u32, insn: Insn): (r: seq<Event>)
    ensures |r| == |es| && forall i :: 0 <= i < |es| ==> r[i] == CheckSlot(es[i], pc, insn)
  {
    seq(|es|, i requires 0 <= i < |es| => CheckSlot(es[i], pc, insn))
  }

  function FirstFree(es: seq<Event>, i: nat): (r: Option<nat>)
    requires i <= |es|
    decreases |es| - i
    ensures r.Some? ==> i <= r.value < |es| && !es[r.value].active
    ensures r.Some? ==> forall j :: i <= j < r.value ==> es[j].active
    ensures r.None? ==> forall j :: i <= j < |es| ==> es[j].active
  {
    if i == |es| then None
    else if !es[i].active then Some(i)
    else FirstFree(es, i + 1)
  }

  function AddEvent(es: seq<Event>, e: Event): (r: seq<Event>)
    ensures |r| == |es|
  {
    match FirstFree(es, 0)
    case None => es
    case Some(i) => es[i := e]
  }

  predicate Reportable(e: Event) { e.active && e.triggered }

  function FirstReportable(es: seq<Event>, i: nat): (r: Option<nat>)
    requires i <= |es|
    decreases |es| - i
    ensures r.Some? ==> i <= r.value < |es| && Reportable(es[r.value])
    ensures r.Some? ==> forall j :: i <= j < r.value ==> !Reportable(es[j])
    ensures r.None? ==> forall j :: i <= j < |es| ==> !Reportable(es[j])
  {
    if i == |es| then None
    else if Reportable(es[i]) then Some(i)
    else FirstReportable(es, i + 1)
  }

  /** The slots after a poll: a one-shot event is retired by being reported. */
  function PollAll(es: seq<Event>): (r: seq<Event>)
    ensures |r| == |es|
  {
    match FirstReportable(es, 0)
    case None => es
    case Some(i) => if es[i].oneShot then es[i := es[i].(active := false)] else es
  }

  // ----- the table -----------------------------------------------------------

  class Table {
    const events: array<Event>

    constructor ()
      ensures fresh(events) && events[..] == seq(MAX_BKPT, _ => EMPTY)
    {
      events := new Event[MAX_BKPT](_ => EMPTY);
    }

    method Add(e: Event)
      modifies events
      ensures events[..] == AddEvent(old(events[..]), e)
    {
      var i := 0;
      while i < events.Length
        invariant 0 <= i <= events.Length
        invariant events[..] == old(events[..])
        invariant FirstFree(events[..], 0) == FirstFree(events[..], i)
      {
        if !events[i].active {
          events[i] := e;
          return;
        }
        i := i + 1;
      }
    }

    method Check(pc: u32, insn: Insn)
      modifies events
      ensures events[..] == CheckAll(old(events[..]), pc, insn)
    {
      hide Matches;
      var i := 0;
      while i < events.Length
        invariant 0 <= i <= events.Length
        invariant forall k :: 0 <= k < i ==> events[k] == CheckSlot(old(events[k]), pc, insn)
        invariant forall k :: i <= k < events.Length ==> events[k] == old(events[k])
      {
        if events[i].active {
          if events[i].triggered {
            events[i] := events[i].(triggered := false);
          } else {
            events[i] := events[i].(triggered := Matches(events[i], pc, insn));
          }
        }
        i := i + 1;
      }
    }

    /** The reported slot, if any. */
    method Poll() returns (which: Option<nat>)
      modifies events
      ensures which == FirstReportable(old(events[..]), 0)
      ensures events[..] == PollAll(old(events[..]))
    {
      var i := 0;
      while i < events.Length
        invariant 0 <= i <= events.Length
        invariant events[..] == old(events[..])
        invariant FirstReportable(events[..], 0) == FirstReportable(events[..], i)
      {
        if events[i].active && events[i].triggered {
          if events[i].oneShot {
            events[i] := events[i].(active := false);
          }
          return Some(i);
        }
        i := i + 1;
      }
      return None;
    }
  }

  // ----- any interleaving ----------------------------------------------------

  datatype Action = Register(e: Event) | Dispatch(pc: u32, insn: Insn) | Poll

  /** The slots with their history: the registrations made so far, numbered in order; the registration
      each slot holds; the registrations reported by polls; and the arguments of the latest check. */
  datatype History = History(
    slots: seq<Event>, owner: seq<nat>, registered: seq<Event>, reported: seq<nat>,
    last: Option<(u32, Insn)>)

  function Start(): History {
    History(seq(MAX_BKPT, _ => EMPTY), seq(MAX_BKPT, _ => 0), [], [], None)
  }

  predicate WellSized(h: History) { |h.owner| == |h.slots| }

  function Act(h: History, a: Action): (r: History)
    requires WellSized(h)
    ensures WellSized(r)
  {
    match a
    case Register(e) =>
      (match FirstFree(h.slots, 0)
       case None => h
       case Some(i) =>
         h.(slots := AddEvent(h.slots, e), owner := h.owner[i := |h.registered|],
            registered := h.registered + [e]))
    case Dispatch(pc, insn) => h.(slots := CheckAll(h.slots, pc, insn), last := Some((pc, insn)))
    case Poll =>
      match FirstReportable(h.slots, 0)
      case None => h
      case Some(i) => h.(slots := PollAll(h.slots), reported := h.reported + [h.owner[i]])
  }

  function RunActions(h: History, actions: seq<Action>): (r: History)
    requires WellSized(h)
    ensures WellSized(r)
  {
    if |actions| == 0 then h else Act(RunActions(h, actions[..|actions| - 1]), actions[|actions| - 1])
  }

  /** Registrations arrive untriggered. */
  predicate Clean(actions: seq<Action>) {
    forall k :: 0 <= k < |actions| && actions[k].Register? ==> !actions[k].e.triggered
  }

  /** Slot i is in use for registration `owner[i]` and holds exactly what was registered, up to the
      trigger flag. */
  predicate Owned(h: History, i: nat)
    requires WellSized(h) && i < |h.slots|
  {
    h.slots[i].active ==>
      && h.owner[i] < |h.registered|
      && h.slots[i] == h.registered[h.owner[i]].(triggered := h.slots[i].triggered)
  }

  /** A triggered slot in use matched at the latest check. */
  predicate Explained(h: History, i: nat)
    requires i < |h.slots|
  {
    Reportable(h.slots[i]) ==> h.last.Some? && Matches(h.slots[i], h.last.value.0, h.last.value.1)
  }

  predicate Sound(h: History) {
    && WellSized(h)
    && (forall i :: 0 <= i < |h.slots| ==> Owned(h, i) && Explained(h, i))
    && (forall i, j :: 0 <= i < j < |h.slots| && h.slots[i].active && h.slots[j].active ==>
          h.owner[i] != h.owner[j])
    && (forall k :: 0 <= k < |h.reported| ==> h.reported[k] < |h.registered|)
  }

  /** A reported one-shot registration is in no slot any more. */
  predicate Retired(h: History)
    requires Sound(h)
  {
    forall k, i ::
      0 <= k < |h.reported| && 0 <= i < |h.slots| && h.slots[i].active && h.registered[h.reported[k]].oneShot
      ==> h.owner[i] != h.reported[k]
  }

  /** No one-shot registration is reported twice. */
  predicate OneShotsOnce(h: History)
    requires Sound(h)
  {
    forall k, l :: 0 <= k < l < |h.reported| && h.registered[h.reported[k]].oneShot ==>
                     h.reported[k] != h.reported[l]
  }

  lemma MatchesIgnoresTrigger(e: Event, t: bool, pc: u32, insn: Insn)
    ensures Matches(e.(triggered := t), pc, insn) == Matches(e, pc, insn)
  {
  }

  ghost predicate Good(h: History) { Sound(h) && Retired(h) && OneShotsOnce(h) }

  lemma RegisterGood(h: History, e: Event)
    requires Good(h) && !e.triggered
    ensures Good(Act(h, Register(e)))
  {
    hide Matches;
    var h' := Act(h, Register(e));
    if FirstFree(h.slots, 0).Some? {
      var f := FirstFree(h.slots, 0).value;
      forall i | 0 <= i < |h'.slots| ensures Owned(h', i) && Explained(h', i) {
        assert i != f ==> Owned(h, i) && Explained(h, i);
      }
      assert forall i :: 0 <= i < |h.slots| && h.slots[i].active ==> Owned(h, i);
    }
  }

  lemma DispatchGood(h: History, pc: u32, insn: Insn)
    requires Good(h)
    ensures Good(Act(h, Dispatch(pc, insn)))
  {
    hide Matches;
    var h' := Act(h, Dispatch(pc, insn));
    forall i | 0 <= i < |h'.slots| ensures Owned(h', i) && Explained(h', i) {
      assert Owned(h, i);
      assert h'.slots[i] == CheckSlot(h.slots[i], pc, insn);
      MatchesIgnoresTrigger(h.slots[i], h'.slots[i].triggered, pc, insn);
    }
  }

  lemma PollGood(h: History)
    requires Good(h)
    ensures Good(Act(h, Poll))
  {
    hide Matches;
    var h' := Act(h, Poll);
    if FirstReportable(h.slots, 0).Some? {
      var f := FirstReportable(h.slots, 0).value;
      assert Owned(h, f);
      forall i | 0 <= i < |h'.slots| ensures Owned(h', i) && Explained(h', i) {
        assert Owned(h, i) && Explained(h, i);
      }
    }
  }

  /** Over any interleaving of registrations, checks and polls from an empty table: every slot in use
      holds its registration unchanged, every event a poll may report matched at the latest check, and
      no one-shot registration is reported twice. */
  lemma {:induction false} RunSound(actions: seq<Action>)
    requires Clean(actions)
    ensures var h := RunActions(Start(), actions);
      Sound(h) && Retired(h) && OneShotsOnce(h)
  {
    if |actions| == 0 {
    } else {
      var n := |actions| - 1;
      assert Clean(actions[..n]) by {
        forall k | 0 <= k < n && actions[..n][k].Register? ensures !actions[..n][k].e.triggered {
          assert actions[k].Register?;
        }
      }
      RunSound(actions[..n]);
      var h := RunActions(Start(), actions[..n]);
      match actions[n]
      case Register(e) => RegisterGood(h, e);
      case Dispatch(pc, insn) => DispatchGood(h, pc, insn);
      case Poll => PollGood(h);
    }
  }

  /** A poll after any such run reports the lowest slot that is in use and triggered, and that event
      matched at the latest check; it reports nothing exactly when there is no such slot. */
  lemma PollSound(actions: seq<Action>)
    requires Clean(actions)
    ensures var h := RunActions(Start(), actions);
      match FirstReportable(h.slots, 0)
      case None => forall i :: 0 <= i < |h.slots| ==> !Reportable(h.slots[i])
      case Some(i) =>
        && Reportable(h.slots[i]) && (forall j :: 0 <= j < i ==> !Reportable(h.slots[j]))
        && h.last.Some? && Matches(h.slots[i], h.last.value.0, h.last.value.1)
        && h.owner[i] < |h.registered|
        && h.slots[i] == h.registered[h.owner[i]].(triggered := true)
  {
    hide Matches;
    RunSound(actions);
    var h := RunActions(Start(), actions);
    match FirstReportable(h.slots, 0)
    case None =>
    case Some(i) => assert Owned(h, i) && Explained(h, i);
  }

  // ----- the trigger law -----------------------------------------------------

  function Checks(actions: seq<Action>): nat {
    if |actions| == 0 then 0
    else Checks(actions[..|actions| - 1]) + if actions[|actions| - 1].Dispatch? then 1 else 0
  }

  /** Every check of the sequence matches e. */
  predicate AlwaysMatches(e: Event, actions: seq<Action>) {
    forall k :: 0 <= k < |actions| && actions[k].Dispatch? ==> Matches(e, actions[k].pc, actions[k].insn)
  }

  lemma AlwaysMatchesBefore(e: Event, actions: seq<Action>)
    requires AlwaysMatches(e, actions) && |actions| > 0
    ensures AlwaysMatches(e, actions[..|actions| - 1])
  {
    hide Matches;
    var before := actions[..|actions| - 1];
    forall k | 0 <= k < |before| && before[k].Dispatch? ensures Matches(e, before[k].pc, before[k].insn) {
      assert actions[k].Dispatch?;
    }
  }

  /** An action leaves a slot in use alone, except that a check toggles its trigger and a poll that
      reports it retires it if it is one-shot. */
  lemma ActOnSlot(h: History, a: Action, i: nat)
    requires WellSized(h) && i < |h.slots| && h.slots[i].active
    ensures |Act(h, a).slots| == |h.slots|
    ensures var e, e' := h.slots[i], Act(h, a).slots[i];
      match a
      case Register(_) => e' == e
      case Dispatch(pc, insn) => e' == e.(triggered := !e.triggered && Matches(e, pc, insn))
      case Poll =>
        e' == if e.oneShot && FirstReportable(h.slots, 0) == Some(i) then e.(active := false) else e
  {
    hide Matches;
  }

  /** A persistent event that matches at every check is triggered after exactly the odd-numbered
      checks, whatever registrations and polls come between. */
  lemma {:induction false} PersistentToggles(h: History, actions: seq<Action>, i: nat)
    requires WellSized(h) && i < |h.slots|
    requires var e := h.slots[i]; e.active && !e.oneShot && !e.triggered && AlwaysMatches(e, actions)
    ensures var h' := RunActions(h, actions);
      && |h'.slots| == |h.slots|
      && h'.slots[i] == h.slots[i].(triggered := Checks(actions) % 2 == 1)
  {
    hide Matches, Act, FirstReportable;
    if |actions| == 0 {
    } else {
      var n := |actions| - 1;
      AlwaysMatchesBefore(h.slots[i], actions);
      PersistentToggles(h, actions[..n], i);
      var h1 := RunActions(h, actions[..n]);
      ActOnSlot(h1, actions[n], i);
      if actions[n].Dispatch? {
        MatchesIgnoresTrigger(h.slots[i], h1.slots[i].triggered, actions[n].pc, actions[n].insn);
      }
    }
  }

  /** Registering fills the first free slot and disturbs no slot in use; when all are in use it does
      nothing. */
  lemma AddLaw(es: seq<Event>, e: Event)
    ensures (forall i :: 0 <= i < |es| ==> es[i].active) ==> AddEvent(es, e) == es
    ensures forall i :: 0 <= i < |es| && !es[i].active && (forall j :: 0 <= j < i ==> es[j].active) ==>
              AddEvent(es, e) == es[i := e]
  {
  }

  // ----- what a condition matches --------------------------------------------

  /** An instruction condition matches the instructions of its type whose fields agree with it on the
      bits under the masks, each field under its own. */
  lemma InsnConditionBits(e: Event, insn: Insn)
    ensures var m, c := e.insnMask, e.insnComp;
      InsnMatches(e, insn)
      <==> && c.ty != INVALID && insn.ty == c.ty
           && SameUnder(m.rd, c.rd, insn.rd)
           && SameUnder(m.rs1, c.rs1, insn.rs1)
           && SameUnder(m.rs2, c.rs2, insn.rs2)
           && SameUnder(m.funct, c.funct, insn.funct)
           && SameUnder(m.imm, c.imm, insn.imm)
  {
    hide MaskedEqual, SameUnder;
    var m, c := e.insnMask, e.insnComp;
    MaskedEqualBits(m.rd, c.rd, insn.rd);
    MaskedEqualBits(m.rs1, c.rs1, insn.rs1);
    MaskedEqualBits(m.rs2, c.rs2, insn.rs2);
    MaskedEqualBits(m.funct, c.funct, insn.funct);
    MaskedEqualBits(m.imm, c.imm, insn.imm);
  }

  /** A check leaves a slot not in use alone and clears a triggered one. */
  lemma CheckClears(es: seq<Event>, pc: u32, insn: Insn, i: nat)
    requires i < |es| && (!es[i].active || es[i].triggered)
    ensures CheckAll(es, pc, insn)[i] == if es[i].active then es[i].(triggered := false) else es[i]
  {
  }

  /** A check triggers an untriggered slot in use exactly when its condition holds: pc equal to, above or
      below its value, both read as unsigned or both as signed numbers; or, without a condition on pc,
      the type and the masked bits of the instruction's fields equal. Nothing else of the slot changes. */
  lemma CheckTriggers(es: seq<Event>, pc: u32, insn: Insn, i: nat)
    requires i < |es| && es[i].active && !es[i].triggered
    ensures var e, t := es[i], CheckAll(es, pc, insn)[i].triggered;
      && CheckAll(es, pc, insn)[i] == e.(triggered := t)
      && (e.comp.CompEq? ==> (t <==> pc == e.pcVal))
      && (e.comp.CompGt? && !e.sign ==> (t <==> pc > e.pcVal))
      && (e.comp.CompLt? && !e.sign ==> (t <==> pc < e.pcVal))
      && (e.comp.CompGt? && e.sign ==>
            (t <==> (pc + 0x8000_0000) % 0x1_0000_0000 > (e.pcVal + 0x8000_0000) % 0x1_0000_0000))
      && (e.comp.CompLt? && e.sign ==>
            (t <==> (pc + 0x8000_0000) % 0x1_0000_0000 < (e.pcVal + 0x8000_0000) % 0x1_0000_0000))
      && (e.comp.CompNone? ==>
            var m, c := e.insnMask, e.insnComp;
            t <==> && c.ty != INVALID && insn.ty == c.ty
                   && SameUnder(m.rd, c.rd, insn.rd)
                   && SameUnder(m.rs1, c.rs1, insn.rs1)
                   && SameUnder(m.rs2, c.rs2, insn.rs2)
                   && SameUnder(m.funct, c.funct, insn.funct)
                   && SameUnder(m.imm, c.imm, insn.imm))
  {
    hide InsnMatches, SameUnder;
    InsnConditionBits(es[i], insn);
    SignedOrder(pc, es[i].pcVal);
  }

  /** Adding 2^31 modulo 2^32 turns the order of signed words into that of unsigned ones. */
  lemma SignedOrder(x: u32, y: u32)
    ensures Signed32(x) < Signed32(y) <==> (x + 0x8000_0000) % 0x1_0000_0000 < (y + 0x8000_0000) % 0x1_0000_0000
    ensures Signed32(y) < Signed32(x) <==> (y + 0x8000_0000) % 0x1_0000_0000 < (x + 0x8000_0000) % 0x1_0000_0000
    ensures Signed32(x) == Signed32(y) <==> x == y
  {
  }

  // ----- a loop of check then poll -------------------------------------------

  /** The slot is reportable after a check of the given instruction. */
  predicate Hit(e: Event, pc: u32, insn: Insn) { e.active && !e.triggered && Matches(e, pc, insn) }

  /** A poll after a check reports a slot exactly when it was in use and untriggered and matched, and no
      lower one was and did. */
  lemma CheckThenPoll(es: seq<Event>, pc: u32, insn: Insn, i: nat)
    requires i < |es|
    ensures FirstReportable(CheckAll(es, pc, insn), 0) == Some(i)
       <==> Hit(es[i], pc, insn) && forall j :: 0 <= j < i ==> !Hit(es[j], pc, insn)
  {
    hide Matches;
    var es' := CheckAll(es, pc, insn);
    assert forall j :: 0 <= j < |es| ==> es'[j] == CheckSlot(es[j], pc, insn);
    assert forall j :: 0 <= j < |es| ==> (Reportable(es'[j]) <==> Hit(es[j], pc, insn));
  }

  const ONE_SHOT := Event(CompEq, false, 4, NO_INSN, NO_INSN, true, true, false)

  /** Of two one-shots at one pc the higher is not reported, and the next check clears it: both match at
      pc 4, slot 0 is reported, and after a check at pc 8 no slot is reportable. */
  lemma LostHitWitness()
    ensures var es := CheckAll([ONE_SHOT, ONE_SHOT], 4, NO_INSN);
      && Reportable(es[0]) && Reportable(es[1]) && FirstReportable(es, 0) == Some(0)
      && var after := CheckAll(PollAll(es), 8, NO_INSN);
         FirstReportable(after, 0) == None && after[1] == ONE_SHOT
  {
    var es := CheckAll([ONE_SHOT, ONE_SHOT], 4, NO_INSN);
    assert es[0].triggered && es[1].triggered;
    var after := CheckAll(PollAll(es), 8, NO_INSN);
    assert !after[0].active && !after[1].triggered;
    assert FirstReportable(after, 1) == FirstReportable(after, 2) == None;
  }
}
