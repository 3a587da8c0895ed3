/**
 * What the control unit's sequence selection computes, as functions on snapshots of its
 * registers, and what those functions promise over single steps and whole runs.
 */
module Sequencing {
  import opened Words

  const TRAP_SEQUENCE: SequenceNumber := 0x22

  /** The registers that decide which sequence runs, and where. */
  datatype Machine = Machine(
    k: Option<SequenceNumber>,
    p: Word18,
    spr: Word18,
    x: seq<Word18>,
    flags: set<SequenceNumber>,
    runnable: bool,
    prevHold: bool,
    trapOnChange: bool,
    e: Word36)

  datatype RunMode = Running | InLimbo

  /** True of a newly made control unit, and kept by every step. */
  predicate Valid(m: Machine) {
    && |m.x| == 64
    && m.x[0] == 0
    && (m.runnable || m.prevHold ==> m.k.Some?)
  }

  /** Where sequence `s` goes on: P while it runs, its index register while it waits. */
  function LogicalPc(m: Machine, s: SequenceNumber): Word18
    requires Valid(m)
  {
    if m.k == Some(s) then m.p else m.x[s]
  }

  /** The record of a change of sequence that is left in E. */
  function ChangeRecord(from: SequenceNumber, to: SequenceNumber, p: Word18): Word36 {
    (from * 512 + to) * 0x4_0000 + p
  }

  /** Whether switching to `next` is diverted to the trap sequence. */
  predicate Diverted(m: Machine, next: SequenceNumber)
    requires Valid(m)
  {
    m.trapOnChange && IsMarkedPlaceholder(m.x[next]) && m.k != Some(TRAP_SEQUENCE) && next > TRAP_SEQUENCE
  }

  function ChangeSequence(m: Machine, prev: Option<SequenceNumber>, next: SequenceNumber): Machine
    requires Valid(m)
  {
    if prev == Some(next) then m
    else
      var target := if Diverted(m, next) then TRAP_SEQUENCE else next;
      var x := if prev.Some? && prev.value != 0 then m.x[prev.value := m.p] else m.x;
      m.(e := ChangeRecord(if prev.Some? then prev.value else 0, next, m.p),
         flags := if Diverted(m, next) then m.flags + {TRAP_SEQUENCE} else m.flags,
         k := Some(target),
         x := x,
         p := if target != 0 then x[target] else m.spr)
  }

  predicate ShouldChange(m: Machine, candidate: SequenceNumber) {
    match m.k
    case None => !m.runnable
    case Some(k) => candidate < k || (!m.runnable && candidate > k)
  }

  /** Every sequence that is about to execute is a known one. */
  function SelectSequence(m: Machine, consumeHold: bool): (r: (Machine, RunMode))
    requires Valid(m)
    ensures Valid(r.0)
    ensures r.1.Running? ==> r.0.k.Some?
  {
    if m.prevHold then (if consumeHold then m.(prevHold := false) else m, Running)
    else
      match LowestFrom(m.flags, 0)
      case None => (m, if m.runnable then Running else InLimbo)
      case Some(candidate) =>
        (if ShouldChange(m, candidate) then ChangeSequence(m, m.k, candidate) else m, Running)
  }

  // ----- instructions, hardware polls and runs -----

  /** What an instruction asks of the program counter. */
  datatype PcRequest = CountOn | Skip | JumpTo(target: Word18) | WaitAt(target: Word18)

  datatype Outcome = Completed(pc: PcRequest, output: bool) | MaskedAlarm | UnmaskedAlarm

  /**
   * An instruction, known only by its effect: any flags, any index registers but
   * register 0, any trap mode, and P only through a request.
   */
  datatype Instruction = Instruction(
    held: bool,
    fetchFails: bool,
    flags: set<SequenceNumber>,
    runnable: bool,
    trapOnChange: bool,
    e: Word36,
    writes: map<WritableIndex, Word18>,
    outcome: Outcome)

  /** What came of trying to execute an instruction, with the place it was fetched from. */
  datatype Executed =
    | Idle
    | Stopped(at: Word18)
    | Ran(sequence: SequenceNumber, from: Word18, mode: RunMode)

  function AfterRequest(p: Word18, pc: PcRequest): Word18 {
    match pc
    case CountOn => p
    case Skip => Successor(p)
    case JumpTo(target) => Join(target, Marked(p))
    case WaitAt(target) => Join(target, Marked(p))
  }

  /**
   * What a request makes of P once it has counted on, in numbers: the mark bit stays, a skip
   * counts on once more, and a jump or a wait goes to the 17 bits of its target.
   */
  predicate Obeys(before: Word18, pc: PcRequest, after: Word18) {
    && after / 0x2_0000 == before / 0x2_0000
    && after % 0x2_0000 ==
         match pc
         case CountOn => before % 0x2_0000
         case Skip => (before + 1) % 0x2_0000
         case JumpTo(target) => target % 0x2_0000
         case WaitAt(target) => target % 0x2_0000
  }

  lemma RequestIsObeyed(p: Word18, pc: PcRequest)
    ensures Obeys(p, pc, AfterRequest(p, pc))
  {
    SuccessorCounts(p);
  }

  /** The same for a whole instruction that was fetched from `from`. */
  predicate Lands(from: Word18, pc: PcRequest, after: Word18) {
    && after / 0x2_0000 == from / 0x2_0000
    && after % 0x2_0000 ==
         match pc
         case CountOn => (from + 1) % 0x2_0000
         case Skip => (from + 2) % 0x2_0000
         case JumpTo(target) => target % 0x2_0000
         case WaitAt(target) => target % 0x2_0000
  }

  lemma InstructionLands(from: Word18, pc: PcRequest)
    ensures Lands(from, pc, AfterRequest(Successor(from), pc))
  {
    SuccessorCounts(from);
    SuccessorCounts(Successor(from));
  }

  function WriteIndexes(x: seq<Word18>, writes: map<WritableIndex, Word18>): (r: seq<Word18>)
    requires |x| == 64
    ensures |r| == 64
    ensures forall i :: 0 <= i < 64 ==> r[i] == if i in writes then writes[i] else x[i]
  {
    seq(64, i requires 0 <= i < 64 => if i in writes then writes[i] else x[i])
  }

  /** Everything the body of an instruction may change by itself. */
  function Effect(m: Machine, inst: Instruction): Machine
    requires Valid(m)
  {
    m.(flags := inst.flags, runnable := inst.runnable,
       trapOnChange := inst.trapOnChange, e := inst.e, x := WriteIndexes(m.x, inst.writes))
  }

  /** P is counted on before the body runs. */
  function Apply(m: Machine, inst: Instruction): Machine
    requires Valid(m)
  {
    Effect(m.(p := Successor(m.p)), inst)
  }

  predicate Waits(inst: Instruction) {
    inst.outcome.Completed? && inst.outcome.pc.WaitAt?
  }

  function Execute(m: Machine, inst: Instruction): (r: (Machine, Executed))
    requires Valid(m)
    ensures Valid(r.0)
  {
    var (ready, mode) := SelectSequence(m, true);
    if mode.InLimbo? then (ready, Idle)
    else if inst.fetchFails then (ready, Stopped(ready.p))
    else
      var applied := Apply(ready, inst);
      match inst.outcome
      case UnmaskedAlarm => (applied.(p := ready.p), Stopped(ready.p))
      case MaskedAlarm =>
        var (after, newMode) := Leave(applied.(prevHold := inst.held), false);
        (after, Ran(ready.k.value, ready.p, newMode))
      case Completed(pc, output) =>
        var (after, newMode) :=
          Leave(applied.(p := AfterRequest(applied.p, pc), prevHold := inst.held && !Waits(inst)), output);
        (after, Ran(ready.k.value, ready.p, newMode))
  }

  /** The selection after an instruction; an instruction with output leaves it to the next fetch. */
  function Leave(m: Machine, output: bool): (r: (Machine, RunMode))
    requires Valid(m)
    ensures Valid(r.0)
  {
    if output then (m, Running) else SelectSequence(m, false)
  }

  datatype Event = Poll(raised: set<SequenceNumber>) | Run(inst: Instruction)

  function Step(m: Machine, ev: Event): (r: Machine)
    requires Valid(m)
    ensures Valid(r)
  {
    match ev
    case Poll(raised) => m.(flags := m.flags + raised)
    case Run(inst) => Execute(m, inst).0
  }

  function RunAll(m: Machine, events: seq<Event>): (r: Machine)
    requires Valid(m)
    ensures Valid(r)
    decreases events
  {
    if events == [] then m else RunAll(Step(m, events[0]), events[1..])
  }

  /** The sequence whose instruction `ev` executes, if it executes one. */
  function Executing(m: Machine, ev: Event): Option<SequenceNumber>
    requires Valid(m)
  {
    if ev.Run? && SelectSequence(m, true).1.Running? then SelectSequence(m, true).0.k else None
  }

  // ----- priority -----

  /**
   * With no hold in force and a flag raised, the chosen sequence is at least as urgent as
   * every raised flag, and is the most urgent one if the current sequence could not go on.
   * A change diverted to the trap sequence raises the trap flag and stays within the rule.
   */
  lemma SelectHonoursPriority(m: Machine, consumeHold: bool)
    requires Valid(m) && !m.prevHold && m.flags != {}
    ensures var (after, mode) := SelectSequence(m, consumeHold);
      && mode.Running?
      && (forall f :: f in after.flags ==> after.k.value <= f)
      && (!m.runnable ==> after.k.value in after.flags)
  {
    var f :| f in m.flags;
    assert LowestFrom(m.flags, 0).Some?;
  }

  /** A sequence that can go on is interrupted exactly by a more urgent flag. */
  lemma InterruptedIff(m: Machine, consumeHold: bool)
    requires Valid(m) && !m.prevHold && m.runnable
    ensures SelectSequence(m, consumeHold) == (m, Running) <==> forall f <- m.flags :: f >= m.k.value
    ensures SelectSequence(m, consumeHold).0.k == m.k <==> forall f <- m.flags :: f >= m.k.value
  {
  }

  /** The machine is in limbo exactly when nothing may run. */
  lemma LimboIffNothingMayRun(m: Machine, consumeHold: bool)
    requires Valid(m)
    ensures SelectSequence(m, consumeHold).1.InLimbo? <==> !m.prevHold && m.flags == {} && !m.runnable
  {
    if m.flags != {} {
      var f :| f in m.flags;
      assert f in m.flags && !(f < 0);
    }
  }

  // ----- conservation of program counters -----

  /**
   * A change of sequence goes to the trap sequence instead exactly if the trap is set, the new
   * sequence comes after the trap's and its saved counter is marked (minus zero is not), and
   * the trap sequence is not the current one.  The trap's flag goes up, and no other.
   */
  lemma TrapDivertsIff(m: Machine, next: SequenceNumber)
    requires Valid(m) && m.k != Some(next)
    ensures var after := ChangeSequence(m, m.k, next);
      var trapped := m.trapOnChange && next > 0x22 && 0x2_0000 <= m.x[next] < 0x3_FFFF && m.k != Some(0x22);
      && after.k == Some(if trapped then 0x22 else next)
      && after.flags == (if trapped then m.flags + {0x22} else m.flags)
  {
  }

  /** Sequence 0 starts at the start point; any other where its index register says. */
  lemma ChangeLoadsP(m: Machine, next: SequenceNumber)
    requires Valid(m) && m.k != Some(next)
    ensures var after := ChangeSequence(m, m.k, next);
      after.k.Some? && after.p == if after.k.value == 0 then m.spr else m.x[after.k.value]
  {
  }

  lemma ChangeConservesPcs(m: Machine, next: SequenceNumber)
    requires Valid(m) && m.k != Some(next)
    ensures Valid(ChangeSequence(m, m.k, next))
    ensures forall s: SequenceNumber :: s != 0 ==>
      LogicalPc(ChangeSequence(m, m.k, next), s) == LogicalPc(m, s)
  {
  }

  /** E tells who was interrupted, for whom, and at which address. */
  lemma ChangeLeavesRecordInE(m: Machine, next: SequenceNumber)
    requires Valid(m) && m.k.Some? && m.k != Some(next)
    ensures var after := ChangeSequence(m, m.k, next);
      && after.e / 0x800_0000 == m.k.value
      && after.e / 0x4_0000 % 512 == next
      && after.e % 0x4_0000 == m.p
  {
  }

  lemma SelectConservesPcs(m: Machine, consumeHold: bool, s: SequenceNumber)
    requires Valid(m) && s != 0
    ensures LogicalPc(SelectSequence(m, consumeHold).0, s) == LogicalPc(m, s)
  {
    if !m.prevHold && LowestFrom(m.flags, 0).Some? && ShouldChange(m, LowestFrom(m.flags, 0).value) {
      ChangeConservesPcs(m, LowestFrom(m.flags, 0).value);
    }
  }

  /** No event of the run executes `s` or writes its index register. */
  predicate LeftAlone(m: Machine, events: seq<Event>, s: SequenceNumber)
    requires Valid(m)
    decreases events
  {
    events != [] ==>
      && Executing(m, events[0]) != Some(s)
      && (events[0].Run? ==> s !in events[0].inst.writes)
      && LeftAlone(Step(m, events[0]), events[1..], s)
  }

  lemma StepKeepsOtherPcs(m: Machine, ev: Event, s: SequenceNumber)
    requires Valid(m) && s != 0
    requires Executing(m, ev) != Some(s) && (ev.Run? ==> s !in ev.inst.writes)
    ensures LogicalPc(Step(m, ev), s) == LogicalPc(m, s)
  {
    if ev.Run? {
      SelectConservesPcs(m, true, s);
      var (ready, mode) := SelectSequence(m, true);
      if mode.Running? && !ev.inst.fetchFails {
        var applied := Apply(ready, ev.inst);
        assert LogicalPc(applied, s) == LogicalPc(ready, s);
        match ev.inst.outcome {
          case UnmaskedAlarm =>
          case MaskedAlarm =>
            var left := applied.(prevHold := ev.inst.held);
            assert LogicalPc(left, s) == LogicalPc(applied, s);
            SelectConservesPcs(left, false, s);
          case Completed(pc, output) =>
            var left := applied.(p := AfterRequest(applied.p, pc), prevHold := ev.inst.held && !Waits(ev.inst));
            assert LogicalPc(left, s) == LogicalPc(applied, s);
            SelectConservesPcs(left, false, s);
        }
      }
    }
  }

  /** Main result: however the machine is scheduled, a waiting sequence keeps its place. */
  lemma {:induction false} WaitingSequenceKeepsItsPlace(m: Machine, events: seq<Event>, s: SequenceNumber)
    requires Valid(m) && s != 0 && LeftAlone(m, events, s)
    ensures LogicalPc(RunAll(m, events), s) == LogicalPc(m, s)
    decreases events
  {
    if events != [] {
      StepKeepsOtherPcs(m, events[0], s);
      WaitingSequenceKeepsItsPlace(Step(m, events[0]), events[1..], s);
    }
  }

  /** What an instruction of `s` leaves as the place where `s` goes on. */
  lemma InstructionMovesOnlyItsOwnPc(m: Machine, inst: Instruction, s: SequenceNumber)
    requires Valid(m) && s != 0 && Executing(m, Run(inst)) == Some(s)
    requires Execute(m, inst).1.Ran?
    ensures LogicalPc(Execute(m, inst).0, s) ==
      AfterRequest(Successor(LogicalPc(m, s)), if inst.outcome.Completed? then inst.outcome.pc else CountOn)
    ensures Lands(LogicalPc(m, s), if inst.outcome.Completed? then inst.outcome.pc else CountOn,
        LogicalPc(Execute(m, inst).0, s))
  {
    InstructionLands(LogicalPc(m, s), if inst.outcome.Completed? then inst.outcome.pc else CountOn);
    SelectConservesPcs(m, true, s);
    var applied := Apply(SelectSequence(m, true).0, inst);
    match inst.outcome {
      case UnmaskedAlarm =>
      case MaskedAlarm =>
        SelectConservesPcs(applied.(prevHold := inst.held), false, s);
      case Completed(pc, output) =>
        SelectConservesPcs(
          applied.(p := AfterRequest(applied.p, pc), prevHold := inst.held && !Waits(inst)), false, s);
    }
  }

  /**
   * Main result: after any run that leaves `s` alone, the next instruction of `s` is fetched
   * from the place the last one left, even if `s` wrote its own index register meanwhile.
   */
  lemma ResumesWhereItStopped(m: Machine, last: Instruction, events: seq<Event>, next: Instruction, s: SequenceNumber)
    requires Valid(m) && s != 0
    requires Executing(m, Run(last)) == Some(s) && Execute(m, last).1.Ran?
    requires LeftAlone(Execute(m, last).0, events, s)
    requires var resumed := RunAll(Execute(m, last).0, events);
      Executing(resumed, Run(next)) == Some(s) && Execute(resumed, next).1.Ran?
    ensures Lands(LogicalPc(m, s), if last.outcome.Completed? then last.outcome.pc else CountOn,
        Execute(RunAll(Execute(m, last).0, events), next).1.from)
  {
    InstructionMovesOnlyItsOwnPc(m, last, s);
    WaitingSequenceKeepsItsPlace(Execute(m, last).0, events, s);
    SelectConservesPcs(RunAll(Execute(m, last).0, events), true, s);
  }

  /** Main result: after a jump the next instruction of a sequence comes from the address jumped to. */
  lemma JumpIsTaken(m: Machine, last: Instruction, target: Word18, events: seq<Event>, next: Instruction,
      s: SequenceNumber)
    requires Valid(m) && s != 0 && last.outcome.Completed? && last.outcome.pc == JumpTo(target)
    requires Executing(m, Run(last)) == Some(s) && Execute(m, last).1.Ran?
    requires LeftAlone(Execute(m, last).0, events, s)
    requires var resumed := RunAll(Execute(m, last).0, events);
      Executing(resumed, Run(next)) == Some(s) && Execute(resumed, next).1.Ran?
    ensures var from := Execute(RunAll(Execute(m, last).0, events), next).1.from;
      from % 0x2_0000 == target % 0x2_0000 && from / 0x2_0000 == LogicalPc(m, s) / 0x2_0000
  {
    ResumesWhereItStopped(m, last, events, next, s);
  }

  /** An instruction that stops the machine leaves the place of its sequence at itself. */
  lemma StoppedInstructionKeepsItsPlace(m: Machine, inst: Instruction, s: SequenceNumber)
    requires Valid(m) && s != 0 && Executing(m, Run(inst)) == Some(s) && Execute(m, inst).1.Stopped?
    ensures LogicalPc(Execute(m, inst).0, s) == LogicalPc(m, s) == Execute(m, inst).1.at
  {
    SelectConservesPcs(m, true, s);
  }

  /** After an instruction with output no sequence is chosen yet, so that its flag can be seen first. */
  lemma OutputDefersTheChoice(m: Machine, inst: Instruction)
    requires Valid(m) && Execute(m, inst).1.Ran? && inst.outcome.Completed? && inst.outcome.output
    ensures Execute(m, inst).1.mode.Running? && Execute(m, inst).0.k == Executing(m, Run(inst))
    ensures Execute(m, inst).0.flags == inst.flags && Execute(m, inst).0.e == inst.e
  {
  }

  // ----- starting over -----

  /** STARTOVER (its address already in `spr`): raise flag 0 and go there without looking back. */
  function StartOver(m: Machine, spr: Word18): Machine
    requires Valid(m)
  {
    ChangeSequence(m.(spr := spr, runnable := false, flags := m.flags + {0}), None, 0)
  }

  /**
   * STARTOVER does not save P, so it keeps every program counter exactly when no sequence
   * other than 0 was current or its index register happened to agree with P.
   */
  lemma StartOverKeepsPcsIff(m: Machine, spr: Word18)
    requires Valid(m)
    ensures Valid(StartOver(m, spr)) && StartOver(m, spr).k == Some(0) && StartOver(m, spr).p == spr
    ensures (forall s: SequenceNumber :: s != 0 ==> LogicalPc(StartOver(m, spr), s) == LogicalPc(m, s))
      <==> (m.k.None? || m.k.value == 0 || m.x[m.k.value] == m.p)
  {
    var after := StartOver(m, spr);
    if m.k.Some? && m.k.value != 0 {
      assert LogicalPc(after, m.k.value) == m.x[m.k.value];
      assert LogicalPc(m, m.k.value) == m.p;
    }
  }

  // ----- the hold bit -----

  function PollAll(m: Machine, polls: seq<set<SequenceNumber>>): Machine
    decreases polls
  {
    if polls == [] then m else PollAll(m.(flags := m.flags + polls[0]), polls[1..])
  }

  lemma {:induction false} PollsOnlyRaiseFlags(m: Machine, polls: seq<set<SequenceNumber>>)
    ensures PollAll(m, polls) == m.(flags := PollAll(m, polls).flags)
    ensures m.flags <= PollAll(m, polls).flags
    decreases polls
  {
    if polls != [] {
      PollsOnlyRaiseFlags(m.(flags := m.flags + polls[0]), polls[1..]);
    }
  }

  /** A held instruction leaves its own sequence current, with the hold still to be spent. */
  lemma HeldInstructionStays(m: Machine, held: Instruction)
    requires Valid(m) && held.held && !Waits(held) && Execute(m, held).1.Ran?
    ensures Execute(m, held).1.mode.Running? && Execute(m, held).0.prevHold
    ensures Execute(m, held).0.k == Executing(m, Run(held))
  {
  }

  /** The hold is spent at the next fetch, which it keeps from changing sequence. */
  lemma HeldBoundaryIsClosed(boundary: Machine, next: Instruction)
    requires Valid(boundary) && boundary.prevHold
    ensures SelectSequence(boundary, true) == (boundary.(prevHold := false), Running)
    ensures Executing(boundary, Run(next)) == boundary.k
    ensures !Execute(boundary, next).1.Idle?
    ensures Execute(boundary, next).1.Ran? ==> Execute(boundary, next).1.from == boundary.p
  {
  }

  /** After an instruction without the hold bit, the priorities decide again. */
  lemma UnheldBoundaryIsOpen(m: Machine, inst: Instruction)
    requires Valid(m) && !inst.held && Execute(m, inst).1.Ran? && Execute(m, inst).0.flags != {}
    ensures var after := Execute(m, inst).0;
      && !after.prevHold
      && forall f :: f in SelectSequence(after, true).0.flags ==> SelectSequence(after, true).0.k.value <= f
  {
    SelectHonoursPriority(Execute(m, inst).0, true);
  }

  /**
   * Main result.  A held instruction that does not dismiss and wait protects exactly one
   * boundary: whatever flags go up, the next instruction belongs to the same sequence, and
   * with that the hold is spent.
   */
  lemma HoldProtectsOneBoundary(m: Machine, held: Instruction, polls: seq<set<SequenceNumber>>, next: Instruction)
    requires Valid(m) && held.held && !Waits(held) && Execute(m, held).1.Ran?
    ensures Valid(PollAll(Execute(m, held).0, polls))
    ensures var boundary := PollAll(Execute(m, held).0, polls);
      && Executing(boundary, Run(next)) == Executing(m, Run(held))
      && !SelectSequence(boundary, true).0.prevHold
      && (Execute(boundary, next).1.Ran? ==> Execute(boundary, next).1.from == Execute(m, held).0.p)
    ensures var after := Execute(PollAll(Execute(m, held).0, polls), next);
      !next.held && after.1.Ran? && after.0.flags != {} ==>
        forall f :: f in SelectSequence(after.0, true).0.flags ==> SelectSequence(after.0, true).0.k.value <= f
  {
    HeldInstructionStays(m, held);
    PollsOnlyRaiseFlags(Execute(m, held).0, polls);
    var boundary := PollAll(Execute(m, held).0, polls);
    HeldBoundaryIsClosed(boundary, next);
    if !next.held && Execute(boundary, next).1.Ran? && Execute(boundary, next).0.flags != {} {
      UnheldBoundaryIsOpen(boundary, next);
    }
  }

  /** Dismiss-and-wait gives the hold up at once: the boundary after it is open. */
  lemma WaitingGivesUpTheHold(m: Machine, inst: Instruction)
    requires Valid(m) && Waits(inst) && Execute(m, inst).1.Ran?
    ensures !Execute(m, inst).0.prevHold
    ensures !inst.outcome.output && inst.flags != {} ==>
      forall f :: f in Execute(m, inst).0.flags ==> Execute(m, inst).0.k.value <= f
  {
    var applied := Apply(SelectSequence(m, true).0, inst);
    var left := applied.(p := AfterRequest(applied.p, inst.outcome.pc), prevHold := false);
    if inst.flags != {} {
      SelectHonoursPriority(left, false);
    }
  }
}
