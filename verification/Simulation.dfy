/**
 * The tick loop: when the next instruction and the next poll of the hardware are due, what
 * one tick does about it, and how the driver moves simulated time between ticks.
 */
module Simulation {
  import opened Words
  import opened Alarms
  import opened Sequencing
  import opened Control
  import D = Devices
  import M = MemoryMap

  type Time = D.Time

  const LIGHT_PEN: D.Unit := 0x2D

  /** The wait for the next poll when no unit asks for one. */
  const DEFAULT_POLL_INTERVAL: Time := 5000

  datatype State = State(
    machine: Machine,
    bank: D.Bank,
    alarms: AlarmState,
    execDue: Option<Time>,
    hwDue: Time,
    mode: RunMode)

  /** The body of an instruction that is not stopped by an alarm. */
  type Body = i: Instruction | i.outcome.Completed? && !i.fetchFails
    witness Instruction(false, false, {}, false, false, 0, map[], Completed(CountOn, false))

  /** The poll that a completed instruction asks for: IOS names a unit, TSD means its own. */
  datatype PollRequest = NoPoll | PollUnit(unit: D.Unit) | PollOwnUnit

  /**
   * One instruction with everything it may do to the rest of the machine: whether its word
   * and which of its operands are fetched with their metabits to be set, alarms fired by its
   * fetch, noted on its way or ending its body, requests to units, and the time it takes.
   */
  datatype Work = Work(
    body: Body,
    marksWord: bool,
    markedOperands: set<M.Address>,
    fetchAlarm: Option<AlarmKind>,
    noted: set<AlarmKind>,
    bodyAlarm: Option<AlarmKind>,
    requests: seq<D.Event>,
    pollSoon: PollRequest,
    penFlash: bool,
    duration: Time)

  /** What a poll of all due units found. */
  datatype PollReply = PollReply(raised: set<SequenceNumber>, alarm: Option<D.DeviceAlarm>, next: Option<Time>)

  /** What happens outside the machine at one tick. */
  datatype Moment = Moment(answers: D.Answers, reply: PollReply, work: Work)

  datatype Ticked = Crashed | Halted(state: State) | Done(state: State, executed: bool)

  function KindOf(a: D.DeviceAlarm): AlarmKind {
    if a.Inability? then IOSAL else MISAL
  }

  predicate IsRequest(ev: D.Event) {
    ev.Connect? || ev.Disconnect? || ev.Report?
  }

  ghost predicate RequestsOnly(work: Work) {
    forall i :: 0 <= i < |work.requests| ==> IsRequest(work.requests[i])
  }

  ghost predicate IsReply(b: D.Bank, now: Time, answers: D.Answers, reply: PollReply) {
    && reply.raised == D.RaisedBy(b, now, answers)
    && D.IsAlarmOf(b, now, answers, reply.alarm)
    && D.IsEarliest(D.PollQueueAfter(b, now, answers), reply.next)
  }

  ghost predicate IsMoment(s: State, now: Time, m: Moment) {
    && RequestsOnly(m.work)
    && D.AskForLater(m.answers, now)
    && IsReply(s.bank, now, m.answers, m.reply)
  }

  /** When the emulator next wants to be called. */
  function NextTick(s: State): (t: Time)
    ensures t <= s.hwDue && (s.mode.Running? && s.execDue.Some? ==> t <= s.execDue.value)
    ensures t == s.hwDue || (s.mode.Running? && s.execDue == Some(t))
  {
    if s.mode.Running? && s.execDue.Some? && s.execDue.value < s.hwDue then s.execDue.value else s.hwDue
  }

  // ----- one tick -----

  /** The poll of the hardware, if it is due. A masked alarm leaves mode and due time alone. */
  function PollPhase(s: State, now: Time, m: Moment): State
    requires Valid(s.machine)
  {
    if now < s.hwDue then s
    else
      var polled := s.(machine := Sequencing.Step(s.machine, Poll(m.reply.raised)),
                       bank := D.Step(s.bank, D.Poll(now, m.answers)));
      match m.reply.alarm
      case Some(a) => polled.(alarms := Fire(s.alarms, KindOf(a)))
      case None =>
        polled.(mode := if m.reply.raised != {} then Running else s.mode,
                hwDue := if m.reply.next.Some? then m.reply.next.value else now + DEFAULT_POLL_INTERVAL)
  }

  predicate PollStops(s: State, now: Time, m: Moment) {
    s.hwDue <= now && m.reply.alarm.Some? && KindOf(m.reply.alarm.value) !in s.alarms.masked
  }

  /** Alarms decide how an instruction ends; masked ones do not. */
  function AsExecuted(work: Work, masked: set<AlarmKind>): Instruction {
    work.body.(
      fetchFails := work.fetchAlarm.Some? && work.fetchAlarm.value !in masked,
      outcome :=
        if work.bodyAlarm.None? then work.body.outcome
        else if work.bodyAlarm.value in masked then MaskedAlarm
        else UnmaskedAlarm)
  }

  function OneOf(kind: Option<AlarmKind>): set<AlarmKind> {
    if kind.Some? then {kind.value} else {}
  }

  function FiredBy(work: Work, masked: set<AlarmKind>): set<AlarmKind> {
    if AsExecuted(work, masked).fetchFails then OneOf(work.fetchAlarm)
    else OneOf(work.fetchAlarm) + work.noted * masked + OneOf(work.bodyAlarm)
  }

  function Max(a: Time, b: Time): Time {
    if a < b then b else a
  }

  /** The unit that an instruction of sequence `own` wants polled, if it completes. */
  function Asked(inst: Instruction, request: PollRequest, own: SequenceNumber): Option<D.Unit> {
    if !inst.outcome.Completed? then None
    else
      match request
      case NoPoll => None
      case PollUnit(unit) => Some(unit)
      case PollOwnUnit => Some(own)
  }

  /** When to go on after an instruction that ran, and when to poll. */
  function Rescheduled(s: State, now: Time, inst: Instruction, work: Work, asked: Option<D.Unit>): State
    requires s.execDue.Some?
  {
    var timed := s.(execDue := Some(Max(s.execDue.value + work.duration, now + 1)));
    var soon := if asked.Some? then
        timed.(bank := D.Step(s.bank, D.TransferDone(asked.value, now)), hwDue := now + 1)
      else timed;
    var seen := inst.outcome.Completed? && inst.outcome.output && work.penFlash;
    if seen then soon.(bank := D.Step(soon.bank, D.TransferDone(LIGHT_PEN, now)), hwDue := now) else soon
  }

  /** The machine, its alarms and its units after an instruction. */
  function Acted(s: State, work: Work): (State, Executed)
    requires Valid(s.machine)
  {
    var inst := AsExecuted(work, s.alarms.masked);
    var (machine, executed) := Execute(s.machine, inst);
    if executed.Idle? then (s.(machine := machine), executed)
    else
      (s.(machine := machine,
          alarms := s.alarms.(active := s.alarms.active + FiredBy(work, s.alarms.masked)),
          bank := if inst.fetchFails then s.bank else D.RunAll(s.bank, work.requests)), executed)
  }

  /** The memory refuses to set a metabit here, which a fetch does not reckon with. */
  predicate OnPanel(a: Word18) {
    M.V_START <= Physical(a)
  }

  predicate MarksPanel(inst: Instruction, work: Work, from: Word18) {
    (work.marksWord && OnPanel(from)) || (!inst.fetchFails && exists a <- work.markedOperands :: OnPanel(a))
  }

  /** The metabit of a word that is fetched cannot be set exactly in V-memory. */
  lemma PanelRefusesMarks(mem: M.Mem, a: M.Address, clock: M.Word)
    requires M.Sized(mem)
    ensures M.Step(mem, M.Fetch(a, true, clock)).1.ReadOnly? <==> OnPanel(a)
  {
    M.RefusedIff(mem, M.Fetch(a, true, clock));
  }

  /** An instruction runs into a branch that the source takes for unreachable. */
  predicate Panics(bank: D.Bank, inst: Instruction, work: Work, executed: Executed) {
    match executed
    case Idle => false
    case Stopped(at) => MarksPanel(inst, work, at)
    case Ran(sequence, from, _) =>
      var asked := Asked(inst, work.pollSoon, sequence);
      MarksPanel(inst, work, from) || (asked.Some? && !D.CanBringForward(bank, asked.value))
  }

  /** The instruction that is due, and what follows from the way it ends. */
  function InstructionPhase(s: State, now: Time, work: Work): Ticked
    requires Valid(s.machine) && s.execDue.Some?
  {
    var inst := AsExecuted(work, s.alarms.masked);
    var (acted, executed) := Acted(s, work);
    if Panics(acted.bank, inst, work, executed) then Crashed
    else
      match executed
      case Idle => Done(acted.(mode := InLimbo, execDue := Some(Max(s.execDue.value, now + 1))), false)
      case Stopped(_) => Halted(acted.(execDue := None))
      case Ran(sequence, _, mode) =>
        Done(Rescheduled(acted.(mode := mode), now, inst, work, Asked(inst, work.pollSoon, sequence)), true)
  }

  /** Whether the tick gets as far as executing an instruction. */
  ghost predicate Executes(s: State, now: Time, m: Moment)
    requires Valid(s.machine)
  {
    var polled := PollPhase(s, now, m);
    && !PollStops(s, now, m)
    && polled.mode.Running? && !Unmasked(polled.alarms)
    && polled.execDue.Some? && polled.execDue.value <= now
  }

  ghost function Tick(s: State, now: Time, m: Moment): Ticked
    requires Valid(s.machine)
  {
    var polled := PollPhase(s, now, m);
    if PollStops(s, now, m) then Halted(polled)
    else if polled.mode.InLimbo? then
      if polled.hwDue < now then Crashed else Done(polled, false)
    else if !Unmasked(polled.alarms) && polled.execDue.Some? && polled.execDue.value <= now then
      InstructionPhase(polled, now, m.work)
    else Done(polled, false)
  }

  /**
   * An instruction of the chosen sequence that the source cannot carry out: one that has a
   * word of V-memory marked as it is fetched, or that completes asking for a poll of a unit
   * up to 40 (octal).
   */
  predicate Faulty(machine: Machine, inst: Instruction, work: Work)
    requires Valid(machine)
  {
    var chosen := SelectSequence(machine, true);
    && chosen.1.Running?
    && (|| MarksPanel(inst, work, chosen.0.p)
        || (!inst.fetchFails && inst.outcome.Completed? &&
            match work.pollSoon
            case NoPoll => false
            case PollUnit(unit) => unit <= 0x20
            case PollOwnUnit => chosen.0.k.value <= 0x20))
  }

  ghost predicate Faults(s: State, now: Time, m: Moment)
    requires Valid(s.machine)
  {
    Executes(s, now, m) && Faulty(PollPhase(s, now, m).machine, AsExecuted(m.work, s.alarms.masked), m.work)
  }

  /**
   * Main result: a tick panics exactly when a late poll meets a masked device alarm in limbo,
   * where the time still to wait would be negative, or when the instruction that is due is a
   * faulty one.
   */
  lemma TickCrashesIff(s: State, now: Time, m: Moment)
    requires Valid(s.machine) && D.Sound(s.bank) && IsMoment(s, now, m)
    ensures Tick(s, now, m).Crashed? <==>
      || (s.mode.InLimbo? && s.hwDue < now && m.reply.alarm.Some? && KindOf(m.reply.alarm.value) in s.alarms.masked)
      || Faults(s, now, m)
  {
    NextPollIsLater(s, now, m);
    if Executes(s, now, m) {
      var polled := PollPhase(s, now, m);
      assert polled.alarms.masked == s.alarms.masked;
      PollSoundness(s, now, m);
      InstructionCrashesIff(polled, now, m.work);
    }
  }

  lemma InstructionCrashesIff(s: State, now: Time, work: Work)
    requires Valid(s.machine) && D.Sound(s.bank) && s.execDue.Some?
    ensures InstructionPhase(s, now, work).Crashed? <==> Faulty(s.machine, AsExecuted(work, s.alarms.masked), work)
  {
    D.RunKeepsSound(s.bank, work.requests);
    var inst := AsExecuted(work, s.alarms.masked);
    var chosen := SelectSequence(s.machine, true);
    if chosen.1.Running? && !inst.fetchFails {
      var asked := Asked(inst, work.pollSoon, chosen.0.k.value);
      if asked.Some? {
        D.CanBringForwardIff(s.bank, work.requests, asked.value);
      }
    }
  }

  /** A machine that was started over at `start`, with whatever units it has. */
  function JustStarted(start: Word18, bank: D.Bank): State {
    var unused := Machine(None, 0, 0, seq(64, _ => 0), {}, false, false, false, 0);
    State(StartOver(unused, start), bank, AlarmState({}, {}), Some(0), 0, Running)
  }

  /**
   * A machine that has just been started panics at its first instruction if that completes an
   * IOS for unit 0 or for any other up to 40 (octal), or completes any TSD.
   */
  lemma FirstInstructionCrashesIff(start: Word18, bank: D.Bank, m: Moment)
    requires D.Sound(bank) && IsMoment(JustStarted(start, bank), 0, m) && m.reply.alarm.None?
    ensures OnTime(JustStarted(start, bank), 0)
    ensures Tick(JustStarted(start, bank), 0, m).Crashed? <==>
      || (m.work.marksWord && OnPanel(start))
      || (m.work.fetchAlarm.None? && exists a <- m.work.markedOperands :: OnPanel(a))
      || (m.work.fetchAlarm.None? && m.work.bodyAlarm.None? &&
          (m.work.pollSoon.PollOwnUnit? || (m.work.pollSoon.PollUnit? && m.work.pollSoon.unit <= 0x20)))
  {
    var s := JustStarted(start, bank);
    TickCrashesIff(s, 0, m);
    var polled := PollPhase(s, 0, m);
    assert polled.machine == s.machine.(flags := {0} + m.reply.raised);
    assert SelectSequence(polled.machine, true).0 == polled.machine;
  }

  lemma NextPollIsLater(s: State, now: Time, m: Moment)
    requires IsMoment(s, now, m)
    ensures m.reply.next.Some? ==> m.reply.next.value > now
    ensures forall u :: !D.IsDue(D.Step(s.bank, D.Poll(now, m.answers)), now, u)
  {
    var queue := D.PollQueueAfter(s.bank, now, m.answers);
    if m.reply.next.Some? {
      var u :| u in queue && queue[u] == m.reply.next.value;
    }
  }

  // ----- the driver -----

  /** The state between ticks, when the clock shows `now`. */
  ghost predicate OnTime(s: State, now: Time) {
    && Valid(s.machine) && D.Sound(s.bank) && Lawful(s.alarms) && !Unmasked(s.alarms)
    && now <= s.hwDue
    && (s.mode.Running? && s.execDue.Some? ==> now <= s.execDue.value)
  }

  /**
   * Main result: called when it asked to be called, a tick panics only at a faulty
   * instruction, and the next call it asks for is not in the past.  An instruction that was
   * executed moved its due time past the present, and a tick that stops the machine does so
   * with an unmasked alarm active.
   */
  lemma TickKeepsOnTime(s: State, before: Time, m: Moment)
    requires OnTime(s, before) && IsMoment(s, NextTick(s), m)
    ensures var now := NextTick(s);
      before <= now
      && match Tick(s, now, m)
         case Crashed => Faults(s, now, m)
         case Halted(after) => Unmasked(after.alarms)
         case Done(after, executed) =>
           OnTime(after, now) && after.alarms.masked == s.alarms.masked
           && (executed ==> after.execDue.Some? && after.execDue.value > now)
    ensures Faults(s, NextTick(s), m) ==> Tick(s, NextTick(s), m).Crashed?
  {
    var now := NextTick(s);
    TickCrashesIff(s, now, m);
    NextPollIsLater(s, now, m);
    var polled := PollPhase(s, now, m);
    D.RunKeepsSound(s.bank, [D.Poll(now, m.answers)]);
    PollSoundness(s, now, m);
    if PollStops(s, now, m) {
      assert KindOf(m.reply.alarm.value) in polled.alarms.active;
    } else {
      assert !Unmasked(polled.alarms);
      if polled.mode.Running? && polled.execDue.Some? && polled.execDue.value <= now {
        InstructionKeepsOnTime(polled, now, m.work);
      }
    }
  }

  lemma PollSoundness(s: State, now: Time, m: Moment)
    requires Valid(s.machine) && D.Sound(s.bank)
    ensures D.Sound(PollPhase(s, now, m).bank)
  {
  }

  lemma InstructionKeepsOnTime(s: State, now: Time, work: Work)
    requires OnTime(s.(mode := InLimbo), now) && s.execDue.Some? && RequestsOnly(work)
    ensures match InstructionPhase(s, now, work)
      case Crashed => Faulty(s.machine, AsExecuted(work, s.alarms.masked), work)
      case Halted(after) => Unmasked(after.alarms)
      case Done(after, _) =>
        && OnTime(after, now) && after.alarms.masked == s.alarms.masked
        && after.execDue.Some? && after.execDue.value > now
  {
    hide Execute;
    hide Faulty;
    hide Panics;
    D.RunKeepsSound(s.bank, work.requests);
    InstructionCrashesIff(s, now, work);
    InstructionStopsIffUnmasked(s, work);
  }

  /** An instruction that runs stops the machine exactly when it fires an unmasked alarm. */
  lemma InstructionStopsIffUnmasked(s: State, work: Work)
    requires Valid(s.machine)
    ensures var executed := Execute(s.machine, AsExecuted(work, s.alarms.masked)).1;
      !executed.Idle? ==>
        (executed.Stopped? <==> exists kind <- FiredBy(work, s.alarms.masked) :: kind !in s.alarms.masked)
  {
    var inst := AsExecuted(work, s.alarms.masked);
    if inst.fetchFails {
      assert work.fetchAlarm.value in FiredBy(work, s.alarms.masked);
    } else if inst.outcome.UnmaskedAlarm? {
      assert work.bodyAlarm.value in FiredBy(work, s.alarms.masked);
    }
  }

  // ----- runs -----

  /** A run of the driver: each tick is called at the time the last one asked for. */
  ghost predicate IsRun(s: State, moments: seq<Moment>)
    requires Valid(s.machine)
    decreases |moments|
  {
    moments == [] || (
      && IsMoment(s, NextTick(s), moments[0])
      && var ticked := Tick(s, NextTick(s), moments[0]);
         ticked.Done? ==> Valid(ticked.state.machine) && IsRun(ticked.state, moments[1..]))
  }

  /** The times at which the driver calls the ticks of a run, up to a tick that fails. */
  ghost function TickTimes(s: State, moments: seq<Moment>): seq<Time>
    requires Valid(s.machine) && IsRun(s, moments)
    decreases |moments|
  {
    if moments == [] then []
    else
      var ticked := Tick(s, NextTick(s), moments[0]);
      [NextTick(s)] + if ticked.Done? then TickTimes(ticked.state, moments[1..]) else []
  }

  ghost predicate NeverCrashes(s: State, moments: seq<Moment>)
    requires Valid(s.machine) && IsRun(s, moments)
    decreases |moments|
  {
    moments == [] || (
      var ticked := Tick(s, NextTick(s), moments[0]);
      !ticked.Crashed? && (ticked.Done? ==> NeverCrashes(ticked.state, moments[1..])))
  }

  /** No tick of the run comes to a faulty instruction. */
  ghost predicate NeverFaults(s: State, moments: seq<Moment>)
    requires Valid(s.machine) && IsRun(s, moments)
    decreases |moments|
  {
    moments == [] || (
      && !Faults(s, NextTick(s), moments[0])
      && var ticked := Tick(s, NextTick(s), moments[0]);
         ticked.Done? ==> NeverFaults(ticked.state, moments[1..]))
  }

  /** Each time in the list is no earlier than the one before it. */
  predicate Nondecreasing(from: Time, times: seq<Time>)
    decreases |times|
  {
    times == [] || (from <= times[0] && Nondecreasing(times[0], times[1..]))
  }

  /**
   * Main result: over a whole run simulated time never goes backwards, and nothing panics
   * exactly if no faulty instruction is executed.
   */
  lemma {:induction false} TimeNeverGoesBack(s: State, before: Time, moments: seq<Moment>)
    requires OnTime(s, before) && IsRun(s, moments)
    ensures NeverCrashes(s, moments) <==> NeverFaults(s, moments)
    ensures Nondecreasing(before, TickTimes(s, moments))
    decreases |moments|
  {
    if moments != [] {
      TickKeepsOnTime(s, before, moments[0]);
      var ticked := Tick(s, NextTick(s), moments[0]);
      if ticked.Done? {
        TimeNeverGoesBack(ticked.state, NextTick(s), moments[1..]);
        assert TickTimes(s, moments)[1..] == TickTimes(ticked.state, moments[1..]);
      }
    }
  }

  /** The state after a run, or before the tick that ended it. */
  ghost function FinalState(s: State, moments: seq<Moment>): (r: State)
    requires Valid(s.machine) && IsRun(s, moments)
    ensures Valid(r.machine)
    decreases |moments|
  {
    if moments == [] then s
    else
      var ticked := Tick(s, NextTick(s), moments[0]);
      if ticked.Done? then FinalState(ticked.state, moments[1..]) else s
  }

  ghost predicate GoesOn(s: State, moments: seq<Moment>)
    requires Valid(s.machine) && IsRun(s, moments)
    decreases |moments|
  {
    moments == [] || (
      var ticked := Tick(s, NextTick(s), moments[0]);
      ticked.Done? && GoesOn(ticked.state, moments[1..]))
  }

  /** A run that goes on can be continued by one tick at the time it asked for. */
  lemma {:induction false} OneMoreTick(s: State, moments: seq<Moment>, m: Moment)
    requires Valid(s.machine) && IsRun(s, moments) && GoesOn(s, moments)
    requires var last := FinalState(s, moments);
      && IsMoment(last, NextTick(last), m)
      && (Tick(last, NextTick(last), m).Done? ==> Valid(Tick(last, NextTick(last), m).state.machine))
    ensures IsRun(s, moments + [m])
    ensures var last := FinalState(s, moments);
      && TickTimes(s, moments + [m]) == TickTimes(s, moments) + [NextTick(last)]
      && (NeverFaults(s, moments + [m]) <==> NeverFaults(s, moments) && !Faults(last, NextTick(last), m))
      && (Tick(last, NextTick(last), m).Done? ==>
            GoesOn(s, moments + [m]) && FinalState(s, moments + [m]) == Tick(last, NextTick(last), m).state)
    decreases |moments|
  {
    hide Tick;
    hide Faults;
    hide IsMoment;
    var longer := moments + [m];
    if moments == [] {
      assert longer[0] == m && longer[1..] == [];
    } else {
      assert longer[0] == moments[0] && longer[1..] == moments[1..] + [m];
      OneMoreTick(Tick(s, NextTick(s), moments[0]).state, moments[1..], m);
    }
  }

  // ----- when things are due, in numbers -----

  /**
   * Main result: the instruction after one that ran is due when that one was due and as much
   * later as it took, or a nanosecond from now if that has passed.
   */
  lemma InstructionTakesItsTime(s: State, now: Time, m: Moment)
    requires Valid(s.machine) && Tick(s, now, m).Done? && Tick(s, now, m).executed
    ensures s.execDue.Some? && s.execDue.value <= now
    ensures var over := s.execDue.value + m.work.duration;
      Tick(s, now, m).state.execDue == Some(if over > now then over else now + 1)
  {
  }

  /**
   * A tick that executes nothing leaves the next instruction where it is, unless it finds
   * nothing to execute when one is due: the machine is then in limbo, and once woken has an
   * instruction due a nanosecond from now.
   */
  lemma OtherTicksLeaveIt(s: State, now: Time, m: Moment)
    requires Valid(s.machine) && Tick(s, now, m).Done? && !Tick(s, now, m).executed
    ensures var after := Tick(s, now, m).state;
      after.execDue ==
        if PollPhase(s, now, m).mode.Running? && after.mode.InLimbo? then Some(now + 1) else s.execDue
  {
  }

  /**
   * Main result: the next poll is due when the first unit asks for it, or 5000 nanoseconds on
   * if none does.  An instruction that completes with a request brings it to a nanosecond from
   * now, and a point that the light pen sees to this instant.  A poll with a masked alarm
   * leaves it where it was.
   */
  lemma NextPollIsDue(s: State, now: Time, m: Moment)
    requires Valid(s.machine) && Tick(s, now, m).Done?
    ensures var (after, executed) := (Tick(s, now, m).state, Tick(s, now, m).executed);
      var completes := executed && m.work.bodyAlarm.None?;
      after.hwDue ==
      if completes && m.work.body.outcome.output && m.work.penFlash then now
      else if completes && !m.work.pollSoon.NoPoll? then now + 1
      else if now < s.hwDue || m.reply.alarm.Some? then s.hwDue
      else if m.reply.next.Some? then m.reply.next.value
      else now + 5000
  {
  }

  /**
   * The alarm of a poll: inability is IOSAL and missed data MISAL, for a unit that was due no
   * later than any other that complains; without a complaint there is none.
   */
  lemma AlarmOfPoll(s: State, now: Time, m: Moment)
    requires Valid(s.machine) && IsMoment(s, now, m) && s.hwDue <= now
    ensures var active := PollPhase(s, now, m).alarms.active;
      if forall u :: D.IsPolled(s.bank, now, u) ==> !m.answers(u).inability && !m.answers(u).missedData
      then active == s.alarms.active
      else exists u :: FirstComplaint(s, now, m, u) && active == s.alarms.active + {ComplaintIs(m.answers(u))}
  {
    if m.reply.alarm.Some? {
      assert FirstComplaint(s, now, m, m.reply.alarm.value.unit);
    }
  }

  /** A unit that is both late and unable to go on has its inability reported. */
  function ComplaintIs(answer: D.Status): AlarmKind {
    if answer.inability then IOSAL else MISAL
  }

  ghost predicate FirstComplaint(s: State, now: Time, m: Moment, u: D.Unit) {
    && D.IsPolled(s.bank, now, u) && (m.answers(u).inability || m.answers(u).missedData)
    && forall v :: D.IsPolled(s.bank, now, v) && (m.answers(v).inability || m.answers(v).missedData) ==>
         s.bank.queue[u] <= s.bank.queue[v]
  }

  /** The alarms that are active after an instruction: those fired for its fetch, on its way or by its body. */
  lemma AlarmsOfInstruction(s: State, now: Time, m: Moment, kind: AlarmKind)
    requires Valid(s.machine) && Tick(s, now, m).Done? && Tick(s, now, m).executed
    ensures kind in Tick(s, now, m).state.alarms.active <==>
      || kind in PollPhase(s, now, m).alarms.active
      || m.work.fetchAlarm == Some(kind) || m.work.bodyAlarm == Some(kind)
      || (kind in m.work.noted && kind in s.alarms.masked)
    ensures Tick(s, now, m).state.alarms.masked == s.alarms.masked
  {
    assert PollPhase(s, now, m).alarms.masked == s.alarms.masked;
  }

  /** Every tick of the run ends with the machine running. */
  ghost predicate StaysRunning(s: State, moments: seq<Moment>)
    requires Valid(s.machine) && IsRun(s, moments)
    decreases |moments|
  {
    moments == [] || (
      var ticked := Tick(s, NextTick(s), moments[0]);
      ticked.Done? && ticked.state.mode.Running? && StaysRunning(ticked.state, moments[1..]))
  }

  /** What the instructions of a run take together, none of them less than a nanosecond. */
  ghost function TimeTaken(s: State, moments: seq<Moment>): Time
    requires Valid(s.machine) && IsRun(s, moments)
    decreases |moments|
  {
    if moments == [] then 0
    else
      var ticked := Tick(s, NextTick(s), moments[0]);
      if !ticked.Done? then 0
      else
        (if !ticked.executed then 0 else AtLeastOne(moments[0].work.duration)) + TimeTaken(ticked.state, moments[1..])
  }

  /** How far a tick that goes on puts off the next instruction. */
  lemma TickPutsOff(s: State, before: Time, m: Moment)
    requires OnTime(s, before) && IsMoment(s, NextTick(s), m)
    requires s.mode.Running? && s.execDue.Some?
    requires var ticked := Tick(s, NextTick(s), m); ticked.Done? && ticked.state.mode.Running?
    ensures var ticked := Tick(s, NextTick(s), m);
      && OnTime(ticked.state, NextTick(s))
      && ticked.state.execDue == Some(s.execDue.value + (if !ticked.executed then 0 else AtLeastOne(m.work.duration)))
  {
    hide Tick;
    hide IsMoment;
    hide Faults;
    var now := NextTick(s);
    TickKeepsOnTime(s, before, m);
    if Tick(s, now, m).executed {
      InstructionTakesItsTime(s, now, m);
      assert s.execDue.value == now;
    } else {
      OtherTicksLeaveIt(s, now, m);
    }
  }

  function AtLeastOne(duration: Time): Time {
    if duration > 0 then duration else 1
  }

  /**
   * Main result: for as long as the machine runs, instructions follow one another at exactly
   * the distances of their durations, however often the hardware is polled in between.
   */
  lemma {:induction false} InstructionsAreSpaced(s: State, before: Time, moments: seq<Moment>)
    requires OnTime(s, before) && IsRun(s, moments) && StaysRunning(s, moments)
    requires s.mode.Running? && s.execDue.Some?
    ensures FinalState(s, moments).execDue == Some(s.execDue.value + TimeTaken(s, moments))
    decreases |moments|
  {
    hide Tick;
    hide IsMoment;
    if moments != [] {
      TickPutsOff(s, before, moments[0]);
      InstructionsAreSpaced(Tick(s, NextTick(s), moments[0]).state, NextTick(s), moments[1..]);
    }
  }

  // ----- time does not stand still -----

  ghost predicate NothingDue(b: D.Bank, now: Time) {
    forall u :: !D.IsDue(b, now, u)
  }

  /** No instruction can be executed any more at this instant. */
  predicate InstructionDone(s: State, now: Time) {
    s.execDue.Some? && s.execDue.value > now
  }

  /** No instruction will be executed unless a poll wakes the machine. */
  predicate Resting(s: State, now: Time) {
    s.mode.InLimbo? || s.execDue.None? || s.execDue.value > now
  }

  /** One tick at the time it asked for, not stopped by an alarm. */
  ghost predicate Ticks(s: State, now: Time, m: Moment, after: State) {
    && OnTime(s, now) && now == NextTick(s) && IsMoment(s, now, m)
    && Tick(s, now, m).Done? && Tick(s, now, m).state == after
  }

  lemma AfterATick(s: State, now: Time, m: Moment, after: State)
    requires Ticks(s, now, m, after)
    ensures OnTime(after, now) && Resting(after, now)
    ensures NextTick(after) == now ==>
      after.hwDue == now && (InstructionDone(after, now) || NothingDue(after.bank, now))
  {
    TickKeepsOnTime(s, now, m);
    NextPollIsLater(s, now, m);
  }

  lemma QuietTickAdvancesTime(s: State, now: Time, m: Moment, after: State)
    requires Ticks(s, now, m, after) && Resting(s, now) && s.hwDue == now && NothingDue(s.bank, now)
    ensures NextTick(after) > now
  {
    NextPollIsLater(s, now, m);
    assert m.reply.raised == {};
  }

  lemma TickWithoutInstruction(s: State, now: Time, m: Moment, after: State)
    requires Ticks(s, now, m, after) && InstructionDone(s, now) && NextTick(after) == now
    ensures NothingDue(after.bank, now)
  {
    NextPollIsLater(s, now, m);
  }

  /** How many more ticks may be called at the same instant. */
  ghost function TicksLeft(s: State): (n: nat)
    ensures 1 <= n <= 3
  {
    var now := NextTick(s);
    if now < s.hwDue then 3
    else if Resting(s, now) && NothingDue(s.bank, now) then 1
    else if InstructionDone(s, now) then 2
    else 3
  }

  /**
   * Main result: the simulation cannot stall.  A masked alarm or the light pen may call for
   * more ticks at the same instant, but each leaves fewer of them to come.
   */
  lemma TickMakesProgress(s: State, now: Time, m: Moment, after: State)
    requires Ticks(s, now, m, after)
    ensures NextTick(after) > now || (NextTick(after) == now && TicksLeft(after) < TicksLeft(s))
  {
    AfterATick(s, now, m, after);
    if NextTick(after) == now {
      if TicksLeft(s) == 1 {
        QuietTickAdvancesTime(s, now, m, after);
        assert false;
      } else if TicksLeft(s) == 2 {
        TickWithoutInstruction(s, now, m, after);
      }
    }
  }

  lemma FourthTickIsLater(s0: State, s1: State, s2: State, s3: State, now: Time, m0: Moment, m1: Moment, m2: Moment)
    requires Ticks(s0, now, m0, s1)
    requires Ticks(s1, NextTick(s1), m1, s2)
    requires Ticks(s2, NextTick(s2), m2, s3)
    ensures NextTick(s3) > now
  {
    TickMakesProgress(s0, now, m0, s1);
    TickMakesProgress(s1, NextTick(s1), m1, s2);
    TickMakesProgress(s2, NextTick(s2), m2, s3);
  }

  /** With an unmasked alarm active, an instruction that is due holds the clock where it is. */
  lemma UnmaskedAlarmStallsTime(s: State, now: Time, m: Moment)
    requires OnTime(s.(alarms := AlarmState(s.alarms.masked, {})), now) && now == NextTick(s) && IsMoment(s, now, m)
    requires Unmasked(s.alarms) && s.mode.Running? && s.execDue == Some(now) && Tick(s, now, m).Done?
    ensures var after := Tick(s, now, m).state;
      NextTick(after) == now && after.execDue == Some(now) && after.mode.Running? && Unmasked(after.alarms)
  {
    NextPollIsLater(s, now, m);
    var kind :| kind in s.alarms.active && kind !in s.alarms.masked;
    assert kind in PollPhase(s, now, m).alarms.active;
  }

  // ----- waking up from limbo -----

  /**
   * A poll wakes the machine exactly when a unit raised its flag and no unit had an alarm,
   * whether or not that alarm is masked.
   */
  lemma PollWakesIff(s: State, now: Time, m: Moment)
    requires Valid(s.machine) && s.mode.InLimbo? && s.hwDue <= now
    ensures PollPhase(s, now, m).mode.Running? <==> m.reply.raised != {} && m.reply.alarm.None?
    ensures PollPhase(s, now, m).machine.flags == s.machine.flags + m.reply.raised
  {
  }

  ghost predicate EveryRaiseHasAnAlarm(moments: seq<Moment>) {
    forall i :: 0 <= i < |moments| ==> moments[i].reply.raised == {} || moments[i].reply.alarm.Some?
  }

  /**
   * A flag whose raising came together with a masked alarm leaves the machine in limbo: it
   * is raised, but nothing runs until a poll raises a flag without an alarm.
   */
  lemma {:induction false} MaskedAlarmHidesTheFlag(s: State, moments: seq<Moment>)
    requires Valid(s.machine) && IsRun(s, moments) && s.mode.InLimbo? && EveryRaiseHasAnAlarm(moments)
    ensures FinalState(s, moments).mode.InLimbo?
    ensures s.machine.flags <= FinalState(s, moments).machine.flags
    decreases |moments|
  {
    if moments != [] {
      var ticked := Tick(s, NextTick(s), moments[0]);
      if ticked.Done? {
        MaskedAlarmHidesTheFlag(ticked.state, moments[1..]);
      }
    }
  }
}
