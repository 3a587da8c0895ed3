/**
 * The emulator as the driver sees it: a control unit, a device manager and an alarm unit,
 * and the two due times that a tick brings up to date.
 */
module TickLoop {
  import opened Words
  import opened Alarms
  import opened Sequencing
  import opened Control
  import opened Simulation
  import D = Devices

  /** How a tick ends: `executed` says whether an instruction was carried out. */
  datatype TickReport = Panicked | Alarmed | Fine(executed: bool)

  lemma {:induction false} RequestsSoFar(b: D.Bank, requests: seq<D.Event>, n: nat)
    requires n < |requests|
    ensures D.RunAll(b, requests[..n + 1]) == D.Step(D.RunAll(b, requests[..n]), requests[n])
    decreases n
  {
    if n == 0 {
      assert requests[..1] == [requests[0]];
      assert [requests[0]][1..] == [];
      assert requests[..0] == [];
    } else {
      RequestsSoFar(D.Step(b, requests[0]), requests[1..], n - 1);
      assert requests[..n + 1][1..] == requests[1..][..n];
      assert requests[..n][1..] == requests[1..][..n - 1];
    }
  }

  class Tx2 {
    const control: ControlUnit
    const devices: D.DeviceManager
    const alarmUnit: AlarmUnit
    var nextExecutionDue: Option<Time>
    var nextHwPollDue: Time
    var runMode: RunMode

    ghost function Now(): State
      reads this, control, control.indexRegs, devices, alarmUnit
    {
      State(control.Snapshot(), devices.State(), alarmUnit.State(), nextExecutionDue, nextHwPollDue, runMode)
    }

    ghost predicate Ready()
      reads this, control, control.indexRegs, devices, alarmUnit
    {
      control.Ready() && D.Sound(devices.State()) && Lawful(alarmUnit.State())
    }

    constructor (now: Time)
      ensures Ready() && OnTime(Now(), now) && NextTick(Now()) == now
      ensures fresh(control) && fresh(control.indexRegs) && fresh(devices) && fresh(alarmUnit)
    {
      control := new ControlUnit();
      devices := new D.DeviceManager();
      alarmUnit := new AlarmUnit();
      nextExecutionDue, nextHwPollDue, runMode := None, now, InLimbo;
    }

    method SetNextExecutionDue(now: Time, newval: Option<Time>)
      requires newval.Some? ==> now <= newval.value
      modifies this`nextExecutionDue
      ensures nextExecutionDue == newval
    {
      nextExecutionDue := newval;
    }

    method SetNextHwPollDue(now: Time, newval: Time)
      requires now <= newval
      modifies this`nextHwPollDue
      ensures nextHwPollDue == newval
    {
      nextHwPollDue := newval;
    }

    method NextTickDue() returns (t: Time)
      requires Ready()
      ensures t == NextTick(Now())
    {
      match (runMode, nextExecutionDue)
      case (Running, Some(insn)) => t := if insn < nextHwPollDue then insn else nextHwPollDue;
      case _ => t := nextHwPollDue;
    }

    method PollHw(now: Time, answers: D.Answers) returns (ok: bool, ghost reply: PollReply)
      requires Ready() && nextHwPollDue <= now && D.AskForLater(answers, now)
      modifies this`nextHwPollDue, this`runMode, control`flags, devices`pollQueue, alarmUnit`active
      ensures IsReply(old(devices.State()), now, answers, reply)
      ensures Ready()
      ensures forall work :: Now() == PollPhase(old(Now()), now, Moment(answers, reply, work))
      ensures forall work :: ok <==> !PollStops(old(Now()), now, Moment(answers, reply, work))
    {
      hide D.PollQueueAfter;
      hide D.IsAlarmOf;
      hide D.IsEarliest;
      hide D.RaisedBy;
      hide D.Sound;
      var raised, alarm, next := devices.PollUnits(now, answers);
      reply := PollReply(raised, alarm, next);
      control.PollHardware(raised);
      if alarm.Some? {
        var stops := alarmUnit.FireIfNotMasked(KindOf(alarm.value));
        return !stops, reply;
      }
      if raised != {} {
        runMode := Running;
      }
      SetNextHwPollDue(now, if next.Some? then next.value else now + DEFAULT_POLL_INTERVAL);
      ok := true;
    }

    /** What the opcode asks of the units, one request after the other. */
    method MakeRequests(requests: seq<D.Event>)
      requires Ready() && forall i :: 0 <= i < |requests| ==> IsRequest(requests[i])
      modifies devices
      ensures devices.State() == D.RunAll(old(devices.State()), requests) && D.Sound(devices.State())
    {
      D.RunKeepsSound(devices.State(), requests);
      for i := 0 to |requests|
        invariant devices.State() == D.RunAll(old(devices.State()), requests[..i])
      {
        RequestsSoFar(old(devices.State()), requests, i);
        match requests[i] {
          case Connect(u) => var reply := devices.ConnectUnit(u);
          case Disconnect(u) => var known := devices.DisconnectUnit(u);
          case Report(u, status) => var known := devices.ReportOn(u, status);
        }
      }
      assert requests[..|requests|] == requests;
    }

    method FireAll(kinds: set<AlarmKind>)
      requires Lawful(alarmUnit.State())
      modifies alarmUnit`active
      ensures alarmUnit.active == old(alarmUnit.active) + kinds
    {
      var left := kinds;
      while left != {}
        invariant left <= kinds && alarmUnit.active == old(alarmUnit.active) + (kinds - left)
        decreases |left|
      {
        var kind :| kind in left;
        var stops := alarmUnit.FireIfNotMasked(kind);
        left := left - {kind};
      }
    }

    method Act(work: Work) returns (r: Executed)
      requires Ready() && RequestsOnly(work)
      modifies control, control.indexRegs, devices, alarmUnit`active
      ensures Ready()
      ensures (Now(), r) == Acted(old(Now()), work)
    {
      var inst := AsExecuted(work, alarmUnit.masked);
      r := control.ExecuteInstruction(inst);
      if !r.Idle? {
        FireAll(FiredBy(work, alarmUnit.masked));
        if !inst.fetchFails {
          MakeRequests(work.requests);
        }
      }
    }

    method MarksOnPanel(inst: Instruction, work: Work, from: Word18) returns (refused: bool)
      ensures refused <==> MarksPanel(inst, work, from)
    {
      if work.marksWord && OnPanel(from) {
        return true;
      }
      refused := !inst.fetchFails && exists a <- work.markedOperands :: OnPanel(a);
    }

    /** Executes the instruction that is due, and decides when the next one is. */
    method ExecuteOneInstruction(now: Time, work: Work) returns (report: TickReport)
      requires Ready() && runMode.Running? && nextExecutionDue.Some? && nextExecutionDue.value <= now
      requires RequestsOnly(work)
      modifies this, control, control.indexRegs, devices, alarmUnit`active
      ensures Ready()
      ensures InstructionPhase(old(Now()), now, work)
        == match report
           case Panicked => Crashed
           case Alarmed => Halted(Now())
           case Fine(executed) => Done(Now(), executed)
    {
      var inst := AsExecuted(work, alarmUnit.masked);
      var r := Act(work);
      match r {
        case Idle =>
          runMode := InLimbo;
          SetNextExecutionDue(now, Some(now + 1));
          report := Fine(false);
        case Stopped(at) =>
          var refused := MarksOnPanel(inst, work, at);
          if refused {
            return Panicked;
          }
          SetNextExecutionDue(now, None);
          report := Alarmed;
        case Ran(sequence, from, mode) =>
          var refused := MarksOnPanel(inst, work, from);
          if refused {
            return Panicked;
          }
          runMode := mode;
          var panicked := Reschedule(now, inst, work, sequence);
          report := if panicked then Panicked else Fine(true);
      }
    }

    method Reschedule(now: Time, inst: Instruction, work: Work, sequence: SequenceNumber) returns (panicked: bool)
      requires Ready() && nextExecutionDue.Some? && nextExecutionDue.value <= now
      modifies this`nextExecutionDue, this`nextHwPollDue, devices`pollQueue
      ensures var asked := Asked(inst, work.pollSoon, sequence);
        && (panicked <==> asked.Some? && !D.CanBringForward(old(devices.State()), asked.value))
        && (!panicked ==> Now() == Rescheduled(old(Now()), now, inst, work, asked))
      ensures Ready()
    {
      var asked := Asked(inst, work.pollSoon, sequence);
      if asked.Some? {
        panicked := devices.UpdatePollTime(asked.value, now);
        if panicked {
          return;
        }
        SetNextHwPollDue(now, now + 1);
      }
      var due := nextExecutionDue.value + work.duration;
      if due <= now {
        due := now + 1;
      }
      SetNextExecutionDue(now, Some(due));
      if inst.outcome.Completed? && inst.outcome.output && work.penFlash {
        panicked := devices.UpdatePollTime(LIGHT_PEN, now);
        nextHwPollDue := now;
      }
      panicked := false;
    }

    /** One tick, early, late or at the time the emulator asked for. */
    method DoTick(now: Time, answers: D.Answers, work: Work) returns (report: TickReport, ghost reply: PollReply)
      requires Ready() && D.AskForLater(answers, now) && RequestsOnly(work)
      modifies this, control, control.indexRegs, devices, alarmUnit`active
      ensures Ready()
      ensures IsReply(old(devices.State()), now, answers, reply)
      ensures Tick(old(Now()), now, Moment(answers, reply, work))
        == match report
           case Panicked => Crashed
           case Alarmed => Halted(Now())
           case Fine(executed) => Done(Now(), executed)
    {
      if nextHwPollDue <= now {
        var ok;
        ok, reply := PollHw(now, answers);
        ghost var moment := Moment(answers, reply, work);
        assert Now() == PollPhase(old(Now()), now, moment);
        if !ok {
          return Alarmed, reply;
        }
      } else {
        reply := SomeReply(devices.State(), now, answers);
        assert 0 < nextHwPollDue - now;
      }
      if runMode.InLimbo? {
        // The time left to wait is a difference that must not be negative.
        return if nextHwPollDue < now then Panicked else Fine(false), reply;
      }
      var stop := alarmUnit.UnmaskedAlarmActive();
      if stop || nextExecutionDue.None? || nextExecutionDue.value > now {
        return Fine(false), reply;
      }
      report := ExecuteOneInstruction(now, work);
    }
  }

  /** What the outside world does at the n-th tick, should that come at a given time. */
  type Environment = (nat, Time) -> (D.Answers, Work)

  ghost predicate AsksForLater(world: Environment) {
    forall n, t :: D.AskForLater(world(n, t).0, t) && RequestsOnly(world(n, t).1)
  }

  /** Each moment of a run is what the world had in store for it. */
  ghost predicate FromWorld(world: Environment, times: seq<Time>, moments: seq<Moment>) {
    && |times| == |moments|
    && forall i :: 0 <= i < |moments| ==> world(i, times[i]) == (moments[i].answers, moments[i].work)
  }

  lemma Polite(world: Environment, n: nat, t: Time)
    requires AsksForLater(world)
    ensures D.AskForLater(world(n, t).0, t) && RequestsOnly(world(n, t).1)
  {
  }

  lemma OneMoreFromWorld(world: Environment, times: seq<Time>, moments: seq<Moment>, t: Time, m: Moment)
    requires FromWorld(world, times, moments) && world(|moments|, t) == (m.answers, m.work)
    ensures FromWorld(world, times + [t], moments + [m])
  {
  }

  lemma NothingUnmasked(s: State, now: Time)
    requires OnTime(s, now)
    ensures !Unmasked(s.alarms)
  {
  }

  /** What the driver relies on from one tick to the next. */
  lemma DriverStep(s: State, before: Time, m: Moment, after: State)
    requires OnTime(s, before) && RequestsOnly(m.work) && D.AskForLater(m.answers, NextTick(s))
    requires IsReply(s.bank, NextTick(s), m.answers, m.reply)
    ensures var now, ticked := NextTick(s), Tick(s, NextTick(s), m);
      && IsMoment(s, now, m) && before <= now
      && (ticked.Crashed? <==> Faults(s, now, m))
      && (ticked == Halted(after) ==> Unmasked(after.alarms))
      && (ticked.Done? && ticked.state == after ==>
            && Valid(after.machine) && OnTime(after, now)
            && (NextTick(after) > now || (NextTick(after) == now && TicksLeft(after) < TicksLeft(s))))
  {
    var now := NextTick(s);
    TickKeepsOnTime(s, before, m);
    if Tick(s, now, m).Done? && Tick(s, now, m).state == after {
      TickMakesProgress(s, now, m, after);
    }
  }

  /** Why the driver stops. */
  datatype StopReason = SimulationLimit | Alarm | Panic

  /**
   * Main result: the driver, given a limit of simulated time, terminates.  It reaches the
   * limit with nothing left to do before it, stops because of an unmasked alarm, or panics,
   * which it does exactly if the run it drives comes to a faulty instruction.
   */
  method RunUntilStop(tx2: Tx2, start: Time, limit: Time, world: Environment)
    returns (clock: Time, reason: StopReason, ghost moments: seq<Moment>)
    requires tx2.Ready() && OnTime(tx2.Now(), start) && AsksForLater(world)
    modifies tx2, tx2.control, tx2.control.indexRegs, tx2.devices, tx2.alarmUnit`active
    ensures IsRun(old(tx2.Now()), moments)
    ensures FromWorld(world, TickTimes(old(tx2.Now()), moments), moments)
    ensures reason.Panic? <==> !NeverFaults(old(tx2.Now()), moments)
    ensures reason.SimulationLimit? ==>
      && clock == limit && NextTick(tx2.Now()) > limit && !Unmasked(tx2.Now().alarms)
      && FinalState(old(tx2.Now()), moments) == tx2.Now()
    ensures reason.Alarm? ==> clock <= limit && Unmasked(tx2.Now().alarms)
    ensures start <= limit ==> start <= clock
  {
    clock := start;
    moments := [];
    ghost var first := tx2.Now();
    var ticks := 0;
    while true
      invariant tx2.Ready() && start <= clock && OnTime(tx2.Now(), clock)
      invariant IsRun(first, moments) && GoesOn(first, moments) && FinalState(first, moments) == tx2.Now()
      invariant NeverFaults(first, moments)
      invariant ticks == |moments| && FromWorld(world, TickTimes(first, moments), moments)
      decreases limit - NextTick(tx2.Now()), TicksLeft(tx2.Now())
    {
      hide *;
      var next := tx2.NextTickDue();
      if next > limit {
        NothingUnmasked(tx2.Now(), clock);
        return limit, SimulationLimit, moments;
      }
      ghost var before, previous := tx2.Now(), clock;
      clock := next;
      var (answers, work) := world(ticks, clock);
      Polite(world, ticks, clock);
      var report, reply := tx2.DoTick(clock, answers, work);
      ghost var moment := Moment(answers, reply, work);
      DriverStep(before, previous, moment, tx2.Now());
      OneMoreTick(first, moments, moment);
      OneMoreFromWorld(world, TickTimes(first, moments), moments, clock, moment);
      moments := moments + [moment];
      match report {
        case Panicked =>
          return clock, Panic, moments;
        case Alarmed =>
          return clock, Alarm, moments;
        case Fine(_) =>
          ticks := ticks + 1;
      }
    }
  }

  /** What a poll would find, were it due. */
  lemma SomeReply(b: D.Bank, now: Time, answers: D.Answers) returns (reply: PollReply)
    ensures IsReply(b, now, answers, reply)
  {
    var complaining := set u <- b.queue | D.IsPolled(b, now, u) && D.Complains(answers(u));
    var alarm: Option<D.DeviceAlarm> := None;
    if complaining != {} {
      var first := D.LeastEntry(b.queue, complaining);
      alarm := Some(if answers(first).inability then D.Inability(first) else D.MissedData(first));
    }
    var queue := D.PollQueueAfter(b, now, answers);
    var next: Option<Time> := None;
    if queue != map[] {
      var first := D.LeastEntry(queue, queue.Keys);
      next := Some(queue[first]);
    }
    reply := PollReply(D.RaisedBy(b, now, answers), alarm, next);
  }
}
