/**
 * The device manager: which units are attached, which of them are connected, and when each
 * asks to be polled again.  The queue of polls is a map from a unit to the time it is due.
 */
module Devices {
  import opened Words

  type Unit = SequenceNumber

  /** The units that hardware can be attached to; those below them are index registers. */
  type HardwareUnit = u: Unit | IsHardware(u) witness 0x21

  predicate IsHardware(u: Unit) {
    0x21 <= u <= 0x3D
  }

  predicate IsSoftwareOnly(u: Unit) {
    u > 0x3D
  }

  /** Simulated time, in nanoseconds. */
  type Time = nat

  const TRAP_UNIT: Unit := 0x22

  datatype Attached = Attached(connected: bool, inMaintenance: bool, isInput: bool)

  datatype Status = Status(pollAfter: Time, raises: bool, inability: bool, missedData: bool, isInput: bool)

  datatype DeviceAlarm = Inability(unit: Unit) | MissedData(unit: Unit)

  datatype ConnectReply = NoSuchUnit | UnderMaintenance | Connected(raisesFlag: bool)

  /** What the units answer if they are polled now. */
  type Answers = Unit -> Status

  datatype Bank = Bank(devices: map<Unit, Attached>, queue: map<Unit, Time>)

  predicate IsDue(b: Bank, now: Time, u: Unit) {
    u in b.queue && b.queue[u] <= now
  }

  /** A unit that a poll asks for its status. */
  predicate IsPolled(b: Bank, now: Time, u: Unit) {
    IsDue(b, now, u) && u in b.devices && b.devices[u].connected
  }

  predicate Complains(s: Status) {
    s.inability || s.missedData
  }

  predicate AskForLater(answers: Answers, now: Time) {
    forall u :: answers(u).pollAfter > now
  }

  /** The queue while a poll is under way and the due units in `waiting` are still to come. */
  function QueueDuring(b: Bank, now: Time, answers: Answers, waiting: set<Unit>): map<Unit, Time> {
    map u <- b.queue | !IsDue(b, now, u) || u in waiting || IsPolled(b, now, u) ::
      if IsDue(b, now, u) && u !in waiting then answers(u).pollAfter else b.queue[u]
  }

  /**
   * What a poll does to the queue: polled units are asked when they want to be polled next,
   * and units that are due but not connected are forgotten.
   */
  function PollQueueAfter(b: Bank, now: Time, answers: Answers): map<Unit, Time> {
    QueueDuring(b, now, answers, {})
  }

  function RaisedDuring(b: Bank, now: Time, answers: Answers, waiting: set<Unit>): set<SequenceNumber> {
    set u <- b.queue | IsPolled(b, now, u) && u !in waiting && answers(u).raises
  }

  function RaisedBy(b: Bank, now: Time, answers: Answers): set<SequenceNumber> {
    RaisedDuring(b, now, answers, {})
  }

  ghost predicate AlarmDuring(b: Bank, now: Time, answers: Answers, waiting: set<Unit>, alarm: Option<DeviceAlarm>) {
    match alarm
    case None => forall u :: IsPolled(b, now, u) && u !in waiting ==> !Complains(answers(u))
    case Some(a) =>
      && IsPolled(b, now, a.unit) && a.unit !in waiting
      && (a.Inability? <==> answers(a.unit).inability)
      && Complains(answers(a.unit))
      && forall u :: IsPolled(b, now, u) && Complains(answers(u)) ==> b.queue[a.unit] <= b.queue[u]
  }

  /** The alarm is that of a complaining unit that was due no later than any other. */
  ghost predicate IsAlarmOf(b: Bank, now: Time, answers: Answers, alarm: Option<DeviceAlarm>) {
    AlarmDuring(b, now, answers, {}, alarm)
  }

  ghost predicate IsEarliest(queue: map<Unit, Time>, next: Option<Time>) {
    match next
    case None => queue == map[]
    case Some(t) => (exists u :: u in queue && queue[u] == t) && forall u :: u in queue ==> t <= queue[u]
  }

  // ----- whole runs -----

  datatype Event =
    | Attach(hardware: HardwareUnit, inMaintenance: bool, first: Status)
    | Connect(unit: Unit)
    | Disconnect(unit: Unit)
    | DisconnectAll
    | Report(unit: Unit, status: Status)
    | TransferDone(unit: Unit, now: Time)
    | Poll(now: Time, answers: Answers)

  function SetConnected(devices: map<Unit, Attached>, u: Unit, connected: bool): map<Unit, Attached> {
    if u in devices then devices[u := devices[u].(connected := connected)] else devices
  }

  function Step(b: Bank, ev: Event): Bank {
    match ev
    case Attach(u, m, first) => Bank(b.devices[u := Attached(false, m, first.isInput)], b.queue[u := first.pollAfter])
    case Connect(u) =>
      if u in b.devices && !b.devices[u].inMaintenance then b.(devices := SetConnected(b.devices, u, true)) else b
    case Disconnect(u) => if u == TRAP_UNIT then b else b.(devices := SetConnected(b.devices, u, false))
    case DisconnectAll => b.(devices := map u <- b.devices :: b.devices[u].(connected := false))
    case Report(u, s) => if u in b.devices then b.(queue := b.queue[u := s.pollAfter]) else b
    case TransferDone(u, now) => if u in b.queue then b.(queue := b.queue[u := now]) else b
    case Poll(now, answers) => b.(queue := PollQueueAfter(b, now, answers))
  }

  function RunAll(b: Bank, events: seq<Event>): Bank
    decreases |events|
  {
    if events == [] then b else RunAll(Step(b, events[0]), events[1..])
  }

  /**
   * Whether a poll of `u` can be asked for: it is queued, or may be without hardware.  For
   * other units that are not queued the source has no answer and panics.
   */
  predicate CanBringForward(b: Bank, u: Unit) {
    u in b.queue || IsHardware(u) || IsSoftwareOnly(u)
  }

  /** No unit is both connected and in maintenance, and only attached units are queued. */
  ghost predicate Sound(b: Bank) {
    && (forall u <- b.devices :: IsHardware(u))
    && (forall u <- b.devices :: b.devices[u].connected ==> !b.devices[u].inMaintenance)
    && (forall u <- b.queue :: u in b.devices)
  }

  /** Main result: the invariant holds in every reachable state. */
  lemma {:induction false} RunKeepsSound(b: Bank, events: seq<Event>)
    requires Sound(b)
    ensures Sound(RunAll(b, events))
    decreases |events|
  {
    if events != [] {
      assert Sound(Step(b, events[0]));
      RunKeepsSound(Step(b, events[0]), events[1..]);
    }
  }

  /**
   * Main result: a request for a poll is answered, in every reachable state, exactly when it
   * names a unit above 40 (octal); what is attached, connected or queued makes no difference.
   */
  lemma CanBringForwardIff(b: Bank, events: seq<Event>, u: Unit)
    requires Sound(b)
    ensures CanBringForward(RunAll(b, events), u) <==> u > 0x20
  {
    RunKeepsSound(b, events);
  }

  /** The unit is in the queue when its name is put there, and only then. */
  predicate Requeues(b: Bank, ev: Event, u: Unit) {
    (ev.Attach? && ev.hardware == u) || (ev.Report? && ev.unit == u && u in b.devices)
  }

  predicate Forgets(b: Bank, ev: Event, u: Unit) {
    ev.Poll? && IsDue(b, ev.now, u) && !IsPolled(b, ev.now, u)
  }

  /** Who is in the queue after a step: exactly who was put there or not forgotten. */
  lemma QueuedAfterStepIff(b: Bank, ev: Event, u: Unit)
    ensures u in Step(b, ev).queue <==> Requeues(b, ev, u) || (u in b.queue && !Forgets(b, ev, u))
  {
  }

  /** Who is attached after a step, and who of them is connected. */
  lemma ConnectedAfterStepIff(b: Bank, ev: Event, u: Unit)
    ensures u in Step(b, ev).devices <==> u in b.devices || (ev.Attach? && ev.hardware == u)
    ensures u in Step(b, ev).devices && Step(b, ev).devices[u].connected <==>
      || (ev.Connect? && ev.unit == u && u in b.devices && !b.devices[u].inMaintenance)
      || (u in b.devices && b.devices[u].connected && !ev.DisconnectAll? && !(ev.Attach? && ev.hardware == u)
          && !(ev.Disconnect? && ev.unit == u && u != 0x22))
  {
  }

  /** When a unit is to be polled next: as it was told or as it asked, and otherwise as before. */
  lemma QueueTimeAfterStep(b: Bank, ev: Event, u: Unit)
    requires u in Step(b, ev).queue
    ensures Step(b, ev).queue[u] ==
      if ev.Attach? && ev.hardware == u then ev.first.pollAfter
      else if ev.Report? && ev.unit == u && u in b.devices then ev.status.pollAfter
      else if ev.TransferDone? && ev.unit == u && u in b.queue then ev.now
      else if ev.Poll? && u in b.queue && b.queue[u] <= ev.now then ev.answers(u).pollAfter
      else if u in b.queue then b.queue[u]
      else 0
    ensures u in b.queue || (ev.Attach? && ev.hardware == u) || (ev.Report? && ev.unit == u && u in b.devices)
  {
  }

  predicate NeverRequeued(b: Bank, events: seq<Event>, u: Unit)
    decreases |events|
  {
    events == [] || (!Requeues(b, events[0], u) && NeverRequeued(Step(b, events[0]), events[1..], u))
  }

  predicate NeverPolled(b: Bank, events: seq<Event>, u: Unit)
    decreases |events|
  {
    events == [] || (
      && (events[0].Poll? ==> !IsPolled(b, events[0].now, u) && u !in RaisedBy(b, events[0].now, events[0].answers))
      && NeverPolled(Step(b, events[0]), events[1..], u))
  }

  /**
   * Main result: once a poll has found a unit due while it was disconnected, connecting it
   * does not bring it back.  It is not polled again, and raises no flag through a poll,
   * until its status is asked for or it is attached anew.
   */
  lemma ForgottenUnitIsNeverPolled(b: Bank, forgets: Event, events: seq<Event>, u: Unit)
    requires Forgets(b, forgets, u)
    requires NeverRequeued(Step(b, forgets), events, u)
    ensures NeverPolled(Step(b, forgets), events, u)
    ensures u !in RunAll(Step(b, forgets), events).queue
  {
    UnqueuedStaysUnpolled(Step(b, forgets), events, u);
  }

  lemma {:induction false} UnqueuedStaysUnpolled(b: Bank, events: seq<Event>, u: Unit)
    requires u !in b.queue && NeverRequeued(b, events, u)
    ensures NeverPolled(b, events, u) && u !in RunAll(b, events).queue
    decreases |events|
  {
    if events != [] {
      QueuedAfterStepIff(b, events[0], u);
      UnqueuedStaysUnpolled(Step(b, events[0]), events[1..], u);
    }
  }

  ghost predicate StaysConnected(events: seq<Event>, u: Unit) {
    forall ev <- events :: !(ev.Attach? && ev.hardware == u) && !(ev.Disconnect? && ev.unit == u) && !ev.DisconnectAll?
  }

  /** Main result: a connected unit that is queued stays so for as long as it is connected. */
  lemma {:induction false} ConnectedUnitStaysQueued(b: Bank, events: seq<Event>, u: Unit)
    requires u in b.queue && u in b.devices && b.devices[u].connected && StaysConnected(events, u)
    ensures var end := RunAll(b, events);
      u in end.queue && u in end.devices && end.devices[u].connected
    decreases |events|
  {
    if events != [] {
      QueuedAfterStepIff(b, events[0], u);
      assert events[0] in events;
      ConnectedUnitStaysQueued(Step(b, events[0]), events[1..], u);
    }
  }

  /** Taking the first of the waiting units off the queue and, if it is connected, asking it. */
  lemma OneUnitPolled(b: Bank, now: Time, answers: Answers, waiting: set<Unit>, u: Unit)
    requires u in waiting && IsDue(b, now, u)
    ensures var popped := QueueDuring(b, now, answers, waiting) - {u};
      QueueDuring(b, now, answers, waiting - {u}) ==
      if IsPolled(b, now, u) then popped[u := answers(u).pollAfter] else popped
    ensures var raised := RaisedDuring(b, now, answers, waiting);
      RaisedDuring(b, now, answers, waiting - {u}) ==
      if IsPolled(b, now, u) && answers(u).raises then raised + {u} else raised
  {
  }

  lemma FirstToBePolled(b: Bank, now: Time, answers: Answers, waiting: set<Unit>, u: Unit)
    requires u in waiting && IsDue(b, now, u) && forall v <- waiting :: IsDue(b, now, v)
    requires var q := QueueDuring(b, now, answers, waiting); u in q && forall v :: v in q ==> q[u] <= q[v]
    ensures forall v :: v in waiting ==> IsDue(b, now, v) && b.queue[u] <= b.queue[v]
  {
    var q := QueueDuring(b, now, answers, waiting);
    assert forall v :: v in waiting ==> v in q && q[v] == b.queue[v];
  }

  lemma NoneLeftWaiting(b: Bank, now: Time, answers: Answers, waiting: set<Unit>)
    requires forall v <- waiting :: IsDue(b, now, v)
    requires var q := QueueDuring(b, now, answers, waiting); forall v :: v in q ==> q[v] > now
    ensures waiting == {}
  {
    var q := QueueDuring(b, now, answers, waiting);
    assert forall v :: v in waiting ==> v in q && q[v] == b.queue[v];
  }

  function AlarmAfter(b: Bank, now: Time, answers: Answers, alarm: Option<DeviceAlarm>, u: Unit): Option<DeviceAlarm> {
    if alarm.Some? || !IsPolled(b, now, u) then alarm
    else if answers(u).inability then Some(Inability(u))
    else if answers(u).missedData then Some(MissedData(u))
    else None
  }

  lemma FirstComplaintCounts(b: Bank, now: Time, answers: Answers, waiting: set<Unit>, alarm: Option<DeviceAlarm>,
      u: Unit)
    requires u in waiting && IsDue(b, now, u)
    requires forall v :: v in waiting ==> IsDue(b, now, v) && b.queue[u] <= b.queue[v]
    requires AlarmDuring(b, now, answers, waiting, alarm)
    ensures AlarmDuring(b, now, answers, waiting - {u}, AlarmAfter(b, now, answers, alarm, u))
  {
  }

  lemma {:induction false} LeastEntry(queue: map<Unit, Time>, keys: set<Unit>) returns (least: Unit)
    requires keys != {} && keys <= queue.Keys
    ensures least in keys && forall u :: u in keys ==> queue[least] <= queue[u]
    decreases |keys|
  {
    least :| least in keys;
    if keys != {least} {
      var other := LeastEntry(queue, keys - {least});
      if queue[other] < queue[least] {
        least := other;
      }
    }
  }

  class DeviceManager {
    var devices: map<Unit, Attached>
    var pollQueue: map<Unit, Time>

    ghost function State(): Bank
      reads this
    {
      Bank(devices, pollQueue)
    }

    constructor ()
      ensures State() == Bank(map[], map[]) && Sound(State())
    {
      devices, pollQueue := map[], map[];
    }

    method AttachUnit(u: HardwareUnit, inMaintenance: bool, first: Status)
      modifies this
      ensures State() == Step(old(State()), Attach(u, inMaintenance, first))
    {
      devices := devices[u := Attached(false, inMaintenance, first.isInput)];
      pollQueue := pollQueue[u := first.pollAfter];
    }

    /** An output unit that was not connected raises its flag. */
    method ConnectUnit(u: Unit) returns (reply: ConnectReply)
      modifies this
      ensures State() == Step(old(State()), Connect(u))
      ensures reply.NoSuchUnit? <==> u !in old(devices)
      ensures reply.UnderMaintenance? <==> u in old(devices) && old(devices)[u].inMaintenance
      ensures reply.Connected? ==> (reply.raisesFlag <==> !old(devices)[u].isInput && !old(devices)[u].connected)
    {
      if u !in devices {
        return NoSuchUnit;
      }
      var attached := devices[u];
      if attached.inMaintenance {
        return UnderMaintenance;
      }
      reply := Connected(!attached.isInput && !attached.connected);
      devices := devices[u := attached.(connected := true)];
    }

    method DisconnectUnit(u: Unit) returns (known: bool)
      modifies this
      ensures State() == Step(old(State()), Disconnect(u))
      ensures known <==> u == TRAP_UNIT || u in old(devices)
    {
      if u == TRAP_UNIT {
        return true;
      }
      known := u in devices;
      if known && devices[u].connected {
        devices := devices[u := devices[u].(connected := false)];
      }
    }

    method DisconnectEverything()
      modifies this
      ensures State() == Step(old(State()), DisconnectAll)
    {
      var todo := devices.Keys;
      while todo != {}
        invariant todo <= devices.Keys == old(devices).Keys
        invariant pollQueue == old(pollQueue)
        invariant forall u <- devices ::
          devices[u] == if u in todo then old(devices)[u] else old(devices)[u].(connected := false)
        decreases |todo|
      {
        var u :| u in todo;
        if devices[u].connected {
          devices := devices[u := devices[u].(connected := false)];
        }
        todo := todo - {u};
      }
    }

    /** The answer to a request for a unit's status also renews its place in the queue. */
    method ReportOn(u: Unit, status: Status) returns (known: bool)
      modifies this
      ensures State() == Step(old(State()), Report(u, status))
      ensures known <==> u in old(devices)
    {
      known := u in devices;
      if known {
        pollQueue := pollQueue[u := status.pollAfter];
      }
    }

    /**
     * After a transfer the unit is to be polled at once, if it is queued.  If it is not, that
     * is no harm for hardware and software units; for others the source panics.
     */
    method UpdatePollTime(u: Unit, now: Time) returns (panicked: bool)
      modifies this`pollQueue
      ensures State() == Step(old(State()), TransferDone(u, now))
      ensures panicked <==> !CanBringForward(old(State()), u)
    {
      if u in pollQueue {
        pollQueue := pollQueue[u := now];
        return false;
      }
      panicked := u <= 0x20;
    }

    method Peek() returns (least: Option<Unit>)
      ensures least.None? <==> pollQueue == map[]
      ensures least.Some? ==>
        least.value in pollQueue && forall u :: u in pollQueue ==> pollQueue[least.value] <= pollQueue[u]
    {
      if pollQueue == map[] {
        return None;
      }
      ghost var witnessed := LeastEntry(pollQueue, pollQueue.Keys);
      var u :| u in pollQueue && forall v :: v in pollQueue ==> pollQueue[u] <= pollQueue[v];
      least := Some(u);
    }

    /**
     * Main result: polling terminates and leaves nothing due.  It reports exactly the flags
     * raised by the connected units that were due, and the time of the next poll.
     */
    method PollUnits(now: Time, answers: Answers)
      returns (raised: set<SequenceNumber>, alarm: Option<DeviceAlarm>, next: Option<Time>)
      requires Sound(State()) && AskForLater(answers, now)
      modifies this`pollQueue
      ensures State() == Step(old(State()), Poll(now, answers)) && Sound(State())
      ensures forall u <- pollQueue :: pollQueue[u] > now
      ensures raised == RaisedBy(old(State()), now, answers)
      ensures forall u: Unit :: u in raised <==>
        && u in old(pollQueue) && old(pollQueue)[u] <= now
        && u in devices && devices[u].connected && answers(u).raises
      ensures forall u: Unit :: u in pollQueue <==>
        u in old(pollQueue) && (old(pollQueue)[u] <= now ==> u in devices && devices[u].connected)
      ensures forall u <- pollQueue ::
        pollQueue[u] == if old(pollQueue)[u] <= now then answers(u).pollAfter else old(pollQueue)[u]
      ensures IsAlarmOf(old(State()), now, answers, alarm)
      ensures IsEarliest(pollQueue, next) && (next.Some? ==> next.value > now)
    {
      raised, alarm, next := {}, None, None;
      ghost var before := State();
      ghost var waiting := set u <- pollQueue | pollQueue[u] <= now;
      assert pollQueue == QueueDuring(before, now, answers, waiting);
      while true
        invariant forall u <- waiting :: IsDue(before, now, u)
        invariant pollQueue == QueueDuring(before, now, answers, waiting)
        invariant raised == RaisedDuring(before, now, answers, waiting)
        invariant AlarmDuring(before, now, answers, waiting, alarm)
        decreases |waiting|
      {
        var least := Peek();
        if least.None? {
          break;
        }
        var u := least.value;
        var pollTime := pollQueue[u];
        if pollTime > now {
          next := Some(pollTime);
          break;
        }
        assert pollTime <= now && u in waiting;
        FirstToBePolled(before, now, answers, waiting, u);
        OneUnitPolled(before, now, answers, waiting, u);
        FirstComplaintCounts(before, now, answers, waiting, alarm, u);
        waiting := waiting - {u};
        pollQueue := pollQueue - {u};
        if u in devices && devices[u].connected {
          assert !devices[u].inMaintenance;
          var status := answers(u);
          pollQueue := pollQueue[u := status.pollAfter];
          if status.raises {
            raised := raised + {u};
          }
          if alarm.None? {
            if status.inability {
              alarm := Some(Inability(u));
            } else if status.missedData {
              alarm := Some(MissedData(u));
            }
          }
        }
      }
      NoneLeftWaiting(before, now, answers, waiting);
    }
  }
}
