/**
 * The light pen's record, shared by the page and the machine's worker.  The page publishes
 * positions, the worker applies them to the machine and publishes which one it applied.
 */
module PenTransport {
  import opened Words
  import opened RecordChannel

  // ----- numbers in cells -----

  const PEN_SCALE: int := 1_000_000

  /** Rounds to the nearest integer; halves go up. */
  function Round(x: real): int {
    (x + 0.5).Floor
  }

  function Clamp(x: real): real {
    if x < 0.0 then 0.0 else if x > 1.0 then 1.0 else x
  }

  function EncodePenValue(value: real): int {
    Round(Clamp(value) * PEN_SCALE as real)
  }

  function DecodePenValue(cell: int): real {
    cell as real / PEN_SCALE as real
  }

  /** Decoding loses nothing of a cell; encoding loses at most half a millionth. */
  lemma EncodingRoundTrips(cell: int, value: real)
    requires 0 <= cell <= PEN_SCALE
    ensures EncodePenValue(DecodePenValue(cell)) == cell
    ensures 0 <= EncodePenValue(value) <= PEN_SCALE
    ensures WithinHalfAMillionth(DecodePenValue(EncodePenValue(value)), Clamp(value))
  {
    assert DecodePenValue(cell) * PEN_SCALE as real == cell as real;
    var scaled := Clamp(value) * PEN_SCALE as real;
    var encoded := EncodePenValue(value);
    assert scaled - 0.5 <= encoded as real <= scaled + 0.5;
    assert DecodePenValue(encoded) * PEN_SCALE as real == encoded as real;
  }

  /** A time in milliseconds is kept as whole seconds and microseconds. */
  function Seconds(milliseconds: real): int {
    (milliseconds / 1000.0).Floor
  }

  function Micros(milliseconds: real): int {
    Round((milliseconds - (Seconds(milliseconds) * 1000) as real) * 1000.0)
  }

  /** The two cells together hold the time to the nearest microsecond, carry included. */
  lemma SplitTimeIsExact(t: real)
    ensures 0 <= Micros(t) <= 1_000_000
    ensures Seconds(t) * 1_000_000 + Micros(t) == Round(t * 1000.0)
  {
    var rest := (t - (Seconds(t) * 1000) as real) * 1000.0;
    assert (Seconds(t) as real) * 1000.0 <= t < (Seconds(t) as real + 1.0) * 1000.0;
    assert t * 1000.0 == rest + (Seconds(t) * 1_000_000) as real;
    RoundShifts(rest, Seconds(t) * 1_000_000);
  }

  lemma RoundShifts(x: real, n: int)
    ensures Round(x + n as real) == Round(x) + n
  {
    assert (x + n as real + 0.5).Floor == (x + 0.5).Floor + n;
  }

  function LatencyMicros(sent: real, applied: real): int {
    var elapsed := (Seconds(applied) - Seconds(sent)) * 1_000_000 + Micros(applied) - Micros(sent);
    if elapsed < 0 then 0 else elapsed
  }

  /** The latency is off by less than a microsecond. */
  lemma LatencyIsElapsedTime(sent: real, applied: real)
    requires sent <= applied
    ensures -1.0 < LatencyMicros(sent, applied) as real - (applied - sent) * 1000.0 < 1.0
  {
    SplitTimeIsExact(sent);
    SplitTimeIsExact(applied);
  }

  // ----- the record -----

  datatype Pen = Pen(x: real, y: real, radius: real, active: bool)

  const PEN_FIELDS: nat := 6
  const ACTIVE := 3

  function PenFields(pen: Pen, milliseconds: real): seq<int> {
    [EncodePenValue(pen.x), EncodePenValue(pen.y), EncodePenValue(pen.radius), if pen.active then 1 else 0,
     Seconds(milliseconds), Micros(milliseconds)]
  }

  function ToPen(fields: seq<int>): Pen
    requires |fields| == PEN_FIELDS
  {
    Pen(DecodePenValue(fields[0]), DecodePenValue(fields[1]), DecodePenValue(fields[2]), fields[ACTIVE] != 0)
  }

  predicate WithinHalfAMillionth(x: real, y: real) {
    -0.0000005 <= x - y <= 0.0000005
  }

  /** What is read back is the pen that was published, up to the rounding of its position. */
  lemma PublishedPenIsRecovered(pen: Pen, milliseconds: real)
    ensures var got := ToPen(PenFields(pen, milliseconds));
      && got.active == pen.active
      && WithinHalfAMillionth(got.x, Clamp(pen.x))
      && WithinHalfAMillionth(got.y, Clamp(pen.y))
      && WithinHalfAMillionth(got.radius, Clamp(pen.radius))
  {
    EncodingRoundTrips(0, pen.x);
    EncodingRoundTrips(0, pen.y);
    EncodingRoundTrips(0, pen.radius);
  }

  /** The shared array holds the channel of the pen: cell 0 is its stamp, the next six are its fields. */
  ghost predicate Holds(cells: seq<int>, c: Channel) {
    && |cells| == 9 && |c.cells| == PEN_FIELDS + 1
    && cells[0] == c.cells[PEN_FIELDS]
    && cells[1..7] == c.cells[..PEN_FIELDS]
  }

  /** The channel after `n` more cells of the record being written were stored. */
  ghost function Stored(c: Channel, n: nat): (r: Channel)
    requires Good(c, PEN_FIELDS) && c.step + n <= PEN_FIELDS + 1
    ensures Good(r, PEN_FIELDS) && r.step == c.step + n && r.history == c.history
  {
    if n == 0 then c
    else
      var before := Stored(c, n - 1);
      StoreKeeps(before, PEN_FIELDS, Open(before, PEN_FIELDS));
      Store(before, PEN_FIELDS)
  }

  /** What the shared array held after each of the stores, and what it held at first. */
  type Trace = seq<seq<int>>

  /** Each array of the trace has one more cell of the record than the one before it. */
  ghost predicate Follows(trace: Trace, r: Record) {
    && |trace| == PEN_FIELDS + 2 && |r.fields| == PEN_FIELDS
    && forall n :: 0 <= n <= PEN_FIELDS ==>
      |trace[n]| == 9 && trace[n + 1] ==
        if n < PEN_FIELDS then trace[n][n + 1 := r.fields[n]] else trace[n][0 := r.stamp]
  }

  lemma TraceFollows(begun: Channel, trace: Trace)
    requires Good(begun, PEN_FIELDS) && begun.step == 0
    requires Follows(trace, begun.history[|begun.history| - 1]) && Holds(trace[0], begun)
    ensures forall n :: 0 <= n < |trace| ==> Holds(trace[n], Stored(begun, n))
  {
    forall n | 0 <= n < |trace| ensures Holds(trace[n], Stored(begun, n)) {
      TraceFollowsTo(begun, trace, n);
    }
  }

  lemma {:induction false} TraceFollowsTo(begun: Channel, trace: Trace, n: nat)
    requires Good(begun, PEN_FIELDS) && begun.step == 0 && n < |trace|
    requires Follows(trace, begun.history[|begun.history| - 1]) && Holds(trace[0], begun)
    ensures Holds(trace[n], Stored(begun, n))
    decreases n
  {
    hide Holds;
    hide Good;
    hide Store;
    if n > 0 {
      TraceFollowsTo(begun, trace, n - 1);
      StoreHolds(trace[n - 1], Stored(begun, n - 1));
    }
  }

  lemma StoreHolds(cells: seq<int>, c: Channel)
    requires Good(c, PEN_FIELDS) && c.step <= PEN_FIELDS && Holds(cells, c)
    ensures var r := c.history[|c.history| - 1];
      Holds(if c.step < PEN_FIELDS then cells[c.step + 1 := r.fields[c.step]] else cells[0 := r.stamp],
            Store(c, PEN_FIELDS))
  {
  }

  lemma BegunRecord(c: Channel, r: Record, cells: seq<int>) returns (begun: Channel)
    requires Good(c, PEN_FIELDS) && Complete(c, PEN_FIELDS) && Holds(cells, c) && |r.fields| == PEN_FIELDS
    ensures begun == Begin(c, r) && Good(begun, PEN_FIELDS) && Holds(cells, begun)
    ensures begun.step == 0 && |begun.history| > 0 && begun.history[|begun.history| - 1] == r
  {
    begun := Begin(c, r);
    BeginKeeps(c, PEN_FIELDS, r, Open(c, PEN_FIELDS));
  }

  /**
   * The stores of the writer.  A reader that comes in between finds the array as the channel
   * is after so many steps: the fields are stored one by one, and the sequence number last.
   */
  method WriteSharedPen(view: array<int>, pen: Pen, sequence: int, milliseconds: real, ghost c: Channel)
    returns (ghost trace: Trace)
    requires view.Length == 9 && Good(c, PEN_FIELDS) && Complete(c, PEN_FIELDS) && Holds(view[..], c)
    modifies view
    ensures view[0] == sequence && view[1..7] == PenFields(pen, milliseconds)
    ensures view[7..] == old(view[7..])
    ensures |trace| == PEN_FIELDS + 2 && trace[0] == old(view[..]) && trace[PEN_FIELDS + 1] == view[..]
    ensures var begun := Begin(c, Record(PenFields(pen, milliseconds), sequence));
      Good(begun, PEN_FIELDS) && forall n :: 0 <= n < |trace| ==> Holds(trace[n], Stored(begun, n))
  {
    hide Stored;
    hide Holds;
    hide Good;
    hide EncodePenValue;
    ghost var begun := BegunRecord(c, Record(PenFields(pen, milliseconds), sequence), view[..]);
    ghost var t0 := view[..];
    view[1] := EncodePenValue(pen.x);
    ghost var t1 := view[..];
    view[2] := EncodePenValue(pen.y);
    ghost var t2 := view[..];
    view[3] := EncodePenValue(pen.radius);
    ghost var t3 := view[..];
    view[4] := if pen.active then 1 else 0;
    ghost var t4 := view[..];
    view[5] := Seconds(milliseconds);
    ghost var t5 := view[..];
    view[6] := Micros(milliseconds);
    ghost var t6 := view[..];
    view[0] := sequence;
    trace := [t0, t1, t2, t3, t4, t5, t6, view[..]];
    TraceFollows(begun, trace);
  }

  // ----- the worker -----

  type Applied = Record

  datatype Worker = Worker(
    last: int,
    penActive: bool,
    initialized: bool,
    acquisition: Option<Applied>,
    lastRead: Option<View>,
    applied: Applied)

  datatype Phase = Waiting | Loading(view: View) | Recording

  /** Both channels, and how far the two threads are. */
  datatype System = System(pen: Channel, ack: Channel, phase: Phase, worker: Worker, report: Option<View>)

  datatype Event =
    | BeginWrite(fields: seq<int>)
    | StorePen
    | StartReading
    | LoadPen
    | Decide(latency: int)
    | StoreAck
    | Acquire
    | Locate
    | Restart(fallback: Applied)
    | StartReport
    | LoadReport

  ghost predicate Sensible(s: System) {
    && Good(s.pen, PEN_FIELDS) && Good(s.ack, 1)
    && (forall n :: 0 <= n < |s.pen.history| ==> s.pen.history[n].stamp == n)
    && (s.phase.Loading? ==> Faithful(s.pen, PEN_FIELDS, s.phase.view))
    && (s.phase.Recording? <==> !Complete(s.ack, 1))
    && (s.report.Some? ==> Faithful(s.ack, 1, s.report.value))
    && HoldsLastRead(s)
  }

  /** What the worker remembers as the last record it read is what it acts on. */
  ghost predicate HoldsLastRead(s: System) {
    s.worker.last == -1 || (
      && s.worker.lastRead.Some?
      && var v := s.worker.lastRead.value;
         && Faithful(s.pen, PEN_FIELDS, v) && |v.fields| == PEN_FIELDS && v.stamp == s.worker.last
         && s.worker.applied ==
              if s.worker.acquisition.Some? then s.worker.acquisition.value else Record(v.fields, v.stamp))
  }

  /** What the worker does with a complete view that is new to it. */
  function Apply(w: Worker, v: View): Worker
    requires |v.fields| == PEN_FIELDS
  {
    var active := v.fields[ACTIVE] != 0;
    var acquisition := if (active && !w.penActive && !w.initialized) || !active then None else w.acquisition;
    w.(last := v.stamp, penActive := active, acquisition := acquisition, lastRead := Some(v),
       applied := if acquisition.Some? then acquisition.value else Record(v.fields, v.stamp))
  }

  function Step(s: System, ev: Event): System
    requires Sensible(s)
  {
    match ev
    case BeginWrite(fields) =>
      if Complete(s.pen, PEN_FIELDS) && |fields| == PEN_FIELDS
      then s.(pen := Begin(s.pen, Record(fields, |s.pen.history|)))
      else s
    case StorePen => if Complete(s.pen, PEN_FIELDS) then s else s.(pen := Store(s.pen, PEN_FIELDS))
    case StartReading => if s.phase.Waiting? then s.(phase := Loading(Open(s.pen, PEN_FIELDS))) else s
    case LoadPen =>
      if s.phase.Loading? && |s.phase.view.fields| < PEN_FIELDS
      then s.(phase := Loading(Look(s.pen, PEN_FIELDS, s.phase.view)))
      else s
    case Decide(latency) =>
      if !s.phase.Loading? || |s.phase.view.fields| < PEN_FIELDS then s
      else if s.phase.view.stamp == s.worker.last then s.(phase := Waiting)
      else s.(worker := Apply(s.worker, s.phase.view), phase := Recording,
              ack := Begin(s.ack, Record([latency], s.phase.view.stamp)))
    case StoreAck =>
      if !s.phase.Recording? then s
      else
        var ack := Store(s.ack, 1);
        s.(ack := ack, phase := if Complete(ack, 1) then Waiting else Recording)
    case Acquire =>
      if s.phase.Waiting? && s.worker.penActive && !s.worker.initialized && s.worker.acquisition.None?
      then s.(worker := s.worker.(acquisition := Some(s.worker.applied), last := -1)) else s
    case Locate =>
      if s.phase.Waiting? && s.worker.penActive && !s.worker.initialized && s.worker.acquisition.Some?
      then s.(worker := s.worker.(initialized := true, acquisition := None, last := -1)) else s
    case Restart(fallback) =>
      if s.phase.Waiting? then s.(worker := Worker(-1, false, false, None, s.worker.lastRead, fallback)) else s
    case StartReport => s.(report := Some(Open(s.ack, 1)))
    case LoadReport =>
      if s.report.Some? && |s.report.value.fields| < 1 then s.(report := Some(Look(s.ack, 1, s.report.value))) else s
  }

  lemma PenWriteKeepsSensible(s: System, ev: Event)
    requires Sensible(s) && (ev.BeginWrite? || ev.StorePen?)
    ensures Sensible(Step(s, ev))
  {
    forall v | Faithful(s.pen, PEN_FIELDS, v) ensures Faithful(Step(s, ev).pen, PEN_FIELDS, v) {
      match ev
      case BeginWrite(fields) =>
        if Complete(s.pen, PEN_FIELDS) && |fields| == PEN_FIELDS {
          BeginKeeps(s.pen, PEN_FIELDS, Record(fields, |s.pen.history|), v);
        }
      case StorePen =>
        if !Complete(s.pen, PEN_FIELDS) {
          StoreKeeps(s.pen, PEN_FIELDS, v);
        }
    }
  }

  lemma AckKeepsSensible(s: System, ev: Event)
    requires Sensible(s) && (ev.Decide? || ev.StoreAck?)
    ensures Sensible(Step(s, ev))
  {
    forall v | Faithful(s.ack, 1, v) ensures Faithful(Step(s, ev).ack, 1, v) {
      match ev
      case Decide(latency) =>
        if s.phase.Loading? && |s.phase.view.fields| == PEN_FIELDS {
          BeginKeeps(s.ack, 1, Record([latency], s.phase.view.stamp), v);
        }
      case StoreAck =>
        if s.phase.Recording? {
          StoreKeeps(s.ack, 1, v);
        }
    }
  }

  /** The invariant of both protocols and of the worker between them. */
  lemma StepKeepsSensible(s: System, ev: Event)
    requires Sensible(s)
    ensures Sensible(Step(s, ev))
  {
    match ev
    case BeginWrite(_) => PenWriteKeepsSensible(s, ev);
    case StorePen => PenWriteKeepsSensible(s, ev);
    case StartReading => OpenIsFaithful(s.pen, PEN_FIELDS);
    case LoadPen =>
      if s.phase.Loading? && |s.phase.view.fields| < PEN_FIELDS {
        LookIsFaithful(s.pen, PEN_FIELDS, s.phase.view);
      }
    case Decide(_) => AckKeepsSensible(s, ev);
    case StoreAck => AckKeepsSensible(s, ev);
    case Acquire =>
    case Locate =>
    case Restart(_) =>
    case StartReport => OpenIsFaithful(s.ack, 1);
    case LoadReport =>
      if s.report.Some? && |s.report.value.fields| < 1 {
        LookIsFaithful(s.ack, 1, s.report.value);
      }
  }

  function Initial(fallback: Applied): (s: System)
    ensures Sensible(s)
  {
    System(Fresh(PEN_FIELDS), Fresh(1), Waiting, Worker(-1, false, false, None, None, fallback), None)
  }

  function RunAll(s: System, events: seq<Event>): (r: System)
    requires Sensible(s)
    ensures Sensible(r)
    decreases |events|
  {
    if events == [] then s
    else
      StepKeepsSensible(s, events[0]);
      RunAll(Step(s, events[0]), events[1..])
  }

  function Latest(s: System): Applied
    requires Sensible(s)
  {
    s.pen.history[|s.pen.history| - 1]
  }

  /** A pen is held still only while it is active and has not been located. */
  predicate HoldsRightly(w: Worker) {
    w.acquisition.Some? ==> w.penActive && !w.initialized && w.applied == w.acquisition.value
  }

  lemma {:induction false} RunHoldsRightly(s: System, events: seq<Event>)
    requires Sensible(s) && HoldsRightly(s.worker)
    ensures HoldsRightly(RunAll(s, events).worker)
    decreases |events|
  {
    if events != [] {
      StepKeepsSensible(s, events[0]);
      RunHoldsRightly(Step(s, events[0]), events[1..]);
    }
  }

  /**
   * Main result: a pen that is held still stays where it is, whatever is written, until the
   * machine finds it or starts again, or a record is read in which it is not active.
   */
  lemma HoldEndsIff(fallback: Applied, events: seq<Event>, ev: Event)
    ensures var s := RunAll(Initial(fallback), events);
      s.worker.acquisition.Some? ==>
        var after := Step(s, ev).worker;
        && s.worker.applied == s.worker.acquisition.value
        && (after.acquisition.None? <==>
              || (s.phase.Waiting? && (ev.Locate? || ev.Restart?))
              || (ev.Decide? && s.phase.Loading? && |s.phase.view.fields| == PEN_FIELDS
                  && s.phase.view.stamp != s.worker.last && s.phase.view.fields[ACTIVE] == 0))
        && (after.acquisition.Some? ==>
              after.acquisition == s.worker.acquisition && after.applied == s.worker.applied)
  {
    RunHoldsRightly(Initial(fallback), events);
  }

  /**
   * Main result: in every reachable state, a worker that remembers the number of the latest
   * record begun has read that record whole; and it acts on it, unless it is holding the
   * pen still to let the machine find it.
   */
  lemma LatestNumberMeansWholeRecord(fallback: Applied, events: seq<Event>)
    ensures var s := RunAll(Initial(fallback), events);
      s.worker.last == Latest(s).stamp ==>
        && s.worker.lastRead.Some?
        && Record(s.worker.lastRead.value.fields, s.worker.last) == Latest(s)
        && (s.worker.acquisition.None? ==> s.worker.applied == Latest(s))
  {
    var s := RunAll(Initial(fallback), events);
    if s.worker.last == Latest(s).stamp {
      LatestIsWhole(s.pen, PEN_FIELDS, s.worker.lastRead.value);
    }
  }

  /**
   * Main result: a torn read is never final.  Once no write is under way, the number of the
   * last read equals the one in the shared cell, and the next attempt returns early, only
   * if that read was one whole record and the latest.
   */
  lemma TornReadIsNotFinal(s: System)
    requires Sensible(s) && Complete(s.pen, PEN_FIELDS)
    ensures s.pen.cells[PEN_FIELDS] == s.worker.last ==>
      s.worker.lastRead.Some? && Record(s.worker.lastRead.value.fields, s.worker.last) == Latest(s)
  {
    if s.pen.cells[PEN_FIELDS] == s.worker.last {
      LatestIsWhole(s.pen, PEN_FIELDS, s.worker.lastRead.value);
    }
  }

  /** The worker reading on its own from where it is, `n` more fields. */
  function LoadMore(s: System, n: nat): (r: System)
    requires Sensible(s)
    ensures Sensible(r)
    decreases n
  {
    if n == 0 then s
    else
      StepKeepsSensible(s, LoadPen);
      LoadMore(Step(s, LoadPen), n - 1)
  }

  function ReadUndisturbed(s: System, latency: int): System
    requires Sensible(s)
  {
    StepKeepsSensible(s, StartReading);
    Step(LoadMore(Step(s, StartReading), PEN_FIELDS), Decide(latency))
  }

  lemma {:induction false} LoadMoreLoads(s: System, n: nat)
    requires Sensible(s) && s.phase.Loading? && |s.phase.view.fields| + n <= PEN_FIELDS
    ensures var r := LoadMore(s, n);
      r == s.(phase := r.phase) && r.phase.Loading? && |r.phase.view.fields| == |s.phase.view.fields| + n
      && r.phase.view.from == s.phase.view.from && r.phase.view.stamp == s.phase.view.stamp
    decreases n
  {
    if n > 0 {
      StepKeepsSensible(s, LoadPen);
      LoadMoreLoads(Step(s, LoadPen), n - 1);
    }
  }

  lemma DecidingOnTheLatest(s: System, latency: int)
    requires Sensible(s) && s.phase.Loading? && |s.phase.view.fields| == PEN_FIELDS
    requires s.phase.view.from == |s.pen.history| - 1
    ensures var r := Step(s, Decide(latency));
      r.worker.last == Latest(s).stamp && r.pen == s.pen
      && (r.worker.acquisition.None? ==> r.worker.applied == Latest(s))
  {
    LatestIsWhole(s.pen, PEN_FIELDS, s.phase.view);
    if s.phase.view.stamp == s.worker.last {
      LatestIsWhole(s.pen, PEN_FIELDS, s.worker.lastRead.value);
    }
  }

  lemma StartsOnTheLatest(s: System)
    requires Sensible(s) && s.phase.Waiting? && Complete(s.pen, PEN_FIELDS)
    ensures var started := Step(s, StartReading);
      && Sensible(started) && started == s.(phase := started.phase) && started.phase.Loading?
      && started.phase.view.fields == [] && started.phase.view.from == |s.pen.history| - 1
  {
    StepKeepsSensible(s, StartReading);
  }

  lemma SamePenSameLatest(s: System, t: System)
    requires Sensible(s) && Sensible(t) && t.pen == s.pen
    ensures Latest(t) == Latest(s)
  {
  }

  lemma ReadingIs(s: System, latency: int)
    requires Sensible(s)
    ensures Sensible(Step(s, StartReading))
    ensures ReadUndisturbed(s, latency) == Step(LoadMore(Step(s, StartReading), PEN_FIELDS), Decide(latency))
  {
    StepKeepsSensible(s, StartReading);
  }

  /** Main result: one read that no write disturbs brings the worker up to date. */
  lemma UndisturbedReadCatchesUp(s: System, latency: int)
    requires Sensible(s) && s.phase.Waiting? && Complete(s.pen, PEN_FIELDS)
    ensures var r := ReadUndisturbed(s, latency);
      r.worker.last == Latest(s).stamp && r.pen == s.pen
      && (r.worker.acquisition.None? ==> r.worker.applied == Latest(s))
  {
    hide *;
    StartsOnTheLatest(s);
    ReadingIs(s, latency);
    var started := Step(s, StartReading);
    LoadMoreLoads(started, PEN_FIELDS);
    var loaded := LoadMore(started, PEN_FIELDS);
    SamePenSameLatest(s, loaded);
    DecidingOnTheLatest(loaded, latency);
  }

  /**
   * The page reads the number of an applied record and then a latency: the latency is that
   * of this application or of a later one.
   */
  lemma ReportedLatencyIsFresh(fallback: Applied, events: seq<Event>)
    ensures var s := RunAll(Initial(fallback), events);
      s.report.Some? && |s.report.value.fields| == 1 ==>
        exists n, m :: 0 <= n <= m < |s.ack.history|
          && s.report.value.stamp == s.ack.history[n].stamp && s.report.value.fields == s.ack.history[m].fields
  {
    var s := RunAll(Initial(fallback), events);
    if s.report.Some? && |s.report.value.fields| == 1 {
      hide *;
      OneFieldIsFresh(s.ack, s.report.value);
    }
  }

  lemma OneFieldIsFresh(c: Channel, v: View)
    requires Good(c, 1) && Faithful(c, 1, v) && |v.fields| == 1
    ensures exists n, m ::
      0 <= n <= m < |c.history| && v.stamp == c.history[n].stamp && v.fields == c.history[m].fields
  {
    assert c.history[v.sources[0]].fields == [v.fields[0]];
    assert v.stamp == c.history[v.from].stamp;
  }
}
