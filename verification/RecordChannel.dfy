/**
 * A record that one thread writes and another reads, cell by cell and without a lock.  The
 * writer stores the fields and then a stamp; the reader loads the stamp and then the
 * fields.  Either thread may be anywhere in its work when the other takes a step.
 */
module RecordChannel {

  datatype Record = Record(fields: seq<int>, stamp: int)

  /**
   * The shared cells, the stamp last, with every record whose writing was begun; the first
   * one was there from the start.  `step` counts the cells stored for the last one.
   */
  datatype Channel = Channel(cells: seq<int>, history: seq<Record>, step: nat)

  /** The record that the present value of cell `i` comes from. */
  function Source(c: Channel, i: nat): int {
    if i < c.step then |c.history| - 1 else |c.history| - 2
  }

  ghost predicate Good(c: Channel, width: nat) {
    && |c.cells| == width + 1
    && |c.history| > 0
    && (forall n :: 0 <= n < |c.history| ==> |c.history[n].fields| == width)
    && c.step <= width + 1
    && (|c.history| == 1 ==> c.step == width + 1)
    && (forall i :: 0 <= i < width ==> c.cells[i] == c.history[Source(c, i)].fields[i])
    && c.cells[width] == c.history[Source(c, width)].stamp
  }

  predicate Complete(c: Channel, width: nat) {
    c.step == width + 1
  }

  /** The first state of a channel whose cells all hold zero. */
  function Fresh(width: nat): (c: Channel)
    ensures Good(c, width) && Complete(c, width)
  {
    var zeros := seq(width, _ => 0);
    Channel(zeros + [0], [Record(zeros, 0)], width + 1)
  }

  function Begin(c: Channel, r: Record): Channel {
    c.(history := c.history + [r], step := 0)
  }

  /** Stores one more cell of the record being written. */
  function Store(c: Channel, width: nat): Channel
    requires Good(c, width) && c.step <= width
  {
    var r := c.history[|c.history| - 1];
    c.(cells := c.cells[c.step := if c.step < width then r.fields[c.step] else r.stamp], step := c.step + 1)
  }

  /** What a reader has loaded, and which record each of its values came from. */
  datatype View = View(stamp: int, from: nat, fields: seq<int>, sources: seq<nat>)

  function Open(c: Channel, width: nat): View
    requires Good(c, width)
  {
    View(c.cells[width], Source(c, width), [], [])
  }

  function Look(c: Channel, width: nat, v: View): View
    requires Good(c, width) && |v.fields| < width
  {
    v.(fields := v.fields + [c.cells[|v.fields|]], sources := v.sources + [Source(c, |v.fields|)])
  }

  /** Every loaded value comes from a record at least as new as the one of the stamp. */
  ghost predicate Faithful(c: Channel, width: nat, v: View) {
    && v.from < |c.history| && v.stamp == c.history[v.from].stamp
    && v.from <= Source(c, width)
    && |v.fields| == |v.sources| <= width
    && forall i :: 0 <= i < |v.fields| ==>
      v.from <= v.sources[i] < |c.history|
      && i < |c.history[v.sources[i]].fields|
      && v.fields[i] == c.history[v.sources[i]].fields[i]
  }

  lemma BeginKeeps(c: Channel, width: nat, r: Record, v: View)
    requires Good(c, width) && Complete(c, width) && |r.fields| == width
    ensures Good(Begin(c, r), width)
    ensures Faithful(c, width, v) ==> Faithful(Begin(c, r), width, v)
  {
  }

  lemma StoreKeeps(c: Channel, width: nat, v: View)
    requires Good(c, width) && c.step <= width
    ensures Good(Store(c, width), width)
    ensures Faithful(c, width, v) ==> Faithful(Store(c, width), width, v)
  {
  }

  lemma OpenIsFaithful(c: Channel, width: nat)
    requires Good(c, width)
    ensures Faithful(c, width, Open(c, width))
  {
  }

  lemma LookIsFaithful(c: Channel, width: nat, v: View)
    requires Good(c, width) && Faithful(c, width, v) && |v.fields| < width
    ensures Faithful(c, width, Look(c, width, v))
  {
    assert Source(c, width) <= Source(c, |v.fields|);
  }

  /** A reader that saw the stamp of the last record begun has all of that record. */
  lemma LatestIsWhole(c: Channel, width: nat, v: View)
    requires Good(c, width) && Faithful(c, width, v) && |v.fields| == width
    requires v.from == |c.history| - 1
    ensures v.fields == c.history[v.from].fields
  {
    assert forall i :: 0 <= i < width ==> v.sources[i] == v.from;
  }

  // ----- all interleavings -----

  datatype Event = Write(r: Record) | StoreOne | OpenView | LookAtOne

  /** One step of either thread; a step that its thread cannot take does nothing. */
  function Step(c: Channel, v: View, width: nat, ev: Event): (Channel, View)
    requires Good(c, width)
  {
    match ev
    case Write(r) => (if Complete(c, width) && |r.fields| == width then Begin(c, r) else c, v)
    case StoreOne => (if c.step <= width then Store(c, width) else c, v)
    case OpenView => (c, Open(c, width))
    case LookAtOne => (c, if |v.fields| < width then Look(c, width, v) else v)
  }

  lemma StepKeeps(c: Channel, v: View, width: nat, ev: Event)
    requires Good(c, width) && Faithful(c, width, v)
    ensures var (c', v') := Step(c, v, width, ev);
      Good(c', width) && Faithful(c', width, v') && c.history <= c'.history
  {
    match ev
    case Write(r) => if Complete(c, width) && |r.fields| == width { BeginKeeps(c, width, r, v); }
    case StoreOne => if c.step <= width { StoreKeeps(c, width, v); }
    case OpenView => OpenIsFaithful(c, width);
    case LookAtOne => if |v.fields| < width { LookIsFaithful(c, width, v); }
  }

  function RunAll(c: Channel, v: View, width: nat, events: seq<Event>): (r: (Channel, View))
    requires Good(c, width) && Faithful(c, width, v)
    ensures Good(r.0, width) && Faithful(r.0, width, r.1)
    decreases |events|
  {
    if events == [] then (c, v)
    else
      StepKeeps(c, v, width, events[0]);
      var (c', v') := Step(c, v, width, events[0]);
      RunAll(c', v', width, events[1..])
  }

  /**
   * Main result: whatever the interleaving, each field the reader has is from the record of
   * the stamp it read or from a newer one; and if no newer one has been begun, all of them
   * are from that record.
   */
  lemma EveryInterleaving(width: nat, events: seq<Event>)
    ensures var start := Fresh(width);
      Faithful(start, width, Open(start, width))
      && var (c, v) := RunAll(start, Open(start, width), width, events);
         && (forall i :: 0 <= i < |v.fields| ==>
               exists n :: v.from <= n < |c.history| && v.fields[i] == c.history[n].fields[i])
         && (|v.fields| == width && v.from == |c.history| - 1 ==> Record(v.fields, v.stamp) == c.history[v.from])
  {
    var start := Fresh(width);
    OpenIsFaithful(start, width);
    var (c, v) := RunAll(start, Open(start, width), width, events);
    forall i | 0 <= i < |v.fields|
      ensures exists n :: v.from <= n < |c.history| && v.fields[i] == c.history[n].fields[i]
    {
      assert v.fields[i] == c.history[v.sources[i]].fields[i];
    }
    if |v.fields| == width && v.from == |c.history| - 1 {
      LatestIsWhole(c, width, v);
    }
  }
}
