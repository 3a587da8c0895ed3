/** The alarm unit: which alarms the operator has masked, and which are active. */
module Alarms {

  datatype AlarmKind = PSAL | OCSAL | QSAL | IOSAL | MISAL | ROUNDTUITAL | DEFERLOOPAL | BUGAL

  predicate Maskable(kind: AlarmKind) {
    !kind.BUGAL? && !kind.DEFERLOOPAL? && !kind.ROUNDTUITAL?
  }

  datatype AlarmState = AlarmState(masked: set<AlarmKind>, active: set<AlarmKind>)

  ghost predicate Lawful(s: AlarmState) {
    forall kind <- s.masked :: Maskable(kind)
  }

  /** The machine has to stop. */
  ghost predicate Unmasked(s: AlarmState) {
    exists kind <- s.active :: kind !in s.masked
  }

  function Fire(s: AlarmState, kind: AlarmKind): AlarmState {
    s.(active := s.active + {kind})
  }

  datatype AlarmEvent =
    | MaskKind(kind: AlarmKind)
    | UnmaskKind(kind: AlarmKind)
    | ClearAll
    | FireUnlessMasked(kind: AlarmKind)
    | FireAlways(kind: AlarmKind)

  function Step(s: AlarmState, ev: AlarmEvent): AlarmState {
    match ev
    case MaskKind(kind) => if Maskable(kind) then s.(masked := s.masked + {kind}) else Fire(s, BUGAL)
    case UnmaskKind(kind) => s.(masked := s.masked - {kind})
    case ClearAll => s.(active := {})
    case FireUnlessMasked(kind) => Fire(s, kind)
    case FireAlways(kind) => if kind in s.masked then Fire(Fire(s, kind), BUGAL) else Fire(s, kind)
  }

  function RunAll(s: AlarmState, events: seq<AlarmEvent>): AlarmState
    decreases |events|
  {
    if events == [] then s else RunAll(Step(s, events[0]), events[1..])
  }

  /** An event after which the machine has to stop although it did not have to before. */
  predicate Stops(s: AlarmState, ev: AlarmEvent) {
    match ev
    case MaskKind(kind) => !Maskable(kind)
    case UnmaskKind(kind) => kind in s.active
    case ClearAll => false
    case FireUnlessMasked(kind) => kind !in s.masked
    case FireAlways(kind) => true
  }

  /**
   * An alarm that is fired unconditionally stops the machine whatever is masked, and no
   * sequence of requests masks one of the three alarms that report a fault of the emulator.
   */
  lemma StopsExactlyWhenUnmasked(s: AlarmState, ev: AlarmEvent)
    requires Lawful(s) && !Unmasked(s)
    ensures Unmasked(Step(s, ev)) <==> Stops(s, ev)
    ensures Lawful(Step(s, ev))
  {
    var after := Step(s, ev);
    if Stops(s, ev) {
      match ev
      case MaskKind(kind) => assert BUGAL in after.active && BUGAL !in after.masked;
      case UnmaskKind(kind) => assert kind in after.active && kind !in after.masked;
      case FireUnlessMasked(kind) => assert kind in after.active && kind !in after.masked;
      case FireAlways(kind) =>
        var fired := if kind in s.masked then BUGAL else kind;
        assert fired in after.active && fired !in after.masked;
    }
  }

  lemma {:induction false} EmulatorFaultsAreNeverMasked(s: AlarmState, events: seq<AlarmEvent>)
    requires Lawful(s)
    ensures Lawful(RunAll(s, events))
    decreases |events|
  {
    if events != [] {
      assert Lawful(Step(s, events[0]));
      EmulatorFaultsAreNeverMasked(Step(s, events[0]), events[1..]);
    }
  }

  class AlarmUnit {
    var masked: set<AlarmKind>
    var active: set<AlarmKind>

    ghost function State(): AlarmState
      reads this
    {
      AlarmState(masked, active)
    }

    constructor ()
      ensures State() == AlarmState({}, {}) && Lawful(State())
    {
      masked, active := {}, {};
    }

    /** Makes the alarm active; the result says whether it stops the machine. */
    method SetActive(kind: AlarmKind) returns (stops: bool)
      requires Lawful(State())
      modifies this`active
      ensures State() == Fire(old(State()), kind)
      ensures stops <==> kind !in masked
    {
      active := active + {kind};
      stops := !Maskable(kind) || kind !in masked;
    }

    method FireIfNotMasked(kind: AlarmKind) returns (stops: bool)
      requires Lawful(State())
      modifies this`active
      ensures State() == Step(old(State()), FireUnlessMasked(kind))
      ensures stops <==> kind !in masked
    {
      stops := SetActive(kind);
    }

    /** A masked alarm that must not be ignored is replaced by the report of a fault. */
    method AlwaysFire(kind: AlarmKind) returns (raised: AlarmKind)
      requires Lawful(State())
      modifies this`active
      ensures State() == Step(old(State()), FireAlways(kind))
      ensures raised in active && raised !in masked
    {
      var stops := SetActive(kind);
      if stops {
        return kind;
      }
      stops := SetActive(BUGAL);
      assert stops;
      raised := BUGAL;
    }

    method Mask(kind: AlarmKind) returns (accepted: bool)
      requires Lawful(State())
      modifies this
      ensures State() == Step(old(State()), MaskKind(kind))
      ensures accepted <==> Maskable(kind)
    {
      if Maskable(kind) {
        masked := masked + {kind};
        return true;
      }
      var raised := AlwaysFire(BUGAL);
      accepted := false;
    }

    method Unmask(kind: AlarmKind)
      modifies this`masked
      ensures State() == Step(old(State()), UnmaskKind(kind))
    {
      masked := masked - {kind};
    }

    method ClearAllAlarms()
      modifies this`active
      ensures State() == Step(old(State()), ClearAll)
    {
      active := {};
    }

    method UnmaskedAlarmActive() returns (stop: bool)
      requires Lawful(State())
      ensures stop <==> Unmasked(State())
    {
      var left := active;
      while left != {}
        invariant left <= active
        invariant forall kind <- active - left :: kind in masked
        decreases |left|
      {
        var kind :| kind in left;
        if !Maskable(kind) {
          assert kind !in masked;
          return true;
        }
        if kind !in masked {
          return true;
        }
        left := left - {kind};
      }
      stop := false;
    }
  }
}
