/**
 * The control unit itself: registers that its methods update in place.  Each method is
 * tied to a function on snapshots, about which Sequencing and DeferredAddressing prove
 * what the unit promises.
 */
module Control {
  import opened Words
  import opened Sequencing
  import opened DeferredAddressing
  import opened DeferredWalks

  datatype PcChange =
    | Stop(at: Word18)
    | SequenceChange(next: SequenceNumber)
    | CounterUpdate
    | Request(pc: PcRequest)

  datatype Resolution = Operand(address: Word18) | DeferLoop(unindexed: Word18) | UnmappedOperand(physical: Word18)

  class ControlUnit {
    var k: Option<SequenceNumber>
    var p: Word18
    var q: Word18
    var spr: Word18
    /** The two halves of the N register. */
    var nLeft: Word18
    var nRight: Word18
    const indexRegs: array<Word18>
    var flags: set<SequenceNumber>
    var runnable: bool
    var prevHold: bool
    var trapOnChange: bool
    var e: Word36

    ghost function Snapshot(): Machine
      reads this, indexRegs
    {
      Machine(k, p, spr, indexRegs[..], flags, runnable, prevHold, trapOnChange, e)
    }

    ghost predicate Ready()
      reads this, indexRegs
    {
      Valid(Snapshot())
    }

    /** A new unit is in limbo and has no current sequence. */
    constructor ()
      ensures Ready() && fresh(indexRegs)
      ensures k == None && flags == {} && SelectSequence(Snapshot(), true).1.InLimbo?
    {
      indexRegs := new Word18[64](_ => 0);
      k, p, q, spr, nLeft, nRight, e := None, 0, 0, 0, 0, 0, 0;
      flags, runnable, prevHold, trapOnChange := {}, false, false, false;
    }

    method Raise(flag: SequenceNumber)
      modifies this`flags
      ensures flags == old(flags) + {flag}
    {
      flags := flags + {flag};
    }

    method HighestPriorityRaisedFlag() returns (r: Option<SequenceNumber>)
      ensures r == LowestFrom(flags, 0)
    {
      r := LowestFrom(flags, 0);
    }

    /** Only a change of sequence may alter the mark bit of P. */
    method SetProgramCounter(change: PcChange)
      requires Ready()
      requires change.Stop? ==> Marked(change.at) == Marked(p)
      modifies this`p
      ensures match change
        case Stop(at) => p == at
        case SequenceChange(next) => p == if next != 0 then indexRegs[next] else spr
        case CounterUpdate => p == Successor(old(p))
        case Request(pc) => p == AfterRequest(old(p), pc) && Obeys(old(p), pc, p)
      ensures change.CounterUpdate? ==> p % 0x2_0000 == (old(p) + 1) % 0x2_0000
      ensures !change.SequenceChange? ==> p / 0x2_0000 == old(p) / 0x2_0000
    {
      SuccessorCounts(p);
      if change.Request? {
        RequestIsObeyed(p, change.pc);
      }
      match change {
        case Stop(at) =>
          assert Marked(p) == Marked(at);
          p := at;
        case SequenceChange(next) =>
          p := if next != 0 then indexRegs[next] else spr;
        case CounterUpdate =>
          var counted := Successor(p);
          assert Marked(p) == Marked(counted);
          p := counted;
        case Request(CountOn) =>
        case Request(Skip) =>
          p := Successor(p);
        case Request(JumpTo(target)) =>
          p := Join(target, Marked(p));
        case Request(WaitAt(target)) =>
          p := Join(target, Marked(p));
      }
    }

    method ChangeSequenceTo(prev: Option<SequenceNumber>, requested: SequenceNumber)
      requires Ready()
      modifies this, indexRegs
      ensures Snapshot() == ChangeSequence(old(Snapshot()), prev, requested)
      ensures q == old(q) && nLeft == old(nLeft) && nRight == old(nRight)
    {
      if prev == Some(requested) {
        return;
      }
      var next := requested;
      var trap :=
        trapOnChange && IsMarkedPlaceholder(indexRegs[next]) && k != Some(TRAP_SEQUENCE) && next > TRAP_SEQUENCE;
      e := ChangeRecord(if prev.Some? then prev.value else 0, next, p);
      if trap {
        Raise(TRAP_SEQUENCE);
        next := TRAP_SEQUENCE;
      }
      k := Some(next);
      if prev.Some? && prev.value != 0 {
        indexRegs[prev.value] := p;
      }
      assert indexRegs[0] == 0;
      SetProgramCounter(SequenceChange(next));
    }

    method SelectNext(consumeHold: bool) returns (mode: RunMode)
      requires Ready()
      modifies this, indexRegs
      ensures (Snapshot(), mode) == SelectSequence(old(Snapshot()), consumeHold)
      ensures Ready()
      ensures q == old(q) && nLeft == old(nLeft) && nRight == old(nRight)
    {
      if prevHold {
        if consumeHold {
          prevHold := false;
        }
        return Running;
      }
      var highest := HighestPriorityRaisedFlag();
      match highest {
        case None =>
          mode := if runnable then Running else InLimbo;
        case Some(candidate) =>
          if (k.Some? && candidate < k.value) || (!runnable && (k.None? || candidate > k.value)) {
            ChangeSequenceTo(k, candidate);
          }
          mode := Running;
      }
    }

    /** Each device flag that a poll found raised is raised here, lowest first. */
    method PollHardware(raised: set<SequenceNumber>)
      requires Ready()
      modifies this`flags
      ensures Snapshot() == Step(old(Snapshot()), Poll(raised))
    {
      var waiting := raised;
      var unit: nat := 0;
      while waiting != {}
        invariant unit <= 64
        invariant waiting == set f | f in raised && unit <= f
        invariant flags == old(flags) + (raised - waiting)
        decreases 64 - unit
      {
        if unit in waiting {
          Raise(unit);
        }
        waiting := waiting - {unit};
        unit := unit + 1;
      }
    }

    method Dismiss()
      requires Ready()
      modifies this`flags, this`runnable
      ensures k.Some? ==> flags == old(flags) - {k.value} && !runnable
      ensures k.None? ==> flags == old(flags) && runnable == old(runnable)
      ensures Ready()
    {
      if k.Some? {
        flags := flags - {k.value};
        runnable := false;
      }
    }

    method StartOverAt(start: Word18)
      requires Ready()
      modifies this, indexRegs
      ensures Snapshot() == StartOver(old(Snapshot()), start)
    {
      spr := start;
      runnable := false;
      Raise(0);
      assert Snapshot() == old(Snapshot()).(spr := start, runnable := false, flags := old(flags) + {0});
      ChangeSequenceTo(None, 0);
    }

    /** The body of an opcode, known only by its effect on these registers. */
    method Perform(inst: Instruction)
      requires Ready() && k.Some?
      modifies this`flags, this`runnable, this`trapOnChange, this`e, indexRegs
      ensures Snapshot() == Effect(old(Snapshot()), inst)
      ensures Ready()
    {
      flags, runnable, trapOnChange, e := inst.flags, inst.runnable, inst.trapOnChange, inst.e;
      forall i | 0 < i < 64 && i in inst.writes {
        indexRegs[i] := inst.writes[i];
      }
      assert indexRegs[..] == WriteIndexes(old(indexRegs[..]), inst.writes);
    }

    /** Select, fetch, count P on, perform, and choose again unless there is output to deliver. */
    method ExecuteInstruction(inst: Instruction) returns (r: Executed)
      requires Ready()
      modifies this, indexRegs
      ensures (Snapshot(), r) == Execute(old(Snapshot()), inst)
      ensures Ready()
    {
      var mode := SelectNext(true);
      if mode.InLimbo? {
        return Idle;
      }
      if inst.fetchFails {
        return Stopped(p);
      }
      var sequence, from := k.value, p;
      ghost var ready := Snapshot();
      SetProgramCounter(CounterUpdate);
      assert Snapshot() == ready.(p := Successor(from));
      Perform(inst);
      assert Snapshot() == Apply(ready, inst);
      if inst.outcome.UnmaskedAlarm? {
        SetProgramCounter(Stop(from));
        return Stopped(from);
      }
      mode := Finish(inst);
      r := Ran(sequence, from, mode);
    }

    /** What follows the body of an instruction that does not stop the machine. */
    method Finish(inst: Instruction) returns (mode: RunMode)
      requires Ready() && k.Some? && !inst.outcome.UnmaskedAlarm?
      modifies this, indexRegs
      ensures Ready()
      ensures (Snapshot(), mode) ==
        if inst.outcome.Completed? then
          Leave(old(Snapshot()).(p := AfterRequest(old(p), inst.outcome.pc), prevHold := inst.held && !Waits(inst)),
                inst.outcome.output)
        else Leave(old(Snapshot()).(prevHold := inst.held), false)
    {
      var output, waits := false, false;
      if inst.outcome.Completed? {
        SetProgramCounter(Request(inst.outcome.pc));
        output, waits := inst.outcome.output, inst.outcome.pc.WaitAt?;
      }
      prevHold := inst.held && !waits;
      if output {
        mode := Running;
      } else {
        mode := SelectNext(false);
      }
    }

    /**
     * Resolves the operand of the instruction in N, leaving its address in Q.  `indexBy`
     * replaces the index field of N when the instruction uses that field for something else.
     */
    method ResolveOperandAddress(mem: Memory, indexBy: Option<SequenceNumber>) returns (r: Resolution)
      requires Ready()
      modifies this`nRight, this`q
      ensures Ready() && nLeft == old(nLeft)
      ensures r.Operand? <==> exists end :: ReachesDirect(mem, indexRegs[..], old(nRight), end)
      ensures r.Operand? ==>
        && nRight < 0x2_0000
        && WalksTo(mem, indexRegs[..], old(nRight), nRight)
        && IsMovedBy(nRight, indexRegs[if indexBy.Some? then indexBy.value else nLeft % 64], q)
        && r == Operand(q)
      ensures r.UnmappedOperand? <==> exists at :: ReachesUnreadable(mem, indexRegs[..], old(nRight), at)
      ensures r.UnmappedOperand? ==>
        && nRight == 0x2_0000 + r.physical && r.physical !in mem
        && WalksTo(mem, indexRegs[..], old(nRight), nRight)
      ensures r.DeferLoop? <==> WalksForEver(mem, indexRegs[..], old(nRight))
      ensures r.DeferLoop? ==>
        nRight >= 0x2_0000 && nRight - 0x2_0000 in mem && r.unindexed == mem[nRight - 0x2_0000].right
      ensures !r.Operand? ==> q == old(q)
    {
      ghost var x, first := indexRegs[..], nRight;
      ChaseIsExact(mem, x, first);
      EndlessIff(mem, x, first);
      var seen: set<Word18> := {};
      while Marked(nRight)
        invariant indexRegs[..] == x && nLeft == old(nLeft) && q == old(q)
        invariant ChaseFrom(mem, x, nRight, seen) == ChaseFrom(mem, x, old(nRight), {})
        decreases AllWords() - seen
      {
        var physical := Physical(nRight);
        if physical !in mem {
          UnreadableEndIff(mem, x, first, nRight);
          return UnmappedOperand(physical);
        }
        var word := mem[physical];
        var next := IndexBy(word.right, indexRegs[word.left % 64]);
        if next in seen {
          return DeferLoop(word.right);
        }
        assert IsWord(next) && next in AllWords() - seen;
        seen := seen + {next};
        nRight := next;
      }
      var j := if indexBy.Some? then indexBy.value else nLeft % 64;
      q := IndexBy(nRight, indexRegs[j]);
      DirectEndIff(mem, x, first, nRight);
      MovedIs(nRight, indexRegs[j]);
      r := Operand(q);
    }
  }
}
