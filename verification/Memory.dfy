/** The memory unit: banks of words that its operations write in place. */
module Memory {
  import opened Words
  import opened MemoryMap

  class MemoryUnit {
    const s: array<Cell>
    const t: array<Cell>
    const u: array?<Cell>
    var a: Word
    var b: Word
    var c: Word
    var d: Word
    var e: Word
    var registerMeta: bool
    var panel: Panel

    ghost predicate Valid()
      reads this
    {
      && s.Length == T_START && t.Length == U_START - T_START && s != t
      && (u != null ==> u.Length == U_END - U_START && u != s && u != t)
      && |panel.toggles| == 24 && |panel.plugboard| == 32
    }

    ghost function Banks(): set<object>
      reads this
    {
      {this, s, t} + if u != null then {u} else {}
    }

    ghost function Contents(): Mem
      reads Banks()
    {
      Mem(s[..], t[..], if u != null then Some(u[..]) else None, [a, b, c, d, e], registerMeta, panel)
    }

    /** All memory is zero at first. */
    constructor (withU: bool, panel: Panel)
      requires |panel.toggles| == 24 && |panel.plugboard| == 32
      ensures Valid() && Sized(Contents()) && fresh(Banks())
      ensures (u != null <==> withU) && this.panel == panel
      ensures forall at: Address :: IsWritable(Contents(), at) ==> Look(Contents(), at) == ZERO
    {
      s := new Cell[T_START](_ => ZERO);
      t := new Cell[U_START - T_START](_ => ZERO);
      if withU {
        u := new Cell[U_END - U_START](_ => ZERO);
      } else {
        u := null;
      }
      a, b, c, d, e := ZERO.word, ZERO.word, ZERO.word, ZERO.word, ZERO.word;
      registerMeta := false;
      this.panel := panel;
    }

    /** The word at an address, or nothing if the address is not mapped. */
    method ReadAccess(at: Address, clock: Word) returns (r: Option<Cell>)
      requires Valid()
      modifies this`panel
      ensures Valid()
      ensures Contents() ==
        if IsMapped(old(Contents()), at) then Ticked(old(Contents()), at, clock) else old(Contents())
      ensures r.Some? <==> IsMapped(Contents(), at)
      ensures r.Some? ==> r.value == Look(Contents(), at)
    {
      if at < T_START {
        return Some(s[at]);
      } else if at < U_START {
        return Some(t[at - T_START]);
      } else if at < U_END {
        return if u != null then Some(u[at - U_START]) else None;
      } else if at < V_START {
        return None;
      }
      r := ReadV(at, clock);
    }

    method ReadV(at: Address, clock: Word) returns (r: Option<Cell>)
      requires Valid() && V_START <= at
      modifies this`panel
      ensures Valid()
      ensures Contents() == Ticked(old(Contents()), at, clock)
      ensures r == Some(Look(Contents(), at))
    {
      match at
      case 0x1_FF84 => r := Some(Cell(a, registerMeta));
      case 0x1_FF85 => r := Some(Cell(b, registerMeta));
      case 0x1_FF86 => r := Some(Cell(c, registerMeta));
      case 0x1_FF87 => r := Some(Cell(d, registerMeta));
      case 0x1_FF88 => r := Some(Cell(e, registerMeta));
      case 0x1_FF90 => r := Some(panel.knobs);
      case 0x1_FF91 => r := Some(panel.external);
      case 0x1_FF98 =>
        panel := panel.(clock := panel.clock.(word := clock));
        r := Some(panel.clock);
      case _ =>
        if TOGGLES <= at < TOGGLES + 24 {
          r := Some(panel.toggles[at - TOGGLES]);
        } else if PLUGBOARD <= at {
          r := Some(Cell(panel.plugboard[at - PLUGBOARD], false));
        } else {
          r := Some(UNKNOWN);
        }
    }

    /** Overwrites a word that can be written. */
    method Write(at: Address, cell: Cell)
      requires Valid() && IsWritable(Contents(), at)
      modifies Banks()
      ensures Valid()
      ensures Contents() == Put(old(Contents()), at, cell)
    {
      if at < T_START {
        s[at] := cell;
      } else if at < U_START {
        t[at - T_START] := cell;
      } else if at < U_END {
        u[at - U_START] := cell;
      } else {
        match at {
          case 0x1_FF84 => a := cell.word;
          case 0x1_FF85 => b := cell.word;
          case 0x1_FF86 => c := cell.word;
          case 0x1_FF87 => d := cell.word;
          case 0x1_FF88 => e := cell.word;
        }
        registerMeta := cell.meta;
      }
    }

    method CanWrite(at: Address) returns (mapped: bool, writable: bool)
      requires Valid()
      ensures mapped <==> IsMapped(Contents(), at)
      ensures writable <==> IsWritable(Contents(), at)
    {
      mapped := at < U_START || (at < U_END && u != null) || V_START <= at;
      writable := mapped && (at < V_START || A_REGISTER <= at <= E_REGISTER);
    }

    method FetchWord(at: Address, setMeta: bool, clock: Word) returns (reply: Reply)
      requires Valid()
      modifies Banks()
      ensures Valid()
      ensures (Contents(), reply) == Step(old(Contents()), Fetch(at, setMeta, clock))
    {
      var r := ReadAccess(at, clock);
      if r.None? {
        return NotMapped;
      }
      if setMeta {
        if at >= V_START {
          return ReadOnly(r.value.meta);
        }
        Write(at, r.value.(meta := true));
      }
      reply := Fetched(r.value);
    }

    method StoreWord(at: Address, value: Word, setMeta: bool) returns (reply: Reply)
      requires Valid()
      modifies Banks()
      ensures Valid()
      ensures (Contents(), reply) == Step(old(Contents()), Store(at, value, setMeta))
    {
      if at >= V_START && setMeta {
        return Ignored;
      }
      var mapped, writable := CanWrite(at);
      if !mapped {
        return NotMapped;
      }
      if !writable {
        return Ignored;
      }
      var before := ReadWritable(at);
      Write(at, Cell(value, setMeta || before.meta));
      reply := Stored;
    }

    method ReadWritable(at: Address) returns (cell: Cell)
      requires Valid() && IsWritable(Contents(), at)
      ensures cell == Look(Contents(), at)
    {
      if at < T_START {
        return s[at];
      } else if at < U_START {
        return t[at - T_START];
      } else if at < U_END {
        return u[at - U_START];
      }
      cell := Cell([a, b, c, d, e][at - A_REGISTER], registerMeta);
    }

    /** SKM: a bit is tested before anything is changed. */
    method ChangeOneBit(at: Address, change: WordChange, clock: Word) returns (reply: Reply)
      requires Valid() && InRange(change)
      modifies Banks()
      ensures Valid()
      ensures (Contents(), reply) == Step(old(Contents()), ChangeBit(at, change, clock))
    {
      var mapped, writable := CanWrite(at);
      if !mapped {
        return NotMapped;
      }
      if !Mutates(change) || !writable {
        var r := ReadAccess(at, clock);
        return Tested(TestBit(r.value, change));
      }
      var before := ReadWritable(at);
      Write(at, Modified(before, change));
      reply := Tested(TestBit(before, change));
    }

    method CycleFullWordForTsd(at: Address) returns (reply: Reply)
      requires Valid()
      modifies Banks()
      ensures Valid()
      ensures (Contents(), reply) == Step(old(Contents()), CycleLeft(at))
    {
      var mapped, writable := CanWrite(at);
      if !mapped {
        return NotMapped;
      }
      if !writable {
        return ReadOnly(false);
      }
      var before := ReadWritable(at);
      Write(at, before.(word := RotateLeft(before.word)));
      reply := Cycled(before.meta);
    }
  }
}
