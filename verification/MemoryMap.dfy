/**
 * What the memory unit does, as functions on snapshots of its banks, and how that compares
 * with a flat memory of 2^17 words.
 */
module MemoryMap {
  import opened Words

  /** The bits of a word, the lowest first. */
  type Word = w: seq<bool> | |w| == 36 witness Repeated([false, false, false, false, false, false, false, false, false])

  function Repeated(quarter: seq<bool>): seq<bool> {
    quarter + quarter + quarter + quarter
  }

  const SIGN := 35

  /** A word with its metabit. */
  datatype Cell = Cell(word: Word, meta: bool)

  type Address = a: nat | a < 0x2_0000

  const T_START: Address := 0x1_0000
  const U_START: Address := 0x1_1000
  const U_END: Address := 0x1_2000
  const V_START: Address := 0x1_FF80
  const A_REGISTER: Address := 0x1_FF84
  const E_REGISTER: Address := 0x1_FF88
  const KNOBS: Address := 0x1_FF90
  const EXTERNAL_INPUT: Address := 0x1_FF91
  const CLOCK: Address := 0x1_FF98
  const TOGGLES: Address := 0x1_FFC0
  const PLUGBOARD: Address := 0x1_FFE0

  const ZERO: Cell := Cell(Repeated([false, false, false, false, false, false, false, false, false]), false)

  /** Reading a place in V-memory where there is nothing finds 404 (octal) in each quarter. */
  const UNKNOWN: Cell := Cell(Repeated([false, false, true, false, false, false, false, false, true]), false)

  /** What the machine only shows: switches, encoders, the clock and the plugboard. */
  datatype Panel = Panel(knobs: Cell, external: Cell, clock: Cell, toggles: seq<Cell>, plugboard: seq<Word>)

  /** The banks; `registers` are A to E, which share one metabit. */
  datatype Mem = Mem(s: seq<Cell>, t: seq<Cell>, u: Option<seq<Cell>>, registers: seq<Word>, registerMeta: bool,
      panel: Panel)

  predicate Sized(m: Mem) {
    && |m.s| == T_START && |m.t| == U_START - T_START
    && (m.u.Some? ==> |m.u.value| == U_END - U_START)
    && |m.registers| == 5 && |m.panel.toggles| == 24 && |m.panel.plugboard| == 32
  }

  predicate IsRegister(a: Address) {
    A_REGISTER <= a <= E_REGISTER
  }

  predicate IsMapped(m: Mem, a: Address) {
    a < U_START || (a < U_END && m.u.Some?) || V_START <= a
  }

  predicate IsWritable(m: Mem, a: Address) {
    IsMapped(m, a) && (a < V_START || IsRegister(a))
  }

  /** What is found at an address that is mapped. */
  function Look(m: Mem, a: Address): Cell
    requires Sized(m) && IsMapped(m, a)
  {
    if a < T_START then m.s[a]
    else if a < U_START then m.t[a - T_START]
    else if a < U_END then m.u.value[a - U_START]
    else if IsRegister(a) then Cell(m.registers[a - A_REGISTER], m.registerMeta)
    else if a == KNOBS then m.panel.knobs
    else if a == EXTERNAL_INPUT then m.panel.external
    else if a == CLOCK then m.panel.clock
    else if TOGGLES <= a < TOGGLES + 24 then m.panel.toggles[a - TOGGLES]
    else if PLUGBOARD <= a then Cell(m.panel.plugboard[a - PLUGBOARD], false)
    else UNKNOWN
  }

  function Put(m: Mem, a: Address, c: Cell): (r: Mem)
    requires Sized(m) && IsWritable(m, a)
    ensures Sized(r)
  {
    if a < T_START then m.(s := m.s[a := c])
    else if a < U_START then m.(t := m.t[a - T_START := c])
    else if a < U_END then m.(u := Some(m.u.value[a - U_START := c]))
    else m.(registers := m.registers[a - A_REGISTER := c.word], registerMeta := c.meta)
  }

  /** Reading the clock brings it up to date. */
  function Ticked(m: Mem, a: Address, clock: Word): (r: Mem)
    requires Sized(m)
    ensures Sized(r)
  {
    if a == CLOCK then m.(panel := m.panel.(clock := m.panel.clock.(word := clock))) else m
  }

  // ----- bits -----

  datatype BitChange = Clear | Set | Flip

  /** A bit of the word, its metabit, its parity, or none at all. */
  datatype BitPosition = Value(index: nat) | Meta | Parity | Nonexistent

  datatype WordChange = WordChange(bit: BitPosition, change: Option<BitChange>, cycle: bool)

  predicate InRange(op: WordChange) {
    op.bit.Value? ==> op.bit.index < 36
  }

  predicate OddOnes(bits: seq<bool>) {
    bits != [] && bits[0] != OddOnes(bits[1..])
  }

  predicate Mutates(op: WordChange) {
    op.cycle || (op.change.Some? && (op.bit.Value? || op.bit.Meta?))
  }

  function TestBit(c: Cell, op: WordChange): Option<bool>
    requires InRange(op)
  {
    match op.bit
    case Value(i) => Some(c.word[i])
    case Meta => Some(c.meta)
    case Parity => Some(OddOnes(c.word))
    case Nonexistent => None
  }

  function ChangedWord(w: Word, op: WordChange): Word
    requires InRange(op)
  {
    match (op.bit, op.change)
    case (Value(i), Some(Clear)) => w[i := false]
    case (Value(i), Some(Set)) => w[i := true]
    case (Value(i), Some(Flip)) => w[i := !w[i]]
    case _ => w
  }

  function ChangedMeta(meta: bool, op: WordChange): bool {
    match (op.bit, op.change)
    case (Meta, Some(Clear)) => false
    case (Meta, Some(Set)) => true
    case (Meta, Some(Flip)) => !meta
    case _ => meta
  }

  /** A change of one bit is seen by a test of that bit and of no other. */
  lemma ChangeReachesOneBit(c: Cell, i: nat, j: nat, change: BitChange)
    requires i < 36 && j < 36
    ensures var op := WordChange(Value(i), Some(change), false);
      TestBit(Modified(c, op), WordChange(Value(j), None, false)) == Some(
        if j != i then c.word[j]
        else match change case Clear => false case Set => true case Flip => !c.word[i])
  {
  }

  function RotateRight(w: Word): Word {
    w[1..] + [w[0]]
  }

  function RotateLeft(w: Word): Word {
    [w[SIGN]] + w[..SIGN]
  }

  /** One place to the right around the word, with a sign that was set staying set. */
  function CycleMemoryRight(w: Word): Word {
    var rotated := RotateRight(w);
    rotated[SIGN := rotated[SIGN] || w[SIGN]]
  }

  /** The number that bits stand for, the lowest first. */
  function Magnitude(bits: seq<bool>): nat {
    if bits == [] then 0 else 2 * Magnitude(bits[1..]) + if bits[0] then 1 else 0
  }

  function Complemented(bits: seq<bool>): (r: seq<bool>)
    ensures |r| == |bits|
  {
    seq(|bits|, i requires 0 <= i < |bits| => !bits[i])
  }

  /** The one's complement value of a word. */
  function SignedNumber(w: Word): int {
    if w[SIGN] then 0 - Magnitude(Complemented(w)) else Magnitude(w)
  }

  /** Half of a number, rounded towards zero. */
  function Half(n: int): int {
    if n < 0 then -(-n / 2) else n / 2
  }

  lemma {:induction false} LeadingZero(bits: seq<bool>)
    ensures Magnitude(bits + [false]) == Magnitude(bits)
  {
    if bits == [] {
      assert [false][1..] == [];
    } else {
      LeadingZero(bits[1..]);
      assert (bits + [false])[1..] == bits[1..] + [false];
    }
  }

  lemma {:induction false} SomeBitSet(bits: seq<bool>, i: nat)
    requires i < |bits| && bits[i]
    ensures Magnitude(bits) > 0
  {
    if i > 0 {
      SomeBitSet(bits[1..], i - 1);
    }
  }

  /** Bits that lead up to the sign, one place to the right, are half as much. */
  lemma ShiftedMagnitude(w: Word)
    requires !w[SIGN]
    ensures Magnitude(w[1..] + [false]) == Magnitude(w) / 2
  {
    LeadingZero(w[1..]);
  }

  /**
   * Cycling right halves the signed number in a word, rounding towards zero, exactly when the
   * number is negative or even; the lowest bit of a positive odd one ends up in its sign.
   */
  lemma CycleHalvesIff(w: Word)
    ensures SignedNumber(CycleMemoryRight(w)) == Half(SignedNumber(w)) <==> w[SIGN] || !w[0]
  {
    var cycled := CycleMemoryRight(w);
    if w[SIGN] {
      assert Complemented(cycled) == Complemented(w)[1..] + [false];
      ShiftedMagnitude(Complemented(w));
    } else if !w[0] {
      assert cycled == w[1..] + [false];
      ShiftedMagnitude(w);
    } else {
      assert Complemented(cycled)[SIGN - 1];
      SomeBitSet(Complemented(cycled), SIGN - 1);
    }
  }

  function Modified(c: Cell, op: WordChange): Cell
    requires InRange(op)
  {
    var w := ChangedWord(c.word, op);
    Cell(if op.cycle then CycleMemoryRight(w) else w, ChangedMeta(c.meta, op))
  }

  // ----- operations -----

  datatype Op =
    | Fetch(at: Address, setMeta: bool, clock: Word)
    | Store(at: Address, value: Word, setMeta: bool)
    | ChangeBit(at: Address, change: WordChange, clock: Word)
    | CycleLeft(at: Address)

  datatype Reply =
    | Fetched(cell: Cell)
    | Tested(bit: Option<bool>)
    | Cycled(meta: bool)
    | Ignored
    | Stored
    | NotMapped
    | ReadOnly(meta: bool)

  predicate Proper(op: Op) {
    op.ChangeBit? ==> InRange(op.change)
  }

  function Step(m: Mem, op: Op): (r: (Mem, Reply))
    requires Sized(m) && Proper(op)
    ensures Sized(r.0)
  {
    match op
    case Fetch(a, setMeta, clock) =>
      if !IsMapped(m, a) then (m, NotMapped)
      else
        var read := Ticked(m, a, clock);
        var c := Look(read, a);
        if !setMeta then (read, Fetched(c))
        else if a >= V_START then (read, ReadOnly(c.meta))
        else (Put(read, a, c.(meta := true)), Fetched(c))
    case Store(a, value, setMeta) =>
      if a >= V_START && setMeta then (m, Ignored)
      else if !IsMapped(m, a) then (m, NotMapped)
      else if !IsWritable(m, a) then (m, Ignored)
      else (Put(m, a, Cell(value, setMeta || Look(m, a).meta)), Stored)
    case ChangeBit(a, change, clock) =>
      if !IsMapped(m, a) then (m, NotMapped)
      else if !Mutates(change) || !IsWritable(m, a) then
        var read := Ticked(m, a, clock);
        (read, Tested(TestBit(Look(read, a), change)))
      else (Put(m, a, Modified(Look(m, a), change)), Tested(TestBit(Look(m, a), change)))
    case CycleLeft(a) =>
      if !IsMapped(m, a) then (m, NotMapped)
      else if !IsWritable(m, a) then (m, ReadOnly(false))
      else
        var c := Look(m, a);
        (Put(m, a, c.(word := RotateLeft(c.word))), Cycled(c.meta))
  }

  function RunAll(m: Mem, ops: seq<Op>): (r: Mem)
    requires Sized(m) && forall i :: 0 <= i < |ops| ==> Proper(ops[i])
    ensures Sized(r)
    decreases |ops|
  {
    if ops == [] then m else RunAll(Step(m, ops[0]).0, ops[1..])
  }

  // ----- the flat memory -----

  /** What an operation makes of the one word it addresses, if that word can be written. */
  function NewCell(c: Cell, op: Op): Cell
    requires Proper(op)
  {
    match op
    case Fetch(a, setMeta, _) => if setMeta && a < V_START then c.(meta := true) else c
    case Store(a, value, setMeta) => if a >= V_START && setMeta then c else Cell(value, setMeta || c.meta)
    case ChangeBit(_, change, _) => if Mutates(change) then Modified(c, change) else c
    case CycleLeft(_) => c.(word := RotateLeft(c.word))
  }

  /** Two addresses with one metabit between them. */
  predicate ShareMeta(a: Address, b: Address) {
    a == b || (IsRegister(a) && IsRegister(b))
  }

  /** The flat memory: a word changes only through operations at its own address. */
  function FlatWord(c: Cell, op: Op, a: Address): Cell
    requires Proper(op)
  {
    if op.at == a then NewCell(c, op)
    else if ShareMeta(op.at, a) then Cell(c.word, NewCell(c, op).meta)
    else c
  }

  /** What the operations of a run that concern an address make of the word there. */
  function FlatRun(c: Cell, ops: seq<Op>, a: Address): Cell
    requires forall i :: 0 <= i < |ops| ==> Proper(ops[i])
    decreases |ops|
  {
    if ops == [] then c else FlatRun(FlatWord(c, ops[0], a), ops[1..], a)
  }

  lemma PutChangesOneWord(m: Mem, at: Address, c: Cell, a: Address)
    requires Sized(m) && IsWritable(m, at) && IsMapped(m, a)
    ensures IsMapped(Put(m, at, c), a)
    ensures Look(Put(m, at, c), a)
      == if a == at then c else if ShareMeta(a, at) then Cell(Look(m, a).word, c.meta) else Look(m, a)
  {
  }

  /** The banks behave as the flat memory does, at each address that can be written. */
  lemma StepRefinesFlat(m: Mem, op: Op, a: Address)
    requires Sized(m) && Proper(op) && IsWritable(m, a)
    ensures IsWritable(Step(m, op).0, a)
    ensures Look(Step(m, op).0, a) == FlatWord(Look(m, a), op, a)
  {
    hide ChangedWord;
    hide TestBit;
    hide CycleMemoryRight;
    hide RotateLeft;
    if IsWritable(m, op.at) {
      PutChangesOneWord(m, op.at, NewCell(Look(m, op.at), op), a);
    }
  }

  /**
   * Main result: over any run, a writable word is what the operations at its own address
   * made of it; only its metabit may also have changed through another register.
   */
  lemma {:induction false} RunRefinesFlat(m: Mem, ops: seq<Op>, a: Address)
    requires Sized(m) && (forall i :: 0 <= i < |ops| ==> Proper(ops[i])) && IsWritable(m, a)
    ensures IsWritable(RunAll(m, ops), a)
    ensures Look(RunAll(m, ops), a) == FlatRun(Look(m, a), ops, a)
    decreases |ops|
  {
    if ops != [] {
      StepRefinesFlat(m, ops[0], a);
      RunRefinesFlat(Step(m, ops[0]).0, ops[1..], a);
    }
  }

  /** The last store decides, whatever ran before it and is done elsewhere after it. */
  lemma LastStoreCounts(m: Mem, before: seq<Op>, value: Word, setMeta: bool, after: seq<Op>, a: Address)
    requires Sized(m) && IsWritable(m, a) && (setMeta ==> a < V_START)
    requires forall i :: 0 <= i < |before| ==> Proper(before[i])
    requires forall i :: 0 <= i < |after| ==> Proper(after[i]) && (after[i].at != a || after[i].Fetch?)
    ensures var stored := Step(RunAll(m, before), Store(a, value, setMeta)).0;
      IsWritable(RunAll(stored, after), a) && Look(RunAll(stored, after), a).word == value
  {
    RunRefinesFlat(m, before, a);
    var middle := RunAll(m, before);
    StepRefinesFlat(middle, Store(a, value, setMeta), a);
    var stored := Step(middle, Store(a, value, setMeta)).0;
    assert Look(stored, a).word == value;
    hide *;
    RunRefinesFlat(stored, after, a);
    OthersKeepTheWord(Look(stored, a), after, a);
  }

  lemma {:induction false} OthersKeepTheWord(c: Cell, ops: seq<Op>, a: Address)
    requires forall i :: 0 <= i < |ops| ==> Proper(ops[i]) && (ops[i].at != a || ops[i].Fetch?)
    ensures FlatRun(c, ops, a).word == c.word
    decreases |ops|
  {
    if ops != [] {
      OthersKeepTheWord(FlatWord(c, ops[0], a), ops[1..], a);
    }
  }

  /** What V-memory shows outside registers A to E, the clock apart, no program can change. */
  lemma {:induction false} PanelIsReadOnly(m: Mem, ops: seq<Op>, a: Address)
    requires Sized(m) && (forall i :: 0 <= i < |ops| ==> Proper(ops[i]))
    requires V_START <= a && !IsRegister(a)
    ensures a != CLOCK ==> Look(RunAll(m, ops), a) == Look(m, a)
    ensures RunAll(m, ops).panel == m.panel.(clock := RunAll(m, ops).panel.clock)
    ensures RunAll(m, ops).panel.clock.meta == m.panel.clock.meta
    decreases |ops|
  {
    if ops != [] {
      StepKeepsThePanel(m, ops[0]);
      PanelIsReadOnly(Step(m, ops[0]).0, ops[1..], a);
    }
  }

  lemma StepKeepsThePanel(m: Mem, op: Op)
    requires Sized(m) && Proper(op)
    ensures var after := Step(m, op).0;
      after.panel == m.panel.(clock := after.panel.clock) && after.panel.clock.meta == m.panel.clock.meta
  {
    hide ChangedWord;
    hide CycleMemoryRight;
    hide RotateLeft;
    hide TestBit;
  }

  /** Exactly which operations are refused, and that a refusal changes nothing but the clock. */
  lemma RefusedIff(m: Mem, op: Op)
    requires Sized(m) && Proper(op)
    ensures Step(m, op).1.NotMapped? <==> !IsMapped(m, op.at)
    ensures Step(m, op).1.Ignored? <==> op.Store? && V_START <= op.at && (op.setMeta || !IsRegister(op.at))
    ensures Step(m, op).1.ReadOnly? <==>
      && V_START <= op.at
      && ((op.Fetch? && op.setMeta) || (op.CycleLeft? && !IsRegister(op.at)))
    ensures Step(m, op).1.NotMapped? || Step(m, op).1.Ignored? || Step(m, op).1.ReadOnly? ==>
      Step(m, op).0 == m || (op.at == CLOCK && op.Fetch?)
  {
    hide TestBit;
  }
}
