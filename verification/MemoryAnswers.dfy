/**
 * What programs see of the memory: the answers its operations give over any run, and what
 * each makes of the bits of the word it addresses.
 */
module MemoryAnswers {
  import opened Words
  import opened MemoryMap

  ghost predicate IsRun(m: Mem, ops: seq<Op>) {
    Sized(m) && forall i :: 0 <= i < |ops| ==> Proper(ops[i])
  }

  // ----- answers -----

  /** Main result: a fetch answers the word and the metabit that the flat memory has before it. */
  lemma FetchAnswers(m: Mem, before: seq<Op>, a: Address, setMeta: bool, clock: Word)
    requires IsRun(m, before) && IsWritable(m, a) && (setMeta ==> a < V_START)
    ensures Step(RunAll(m, before), Fetch(a, setMeta, clock)).1 == Fetched(FlatRun(Look(m, a), before, a))
  {
    RunRefinesFlat(m, before, a);
    AnswerOfFetch(RunAll(m, before), a, setMeta, clock);
  }

  lemma AnswerOfFetch(m: Mem, a: Address, setMeta: bool, clock: Word)
    requires Sized(m) && IsWritable(m, a) && (setMeta ==> a < V_START)
    ensures Step(m, Fetch(a, setMeta, clock)).1 == Fetched(Look(m, a))
  {
  }

  /** An operation that leaves the word at `a`, and its metabit but for setting it, alone. */
  predicate Elsewhere(op: Op, a: Address) {
    op.Fetch? || !ShareMeta(op.at, a)
  }

  predicate MarksAt(op: Op, a: Address) {
    op.Fetch? && op.at == a && op.setMeta && a < V_START
  }

  ghost predicate MarkedBy(ops: seq<Op>, a: Address) {
    exists i :: 0 <= i < |ops| && MarksAt(ops[i], a)
  }

  /**
   * Main result: a fetch answers the word that was last stored, whatever ran before the store
   * and was done at other addresses since.  If none of that was done to a register that
   * shares the metabit, this is set exactly if it was before the store, or if the store or a
   * fetch since then set it.
   */
  lemma StoredIsFetched(m: Mem, before: seq<Op>, value: Word, mark: bool, between: seq<Op>, a: Address,
      setMeta: bool, clock: Word)
    requires IsRun(m, before) && IsWritable(m, a) && (mark || setMeta ==> a < V_START)
    requires forall i :: 0 <= i < |between| ==> Proper(between[i]) && (between[i].at != a || between[i].Fetch?)
    ensures var middle := RunAll(m, before);
      IsWritable(middle, a) &&
      var answer := Step(RunAll(Step(middle, Store(a, value, mark)).0, between), Fetch(a, setMeta, clock)).1;
      && answer.Fetched? && answer.cell.word == value
      && ((forall i :: 0 <= i < |between| ==> Elsewhere(between[i], a)) ==>
            (answer.cell.meta <==> Look(middle, a).meta || mark || MarkedBy(between, a)))
  {
    RunRefinesFlat(m, before, a);
    var middle := RunAll(m, before);
    StoreIsFound(middle, value, mark, a);
    var stored := Step(middle, Store(a, value, mark)).0;
    hide MarkedBy;
    hide Step;
    hide Look;
    FetchAnswers(stored, between, a, setMeta, clock);
    OthersKeepTheWord(Look(stored, a), between, a);
    if forall i :: 0 <= i < |between| ==> Elsewhere(between[i], a) {
      OthersOnlyMark(Look(stored, a), between, a);
    }
  }

  lemma StoreIsFound(m: Mem, value: Word, mark: bool, a: Address)
    requires Sized(m) && IsWritable(m, a) && (mark ==> a < V_START)
    ensures var stored := Step(m, Store(a, value, mark)).0;
      IsWritable(stored, a) && Look(stored, a) == Cell(value, Look(m, a).meta || mark)
  {
  }

  lemma {:induction false} OthersOnlyMark(c: Cell, ops: seq<Op>, a: Address)
    requires forall i :: 0 <= i < |ops| ==> Proper(ops[i]) && Elsewhere(ops[i], a)
    ensures FlatRun(c, ops, a).meta <==> c.meta || MarkedBy(ops, a)
    decreases |ops|
  {
    if ops != [] {
      OthersOnlyMark(FlatWord(c, ops[0], a), ops[1..], a);
      assert FlatWord(c, ops[0], a).meta <==> c.meta || MarksAt(ops[0], a);
      assert forall i :: 0 < i < |ops| ==> ops[i] == ops[1..][i - 1];
      if MarkedBy(ops[1..], a) {
        var i :| 0 <= i < |ops[1..]| && MarksAt(ops[1..][i], a);
        assert MarksAt(ops[i + 1], a);
      }
    }
  }

  function Ones(bits: seq<bool>): nat {
    if bits == [] then 0 else (if bits[|bits| - 1] then 1 else 0) + Ones(bits[..|bits| - 1])
  }

  lemma {:induction false} ParityCountsOnes(bits: seq<bool>)
    ensures OddOnes(bits) <==> Ones(bits) % 2 == 1
  {
    if bits != [] {
      ParityCountsOnes(bits[1..]);
      OnesFromTheLeft(bits);
    }
  }

  lemma {:induction false} OnesFromTheLeft(bits: seq<bool>)
    requires bits != []
    ensures Ones(bits) == (if bits[0] then 1 else 0) + Ones(bits[1..])
  {
    if |bits| > 1 {
      var init := bits[..|bits| - 1];
      OnesFromTheLeft(init);
      assert init[1..] == bits[1..][..|bits[1..]| - 1];
    } else {
      assert bits[..0] == [] && bits[1..] == [];
    }
  }

  /**
   * Main result: SKM tests the bit as it was before the change it makes: of the word, its
   * metabit, or whether the number of ones in the word is odd.
   */
  lemma SkmAnswers(m: Mem, before: seq<Op>, a: Address, change: WordChange, clock: Word)
    requires IsRun(m, before) && IsWritable(m, a) && InRange(change)
    ensures var flat := FlatRun(Look(m, a), before, a);
      Step(RunAll(m, before), ChangeBit(a, change, clock)).1 == Tested(
        if change.bit.Value? then Some(flat.word[change.bit.index])
        else if change.bit.Meta? then Some(flat.meta)
        else if change.bit.Parity? then Some(Ones(flat.word) % 2 == 1)
        else None)
  {
    RunRefinesFlat(m, before, a);
    ParityCountsOnes(FlatRun(Look(m, a), before, a).word);
    hide OddOnes;
    hide FlatRun;
    hide RunAll;
    AnswerOfSkm(RunAll(m, before), a, change, clock);
  }

  lemma AnswerOfSkm(m: Mem, a: Address, change: WordChange, clock: Word)
    requires Sized(m) && IsWritable(m, a) && InRange(change)
    ensures Step(m, ChangeBit(a, change, clock)).1 == Tested(TestBit(Look(m, a), change))
  {
    hide Modified;
    hide TestBit;
  }

  /** Main result: TSD's cycle reports the metabit of the word, which it leaves as it is. */
  lemma TsdAnswers(m: Mem, before: seq<Op>, a: Address)
    requires IsRun(m, before) && IsWritable(m, a)
    ensures Step(RunAll(m, before), CycleLeft(a)).1 == Cycled(FlatRun(Look(m, a), before, a).meta)
  {
    RunRefinesFlat(m, before, a);
    hide FlatRun;
    hide RotateLeft;
  }

  /** Over any run, V-memory answers as it did at first, and its clock with the time. */
  lemma PanelAnswers(m: Mem, before: seq<Op>, a: Address, clock: Word)
    requires IsRun(m, before) && V_START <= a && !IsRegister(a)
    ensures Step(RunAll(m, before), Fetch(a, false, clock)).1
      == Fetched(if a == CLOCK then Cell(clock, m.panel.clock.meta) else Look(m, a))
  {
    PanelIsReadOnly(m, before, a);
    hide RunAll;
  }

  // ----- what becomes of a word, bit by bit -----

  function BitMade(was: bool, change: BitChange): bool {
    match change
    case Clear => false
    case Set => true
    case Flip => !was
  }

  /** Bit `j` of a word after the change of SKM and before its cycle. */
  function BitChanged(c: Cell, op: WordChange, j: nat): bool
    requires j < 36
  {
    if op.bit == Value(j) && op.change.Some? then BitMade(c.word[j], op.change.value) else c.word[j]
  }

  /**
   * SKM changes one bit or the metabit; its cycle then moves every bit a place to the right,
   * the lowest going to the sign if that is not set.
   */
  lemma SkmMakes(m: Mem, a: Address, op: WordChange, clock: Word, j: nat)
    requires Sized(m) && IsWritable(m, a) && InRange(op) && j < 36
    ensures var (before, after) := (Look(m, a), Look(StepAt(m, ChangeBit(a, op, clock)), a));
      && (after.word[j] <==>
            if !op.cycle then BitChanged(before, op, j)
            else if j < 35 then BitChanged(before, op, j + 1)
            else BitChanged(before, op, 0) || BitChanged(before, op, 35))
      && (after.meta <==>
            if op.bit.Meta? && op.change.Some? then BitMade(before.meta, op.change.value) else before.meta)
  {
    StepRefinesFlat(m, ChangeBit(a, op, clock), a);
  }

  /** The memory after an operation at an address that can be written. */
  function StepAt(m: Mem, op: Op): (r: Mem)
    requires Sized(m) && Proper(op) && IsWritable(m, op.at)
    ensures IsWritable(r, op.at)
  {
    StepRefinesFlat(m, op, op.at);
    Step(m, op).0
  }

  /** TSD cycles the whole word a place to the left. */
  lemma TsdMakes(m: Mem, a: Address, j: nat)
    requires Sized(m) && IsWritable(m, a) && j < 36
    ensures var (before, after) := (Look(m, a), Look(StepAt(m, CycleLeft(a)), a));
      && (after.word[j] <==> before.word[if j == 0 then 35 else j - 1])
      && (after.meta <==> before.meta)
  {
    StepRefinesFlat(m, CycleLeft(a), a);
  }

  /** A fetch leaves the word as it is, and can only set its metabit. */
  lemma FetchMakes(m: Mem, a: Address, setMeta: bool, clock: Word)
    requires Sized(m) && IsWritable(m, a)
    ensures Look(StepAt(m, Fetch(a, setMeta, clock)), a)
      == Cell(Look(m, a).word, Look(m, a).meta || (setMeta && a < V_START))
  {
    StepRefinesFlat(m, Fetch(a, setMeta, clock), a);
  }
}
