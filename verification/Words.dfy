/** Machine words, and what else more than one part of the simulator or the assembler uses. */
module Words {

  datatype Option<+T> = None | Some(value: T)

  /** Where a character stands on its line. */
  datatype Script = Normal | Super | Sub

  /** The number of a sequence (today: a hardware thread) or of an index register. */
  type SequenceNumber = n: nat | n < 64

  /** An index register other than register 0, which always holds 0. */
  type WritableIndex = n: nat | 0 < n < 64 witness 1

  /** 18 bits: an address with its mark bit, or an index register. */
  type Word18 = w: nat | w < 0x4_0000

  /** A 36-bit memory word. */
  type Word36 = w: nat | w < 0x10_0000_0000

  /** Bit 2.9 of an address; the 17 bits below it select a register. */
  const MARK_BIT: int := 0x2_0000

  predicate Marked(a: Word18) {
    a >= MARK_BIT
  }

  function Physical(a: Word18): (r: Word18)
    ensures r < MARK_BIT
  {
    a % MARK_BIT
  }

  function Join(address: Word18, mark: bool): (r: Word18)
    ensures Physical(r) == Physical(address) && Marked(r) == mark
  {
    Physical(address) + if mark then MARK_BIT else 0
  }

  /** The one's complement value of 18 bits; both zeros have the value 0. */
  function SignedValue(w: Word18): (v: int)
    ensures -MARK_BIT < v < MARK_BIT
  {
    if Marked(w) then w - 0x3_FFFF else w
  }

  function Complement(w: Word18): Word18 {
    0x3_FFFF - w
  }

  /** Address arithmetic: a ring of 17 bits; the mark bit of the base is carried along. */
  function IndexBy(base: Word18, delta: Word18): Word18 {
    Join((Physical(base) + SignedValue(delta)) % MARK_BIT, Marked(base))
  }

  function Successor(a: Word18): Word18 {
    IndexBy(a, 1)
  }

  /**
   * `sum` is `base` moved by the number that `delta` stands for, in numbers only: its lower 17
   * bits go round and its mark bit stays.  The upper half of the deltas are the negative ones.
   */
  predicate IsMovedBy(base: Word18, delta: Word18, sum: Word18) {
    && sum / 0x2_0000 == base / 0x2_0000
    && (delta < 0x2_0000 ==> sum % 0x2_0000 == (base + delta) % 0x2_0000)
    && (delta >= 0x2_0000 ==> (sum + (0x3_FFFF - delta)) % 0x2_0000 == base % 0x2_0000)
  }

  /** The address arithmetic of the machine is that of `IsMovedBy`, and of nothing else. */
  lemma IndexByMoves(base: Word18, delta: Word18, sum: Word18)
    ensures IndexBy(base, delta) == sum <==> IsMovedBy(base, delta, sum)
  {
    var moved := IndexBy(base, delta);
    MovedIs(base, delta);
    if IsMovedBy(base, delta, sum) {
      MovedOnce(base, delta, moved, sum);
    }
  }

  lemma MovedIs(base: Word18, delta: Word18)
    ensures IsMovedBy(base, delta, IndexBy(base, delta))
  {
    var moved, low := IndexBy(base, delta), Physical(base);
    assert Physical(moved) == (low + SignedValue(delta)) % MARK_BIT;
    if !Marked(delta) {
      assert (base + delta) % 0x2_0000 == (low + delta) % 0x2_0000;
    } else {
      var back := 0x3_FFFF - delta;
      assert (low - back) % MARK_BIT == if back <= low then low - back else low - back + MARK_BIT;
    }
  }

  lemma MovedOnce(base: Word18, delta: Word18, one: Word18, other: Word18)
    requires IsMovedBy(base, delta, one) && IsMovedBy(base, delta, other)
    ensures one == other
  {
  }

  /** Counting on moves by one. */
  lemma SuccessorCounts(a: Word18)
    ensures Successor(a) / 0x2_0000 == a / 0x2_0000 && Successor(a) % 0x2_0000 == (a + 1) % 0x2_0000
  {
    MovedIs(a, 1);
  }

  /** Indexing by a value and by its one's complement cancel, whatever wraps. */
  lemma IndexByComplementCancels(base: Word18, delta: Word18)
    ensures IndexBy(IndexBy(base, delta), Complement(delta)) == base
  {
    var forward, d := IndexBy(base, delta), SignedValue(delta);
    assert SignedValue(Complement(delta)) == -d;
    assert Physical(forward) == (Physical(base) + d) % MARK_BIT;
    ThereAndBack(Physical(base), d);
  }

  lemma ThereAndBack(low: nat, d: int)
    requires low < MARK_BIT && -MARK_BIT < d < MARK_BIT
    ensures ((low + d) % MARK_BIT - d) % MARK_BIT == low
  {
    assert (low + d) % MARK_BIT ==
      if low + d < 0 then low + d + MARK_BIT else if low + d >= MARK_BIT then low + d - MARK_BIT else low + d;
  }

  /**
   * The test that a saved program counter is marked compares a one's complement
   * number with 0, so it misses exactly one marked pattern: minus zero.
   */
  predicate IsMarkedPlaceholder(saved: Word18) {
    SignedValue(saved) < 0
  }

  lemma MarkedPlaceholderIsMarkBitExceptMinusZero(saved: Word18)
    ensures IsMarkedPlaceholder(saved) <==> Marked(saved) && saved != Complement(0)
  {
  }

  /** The lowest-numbered member of `flags` that is at least `from`. */
  function LowestFrom(flags: set<SequenceNumber>, from: nat): (r: Option<SequenceNumber>)
    requires from <= 64
    ensures r.None? <==> forall f :: f in flags ==> f < from
    ensures r.Some? ==> r.value in flags && from <= r.value
    ensures r.Some? ==> forall f :: f in flags && from <= f ==> r.value <= f
    decreases 64 - from
  {
    if from == 64 then None
    else if from in flags then Some(from)
    else LowestFrom(flags, from + 1)
  }
}
