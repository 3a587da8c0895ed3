/**
 * The RC-block: words that the assembler sets aside for `{...}`, pipe constructs and
 * default-assigned symbols, and fills in once their values are known.
 */
module RcAllocation {
  import opened Words

  type Key = string

  /** A group holds at least one word. */
  type Count = n: nat | n > 0 witness 1

  /** Words of the block are given in order; a group of words is shared by all uses with its key. */
  datatype Block = Block(address: Word18, words: seq<Word36>, groups: map<Key, (Word18, Count)>)

  datatype Op =
    | Allocate(value: Word36)
    | AllocateGroup(key: Key, value: Word36, count: Count)
    | Update(at: Word18, value: Word36)

  datatype Reply = Given(addresses: seq<Word18>) | TooBig | Updated | Panicked

  const WORD_LIMIT: int := 0x4_0000

  function Offset(base: Word18, offset: nat): Word18 {
    Join((Physical(base) + offset) % MARK_BIT, Marked(base))
  }

  function AddressesFrom(start: Word18, count: nat): (r: seq<Word18>)
    ensures |r| == count && forall i :: 0 <= i < count ==> r[i] == Offset(start, i)
  {
    seq(count, i requires 0 <= i < count => Offset(start, i))
  }

  function Repeat(value: Word36, count: nat): (r: seq<Word36>)
    ensures |r| == count && forall i :: 0 <= i < count ==> r[i] == value
  {
    seq(count, _ => value)
  }

  function Min(a: nat, b: nat): nat {
    if a < b then a else b
  }

  function Step(b: Block, op: Op): (Block, Reply)
    requires |b.words| <= WORD_LIMIT
  {
    match op
    case Allocate(value) =>
      if |b.words| < WORD_LIMIT
      then (b.(words := b.words + [value]), Given([Offset(b.address, |b.words|)]))
      else (b, TooBig)
    case AllocateGroup(key, value, count) =>
      if key in b.groups then
        if b.groups[key].1 == count then (b, Given(AddressesFrom(b.groups[key].0, count))) else (b, Panicked)
      else if |b.words| == WORD_LIMIT then (b, TooBig)
      else
        var room := WORD_LIMIT - |b.words|;
        var grown := b.(words := b.words + Repeat(value, Min(count, room)));
        if count <= room then
          var start := Offset(b.address, |b.words|);
          (grown.(groups := b.groups[key := (start, count)]), Given(AddressesFrom(start, count)))
        else (grown, TooBig)
    case Update(at, value) =>
      if b.address <= at < b.address + |b.words|
      then (b.(words := b.words[at - b.address := value]), Updated)
      else (b, Panicked)
  }

  /** The block lies inside the 17-bit addresses, as machine addresses must. */
  predicate Fits(b: Block) {
    Physical(b.address) + |b.words| <= MARK_BIT
  }

  function FirstWord(b: Block, key: Key): int
    requires key in b.groups
  {
    b.groups[key].0 - b.address
  }

  /** Every group is a range of words inside the block, and groups do not overlap. */
  ghost predicate Consistent(b: Block) {
    && Fits(b)
    && (forall k :: k in b.groups ==> 0 <= FirstWord(b, k) && FirstWord(b, k) + b.groups[k].1 <= |b.words|)
    && (forall k, k' :: k in b.groups && k' in b.groups && k != k' ==>
          || FirstWord(b, k) + b.groups[k].1 <= FirstWord(b, k')
          || FirstWord(b, k') + b.groups[k'].1 <= FirstWord(b, k))
  }

  function RunAll(b: Block, ops: seq<Op>): (r: Block)
    requires |b.words| <= WORD_LIMIT
    ensures |r.words| <= WORD_LIMIT && r.address == b.address
    decreases ops
  {
    if ops == [] then b else RunAll(Step(b, ops[0]).0, ops[1..])
  }

  lemma OffsetInside(base: Word18, offset: nat)
    requires Physical(base) + offset < MARK_BIT
    ensures Offset(base, offset) == base + offset
  {
  }

  lemma StepKeepsConsistent(b: Block, op: Op)
    requires Consistent(b) && Fits(Step(b, op).0)
    ensures Consistent(Step(b, op).0)
  {
    if op.AllocateGroup? && op.key !in b.groups {
      OffsetInside(b.address, |b.words|);
    }
  }

  lemma {:induction false} BlockOnlyGrows(b: Block, ops: seq<Op>)
    requires |b.words| <= WORD_LIMIT
    ensures |b.words| <= |RunAll(b, ops).words|
    ensures forall k :: k in b.groups ==> k in RunAll(b, ops).groups && RunAll(b, ops).groups[k] == b.groups[k]
    decreases ops
  {
    if ops != [] {
      BlockOnlyGrows(Step(b, ops[0]).0, ops[1..]);
    }
  }

  /** Main result: any run that stays inside the address space keeps the block consistent. */
  lemma {:induction false} RunKeepsConsistent(b: Block, ops: seq<Op>)
    requires Consistent(b) && Fits(RunAll(b, ops))
    ensures Consistent(RunAll(b, ops))
    decreases ops
  {
    if ops != [] {
      BlockOnlyGrows(Step(b, ops[0]).0, ops[1..]);
      StepKeepsConsistent(b, ops[0]);
      RunKeepsConsistent(Step(b, ops[0]).0, ops[1..]);
    }
  }

  /** Main result: a key gets the same addresses however much is allocated in between. */
  lemma SameKeySameAddresses(b: Block, key: Key, v: Word36, count: Count, ops: seq<Op>, v': Word36)
    requires |b.words| <= WORD_LIMIT && Step(b, AllocateGroup(key, v, count)).1.Given?
    ensures var first := Step(b, AllocateGroup(key, v, count));
      Step(RunAll(first.0, ops), AllocateGroup(key, v', count)) == (RunAll(first.0, ops), first.1)
  {
    BlockOnlyGrows(Step(b, AllocateGroup(key, v, count)).0, ops);
  }

  /** Groups asked for under different keys have no address in common. */
  lemma DifferentKeysDifferentAddresses(b: Block, k: Key, k': Key, i: nat, j: nat)
    requires Consistent(b) && k in b.groups && k' in b.groups && k != k'
    requires i < b.groups[k].1 && j < b.groups[k'].1
    ensures AddressesFrom(b.groups[k].0, b.groups[k].1)[i] != AddressesFrom(b.groups[k'].0, b.groups[k'].1)[j]
  {
    OffsetInside(b.groups[k].0, i);
    OffsetInside(b.groups[k'].0, j);
  }

  /** The addresses of the words there are. */
  predicate IsAllocated(b: Block, at: Word18) {
    b.address <= at < b.address + |b.words|
  }

  lemma GivenAddressesAreAllocated(b: Block, op: Op, i: nat)
    requires Consistent(b) && Fits(Step(b, op).0) && Step(b, op).1.Given? && i < |Step(b, op).1.addresses|
    ensures IsAllocated(Step(b, op).0, Step(b, op).1.addresses[i])
  {
    match op {
      case Allocate(_) =>
        OffsetInside(b.address, |b.words|);
      case AllocateGroup(key, _, count) =>
        if key in b.groups {
          OffsetInside(b.groups[key].0, i);
        } else {
          OffsetInside(b.address, |b.words|);
          OffsetInside(Offset(b.address, |b.words|), i);
        }
    }
  }

  /** Main result: an address that was given out can be updated ever after. */
  lemma GivenAddressesStayUsable(b: Block, op: Op, ops: seq<Op>, i: nat, v: Word36)
    requires Consistent(b) && Fits(RunAll(Step(b, op).0, ops)) && Step(b, op).1.Given? && i < |Step(b, op).1.addresses|
    ensures Step(RunAll(Step(b, op).0, ops), Update(Step(b, op).1.addresses[i], v)).1 == Updated
  {
    BlockOnlyGrows(Step(b, op).0, ops);
    GivenAddressesAreAllocated(b, op, i);
  }

  /** An update changes the one word at its address, and panics only outside the block. */
  lemma UpdateChangesOneWord(b: Block, at: Word18, v: Word36)
    requires |b.words| <= WORD_LIMIT
    ensures Step(b, Update(at, v)).1 == Updated <==> IsAllocated(b, at)
    ensures var after := Step(b, Update(at, v)).0;
      && |after.words| == |b.words| && after.groups == b.groups
      && forall i :: 0 <= i < |b.words| ==> after.words[i] == if b.address + i == at then v else b.words[i]
  {
  }

  /**
   * The address of a newly allocated word is the address of that word exactly while the
   * block ends below the top of the 17-bit address space; past it the address wraps.
   */
  lemma NewAddressNamesNewWordIff(b: Block, v: Word36, v': Word36)
    requires |b.words| < WORD_LIMIT && v != v'
    ensures var (after, reply) := Step(b, Allocate(v));
      (Step(after, Update(reply.addresses[0], v')).0 == after.(words := b.words + [v']))
      <==> Physical(b.address) + |b.words| < MARK_BIT
  {
    var (after, reply) := Step(b, Allocate(v));
    var at := reply.addresses[0];
    var updated := Step(after, Update(at, v')).0;
    if Physical(b.address) + |b.words| < MARK_BIT {
      OffsetInside(b.address, |b.words|);
      assert updated.words == b.words + [v'];
    } else {
      assert at - b.address != |b.words|;
      assert updated.words[|b.words|] == v;
    }
  }

  class RcBlock {
    const address: Word18
    var words: seq<Word36>
    var reusableGroups: map<Key, (Word18, Count)>

    ghost function Contents(): Block
      reads this
    {
      Block(address, words, reusableGroups)
    }

    constructor (address: Word18)
      ensures Contents() == Block(address, [], map[])
    {
      this.address, words, reusableGroups := address, [], map[];
    }

    /** The address after the last word, while the length is an 18-bit number. */
    method End() returns (r: Option<Word18>)
      ensures r == if |words| < WORD_LIMIT then Some(Offset(address, |words|)) else None
    {
      r := if |words| < WORD_LIMIT then Some(Offset(address, |words|)) else None;
    }

    method AllocateWord(value: Word36) returns (r: Reply)
      requires |words| <= WORD_LIMIT
      modifies this`words
      ensures (Contents(), r) == Step(old(Contents()), Allocate(value))
    {
      var end := End();
      if end.None? {
        return TooBig;
      }
      words := words + [value];
      r := Given([end.value]);
    }

    method AllocateReusableGroup(key: Key, value: Word36, count: Count) returns (r: Reply)
      requires |words| <= WORD_LIMIT
      modifies this`words, this`reusableGroups
      ensures (Contents(), r) == Step(old(Contents()), AllocateGroup(key, value, count))
    {
      if key in reusableGroups {
        var (start, prior) := reusableGroups[key];
        return if count == prior then Given(AddressesFrom(start, count)) else Panicked;
      }
      var start := End();
      if start.None? {
        return TooBig;
      }
      var n := 0;
      while n < count
        invariant 0 <= n <= count && |old(words)| + n <= WORD_LIMIT
        invariant words == old(words) + Repeat(value, n) && reusableGroups == old(reusableGroups)
      {
        var one := AllocateWord(value);
        if one.TooBig? {
          assert n == Min(count, WORD_LIMIT - |old(words)|);
          return TooBig;
        }
        n := n + 1;
      }
      reusableGroups := reusableGroups[key := (start.value, count)];
      r := Given(AddressesFrom(start.value, count));
    }

    method UpdateWord(at: Word18, value: Word36) returns (r: Reply)
      requires |words| <= WORD_LIMIT
      modifies this`words
      ensures (Contents(), r) == Step(old(Contents()), Update(at, value))
    {
      if at < address {
        return Panicked;
      }
      var offset := at - address;
      if offset >= |words| {
        return Panicked;
      }
      words := words[offset := value];
      r := Updated;
    }
  }
}
