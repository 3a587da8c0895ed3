/**
 * Where the assembler puts the blocks of a program.  Tags get their values from one walk
 * over the source, words get their addresses from another; the two have to agree.
 */
module BlockLayout {
  import opened Words
  import A = AssemblyTree
  import Unfolding

  type TagName = string

  /** One instruction; each becomes one word of output. */
  datatype Line = Line(tags: set<TagName>)

  /**
   * A block whose origin is a number or absent.  A symbolic origin whose symbol has no
   * definition is placed as an absent one.
   */
  datatype SourceBlock = SourceBlock(origin: Option<Word18>, sequences: seq<seq<Line>>)

  function Lines(sequences: seq<seq<Line>>): seq<Line> {
    if sequences == [] then [] else sequences[0] + Lines(sequences[1..])
  }

  function Size(b: SourceBlock): nat {
    |Lines(b.sequences)|
  }

  /** Blocks whose sizes the assembler can count. */
  predicate Countable(blocks: seq<SourceBlock>) {
    forall b <- blocks :: Size(b) < 0x4_0000
  }

  function Position(blocks: seq<SourceBlock>, i: nat): Option<Word18>
    requires i < |blocks| && Countable(blocks)
  {
    if blocks[i].origin.Some? then blocks[i].origin
    else if i == 0 then Some(Unfolding.DEFAULT_ORIGIN)
    else
      match Position(blocks, i - 1)
      case None => None
      case Some(before) => Unfolding.OffsetFromOrigin(before, Size(blocks[i - 1]))
  }

  /** The value of a tag on line `k` of a block: the block's address plus the offset. */
  function TagValue(position: Word18, k: nat): Option<Word18> {
    if k < 0x4_0000 then Unfolding.OffsetFromOrigin(position, k) else None
  }

  /** The address at which line `k` of a block is emitted. */
  function EmittedAt(position: Word18, k: nat): Word18 {
    Join((Physical(position) + k) % MARK_BIT, Marked(position))
  }

  /** The blocks as the evaluator of symbols sees them, once they have been placed. */
  function Placed(blocks: seq<SourceBlock>): Unfolding.Program
    requires Countable(blocks)
  {
    Unfolding.Program(map[], seq(|blocks|, i requires 0 <= i < |blocks| =>
      Unfolding.Block(if blocks[i].origin.Some? then Some(A.AtAddress(blocks[i].origin.value)) else None,
                      Position(blocks, i), Size(blocks[i]))))
  }

  /** The evaluator finds a block where the loop over the blocks put it, or fails where that does. */
  lemma EvaluatorFindsTheBlock(blocks: seq<SourceBlock>, i: nat, rho: A.Valuation, ctx: A.Context)
    requires Countable(blocks) && i < |blocks|
    ensures Unfolding.EvalBlock(Placed(blocks), i, rho, ctx) == Unfolding.AddressOutcome(Position(blocks, i))
  {
    hide Size;
    var p := Placed(blocks);
    assert |p.blocks| == |blocks|;
    if blocks[i].origin.None? && i > 0 {
      assert p.blocks[i - 1].address == Position(blocks, i - 1) && p.blocks[i - 1].size == Size(blocks[i - 1]);
    }
  }

  /** Main result: what the evaluator gives for a tag is the value of the tag in this module. */
  lemma EvaluatorGivesTagValue(blocks: seq<SourceBlock>, i: nat, k: Word18, rho: A.Valuation, ctx: A.Context)
    requires Countable(blocks) && i < |blocks|
    ensures Unfolding.EvalDefinition(Placed(blocks), A.Tag(i, k), rho, ctx) ==
      if Position(blocks, i).None? then A.Failed else Unfolding.AddressOutcome(TagValue(Position(blocks, i).value, k))
  {
    EvaluatorFindsTheBlock(blocks, i, rho, ctx);
    if Position(blocks, i).Some? {
      assert Position(blocks, i).value % 0x4_0000 == Position(blocks, i).value;
    }
  }

  lemma {:induction false} LinesOfPrefix(sequences: seq<seq<Line>>, n: nat)
    requires n < |sequences|
    ensures Lines(sequences[..n + 1]) == Lines(sequences[..n]) + sequences[n]
    decreases n
  {
    if n == 0 {
      assert sequences[..1][1..] == [];
      assert Lines(sequences[..1]) == sequences[0] + Lines([]);
    } else {
      LinesOfPrefix(sequences[1..], n - 1);
      assert sequences[..n + 1][1..] == sequences[1..][..n];
      assert sequences[..n][1..] == sequences[1..][..n - 1];
      assert Lines(sequences[..n + 1]) == sequences[0] + Lines(sequences[1..][..n]);
    }
  }

  /** Places each block in turn; the address of a block may depend on the one before it. */
  method PlaceBlocks(blocks: seq<SourceBlock>) returns (r: Option<seq<Word18>>)
    requires Countable(blocks)
    ensures r.Some? ==>
      |r.value| == |blocks| && forall i :: 0 <= i < |blocks| ==> Position(blocks, i) == Some(r.value[i])
    ensures r.None? <==> exists i :: 0 <= i < |blocks| && Position(blocks, i).None?
  {
    var placed: seq<Word18> := [];
    for i := 0 to |blocks|
      invariant |placed| == i
      invariant forall j :: 0 <= j < i ==> Position(blocks, j) == Some(placed[j])
    {
      var position: Option<Word18>;
      if blocks[i].origin.Some? {
        position := blocks[i].origin;
      } else if i == 0 {
        position := Some(Unfolding.DEFAULT_ORIGIN);
      } else {
        position := Unfolding.OffsetFromOrigin(placed[i - 1], Size(blocks[i - 1]));
      }
      if position.None? {
        assert Position(blocks, i).None?;
        return None;
      }
      placed := placed + [position.value];
    }
    r := Some(placed);
  }

  /** The walk that defines tags: the offset of every line of the block, sequence by sequence. */
  method TagOffsets(b: SourceBlock) returns (offsets: seq<(Line, nat)>)
    ensures |offsets| == Size(b)
    ensures forall k :: 0 <= k < Size(b) ==> offsets[k] == (Lines(b.sequences)[k], k)
  {
    offsets := [];
    var startOffset := 0;
    for s := 0 to |b.sequences|
      invariant startOffset == |offsets| == |Lines(b.sequences[..s])|
      invariant forall k :: 0 <= k < |offsets| ==> offsets[k] == (Lines(b.sequences[..s])[k], k)
    {
      LinesOfPrefix(b.sequences, s);
      var sequence := b.sequences[s];
      for i := 0 to |sequence|
        invariant |offsets| == startOffset + i
        invariant forall k :: 0 <= k < |offsets| ==> offsets[k] == (Lines(b.sequences[..s + 1])[k], k)
      {
        offsets := offsets + [(sequence[i], startOffset + i)];
      }
      startOffset := startOffset + |sequence|;
    }
    assert b.sequences[..|b.sequences|] == b.sequences;
  }

  /** The walk that emits words: the address of every line of the block once it is located. */
  method EmitAddresses(b: SourceBlock, location: Word18) returns (emitted: seq<(Line, Word18)>)
    ensures |emitted| == Size(b)
    ensures forall k :: 0 <= k < Size(b) ==> emitted[k] == (Lines(b.sequences)[k], EmittedAt(location, k))
  {
    emitted := [];
    for s := 0 to |b.sequences|
      invariant |emitted| == |Lines(b.sequences[..s])|
      invariant forall k :: 0 <= k < |emitted| ==> emitted[k] == (Lines(b.sequences[..s])[k], EmittedAt(location, k))
    {
      LinesOfPrefix(b.sequences, s);
      var currentLength := |emitted|;
      var sequence := b.sequences[s];
      for i := 0 to |sequence|
        invariant |emitted| == currentLength + i
        invariant forall k :: 0 <= k < |emitted| ==>
          emitted[k] == (Lines(b.sequences[..s + 1])[k], EmittedAt(location, k))
      {
        emitted := emitted + [(sequence[i], EmittedAt(location, i + currentLength))];
      }
    }
    assert b.sequences[..|b.sequences|] == b.sequences;
  }

  /** Neither the block nor the walk to line `k` of it leaves the 17-bit memory. */
  predicate Agreeable(position: Word18, k: nat) {
    Physical(position) + k < 0x4_0000 && (Marked(position) <==> Physical(position) + k >= MARK_BIT)
  }

  /**
   * Main result: a tag has the address of the word it is written on exactly when the two
   * walks treat the top of memory alike: one counts past it and drops the mark bit of the
   * origin, the other wraps around and keeps the mark bit.
   */
  lemma TagNamesItsWordIff(position: Word18, k: nat)
    ensures TagValue(position, k) == Some(EmittedAt(position, k)) <==> Agreeable(position, k)
  {
    var flat := Physical(position) + k;
    if flat < 0x4_0000 {
      WrapsOnce(flat);
      var wrapped := if flat < MARK_BIT then flat else flat - MARK_BIT;
      assert EmittedAt(position, k) == wrapped + if Marked(position) then MARK_BIT else 0;
    }
  }

  lemma WrapsOnce(flat: nat)
    requires flat < 2 * MARK_BIT
    ensures flat % MARK_BIT == if flat < MARK_BIT then flat else flat - MARK_BIT
  {
  }

  /** An ordinary origin needs only that the word is below the top of memory. */
  lemma TagBelowTheTopNamesItsWord(position: Word18, k: nat)
    requires !Marked(position)
    ensures Agreeable(position, k) <==> position + k < MARK_BIT
    ensures position + k < MARK_BIT ==>
      TagValue(position, k) == Some(position + k) && EmittedAt(position, k) == position + k
  {
  }

  /**
   * Main result: a block without an origin starts right after the last word of the block
   * before it, exactly when that block also satisfies the condition on its tags.
   */
  lemma StartsAfterPreviousIff(blocks: seq<SourceBlock>, i: nat)
    requires Countable(blocks) && 0 < i < |blocks| && blocks[i].origin.None?
    requires Position(blocks, i - 1).Some? && Size(blocks[i - 1]) > 0
    ensures var before, size := Position(blocks, i - 1).value, Size(blocks[i - 1]);
      Position(blocks, i) == Some(Successor(EmittedAt(before, size - 1))) <==> Agreeable(before, size)
  {
    var before, size := Position(blocks, i - 1).value, Size(blocks[i - 1]);
    assert Position(blocks, i) == Unfolding.OffsetFromOrigin(before, size);
    SuccessorOfEmitted(before, size - 1);
    TagNamesItsWordIff(before, size);
  }

  lemma SuccessorOfEmitted(position: Word18, k: nat)
    ensures Successor(EmittedAt(position, k)) == EmittedAt(position, k + 1)
  {
    var at := (Physical(position) + k) % MARK_BIT;
    assert Physical(EmittedAt(position, k)) == at;
    assert (Physical(position) + k + 1) % MARK_BIT == (at + 1) % MARK_BIT;
  }

  predicate InMemory(blocks: seq<SourceBlock>, i: nat)
    requires Countable(blocks) && i < |blocks|
  {
    var p := Position(blocks, i);
    p.Some? && !Marked(p.value) && p.value + Size(blocks[i]) <= MARK_BIT
  }

  lemma {:induction false} EndsBefore(blocks: seq<SourceBlock>, i: nat, j: nat)
    requires Countable(blocks) && i < j < |blocks| && InMemory(blocks, i)
    requires forall b :: i < b <= j ==> blocks[b].origin.None? && InMemory(blocks, b)
    ensures InMemory(blocks, j) && Position(blocks, i).value + Size(blocks[i]) <= Position(blocks, j).value
    decreases j
  {
    hide Position;
    hide Size;
    FollowsOn(blocks, j);
    if i < j - 1 {
      EndsBefore(blocks, i, j - 1);
    }
  }

  lemma FollowsOn(blocks: seq<SourceBlock>, j: nat)
    requires Countable(blocks) && 0 < j < |blocks| && blocks[j].origin.None?
    requires InMemory(blocks, j - 1) && InMemory(blocks, j)
    ensures Position(blocks, j).value == Position(blocks, j - 1).value + Size(blocks[j - 1])
  {
    assert Position(blocks, j) == Unfolding.OffsetFromOrigin(Position(blocks, j - 1).value, Size(blocks[j - 1]));
  }

  /**
   * Main result: in a run of blocks that stays in memory, where only the first may have an
   * origin, words are emitted in source order, no two of them share an address, and every
   * tag has the address of its word.
   */
  lemma WordsKeepSourceOrder(blocks: seq<SourceBlock>, i: nat, k: nat, j: nat, l: nat)
    requires Countable(blocks) && i <= j < |blocks| && InMemory(blocks, i)
    requires forall b :: i < b <= j ==> blocks[b].origin.None? && InMemory(blocks, b)
    requires k < Size(blocks[i]) && l < Size(blocks[j]) && (i < j || k < l)
    ensures InMemory(blocks, j)
    ensures EmittedAt(Position(blocks, i).value, k) < EmittedAt(Position(blocks, j).value, l)
    ensures TagValue(Position(blocks, i).value, k) == Some(EmittedAt(Position(blocks, i).value, k))
  {
    if i < j {
      EndsBefore(blocks, i, j);
    }
    TagBelowTheTopNamesItsWord(Position(blocks, i).value, k);
    TagBelowTheTopNamesItsWord(Position(blocks, j).value, l);
  }
}
