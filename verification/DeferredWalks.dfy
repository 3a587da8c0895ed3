/**
 * What deferred cycles load, in numbers, and where they lead.
 */
module DeferredWalks {
  import opened Words
  import opened DeferredAddressing

  /**
   * One deferred cycle takes the address `from`, whose defer bit is set, to `next`: the right
   * half of the word it points at, moved by the index register that the lowest six bits of the
   * left half name.
   */
  predicate Loads(mem: Memory, x: IndexRegisters, from: Word18, next: Word18) {
    && from >= 0x2_0000 && from - 0x2_0000 in mem
    && IsMovedBy(mem[from - 0x2_0000].right, x[mem[from - 0x2_0000].left % 64], next)
  }

  lemma NextLoads(mem: Memory, x: IndexRegisters, from: Word18, next: Word18)
    requires Marked(from)
    ensures Next(mem, x, from) == Some(next) <==> Loads(mem, x, from, next)
  {
    assert Physical(from) == from - 0x2_0000;
    if Physical(from) in mem {
      IndexByMoves(mem[Physical(from)].right, x[mem[Physical(from)].left % 64], next);
    }
  }

  /** The successive right halves of N, one deferred cycle after the other. */
  ghost predicate IsWalk(mem: Memory, x: IndexRegisters, walk: seq<Word18>) {
    walk != [] && forall i :: 0 < i < |walk| ==> Loads(mem, x, walk[i - 1], walk[i])
  }

  ghost predicate WalkBetween(mem: Memory, x: IndexRegisters, walk: seq<Word18>, from: Word18, end: Word18) {
    IsWalk(mem, x, walk) && walk[0] == from && walk[|walk| - 1] == end
  }

  /** The first `k` visits are a walk. */
  ghost function Visited(mem: Memory, x: IndexRegisters, r: Word18, k: nat): (walk: seq<Word18>)
    requires Visit(mem, x, r, k).Some?
    ensures |walk| == k + 1 && WalkBetween(mem, x, walk, r, Visit(mem, x, r, k).value)
  {
    if k == 0 then [r]
    else
      var before, next := Visited(mem, x, r, k - 1), Visit(mem, x, r, k).value;
      NextLoads(mem, x, before[k - 1], next);
      before + [next]
  }

  lemma {:induction false} WalkVisits(mem: Memory, x: IndexRegisters, walk: seq<Word18>, k: nat)
    requires IsWalk(mem, x, walk) && k < |walk|
    ensures Visit(mem, x, walk[0], k) == Some(walk[k])
    decreases k
  {
    if k > 0 {
      WalkVisits(mem, x, walk, k - 1);
      NextLoads(mem, x, walk[k - 1], walk[k]);
    }
  }

  ghost predicate WalksTo(mem: Memory, x: IndexRegisters, from: Word18, end: Word18) {
    exists walk :: WalkBetween(mem, x, walk, from, end)
  }

  lemma VisitMeansWalk(mem: Memory, x: IndexRegisters, r: Word18, k: nat)
    requires Visit(mem, x, r, k).Some?
    ensures WalksTo(mem, x, r, Visit(mem, x, r, k).value)
  {
    assert WalkBetween(mem, x, Visited(mem, x, r, k), r, Visit(mem, x, r, k).value);
  }

  lemma WalkMeansVisit(mem: Memory, x: IndexRegisters, r: Word18, at: Word18)
    requires WalksTo(mem, x, r, at)
    ensures exists k: nat :: Visit(mem, x, r, k) == Some(at)
  {
    var walk :| WalkBetween(mem, x, walk, r, at);
    WalkVisits(mem, x, walk, |walk| - 1);
  }

  /** The chain ends directly exactly where a walk of deferred cycles gets to an undeferred address. */
  lemma DirectEndIff(mem: Memory, x: IndexRegisters, r: Word18, end: Word18)
    ensures ReachesDirect(mem, x, r, end) <==> end < 0x2_0000 && WalksTo(mem, x, r, end)
  {
    if ReachesDirect(mem, x, r, end) {
      var k: nat :| Visit(mem, x, r, k) == Some(end);
      VisitMeansWalk(mem, x, r, k);
    } else if end < 0x2_0000 && WalksTo(mem, x, r, end) {
      WalkMeansVisit(mem, x, r, end);
    }
  }

  /** It comes to an unreadable word exactly where a walk gets to a deferred address of no word. */
  lemma UnreadableEndIff(mem: Memory, x: IndexRegisters, r: Word18, at: Word18)
    ensures ReachesUnreadable(mem, x, r, at) <==>
      at >= 0x2_0000 && at - 0x2_0000 !in mem && WalksTo(mem, x, r, at)
  {
    if Marked(at) {
      assert Physical(at) == at - 0x2_0000;
    }
    if ReachesUnreadable(mem, x, r, at) {
      var k: nat :| Visit(mem, x, r, k) == Some(at);
      VisitMeansWalk(mem, x, r, k);
    } else if at >= 0x2_0000 && at - 0x2_0000 !in mem && WalksTo(mem, x, r, at) {
      WalkMeansVisit(mem, x, r, at);
    }
  }

  /** A walk of `k` cycles from `r` to an address that is still deferred. */
  ghost predicate LongWalk(mem: Memory, x: IndexRegisters, r: Word18, k: nat, walk: seq<Word18>) {
    IsWalk(mem, x, walk) && |walk| == k + 1 && walk[0] == r && walk[k] >= 0x2_0000
  }

  ghost predicate HasLongWalk(mem: Memory, x: IndexRegisters, r: Word18, k: nat) {
    exists walk :: LongWalk(mem, x, r, k, walk)
  }

  /** Walks of any length, all of them to deferred addresses. */
  ghost predicate WalksForEver(mem: Memory, x: IndexRegisters, r: Word18) {
    forall k: nat :: HasLongWalk(mem, x, r, k)
  }

  lemma EndlessIff(mem: Memory, x: IndexRegisters, r: Word18)
    ensures NeverDirect(mem, x, r) <==> WalksForEver(mem, x, r)
  {
    if NeverDirect(mem, x, r) {
      forall k: nat ensures HasLongWalk(mem, x, r, k) {
        var walk := Visited(mem, x, r, k);
        assert Marked(Visit(mem, x, r, k).value);
        assert LongWalk(mem, x, r, k, walk);
      }
    }
    if WalksForEver(mem, x, r) {
      forall k: nat ensures Visit(mem, x, r, k).Some? && Marked(Visit(mem, x, r, k).value) {
        assert HasLongWalk(mem, x, r, k);
        var walk :| LongWalk(mem, x, r, k, walk);
        WalkVisits(mem, x, walk, k);
      }
    }
  }
}
