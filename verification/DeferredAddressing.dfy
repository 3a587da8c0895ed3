/**
 * Deferred (indirect) addressing: while the defer bit of N is set, the right half of N is
 * replaced by the indexed word it points at.  The TX-2 could loop for ever here; the
 * emulator remembers every address it has loaded and stops when one comes back.
 */
module DeferredAddressing {
  import opened Words

  datatype Halves = Halves(left: Word18, right: Word18)

  /** The mapped part of memory, by physical address. */
  type Memory = map<Word18, Halves>

  type IndexRegisters = x: seq<Word18> | |x| == 64 witness seq(64, _ => 0)

  /** How the chase ends; `at` is the right half of N at that moment. */
  datatype Chase =
    | Direct(at: Word18)
    | Looped(at: Word18, unindexed: Word18)
    | Unreadable(at: Word18)

  /** The address that replaces the deferred address `r`, if its word can be read. */
  function Next(mem: Memory, x: IndexRegisters, r: Word18): Option<Word18> {
    if Physical(r) in mem
    then Some(IndexBy(mem[Physical(r)].right, x[mem[Physical(r)].left % 64]))
    else None
  }

  ghost predicate IsWord(w: int) {
    0 <= w < 0x4_0000
  }

  ghost function AllWords(): set<int> {
    set w | 0 <= w < 0x4_0000 && IsWord(w)
  }

  function ChaseFrom(mem: Memory, x: IndexRegisters, r: Word18, seen: set<Word18>): Chase
    decreases AllWords() - seen
  {
    if !Marked(r) then Direct(r)
    else
      match Next(mem, x, r)
      case None => Unreadable(r)
      case Some(next) =>
        if next in seen then Looped(r, mem[Physical(r)].right)
        else
          assert IsWord(next) && next in AllWords() - seen;
          ChaseFrom(mem, x, next, seen + {next})
  }

  /** What N's right half would hold after `k` deferred cycles with nothing remembered. */
  function Visit(mem: Memory, x: IndexRegisters, r: Word18, k: nat): Option<Word18> {
    if k == 0 then Some(r)
    else
      var before := Visit(mem, x, r, k - 1);
      if before.Some? && Marked(before.value) then Next(mem, x, before.value) else None
  }

  /** The chain reaches the direct address `end`. */
  ghost predicate ReachesDirect(mem: Memory, x: IndexRegisters, r: Word18, end: Word18) {
    !Marked(end) && exists k: nat :: Visit(mem, x, r, k) == Some(end)
  }

  /** The chain reaches a deferred address whose word cannot be read. */
  ghost predicate ReachesUnreadable(mem: Memory, x: IndexRegisters, r: Word18, at: Word18) {
    Marked(at) && Physical(at) !in mem && exists k: nat :: Visit(mem, x, r, k) == Some(at)
  }

  /** The chain goes on for ever through deferred addresses. */
  ghost predicate NeverDirect(mem: Memory, x: IndexRegisters, r: Word18) {
    forall k: nat :: Visit(mem, x, r, k).Some? && Marked(Visit(mem, x, r, k).value)
  }

  // ----- the chain and the chase -----

  lemma {:induction false} VisitPrefix(mem: Memory, x: IndexRegisters, r: Word18, i: nat, k: nat)
    requires i < k && Visit(mem, x, r, k).Some?
    ensures Visit(mem, x, r, i).Some? && Marked(Visit(mem, x, r, i).value)
    ensures Visit(mem, x, r, i + 1).Some?
    decreases k
  {
    if i < k - 1 {
      VisitPrefix(mem, x, r, i, k - 1);
    }
  }

  /** Once an address returns, the chain stays inside the stretch already walked. */
  lemma {:induction false} Periodic(mem: Memory, x: IndexRegisters, r: Word18, j: nat, k: nat, n: nat)
    requires 1 <= j <= k
    requires Visit(mem, x, r, k + 1).Some? && Visit(mem, x, r, k + 1) == Visit(mem, x, r, j)
    ensures exists i: nat :: i <= k && Visit(mem, x, r, n) == Visit(mem, x, r, i)
    decreases n
  {
    if n <= k {
      assert Visit(mem, x, r, n) == Visit(mem, x, r, n);
    } else {
      Periodic(mem, x, r, j, k, n - 1);
      var i: nat :| i <= k && Visit(mem, x, r, n - 1) == Visit(mem, x, r, i);
      assert Visit(mem, x, r, n) == Visit(mem, x, r, i + 1);
      assert i == k ==> Visit(mem, x, r, n) == Visit(mem, x, r, j);
    }
  }

  lemma ReturnMeansEndless(mem: Memory, x: IndexRegisters, r: Word18, j: nat, k: nat)
    requires 1 <= j <= k
    requires Visit(mem, x, r, k + 1).Some? && Visit(mem, x, r, k + 1) == Visit(mem, x, r, j)
    ensures NeverDirect(mem, x, r)
  {
    forall n: nat ensures Visit(mem, x, r, n).Some? && Marked(Visit(mem, x, r, n).value) {
      Periodic(mem, x, r, j, k, n);
      var i: nat :| i <= k && Visit(mem, x, r, n) == Visit(mem, x, r, i);
      VisitPrefix(mem, x, r, i, k + 1);
    }
  }

  /** `seen` holds exactly the addresses loaded in the first `k` cycles. */
  ghost predicate Remembers(mem: Memory, x: IndexRegisters, r: Word18, k: nat, seen: set<Word18>) {
    && (forall j: nat | 1 <= j <= k :: Visit(mem, x, r, j).Some? && Visit(mem, x, r, j).value in seen)
    && forall a | a in seen :: exists j: nat :: 1 <= j <= k && Visit(mem, x, r, j) == Some(a)
  }

  lemma RememberOneMore(mem: Memory, x: IndexRegisters, r: Word18, k: nat, next: Word18, seen: set<Word18>)
    requires Remembers(mem, x, r, k, seen) && Visit(mem, x, r, k + 1) == Some(next)
    ensures Remembers(mem, x, r, k + 1, seen + {next})
  {
    hide Next;
    forall a | a in seen + {next} ensures exists j: nat :: 1 <= j <= k + 1 && Visit(mem, x, r, j) == Some(a) {
      if a in seen {
        var j: nat :| 1 <= j <= k && Visit(mem, x, r, j) == Some(a);
      }
    }
  }

  lemma NextReadsOneWord(mem: Memory, x: IndexRegisters, r: Word18)
    ensures Next(mem, x, r).None? <==> Physical(r) !in mem
  {
  }

  /** The chase, resumed after `k` cycles with every address since the first remembered, is right. */
  lemma {:induction false} ChaseSound(mem: Memory, x: IndexRegisters, r: Word18, k: nat, now: Word18, seen: set<Word18>)
    requires Visit(mem, x, r, k) == Some(now) && Remembers(mem, x, r, k, seen)
    ensures match ChaseFrom(mem, x, now, seen)
      case Direct(end) => ReachesDirect(mem, x, r, end)
      case Unreadable(at) => ReachesUnreadable(mem, x, r, at)
      case Looped(_, _) => NeverDirect(mem, x, r)
    decreases AllWords() - seen
  {
    NextReadsOneWord(mem, x, now);
    hide Next;
    hide NeverDirect;
    if Marked(now) && Next(mem, x, now).Some? {
      var next := Next(mem, x, now).value;
      assert Visit(mem, x, r, k + 1) == Some(next);
      if next in seen {
        var j: nat :| 1 <= j <= k && Visit(mem, x, r, j) == Some(next);
        ReturnMeansEndless(mem, x, r, j, k);
      } else {
        assert IsWord(next) && next in AllWords() - seen;
        RememberOneMore(mem, x, r, k, next, seen);
        ChaseSound(mem, x, r, k + 1, next, seen + {next});
      }
    }
  }

  /** The three ways a chain can go exclude each other, and each has one end. */
  lemma EndsOnce(mem: Memory, x: IndexRegisters, r: Word18, i: nat, k: nat)
    requires Visit(mem, x, r, i).Some? && Visit(mem, x, r, k).Some?
    requires Visit(mem, x, r, i + 1).None? && Visit(mem, x, r, k + 1).None?
    ensures i == k
  {
    if i < k {
      VisitPrefix(mem, x, r, i, k);
    } else if k < i {
      VisitPrefix(mem, x, r, k, i);
    }
  }

  /**
   * Main result.  The bounded chase answers exactly the question about the unbounded chain:
   * a direct end, an unreadable word, or a loop is reported if and only if it is there.
   */
  lemma ChaseIsExact(mem: Memory, x: IndexRegisters, r: Word18)
    ensures forall end :: ChaseFrom(mem, x, r, {}) == Direct(end) <==> ReachesDirect(mem, x, r, end)
    ensures forall at :: ChaseFrom(mem, x, r, {}) == Unreadable(at) <==> ReachesUnreadable(mem, x, r, at)
    ensures ChaseFrom(mem, x, r, {}).Looped? <==> NeverDirect(mem, x, r)
  {
    assert Visit(mem, x, r, 0) == Some(r);
    ChaseSound(mem, x, r, 0, r, {});
    forall a, b: Word18 |
      (ReachesDirect(mem, x, r, a) || ReachesUnreadable(mem, x, r, a)) &&
      (ReachesDirect(mem, x, r, b) || ReachesUnreadable(mem, x, r, b))
      ensures a == b
    {
      var i: nat :| Visit(mem, x, r, i) == Some(a);
      var k: nat :| Visit(mem, x, r, k) == Some(b);
      assert Visit(mem, x, r, i + 1).None? && Visit(mem, x, r, k + 1).None?;
      EndsOnce(mem, x, r, i, k);
    }
    forall a: Word18 | ReachesDirect(mem, x, r, a) || ReachesUnreadable(mem, x, r, a)
      ensures !NeverDirect(mem, x, r)
    {
      var i: nat :| Visit(mem, x, r, i) == Some(a);
      assert Visit(mem, x, r, i + 1).None?;
    }
  }
}
