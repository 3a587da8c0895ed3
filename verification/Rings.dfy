/**
 * Finding the rings of Sketchpad's list memory in a snapshot of it: words whose two links
 * are answered by the words they point at, split into the cycles they form.
 */
module Rings {

  const LIST: nat := 0x2800

  type Words = map<nat, nat>

  function PrevLink(w: nat): nat {
    w / 0x4_0000 % 0x4_0000
  }

  function NextLink(w: nat): nat {
    w % 0x4_0000
  }

  /** A word is its previous link followed by its next link, 18 bits each. */
  lemma LinksOfAWord(prev: nat, next: nat)
    requires prev < 0x4_0000 && next < 0x4_0000
    ensures PrevLink(prev * 0x4_0000 + next) == prev && NextLink(prev * 0x4_0000 + next) == next
  {
    assert (prev * 0x4_0000 + next) / 0x4_0000 == prev;
  }

  /** The address that the next link of the word at `a` points at. */
  function Next(words: Words, a: nat): nat
    requires a in words
  {
    LIST + NextLink(words[a])
  }

  function Prev(words: Words, a: nat): nat
    requires a in words
  {
    LIST + PrevLink(words[a])
  }

  predicate IsRingWord(words: Words, a: nat) {
    && a in words
    && !(PrevLink(words[a]) == 0 && NextLink(words[a]) == 0)
    && Prev(words, a) in words && Next(words, a) in words
    && LIST + PrevLink(words[Next(words, a)]) == a
    && LIST + NextLink(words[Prev(words, a)]) == a
  }

  function RingWords(words: Words): set<nat> {
    set a <- words | IsRingWord(words, a)
  }

  lemma NextIsInjective(words: Words, a: nat, b: nat)
    requires a in RingWords(words) && b in RingWords(words) && Next(words, a) == Next(words, b)
    ensures a == b
  {
  }

  predicate ClosedUnderNext(words: Words) {
    forall a <- RingWords(words) :: Next(words, a) in RingWords(words)
  }

  method FindRingWords(words: Words) returns (ring: set<nat>)
    ensures ring == RingWords(words)
  {
    ring := {};
    var left := words.Keys;
    while left != {}
      invariant left <= words.Keys && ring == set a <- words | a !in left && IsRingWord(words, a)
      decreases |left|
    {
      var a :| a in left;
      left := left - {a};
      var w := words[a];
      if PrevLink(w) == 0 && NextLink(w) == 0 {
        continue;
      }
      var pa, na := Prev(words, a), Next(words, a);
      if pa !in words || na !in words {
        continue;
      }
      if LIST + PrevLink(words[na]) == a && LIST + NextLink(words[pa]) == a {
        ring := ring + {a};
      }
    }
  }

  // ----- lists of words -----

  predicate Increasing(s: seq<nat>) {
    forall i, j :: 0 <= i < j < |s| ==> s[i] < s[j]
  }

  predicate Distinct(s: seq<nat>) {
    forall i, j :: 0 <= i < j < |s| ==> s[i] != s[j]
  }

  function Elements(s: seq<nat>): set<nat> {
    set x <- s
  }

  lemma Appended(s: seq<nat>, t: seq<nat>)
    ensures Elements(s + t) == Elements(s) + Elements(t)
    ensures Distinct(s) && Distinct(t) && Elements(s) !! Elements(t) ==> Distinct(s + t)
  {
    forall x ensures x in Elements(s + t) <==> x in Elements(s) + Elements(t) {
    }
    if Distinct(s) && Distinct(t) && Elements(s) !! Elements(t) {
      forall i, j | 0 <= i < j < |s + t| ensures (s + t)[i] != (s + t)[j] {
        if i < |s| <= j {
          assert s[i] in Elements(s) && t[j - |s|] in Elements(t);
        }
      }
    }
  }

  lemma {:induction false} LeastOf(s: set<nat>) returns (least: nat)
    requires s != {}
    ensures least in s && forall x <- s :: least <= x
    decreases |s|
  {
    var some :| some in s;
    least := some;
    if s != {some} {
      var other := LeastOf(s - {some});
      assert forall x <- s :: x == some || x in s - {some};
      least := if other < some then other else some;
    }
  }

  method Sorted(s: set<nat>) returns (sorted: seq<nat>)
    ensures Increasing(sorted) && Elements(sorted) == s
  {
    sorted := [];
    var left := s;
    while left != {}
      invariant Increasing(sorted) && Elements(sorted) == s - left && left <= s
      invariant forall x <- sorted, y <- left :: x < y
      decreases |left|
    {
      ghost var witnessed := LeastOf(left);
      var least :| least in left && forall x <- left :: least <= x;
      Appended(sorted, [least]);
      assert forall i :: 0 <= i < |sorted| ==> sorted[i] in sorted;
      sorted := sorted + [least];
      left := left - {least};
    }
  }

  function Flat(lists: seq<seq<nat>>): seq<nat> {
    if lists == [] then [] else Flat(lists[..|lists| - 1]) + lists[|lists| - 1]
  }

  lemma {:induction false} FlatHasEvery(lists: seq<seq<nat>>, l: nat, x: nat)
    requires l < |lists| && x in lists[l]
    ensures x in Flat(lists)
    decreases |lists|
  {
    if l < |lists| - 1 {
      FlatHasEvery(lists[..|lists| - 1], l, x);
    }
  }

  lemma {:induction false} FlatHasOnly(lists: seq<seq<nat>>, x: nat) returns (l: nat)
    requires x in Flat(lists)
    ensures l < |lists| && x in lists[l]
    decreases |lists|
  {
    l := |lists| - 1;
    if x !in lists[l] {
      l := FlatHasOnly(lists[..l], x);
    }
  }

  // ----- splitting into cycles -----

  predicate Linked(words: Words, list: seq<nat>) {
    && |list| > 0
    && (forall i :: 0 <= i < |list| ==> list[i] in words)
    && forall i :: 0 < i < |list| ==> list[i] == Next(words, list[i - 1])
  }

  /** The list closes: its last word points at its first. */
  predicate IsCycle(words: Words, list: seq<nat>)
    requires Linked(words, list)
  {
    Next(words, list[|list| - 1]) == list[0]
  }

  /** Lists that share no word, each linked by the next links. */
  ghost predicate Splits(words: Words, lists: seq<seq<nat>>) {
    && Distinct(Flat(lists))
    && forall l :: 0 <= l < |lists| ==> Linked(words, lists[l])
  }

  /** Where a list stopped: at a word that is no ring word, or at one already in a list. */
  predicate StoppedRightly(words: Words, list: seq<nat>, before: set<nat>)
    requires Linked(words, list)
  {
    var after := Next(words, list[|list| - 1]);
    after !in RingWords(words) || after in before || after in list
  }

  ghost predicate Result(words: Words, rings: seq<seq<nat>>) {
    && Splits(words, rings)
    && Elements(Flat(rings)) == RingWords(words)
    && forall l :: 0 <= l < |rings| ==> StoppedRightly(words, rings[l], Elements(Flat(rings[..l])))
  }

  /** Each list begins with the least word that is in no earlier list. */
  ghost predicate StartsAreLeast(words: Words, rings: seq<seq<nat>>)
    requires forall l :: 0 <= l < |rings| ==> Linked(words, rings[l])
  {
    forall l, a :: 0 <= l < |rings| && a in RingWords(words) && a !in Elements(Flat(rings[..l])) ==>
      |rings[l]| > 0 && rings[l][0] <= a
  }

  method FollowFrom(words: Words, ring: set<nat>, start: nat, seenBefore: set<nat>)
    returns (cycle: seq<nat>, seen: set<nat>)
    requires ring == RingWords(words) && start in ring && start !in seenBefore && seenBefore <= ring
    ensures Linked(words, cycle) && cycle[0] == start && Distinct(cycle)
    ensures Elements(cycle) !! seenBefore && seen == seenBefore + Elements(cycle) <= ring
    ensures StoppedRightly(words, cycle, seenBefore)
  {
    seen := seenBefore;
    cycle := [];
    var a := start;
    while a !in seen
      invariant a in ring && seen <= ring
      invariant Distinct(cycle) && Elements(cycle) !! seenBefore && seen == seenBefore + Elements(cycle)
      invariant cycle == [] ==> a == start
      invariant cycle != [] ==> Linked(words, cycle) && cycle[0] == start && a == Next(words, cycle[|cycle| - 1])
      decreases ring - seen
    {
      assert ring - (seen + {a}) < ring - seen;
      Appended(cycle, [a]);
      seen := seen + {a};
      cycle := cycle + [a];
      a := Next(words, a);
      if a !in ring {
        break;
      }
    }
  }

  ghost predicate PartWay(words: Words, rings: seq<seq<nat>>, seen: set<nat>) {
    && Splits(words, rings) && Elements(Flat(rings)) == seen <= RingWords(words)
    && StartsAreLeast(words, rings)
    && forall l :: 0 <= l < |rings| ==> StoppedRightly(words, rings[l], Elements(Flat(rings[..l])))
  }

  lemma AddingAList(words: Words, rings: seq<seq<nat>>, cycle: seq<nat>, seen: set<nat>)
    requires PartWay(words, rings, seen)
    requires Linked(words, cycle) && Distinct(cycle) && Elements(cycle) !! seen && Elements(cycle) <= RingWords(words)
    requires StoppedRightly(words, cycle, seen)
    requires forall a :: a in RingWords(words) && a !in seen ==> cycle[0] <= a
    ensures PartWay(words, rings + [cycle], seen + Elements(cycle))
  {
    var more := rings + [cycle];
    assert more[..|rings|] == rings;
    assert Flat(more) == Flat(rings) + cycle;
    Appended(Flat(rings), cycle);
    forall l | 0 <= l < |rings| ensures more[..l] == rings[..l] {
    }
  }

  /** Main result: every ring word ends up in exactly one list, exactly once. */
  method SplitIntoRings(words: Words) returns (rings: seq<seq<nat>>)
    ensures Result(words, rings) && StartsAreLeast(words, rings)
  {
    var ring := FindRingWords(words);
    var starts := Sorted(ring);
    rings := [];
    var seen: set<nat> := {};
    for i := 0 to |starts|
      invariant PartWay(words, rings, seen)
      invariant forall j :: 0 <= j < i ==> starts[j] in seen
    {
      assert starts[i] in Elements(starts);
      if starts[i] in seen {
        continue;
      }
      LeastUnseen(starts, ring, seen, i);
      var cycle;
      ghost var before := seen;
      cycle, seen := FollowFrom(words, ring, starts[i], seen);
      assert starts[i] in Elements(cycle);
      AddingAList(words, rings, cycle, before);
      rings := rings + [cycle];
    }
    assert ring <= seen;
  }

  lemma LeastUnseen(starts: seq<nat>, ring: set<nat>, seen: set<nat>, i: nat)
    requires Increasing(starts) && Elements(starts) == ring && i < |starts|
    requires forall j :: 0 <= j < i ==> starts[j] in seen
    ensures forall a :: a in ring && a !in seen ==> starts[i] <= a
  {
    forall a | a in ring && a !in seen ensures starts[i] <= a {
      assert a in Elements(starts);
      var j :| 0 <= j < |starts| && starts[j] == a;
    }
  }

  // ----- when the lists are rings -----

  /** No word of list `l` is in an earlier list, or twice in `l`. */
  lemma {:induction false} ListsAreApart(lists: seq<seq<nat>>, l: nat)
    requires Distinct(Flat(lists)) && l < |lists|
    ensures Elements(lists[l]) !! Elements(Flat(lists[..l])) && Distinct(lists[l])
    decreases |lists| - l
  {
    var n := |lists| - 1;
    var front := Flat(lists[..n]);
    assert Flat(lists) == front + lists[n];
    if l == n {
      forall i, j | 0 <= i < |front| && 0 <= j < |lists[n]| ensures front[i] != lists[n][j] {
        assert front[i] == Flat(lists)[i] && lists[n][j] == Flat(lists)[|front| + j];
      }
      assert forall i :: 0 <= i < |lists[n]| ==> lists[n][i] == Flat(lists)[|front| + i];
    } else {
      assert forall i :: 0 <= i < |front| ==> front[i] == Flat(lists)[i];
      ListsAreApart(lists[..n], l);
      assert lists[..n][..l] == lists[..l];
    }
  }

  /** Every word of a cycle is pointed at by a word of the cycle. */
  lemma CycleHasPredecessor(words: Words, list: seq<nat>, y: nat) returns (x: nat)
    requires Linked(words, list) && IsCycle(words, list) && y in list
    ensures x in list && Next(words, x) == y
  {
    var j :| 0 <= j < |list| && list[j] == y;
    x := list[if j == 0 then |list| - 1 else j - 1];
  }

  lemma {:induction false} ClosedListIsCycle(words: Words, rings: seq<seq<nat>>, l: nat)
    requires Result(words, rings) && ClosedUnderNext(words) && l < |rings|
    ensures IsCycle(words, rings[l])
    decreases l
  {
    var list := rings[l];
    ListsAreApart(rings, l);
    forall a | a in list ensures a in RingWords(words) {
      FlatHasEvery(rings, l, a);
    }
    var x := list[|list| - 1];
    assert x in Elements(list);
    var y := Next(words, x);
    if y in Elements(Flat(rings[..l])) {
      var m := FlatHasOnly(rings[..l], y);
      ClosedListIsCycle(words, rings, m);
      var x' := CycleHasPredecessor(words, rings[m], y);
      FlatHasEvery(rings, m, x');
      NextIsInjective(words, x, x');
      FlatHasEvery(rings[..l], m, x);
      assert false;
    } else {
      var j :| 0 <= j < |list| && list[j] == y;
      if j > 0 {
        NextIsInjective(words, x, list[j - 1]);
        assert false;
      }
    }
  }

  /**
   * Main result: all the lists are true cycles exactly when the word after each ring word
   * is a ring word.
   */
  lemma ListsAreCyclesIffClosed(words: Words, rings: seq<seq<nat>>)
    requires Result(words, rings)
    ensures ClosedUnderNext(words) <==> forall l :: 0 <= l < |rings| ==> IsCycle(words, rings[l])
  {
    if ClosedUnderNext(words) {
      forall l | 0 <= l < |rings| ensures IsCycle(words, rings[l]) {
        ClosedListIsCycle(words, rings, l);
      }
    }
    if forall l :: 0 <= l < |rings| ==> IsCycle(words, rings[l]) {
      forall a | a in RingWords(words) ensures Next(words, a) in RingWords(words) {
        assert a in Elements(Flat(rings));
        var l := FlatHasOnly(rings, a);
        var i :| 0 <= i < |rings[l]| && rings[l][i] == a;
        var after := rings[l][if i == |rings[l]| - 1 then 0 else i + 1];
        assert after == Next(words, a);
        FlatHasEvery(rings, l, after);
        assert after in Elements(Flat(rings));
      }
    }
  }

  // ----- the block that owns a ring word -----

  function Quarter4(w: nat): nat {
    w / 0x800_0000 % 0x200
  }

  /** Nine bits of one's complement. */
  function Neg9(q: nat): int {
    if q / 0x100 % 2 == 1 then q - 0x1FF else q
  }

  function HenOffset(words: Words, ringWord: nat): int {
    var hen := if ringWord >= 1 && ringWord - 1 in words then words[ringWord - 1] else 0;
    Neg9(Quarter4(hen))
  }

  /** The base of the block, and the place of the ring word in it. */
  function OwnerOf(words: Words, ringWord: nat): (int, int) {
    var q := HenOffset(words, ringWord);
    if q < 0 then (ringWord - 1 + q, 1 - q) else (ringWord - 1, 1)
  }

  /** The owner always locates the word, at one of the first 256 places of a block. */
  lemma OwnerLocatesTheWord(words: Words, ringWord: nat)
    ensures var (base, offset) := OwnerOf(words, ringWord);
      base + offset == ringWord && 1 <= offset <= 256
  {
    assert Quarter4(if ringWord >= 1 && ringWord - 1 in words then words[ringWord - 1] else 0) < 0x200;
  }

  /**
   * The word before a ring word is its hen.  If the highest quarter of that is minus `n`, the
   * block begins `n` further back; if it is missing, positive or minus zero, the hen itself
   * is the block.
   */
  lemma HenTellsTheOwner(words: Words, ringWord: nat, n: nat, rest: nat)
    requires 0 < n < 0x100 && rest < 0x800_0000
    ensures 0 < ringWord && ringWord - 1 in words && words[ringWord - 1] == (0x1FF - n) * 0x800_0000 + rest ==>
      OwnerOf(words, ringWord) == (ringWord - 1 - n, n + 1)
    ensures 0 < ringWord && ringWord - 1 in words && words[ringWord - 1] == n * 0x800_0000 + rest ==>
      OwnerOf(words, ringWord) == (ringWord - 1, 1)
    ensures 0 < ringWord && ringWord - 1 in words && words[ringWord - 1] in {rest, 0x1FF * 0x800_0000 + rest} ==>
      OwnerOf(words, ringWord) == (ringWord - 1, 1)
    ensures ringWord == 0 || ringWord - 1 !in words ==> OwnerOf(words, ringWord) == (ringWord - 1, 1)
  {
    QuarterIs(0, rest);
    QuarterIs(n, rest);
    QuarterIs(0x1FF - n, rest);
    QuarterIs(0x1FF, rest);
  }

  lemma QuarterIs(quarter: nat, rest: nat)
    requires quarter < 0x200 && rest < 0x800_0000
    ensures Quarter4(quarter * 0x800_0000 + rest) == quarter
  {
    assert (quarter * 0x800_0000 + rest) / 0x800_0000 == quarter;
  }

  type Blocks = map<int, map<int, nat>>

  /** Main result: filing ring words by owner loses none of them and invents none. */
  method CollectBlocks(words: Words) returns (blocks: Blocks)
    ensures forall base, offset :: base in blocks && offset in blocks[base] ==>
      blocks[base][offset] in RingWords(words) && OwnerOf(words, blocks[base][offset]) == (base, offset)
    ensures forall a <- RingWords(words) ::
      OwnerOf(words, a).0 in blocks && OwnerOf(words, a).1 in blocks[OwnerOf(words, a).0]
      && blocks[OwnerOf(words, a).0][OwnerOf(words, a).1] == a
  {
    blocks := map[];
    var left := FindRingWords(words);
    while left != {}
      invariant left <= RingWords(words)
      invariant forall base, offset :: base in blocks && offset in blocks[base] ==>
        blocks[base][offset] in RingWords(words) && OwnerOf(words, blocks[base][offset]) == (base, offset)
      invariant forall a <- RingWords(words) - left ::
        OwnerOf(words, a).0 in blocks && OwnerOf(words, a).1 in blocks[OwnerOf(words, a).0]
        && blocks[OwnerOf(words, a).0][OwnerOf(words, a).1] == a
      decreases |left|
    {
      var rw :| rw in left;
      left := left - {rw};
      var (base, offset) := OwnerOf(words, rw);
      forall a | a in RingWords(words) && OwnerOf(words, a) == (base, offset) ensures a == rw {
        OwnerLocatesTheWord(words, a);
        OwnerLocatesTheWord(words, rw);
      }
      if base !in blocks {
        blocks := blocks[base := map[]];
      }
      blocks := blocks[base := blocks[base][offset := rw]];
    }
  }
}
