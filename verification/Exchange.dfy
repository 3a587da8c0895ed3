/**
 * The exchange element: moves quarters of a 36-bit word between memory and the E register,
 * as a 9-bit configuration says, and extends the signs of active quarters.
 */
module Exchange {
  import opened Words

  type Word = bv36

  /** Quarters are numbered from the right, starting at 0. */
  type Quarter = q: nat | q < 4

  const FULL: Word := 0x1FF

  // ----- words and quarters -----

  /** The value of one quarter, shifted down. */
  function At(w: Word, q: Quarter): Word {
    match q
    case 0 => w & 0x1FF
    case 1 => (w & 0x3_FE00) >> 9
    case 2 => (w & 0x7FC_0000) >> 18
    case 3 => (w & 0xF_F800_0000) >> 27
  }

  /** Overwrites one quarter: its bits are cleared, and those of the shifted value set. */
  function With(w: Word, q: Quarter, v: Word): Word {
    match q
    case 0 => (w & !0x1FF) | (0x1FF & v)
    case 1 => (w & !0x3_FE00) | (0x3_FE00 & (v << 9))
    case 2 => (w & !0x7FC_0000) | (0x7FC_0000 & (v << 18))
    case 3 => (w & !0xF_F800_0000) | (0xF_F800_0000 & (v << 27))
  }

  lemma AtFits(w: Word, q: Quarter)
    ensures At(w, q) & FULL == At(w, q)
  {
  }

  lemma Writing0(w: Word, v: Word)
    requires v & FULL == v
    ensures At(With(w, 0, v), 0) == v
    ensures At(With(w, 0, v), 1) == At(w, 1)
    ensures At(With(w, 0, v), 2) == At(w, 2)
    ensures At(With(w, 0, v), 3) == At(w, 3)
  {
  }

  lemma Writing1(w: Word, v: Word)
    requires v & FULL == v
    ensures At(With(w, 1, v), 0) == At(w, 0)
    ensures At(With(w, 1, v), 1) == v
    ensures At(With(w, 1, v), 2) == At(w, 2)
    ensures At(With(w, 1, v), 3) == At(w, 3)
  {
  }

  lemma Writing2(w: Word, v: Word)
    requires v & FULL == v
    ensures At(With(w, 2, v), 0) == At(w, 0)
    ensures At(With(w, 2, v), 1) == At(w, 1)
    ensures At(With(w, 2, v), 2) == v
    ensures At(With(w, 2, v), 3) == At(w, 3)
  {
  }

  lemma Writing3(w: Word, v: Word)
    requires v & FULL == v
    ensures At(With(w, 3, v), 0) == At(w, 0)
    ensures At(With(w, 3, v), 1) == At(w, 1)
    ensures At(With(w, 3, v), 2) == At(w, 2)
    ensures At(With(w, 3, v), 3) == v
  {
  }

  /** Writing a quarter changes that quarter and no other. */
  lemma AtWith(w: Word, q: Quarter, v: Word, p: Quarter)
    requires v & FULL == v
    ensures At(With(w, q, v), p) == if p == q then v else At(w, p)
  {
    hide *;
    match q
    case 0 => Writing0(w, v);
    case 1 => Writing1(w, v);
    case 2 => Writing2(w, v);
    case 3 => Writing3(w, v);
  }

  lemma OneQuarterWritten(w: Word, q: Quarter, v: Word)
    requires v & FULL == v
    ensures forall p: Quarter :: At(With(w, q, v), p) == if p == q then v else At(w, p)
  {
    forall p: Quarter ensures At(With(w, q, v), p) == if p == q then v else At(w, p) {
      AtWith(w, q, v, p);
    }
  }

  /** A word is determined by its quarters. */
  lemma SameQuarters(a: Word, b: Word)
    requires At(a, 0) == At(b, 0) && At(a, 1) == At(b, 1) && At(a, 2) == At(b, 2) && At(a, 3) == At(b, 3)
    ensures a == b
  {
  }

  // ----- configurations -----

  type Configuration = c: nat | c < 512

  datatype SubwordForm = FullWord | Halves | ThreeOne | Quarters

  datatype Direction = ME | EM

  function PermutationOf(c: Configuration): (p: nat)
    ensures p < 8
  {
    c % 8
  }

  /** A quarter is active if its bit of the configuration is 0. */
  function ActiveQuarters(c: Configuration): set<Quarter> {
    (if c / 8 % 2 == 0 then {0} else {}) + (if c / 16 % 2 == 0 then {1} else {})
    + (if c / 32 % 2 == 0 then {2} else {}) + (if c / 64 % 2 == 0 then {3} else {})
  }

  function FormOf(c: Configuration): SubwordForm {
    match c / 128
    case 0 => FullWord
    case 1 => Halves
    case 2 => ThreeOne
    case 3 => Quarters
  }

  /** One to the left or to the right among quarters 1 to 3; quarter 0 stays. */
  function UpAmongThree(q: Quarter): Quarter {
    if q == 0 then 0 else if q == 3 then 1 else q + 1
  }

  function DownAmongThree(q: Quarter): Quarter {
    if q == 0 then 0 else if q == 1 then 3 else q - 1
  }

  /** The quarter that the contents of quarter `target` come from. */
  function PermutationSource(p: nat, d: Direction, target: Quarter): Quarter
    requires p < 8
  {
    match p
    case 0 => target
    case 1 => if d.ME? then (target + 1) % 4 else (target + 3) % 4
    case 2 => (target + 2) % 4
    case 3 => if d.ME? then (target + 3) % 4 else (target + 1) % 4
    case 4 => if target % 2 == 0 then target + 1 else target - 1
    case 5 => 3 - target
    case 6 => if d.ME? then DownAmongThree(target) else UpAmongThree(target)
    case 7 => if d.ME? then UpAmongThree(target) else DownAmongThree(target)
  }

  lemma DirectionsAreInverse(p: nat, q: Quarter)
    requires p < 8
    ensures PermutationSource(p, ME, PermutationSource(p, EM, q)) == q
    ensures PermutationSource(p, EM, PermutationSource(p, ME, q)) == q
  {
  }

  // ----- permuting -----

  /** Activity is a matter of the quarters of E, which is the target of a load. */
  function PermutedAt(p: nat, d: Direction, active: set<Quarter>, source: Word, dest: Word, target: Quarter): Word
    requires p < 8
  {
    var from := PermutationSource(p, d, target);
    if (if d.ME? then target else from) in active then At(source, from) else At(dest, target)
  }

  method Permute(p: nat, d: Direction, active: set<Quarter>, source: Word, dest: Word) returns (result: Word)
    requires p < 8
    ensures forall q: Quarter :: At(result, q) == PermutedAt(p, d, active, source, dest, q)
  {
    hide At;
    hide With;
    result := dest;
    for target := 0 to 4
      invariant forall q: Quarter ::
        At(result, q) == if q < target then PermutedAt(p, d, active, source, dest, q) else At(dest, q)
    {
      var from := PermutationSource(p, d, target);
      var eQuarter := if d.ME? then target else from;
      if eQuarter in active {
        var value := At(source, from);
        AtFits(source, from);
        OneQuarterWritten(result, target, value);
        result := With(result, target, value);
      }
    }
  }

  // ----- sign extension -----

  predicate Negative(v: Word) {
    v & 0x100 != 0
  }

  /** A quarter filled with the sign of another one. */
  function Fill(v: Word): Word {
    if Negative(v) then FULL else 0
  }

  lemma FillFits(v: Word)
    ensures Fill(v) & FULL == Fill(v)
  {
  }

  /** The next quarter to the right in the same subword; it wraps around. */
  function ToTheRight(form: SubwordForm, q: Quarter): Quarter {
    match form
    case FullWord => (q + 3) % 4
    case Halves => if q % 2 == 0 then q + 1 else q - 1
    case ThreeOne => if q == 0 then 0 else if q == 1 then 3 else q - 1
    case Quarters => q
  }

  /** The first active quarter met going to the right from `q`, `q` included. */
  function NearestActive(form: SubwordForm, active: set<Quarter>, q: Quarter, steps: nat): Option<Quarter>
    decreases steps
  {
    if q in active then Some(q)
    else if steps == 0 then None
    else NearestActive(form, active, ToTheRight(form, q), steps - 1)
  }

  function SignSource(form: SubwordForm, active: set<Quarter>, q: Quarter): Option<Quarter> {
    NearestActive(form, active, q, 3)
  }

  /** What sign extension leaves in quarter `q`. */
  function ExtendedAt(form: SubwordForm, active: set<Quarter>, w: Word, q: Quarter): Word {
    match SignSource(form, active, q)
    case None => At(w, q)
    case Some(from) => if from == q then At(w, q) else Fill(At(w, from))
  }

  function FirstActive(active: set<Quarter>): Option<Quarter> {
    if 0 in active then Some(0) else if 1 in active then Some(1) else if 2 in active then Some(2)
    else if 3 in active then Some(3) else None
  }

  /** The last active quarter among the first `n` of an ordering that starts with an active one. */
  function LastActive(ordering: seq<Quarter>, active: set<Quarter>, n: nat): (q: Quarter)
    requires 0 < |ordering| && ordering[0] in active && n <= |ordering|
    ensures q in active && q in ordering
  {
    if n == 0 then ordering[0]
    else if ordering[n - 1] in active then ordering[n - 1]
    else LastActive(ordering, active, n - 1)
  }

  /** What is left in the quarter at place `i` of the ordering. */
  function OrderedAt(ordering: seq<Quarter>, active: set<Quarter>, w: Word, i: nat): Word
    requires 0 < |ordering| && ordering[0] in active && i < |ordering|
  {
    if ordering[i] in active then At(w, ordering[i]) else Fill(At(w, LastActive(ordering, active, i)))
  }

  method SignExtendQuarters(w: Word, active: set<Quarter>, ordering: seq<Quarter>) returns (word: Word)
    requires 0 < |ordering| && FirstActive(active) == Some(ordering[0])
    requires forall i, j :: 0 <= i < j < |ordering| ==> ordering[i] != ordering[j]
    ensures forall i :: 0 <= i < |ordering| ==> At(word, ordering[i]) == OrderedAt(ordering, active, w, i)
    ensures forall q: Quarter :: q !in ordering ==> At(word, q) == At(w, q)
  {
    hide At;
    hide With;
    hide Fill;
    word := w;
    var lastActive := ordering[0];
    for n := 0 to |ordering|
      invariant lastActive == LastActive(ordering, active, n)
      invariant forall i :: 0 <= i < n ==> At(word, ordering[i]) == OrderedAt(ordering, active, w, i)
      invariant forall q: Quarter :: q in active || q !in ordering[..n] ==> At(word, q) == At(w, q)
    {
      var q := ordering[n];
      if q in active {
        lastActive := q;
      } else {
        ghost var before := word;
        var fill := Fill(At(word, lastActive));
        FillFits(At(word, lastActive));
        OneQuarterWritten(word, q, fill);
        word := With(word, q, fill);
      }
    }
  }

  /** A set of quarters that extension does not look out of. */
  predicate IsSubword(form: SubwordForm, sub: set<Quarter>) {
    forall q: Quarter :: q in sub ==> ToTheRight(form, q) in sub
  }

  /** An ordering that goes to the left, one quarter after the other. */
  predicate GoesLeft(form: SubwordForm, ordering: seq<Quarter>) {
    && 0 < |ordering| <= 4
    && (forall i :: 0 < i < |ordering| ==> ToTheRight(form, ordering[i]) == ordering[i - 1])
    && forall i, j :: 0 <= i < j < |ordering| ==> ordering[i] != ordering[j]
  }

  lemma {:induction false} NearestIsLastActive(
      form: SubwordForm, active: set<Quarter>, ordering: seq<Quarter>, i: nat, steps: nat)
    requires GoesLeft(form, ordering) && ordering[0] in active && i < |ordering| && i <= steps
    ensures NearestActive(form, active, ordering[i], steps)
      == Some(if ordering[i] in active then ordering[i] else LastActive(ordering, active, i))
    decreases i
  {
    if ordering[i] !in active {
      NearestIsLastActive(form, active, ordering, i - 1, steps - 1);
    }
  }

  lemma {:induction false} OnlyTheSubwordCounts(
      form: SubwordForm, active: set<Quarter>, sub: set<Quarter>, q: Quarter, steps: nat)
    requires IsSubword(form, sub) && q in sub
    ensures NearestActive(form, active, q, steps) == NearestActive(form, active * sub, q, steps)
    ensures active * sub == {} ==> NearestActive(form, active, q, steps) == None
    decreases steps
  {
    if q !in active && steps > 0 {
      OnlyTheSubwordCounts(form, active, sub, ToTheRight(form, q), steps - 1);
    } else if q in active {
      assert q in active * sub;
    }
  }

  /** Going through a subword leaves in each of its quarters what the diagram asks for. */
  lemma SubwordIsExtended(form: SubwordForm, active: set<Quarter>, sub: set<Quarter>, ordering: seq<Quarter>, w: Word,
      i: nat)
    requires IsSubword(form, sub) && GoesLeft(form, ordering) && (forall q <- ordering :: q in sub)
    requires ordering[0] in active && i < |ordering|
    ensures ordering[0] in active * sub
    ensures OrderedAt(ordering, active * sub, w, i) == ExtendedAt(form, active, w, ordering[i])
  {
    hide At;
    assert ordering[0] in ordering && ordering[i] in ordering;
    NearestIsLastActive(form, active * sub, ordering, i, 3);
    OnlyTheSubwordCounts(form, active, sub, ordering[i], 3);
  }

  function JoinHalves(left: Word, right: Word): Word {
    (left & 0xF_FFFC_0000) | (right & 0x3_FFFF)
  }

  lemma AtJoinHalves(left: Word, right: Word)
    ensures At(JoinHalves(left, right), 0) == At(right, 0)
    ensures At(JoinHalves(left, right), 1) == At(right, 1)
    ensures At(JoinHalves(left, right), 2) == At(left, 2)
    ensures At(JoinHalves(left, right), 3) == At(left, 3)
  {
  }

  /** Extends the signs of one subword, if one of its quarters is active. */
  method ExtendSubword(form: SubwordForm, w: Word, active: set<Quarter>, sub: set<Quarter>, ordering: seq<Quarter>)
    returns (word: Word)
    requires IsSubword(form, sub)
    requires active * sub != {} ==>
      GoesLeft(form, ordering) && Some(ordering[0]) == FirstActive(active * sub) && (set q <- ordering) == sub
    ensures forall q: Quarter :: At(word, q) == if q in sub then ExtendedAt(form, active, w, q) else At(w, q)
  {
    hide At;
    if active * sub == {} {
      word := w;
      forall q: Quarter | q in sub ensures ExtendedAt(form, active, w, q) == At(w, q) {
        OnlyTheSubwordCounts(form, active, sub, q, 3);
      }
    } else {
      word := SignExtendQuarters(w, active * sub, ordering);
      forall q: Quarter | q in sub ensures At(word, q) == ExtendedAt(form, active, w, q) {
        assert q in set p <- ordering;
        var i :| 0 <= i < |ordering| && ordering[i] == q;
        SubwordIsExtended(form, active, sub, ordering, w, i);
      }
    }
  }

  lemma {:induction false} QuarterOnItsOwn(form: SubwordForm, active: set<Quarter>, q: Quarter, steps: nat)
    requires ToTheRight(form, q) == q
    ensures NearestActive(form, active, q, steps) == if q in active then Some(q) else None
    decreases steps
  {
    if steps > 0 {
      QuarterOnItsOwn(form, active, q, steps - 1);
    }
  }

  /** Once around to the left, starting at the first active quarter. */
  function WholeOrdering(active: set<Quarter>): (ordering: seq<Quarter>)
    ensures active != {} ==> GoesLeft(FullWord, ordering) && Some(ordering[0]) == FirstActive(active)
    ensures (set q <- ordering) == {0, 1, 2, 3}
  {
    match FirstActive(active)
    case Some(1) => [1, 2, 3, 0]
    case Some(2) => [2, 3, 0, 1]
    case Some(3) => [3, 0, 1, 2]
    case _ => [0, 1, 2, 3]
  }

  function ThreeOrdering(active: set<Quarter>): (ordering: seq<Quarter>)
    requires active <= {1, 2, 3}
    ensures active != {} ==> GoesLeft(ThreeOne, ordering) && Some(ordering[0]) == FirstActive(active)
    ensures (set q <- ordering) == {1, 2, 3}
  {
    match FirstActive(active)
    case Some(2) => [2, 3, 1]
    case Some(3) => [3, 1, 2]
    case _ => [1, 2, 3]
  }

  function HalfOrdering(active: set<Quarter>, low: Quarter): (ordering: seq<Quarter>)
    requires (low == 0 || low == 2) && active <= {low, low + 1}
    ensures active != {} ==> GoesLeft(Halves, ordering) && Some(ordering[0]) == FirstActive(active)
    ensures (set q <- ordering) == {low, low + 1}
  {
    if low in active then [low, low + 1] else [low + 1, low]
  }

  /** Main result: sign extension, subword by subword, is what the diagram asks for. */
  method SignExtend(form: SubwordForm, w: Word, active: set<Quarter>) returns (word: Word)
    ensures forall q: Quarter :: At(word, q) == ExtendedAt(form, active, w, q)
  {
    hide At;
    hide NearestActive;
    match form
    case FullWord =>
      assert active * {0, 1, 2, 3} == active;
      word := ExtendSubword(form, w, active, {0, 1, 2, 3}, WholeOrdering(active));
    case Halves =>
      var lhs := ExtendSubword(form, w, active, {2, 3}, HalfOrdering(active * {2, 3}, 2));
      var rhs := ExtendSubword(form, w, active, {0, 1}, HalfOrdering(active * {0, 1}, 0));
      AtJoinHalves(lhs, rhs);
      word := JoinHalves(lhs, rhs);
    case ThreeOne =>
      QuarterOnItsOwn(form, active, 0, 3);
      word := ExtendSubword(form, w, active, {1, 2, 3}, ThreeOrdering(active * {1, 2, 3}));
    case Quarters =>
      word := w;
      forall q: Quarter ensures SignSource(form, active, q) == if q in active then Some(q) else None {
        QuarterOnItsOwn(form, active, q, 3);
      }
  }

  // ----- loading, storing and complementing -----

  /** The result of a load, quarter by quarter. */
  function LoadedAt(c: Configuration, memory: Word, e: Word, q: Quarter): Word {
    var active := ActiveQuarters(c);
    match SignSource(FormOf(c), active, q)
    case None => At(e, q)
    case Some(from) =>
      var moved := At(memory, PermutationSource(PermutationOf(c), ME, from));
      if from == q then moved else Fill(moved)
  }

  function StoredAt(c: Configuration, e: Word, memory: Word, q: Quarter): Word {
    PermutedAt(PermutationOf(c), EM, ActiveQuarters(c), e, memory, q)
  }

  method ExchangedValueForLoad(c: Configuration, memory: Word, e: Word) returns (r: Word)
    ensures forall q: Quarter :: At(r, q) == LoadedAt(c, memory, e, q)
  {
    hide At;
    hide PermutationSource;
    var permuted := Permute(PermutationOf(c), ME, ActiveQuarters(c), memory, e);
    r := SignExtend(FormOf(c), permuted, ActiveQuarters(c));
    forall q: Quarter ensures At(r, q) == LoadedAt(c, memory, e, q) {
      SourceIsActive(FormOf(c), ActiveQuarters(c), q, 3);
    }
  }

  lemma {:induction false} SourceIsActive(form: SubwordForm, active: set<Quarter>, q: Quarter, steps: nat)
    ensures var from := NearestActive(form, active, q, steps);
      (from.Some? ==> from.value in active) && (q in active ==> from == Some(q))
    decreases steps
  {
    if q !in active && steps > 0 {
      SourceIsActive(form, active, ToTheRight(form, q), steps - 1);
    }
  }

  method ExchangedValueForStore(c: Configuration, e: Word, memory: Word) returns (r: Word)
    ensures forall q: Quarter :: At(r, q) == StoredAt(c, e, memory, q)
  {
    hide At;
    r := Permute(PermutationOf(c), EM, ActiveQuarters(c), e, memory);
  }

  function ComplementOf(v: Word): Word {
    FULL ^ v
  }

  function Flip(w: Word, q: Quarter): Word {
    match q
    case 0 => w ^ 0x1FF
    case 1 => w ^ 0x3_FE00
    case 2 => w ^ 0x7FC_0000
    case 3 => w ^ 0xF_F800_0000
  }

  lemma Flipping0(w: Word)
    ensures At(Flip(w, 0), 0) == ComplementOf(At(w, 0))
    ensures At(Flip(w, 0), 1) == At(w, 1)
    ensures At(Flip(w, 0), 2) == At(w, 2)
    ensures At(Flip(w, 0), 3) == At(w, 3)
  {
  }

  lemma Flipping1(w: Word)
    ensures At(Flip(w, 1), 0) == At(w, 0)
    ensures At(Flip(w, 1), 1) == ComplementOf(At(w, 1))
    ensures At(Flip(w, 1), 2) == At(w, 2)
    ensures At(Flip(w, 1), 3) == At(w, 3)
  {
  }

  lemma Flipping2(w: Word)
    ensures At(Flip(w, 2), 0) == At(w, 0)
    ensures At(Flip(w, 2), 1) == At(w, 1)
    ensures At(Flip(w, 2), 2) == ComplementOf(At(w, 2))
    ensures At(Flip(w, 2), 3) == At(w, 3)
  {
  }

  lemma Flipping3(w: Word)
    ensures At(Flip(w, 3), 0) == At(w, 0)
    ensures At(Flip(w, 3), 1) == At(w, 1)
    ensures At(Flip(w, 3), 2) == At(w, 2)
    ensures At(Flip(w, 3), 3) == ComplementOf(At(w, 3))
  {
  }

  lemma AtFlip(w: Word, q: Quarter, p: Quarter)
    ensures At(Flip(w, q), p) == if p == q then ComplementOf(At(w, p)) else At(w, p)
  {
    hide *;
    match q
    case 0 => Flipping0(w);
    case 1 => Flipping1(w);
    case 2 => Flipping2(w);
    case 3 => Flipping3(w);
  }

  lemma FillOfComplement(v: Word)
    requires v & FULL == v
    ensures Fill(ComplementOf(v)) == ComplementOf(Fill(v))
  {
  }

  /** What COM leaves: the complement of a load wherever a load takes something from memory. */
  function ComplementedAt(c: Configuration, source: Word, q: Quarter): Word {
    if SignSource(FormOf(c), ActiveQuarters(c), q).Some? then ComplementOf(LoadedAt(c, source, source, q))
    else At(source, PermutationSource(PermutationOf(c), ME, q))
  }

  /** Main result: COM permutes every quarter and complements what a load would have loaded. */
  method ComplementPermute(c: Configuration, source: Word) returns (r: Word)
    ensures forall q: Quarter :: At(r, q) == ComplementedAt(c, source, q)
  {
    hide At;
    hide ComplementOf;
    hide ExtendedAt;
    hide ComplementedAt;
    hide PermutationSource;
    hide ActiveQuarters;
    var active := ActiveQuarters(c);
    var permuted := Permute(PermutationOf(c), ME, {0, 1, 2, 3}, source, source);
    var complemented := ComplementActive(permuted, active);
    r := SignExtend(FormOf(c), complemented, active);
    assert IsExtended(FormOf(c), active, complemented, r);
    forall q: Quarter ensures At(permuted, q) == At(source, PermutationSource(PermutationOf(c), ME, q)) {
      assert At(permuted, q) == PermutedAt(PermutationOf(c), ME, {0, 1, 2, 3}, source, source, q);
    }
    hide *;
    ExtendedComplement(c, source, permuted, complemented, r);
  }

  method ComplementActive(w: Word, active: set<Quarter>) returns (r: Word)
    ensures forall q: Quarter :: At(r, q) == if q in active then ComplementOf(At(w, q)) else At(w, q)
  {
    hide At;
    hide Flip;
    hide ComplementOf;
    r := w;
    for quarter := 0 to 4
      invariant forall q: Quarter ::
        At(r, q) == if q < quarter && q in active then ComplementOf(At(w, q)) else At(w, q)
    {
      if quarter in active {
        forall q: Quarter
          ensures At(Flip(r, quarter), q) == if q == quarter then ComplementOf(At(r, q)) else At(r, q)
        {
          AtFlip(r, quarter, q);
        }
        r := Flip(r, quarter);
      }
    }
  }

  /** Extending the signs of the complemented quarters is what COM asks for. */
  lemma ExtendedComplement(c: Configuration, source: Word, permuted: Word, complemented: Word, r: Word)
    requires forall q: Quarter :: At(permuted, q) == At(source, PermutationSource(PermutationOf(c), ME, q))
    requires forall q: Quarter ::
      At(complemented, q) == if q in ActiveQuarters(c) then ComplementOf(At(permuted, q)) else At(permuted, q)
    requires IsExtended(FormOf(c), ActiveQuarters(c), complemented, r)
    ensures forall q: Quarter :: At(r, q) == ComplementedAt(c, source, q)
  {
    hide At;
    hide ComplementOf;
    hide Fill;
    hide PermutationSource;
    hide ActiveQuarters;
    forall q: Quarter ensures At(r, q) == ComplementedAt(c, source, q) {
      SourceIsActive(FormOf(c), ActiveQuarters(c), q, 3);
      var from := SignSource(FormOf(c), ActiveQuarters(c), q);
      if from.Some? {
        AtFits(source, PermutationSource(PermutationOf(c), ME, from.value));
        FillOfComplement(At(source, PermutationSource(PermutationOf(c), ME, from.value)));
      }
    }
  }

  // ----- the laws -----

  ghost predicate IsExtended(form: SubwordForm, active: set<Quarter>, w: Word, r: Word) {
    forall q: Quarter :: At(r, q) == ExtendedAt(form, active, w, q)
  }

  ghost predicate IsLoaded(c: Configuration, memory: Word, e: Word, r: Word) {
    forall q: Quarter :: At(r, q) == LoadedAt(c, memory, e, q)
  }

  ghost predicate IsStored(c: Configuration, e: Word, memory: Word, r: Word) {
    forall q: Quarter :: At(r, q) == StoredAt(c, e, memory, q)
  }

  /** Active quarters are never touched, and extending twice is extending once. */
  lemma ExtensionIsIdempotent(form: SubwordForm, active: set<Quarter>, w: Word, once: Word, twice: Word)
    requires IsExtended(form, active, w, once) && IsExtended(form, active, once, twice)
    ensures twice == once
    ensures forall q: Quarter :: q in active ==> At(once, q) == At(w, q)
  {
    hide At;
    hide Fill;
    forall q: Quarter ensures At(twice, q) == At(once, q) && (q in active ==> At(once, q) == At(w, q)) {
      SourceIsActive(form, active, q, 3);
      var from := SignSource(form, active, q);
      if from.Some? {
        SourceIsActive(form, active, from.value, 3);
      }
    }
    SameQuarters(twice, once);
  }

  /** Main result: storing back what was loaded leaves memory as it was. */
  lemma StoreBackChangesNothing(c: Configuration, memory: Word, e: Word, loaded: Word, stored: Word)
    requires IsLoaded(c, memory, e, loaded) && IsStored(c, loaded, memory, stored)
    ensures stored == memory
  {
    hide At;
    hide Fill;
    hide PermutationSource;
    hide ActiveQuarters;
    forall q: Quarter ensures At(stored, q) == At(memory, q) {
      var from := PermutationSource(PermutationOf(c), EM, q);
      DirectionsAreInverse(PermutationOf(c), q);
      SourceIsActive(FormOf(c), ActiveQuarters(c), from, 3);
    }
    SameQuarters(stored, memory);
  }

  /**
   * Main result: loading after a store recovers the active quarters of what was stored, and
   * their signs in the inactive quarters; only subwords without an active one keep E.
   */
  lemma LoadAfterStore(c: Configuration, e: Word, memory: Word, stored: Word, e': Word, loaded: Word, q: Quarter)
    requires IsStored(c, e, memory, stored) && IsLoaded(c, stored, e', loaded)
    ensures At(loaded, q) ==
      match SignSource(FormOf(c), ActiveQuarters(c), q)
      case None => At(e', q)
      case Some(from) => if from == q then At(e, q) else Fill(At(e, from))
  {
    hide At;
    hide Fill;
    hide PermutationSource;
    hide ActiveQuarters;
    var from := SignSource(FormOf(c), ActiveQuarters(c), q);
    SourceIsActive(FormOf(c), ActiveQuarters(c), q, 3);
    if from.Some? {
      DirectionsAreInverse(PermutationOf(c), from.value);
      var place := PermutationSource(PermutationOf(c), ME, from.value);
      assert At(stored, place) == At(e, from.value);
    }
  }

  /** Main result: a second store overrides the first. */
  lemma SecondStoreWins(c: Configuration, e: Word, e': Word, memory: Word, first: Word, both: Word, second: Word)
    requires IsStored(c, e, memory, first) && IsStored(c, e', first, both) && IsStored(c, e', memory, second)
    ensures both == second
  {
    hide At;
    hide PermutationSource;
    hide ActiveQuarters;
    forall q: Quarter ensures At(both, q) == At(second, q) {
    }
    SameQuarters(both, second);
  }

  // ----- in numbers -----

  /** A quarter is nine bits of the word, and a shift brings it down. */
  lemma QuarterIsShiftedDown(w: Word)
    ensures At(w, 0) == w & 0x1FF && At(w, 1) == (w >> 9) & 0x1FF
    ensures At(w, 2) == (w >> 18) & 0x1FF && At(w, 3) == (w >> 27) & 0x1FF
  {
  }

  /** The sign of a quarter is its highest bit, and it fills all nine of another. */
  lemma SignIsHighestBit(v: Word)
    requires v & FULL == v
    ensures Negative(v) <==> v >= 0x100
    ensures Fill(v) == if v < 0x100 then 0 else 0x1FF
  {
  }

  /** The quarters that a load takes quarters 0 to 3 of E from, for each permutation. */
  const SOURCES: seq<seq<nat>> := [
    [0, 1, 2, 3], [1, 2, 3, 0], [2, 3, 0, 1], [3, 0, 1, 2],
    [1, 0, 3, 2], [3, 2, 1, 0], [0, 3, 1, 2], [0, 2, 3, 1]]

  lemma PermutationsAre(p: nat, q: Quarter)
    requires p < 8
    ensures PermutationSource(p, ME, q) == SOURCES[p][q]
    ensures SOURCES[p][PermutationSource(p, EM, q)] == q
  {
  }

  /** The fields of a configuration: form, the inactive quarters from the left, permutation. */
  lemma FieldsAre(form: nat, off3: nat, off2: nat, off1: nat, off0: nat, p: nat)
    requires form < 4 && off3 < 2 && off2 < 2 && off1 < 2 && off0 < 2 && p < 8
    ensures var c := 128 * form + 64 * off3 + 32 * off2 + 16 * off1 + 8 * off0 + p;
      && FormOf(c) == [FullWord, Halves, ThreeOne, Quarters][form] && PermutationOf(c) == p
      && forall q: Quarter :: q in ActiveQuarters(c) <==> [off0, off1, off2, off3][q] == 0
  {
    var c := 128 * form + 64 * off3 + 32 * off2 + 16 * off1 + 8 * off0 + p;
    assert c % 8 == p && c / 8 == 16 * form + 8 * off3 + 4 * off2 + 2 * off1 + off0;
    assert c / 16 == 8 * form + 4 * off3 + 2 * off2 + off1 && c / 32 == 4 * form + 2 * off3 + off2;
    assert c / 64 == 2 * form + off3 && c / 128 == form;
  }

  /** Whole words, unpermuted, with the lowest `n` quarters active. */
  function LowQuarters(n: nat): Configuration
    requires 0 < n <= 4
  {
    [112, 96, 64, 0][n - 1]
  }

  /** The one's complement number in the lowest `n` quarters of `w`, as a whole word. */
  function Widened(n: nat, w: Word): Word
    requires 0 < n <= 4
  {
    match n
    case 1 => if w & 0x100 == 0 then w & 0x1FF else w | 0xF_FFFF_FE00
    case 2 => if w & 0x2_0000 == 0 then w & 0x3_FFFF else w | 0xF_FFFC_0000
    case 3 => if w & 0x400_0000 == 0 then w & 0x7FF_FFFF else w | 0xF_F800_0000
    case 4 => w
  }

  /**
   * Main result: loading the lowest quarters of a word keeps the one's complement number that
   * is in them, however wide: above it there are zeros if it is positive and ones if it is
   * negative.  All four are loaded as they are.
   */
  lemma LoadKeepsTheNumber(n: nat, memory: Word, e: Word, loaded: Word)
    requires 0 < n <= 4 && IsLoaded(LowQuarters(n), memory, e, loaded)
    ensures loaded == Widened(n, memory)
  {
    LoadedQuarters(n, memory, e, loaded);
    hide *;
    match n {
      case 1 => OneWidened(memory);
      case 2 => TwoWidened(memory);
      case 3 => ThreeWidened(memory);
      case 4 => AllWidened(memory);
    }
    SameQuarters(loaded, Widened(n, memory));
  }

  lemma LoadedQuarters(n: nat, memory: Word, e: Word, loaded: Word)
    requires 0 < n <= 4 && IsLoaded(LowQuarters(n), memory, e, loaded)
    ensures forall q: Quarter :: At(loaded, q) == if q < n then At(memory, q) else Fill(At(memory, n - 1))
  {
    hide At;
    hide Fill;
    hide NearestActive;
    var c := LowQuarters(n);
    var off3, off2, off1 := if n < 4 then 1 else 0, if n < 3 then 1 else 0, if n < 2 then 1 else 0;
    FieldsAre(0, off3, off2, off1, 0, 0);
    forall q: Quarter ensures SignSource(FullWord, ActiveQuarters(c), q) == Some(if q < n then q else n - 1) {
      NearestBelow(ActiveQuarters(c), n, q, 3);
    }
    assert forall q: Quarter :: PermutationSource(0, ME, q) == q;
  }

  lemma {:induction false} NearestBelow(active: set<Quarter>, n: nat, q: Quarter, steps: nat)
    requires 0 < n && (forall p: Quarter :: p in active <==> p < n) && q <= steps
    ensures NearestActive(FullWord, active, q, steps) == Some(if q < n then q else n - 1)
    decreases steps
  {
    if q >= n {
      NearestBelow(active, n, q - 1, steps - 1);
    }
  }

  lemma SignsAre(w: Word)
    ensures Negative(At(w, 0)) <==> w & 0x100 != 0
    ensures Negative(At(w, 1)) <==> w & 0x2_0000 != 0
    ensures Negative(At(w, 2)) <==> w & 0x400_0000 != 0
  {
  }

  lemma OneCut(w: Word)
    ensures At(w & 0x1FF, 0) == At(w, 0)
    ensures At(w & 0x1FF, 1) == 0
    ensures At(w & 0x1FF, 2) == 0
    ensures At(w & 0x1FF, 3) == 0
  {
  }

  lemma OneFilled(w: Word)
    ensures At(w | 0xF_FFFF_FE00, 0) == At(w, 0)
    ensures At(w | 0xF_FFFF_FE00, 1) == FULL
    ensures At(w | 0xF_FFFF_FE00, 2) == FULL
    ensures At(w | 0xF_FFFF_FE00, 3) == FULL
  {
  }

  lemma OneWidened(w: Word)
    ensures At(Widened(1, w), 0) == At(w, 0)
    ensures At(Widened(1, w), 1) == Fill(At(w, 0))
    ensures At(Widened(1, w), 2) == Fill(At(w, 0))
    ensures At(Widened(1, w), 3) == Fill(At(w, 0))
  {
    hide At;
    hide Negative;
    SignsAre(w);
    if w & 0x100 == 0 {
      OneCut(w);
    } else {
      OneFilled(w);
    }
  }

  lemma TwoCut(w: Word)
    ensures At(w & 0x3_FFFF, 0) == At(w, 0)
    ensures At(w & 0x3_FFFF, 1) == At(w, 1)
    ensures At(w & 0x3_FFFF, 2) == 0
    ensures At(w & 0x3_FFFF, 3) == 0
  {
  }

  lemma TwoFilled(w: Word)
    ensures At(w | 0xF_FFFC_0000, 0) == At(w, 0)
    ensures At(w | 0xF_FFFC_0000, 1) == At(w, 1)
    ensures At(w | 0xF_FFFC_0000, 2) == FULL
    ensures At(w | 0xF_FFFC_0000, 3) == FULL
  {
  }

  lemma TwoWidened(w: Word)
    ensures At(Widened(2, w), 0) == At(w, 0)
    ensures At(Widened(2, w), 1) == At(w, 1)
    ensures At(Widened(2, w), 2) == Fill(At(w, 1))
    ensures At(Widened(2, w), 3) == Fill(At(w, 1))
  {
    hide At;
    hide Negative;
    SignsAre(w);
    if w & 0x2_0000 == 0 {
      TwoCut(w);
    } else {
      TwoFilled(w);
    }
  }

  lemma ThreeCut(w: Word)
    ensures At(w & 0x7FF_FFFF, 0) == At(w, 0)
    ensures At(w & 0x7FF_FFFF, 1) == At(w, 1)
    ensures At(w & 0x7FF_FFFF, 2) == At(w, 2)
    ensures At(w & 0x7FF_FFFF, 3) == 0
  {
  }

  lemma ThreeFilled(w: Word)
    ensures At(w | 0xF_F800_0000, 0) == At(w, 0)
    ensures At(w | 0xF_F800_0000, 1) == At(w, 1)
    ensures At(w | 0xF_F800_0000, 2) == At(w, 2)
    ensures At(w | 0xF_F800_0000, 3) == FULL
  {
  }

  lemma ThreeWidened(w: Word)
    ensures At(Widened(3, w), 0) == At(w, 0)
    ensures At(Widened(3, w), 1) == At(w, 1)
    ensures At(Widened(3, w), 2) == At(w, 2)
    ensures At(Widened(3, w), 3) == Fill(At(w, 2))
  {
    hide At;
    hide Negative;
    SignsAre(w);
    if w & 0x400_0000 == 0 {
      ThreeCut(w);
    } else {
      ThreeFilled(w);
    }
  }

  lemma AllWidened(w: Word)
    ensures Widened(4, w) == w
  {
  }

  /** The quarters that quarters 0 to 3 take a sign from, for each form. */
  lemma SubwordsAre(q: Quarter)
    ensures ToTheRight(FullWord, q) == [3, 0, 1, 2][q] && ToTheRight(Halves, q) == [1, 0, 3, 2][q]
    ensures ToTheRight(ThreeOne, q) == [0, 3, 1, 2][q] && ToTheRight(Quarters, q) == q
  {
  }

  /** COM in a configuration that takes all of the word as it is turns every bit of it over. */
  lemma WholeComplement(source: Word, r: Word)
    requires forall q: Quarter :: At(r, q) == ComplementedAt(LowQuarters(4), source, q)
    ensures r == !source
  {
    FieldsAre(0, 0, 0, 0, 0, 0);
    forall q: Quarter ensures At(r, q) == ComplementOf(At(source, q)) {
      SourceIsActive(FullWord, ActiveQuarters(0), q, 3);
      PermutationsAre(0, q);
    }
    hide *;
    NotByQuarters(source);
    SameQuarters(r, !source);
  }

  lemma NotByQuarters(w: Word)
    ensures At(!w, 0) == ComplementOf(At(w, 0)) && At(!w, 1) == ComplementOf(At(w, 1))
    ensures At(!w, 2) == ComplementOf(At(w, 2)) && At(!w, 3) == ComplementOf(At(w, 3))
  {
  }
}
