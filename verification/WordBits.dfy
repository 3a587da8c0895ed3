/**
 * What the assembler's operations on 36-bit words do to single bits, quarters and signed
 * numbers.  A bit is what dividing by two again and again leaves.
 */
module WordBits {
  import opened Words
  import opened AssemblyTree

  /** Bit `k` of a number, the lowest being bit 0. */
  predicate Bit(w: nat, k: nat) {
    if k == 0 then w % 2 == 1 else Bit(w / 2, k - 1)
  }

  lemma {:induction false} NoBitsInZero(k: nat)
    ensures !Bit(0, k)
  {
    if k > 0 {
      NoBitsInZero(k - 1);
    }
  }

  // ----- logical operators -----

  lemma {:induction false} BitOfBitwise(places: nat, f: (bool, bool) -> bool, a: nat, b: nat, k: nat)
    requires k < places
    ensures Bit(Bitwise(Shifted(1, places), f, a, b), k) == f(Bit(a, k), Bit(b, k))
    decreases places
  {
    if k > 0 {
      BitOfBitwise(places - 1, f, a / 2, b / 2, k - 1);
    }
  }

  lemma BitOfCombine(f: (bool, bool) -> bool, a: Word36, b: Word36, k: nat)
    requires k < 36
    ensures Bit(Combine(f, a, b), k) == f(Bit(a, k), Bit(b, k))
  {
    ThirtySixPlaces();
    BitOfBitwise(36, f, a, b, k);
  }

  /** Main result: each logical operator works on every bit of a word apart from the others. */
  lemma LogicalOperators(left: Word36, right: Word36, k: nat)
    requires k < 36
    ensures EvalBinop(left, LogicalAnd, right).Some?
    ensures Bit(EvalBinop(left, LogicalAnd, right).value, k) <==> Bit(left, k) && Bit(right, k)
    ensures EvalBinop(left, LogicalOr, right).Some?
    ensures Bit(EvalBinop(left, LogicalOr, right).value, k) <==> Bit(left, k) || Bit(right, k)
    ensures EvalBinop(left, LogicalXor, right).Some?
    ensures Bit(EvalBinop(left, LogicalXor, right).value, k) <==> Bit(left, k) != Bit(right, k)
  {
    BitOfCombine((x, y) => x && y, left, right, k);
    BitOfCombine((x, y) => x || y, left, right, k);
    BitOfCombine((x, y) => x != y, left, right, k);
  }

  lemma BitOfUnion(a: Word36, b: Word36, k: nat)
    requires k < 36
    ensures Bit(Union(a, b), k) <==> Bit(a, k) || Bit(b, k)
  {
    BitOfCombine((x, y) => x || y, a, b, k);
  }

  /** A negation turns every bit over. */
  lemma BitOfNot(w: Word36, k: nat)
    requires k < 36
    ensures Bit(Not(w), k) != Bit(w, k)
  {
    ThirtySixPlaces();
    BitOfComplement(36, w, k);
  }

  lemma {:induction false} BitOfComplement(places: nat, v: nat, k: nat)
    requires v < Shifted(1, places) && k < places
    ensures Bit(Shifted(1, places) - 1 - v, k) != Bit(v, k)
    decreases places
  {
    var half := Shifted(1, places - 1);
    assert (2 * half - 1 - v) / 2 == half - 1 - v / 2 && (2 * half - 1 - v) % 2 != v % 2;
    if k > 0 {
      BitOfComplement(places - 1, v / 2, k - 1);
    }
  }

  // ----- arithmetic operators -----

  /** The number that a word stands for: its own value, or minus that of its complement. */
  lemma SignedValueIs(w: Word36)
    ensures w < 0x8_0000_0000 ==> SignedValue36(w) == w
    ensures w >= 0x8_0000_0000 ==> SignedValue36(w) == -(0xF_FFFF_FFFF - w)
  {
  }

  /** The word of a result: the number, if there is room for it; never minus zero. */
  predicate IsResult(r: Option<Word36>, v: int) {
    match r
    case None => v <= -0x8_0000_0000 || v >= 0x8_0000_0000
    case Some(w) => w < 0xF_FFFF_FFFF && SignedValue36(w) == v
  }

  lemma ArithmeticOperators(left: Word36, right: Word36)
    ensures IsResult(EvalBinop(left, Add, right), SignedValue36(left) + SignedValue36(right))
    ensures IsResult(EvalBinop(left, Subtract, right), SignedValue36(left) - SignedValue36(right))
    ensures IsResult(EvalBinop(left, Multiply, right), SignedValue36(left) * SignedValue36(right))
  {
    ResultOf(SignedValue36(left) * SignedValue36(right));
  }

  lemma ResultOf(v: int)
    ensures IsResult(FromSigned(v), v)
  {
  }

  /** The quotient of two numbers, rounded towards zero. */
  predicate IsQuotient(q: int, a: int, b: int) {
    && Magnitude(q) * Magnitude(b) <= Magnitude(a) < (Magnitude(q) + 1) * Magnitude(b)
    && (q > 0 ==> (a > 0) == (b > 0))
    && (q < 0 ==> (a > 0) != (b > 0))
  }

  lemma QuotientFits(m: nat, n: nat)
    requires n > 0
    ensures m / n * n <= m < (m / n + 1) * n && m / n <= m
  {
    var q, rest := m / n, m % n;
    assert m == q * n + rest && rest < n;
    MultipleIsNoLess(q, n);
  }

  lemma MultipleIsNoLess(q: nat, n: nat)
    requires n > 0
    ensures q <= q * n
  {
  }

  function WithSign(q: nat, negative: bool): int {
    if negative then 0 - q else q
  }

  lemma SignOfQuotient(q: nat, a: int, b: int)
    requires b != 0 && q * Magnitude(b) <= Magnitude(a) < (q + 1) * Magnitude(b)
    ensures IsQuotient(WithSign(q, (a < 0) != (b < 0)), a, b)
    ensures Magnitude(WithSign(q, (a < 0) != (b < 0))) == q
  {
    MultipleIsNoLess(q, Magnitude(b));
  }

  lemma QuotientIs(a: int, b: int)
    requires b != 0
    ensures Magnitude(b) > 0
    ensures Quotient(a, b) == WithSign(Magnitude(a) / Magnitude(b), (a < 0) != (b < 0))
  {
  }

  lemma QuotientRounds(a: int, b: int)
    requires b != 0
    ensures IsQuotient(Quotient(a, b), a, b) && Magnitude(Quotient(a, b)) <= Magnitude(a)
  {
    hide *;
    QuotientIs(a, b);
    QuotientFits(Magnitude(a), Magnitude(b));
    SignOfQuotient(Magnitude(a) / Magnitude(b), a, b);
  }

  /**
   * Division rounds towards zero.  Dividing nothing by nothing gives zero; dividing anything
   * else by plus zero complements it, by minus zero leaves it.
   */
  lemma DivisionOperator(left: Word36, right: Word36)
    ensures var r, a, b := EvalBinop(left, Divide, right), SignedValue36(left), SignedValue36(right);
      && r.Some?
      && (b != 0 ==> r.value != 0xF_FFFF_FFFF && IsQuotient(SignedValue36(r.value), a, b))
      && (b == 0 && a == 0 ==> r.value == 0)
      && (right == 0 && a != 0 ==> r.value == 0xF_FFFF_FFFF - left)
      && (right == 0xF_FFFF_FFFF && a != 0 ==> r.value == left)
  {
    hide IsQuotient;
    hide Quotient;
    var a, b := SignedValue36(left), SignedValue36(right);
    if b != 0 {
      QuotientRounds(a, b);
      if a == 0 {
        assert Magnitude(Quotient(a, b)) == 0;
      }
      ResultOf(Quotient(a, b));
    }
  }

  // ----- scripts -----

  lemma {:induction false} BitInParts(places: nat, high: nat, low: nat, k: nat)
    requires low < Shifted(1, places)
    ensures Bit(Shifted(high, places) + low, k) == if k < places then Bit(low, k) else Bit(high, k - places)
    decreases places
  {
    if places > 0 {
      assert Shifted(1, places) == 2 * Shifted(1, places - 1);
      assert (Shifted(high, places) + low) / 2 == Shifted(high, places - 1) + low / 2;
      assert (Shifted(high, places) + low) % 2 == low % 2;
      if k > 0 {
        BitInParts(places - 1, high, low / 2, k - 1);
      }
    }
  }

  /** A script moves the bits around the word: superscript 30 places up, subscript 18. */
  lemma ElevateMovesBits(w: Word36, script: Script, k: nat)
    requires k < 36
    ensures Bit(Elevate(w, script), k) ==
      match script
      case Normal => Bit(w, k)
      case Super => Bit(w, (k + 6) % 36)
      case Sub => Bit(w, (k + 18) % 36)
  {
    match script {
      case Normal =>
      case Super => SuperMovesBits(w / 0x40, w % 0x40, k);
      case Sub => SubMovesBits(w / 0x4_0000, w % 0x4_0000, k);
    }
  }

  lemma SuperMovesBits(high: nat, low: nat, k: nat)
    requires k < 36 && high < 0x4000_0000 && low < 0x40
    ensures Bit(low * 0x4000_0000 + high, k) == Bit(high * 0x40 + low, (k + 6) % 36)
  {
    hide Bit;
    hide Shifted;
    SixPlaces(1);
    ThirtyPlaces(1);
    SixPlaces(high);
    ThirtyPlaces(low);
    BitInParts(6, high, low, (k + 6) % 36);
    BitInParts(30, low, high, k);
  }

  lemma SubMovesBits(high: nat, low: nat, k: nat)
    requires k < 36 && high < 0x4_0000 && low < 0x4_0000
    ensures Bit(low * 0x4_0000 + high, k) == Bit(high * 0x4_0000 + low, (k + 18) % 36)
  {
    hide Bit;
    hide Shifted;
    EighteenPlaces(1);
    EighteenPlaces(high);
    EighteenPlaces(low);
    BitInParts(18, high, low, (k + 18) % 36);
    BitInParts(18, low, high, k);
  }

  // ----- syllables -----

  lemma {:induction false} BitOfSum(n: nat, low: nat, k: nat)
    requires low < Shifted(1, n)
    ensures Bit(Shifted(1, n) + low, k) <==> k == n || Bit(low, k)
  {
    BitInParts(n, 1, low, k);
    if k >= n {
      BitInParts(n, 0, low, k);
      ShiftedZero(n);
      NoBitsInZero(k - n);
      if k > n {
        NoBitsInZero(k - n - 1);
      }
    }
  }

  lemma {:induction false} ShiftedZero(n: nat)
    ensures Shifted(0, n) == 0
  {
    if n > 0 {
      ShiftedZero(n - 1);
    }
  }

  lemma ThirtyFivePlaces()
    ensures Shifted(1, 35) == 0x8_0000_0000
  {
    ThirtySixPlaces();
  }

  /** The hold syllable decides the highest bit of its fragment and no other. */
  lemma HoldDecidesOneBit(v: Word36, hold: HoldBit, k: nat)
    requires k < 36
    ensures Bit(WithHold(v, hold), k) <==>
      if k == 35 && !hold.Unspecified? then hold.Hold? else Bit(v, k)
  {
    ThirtyFivePlaces();
    var rest := v % 0x8_0000_0000;
    BitOfSum(35, rest, k);
    BitInParts(35, 0, rest, k);
    ShiftedZero(35);
    if k == 35 {
      NoBitsInZero(0);
    }
    assert v == rest || v == 0x8_0000_0000 + rest;
  }

  /** A quarter of a word, the rightmost being quarter 0. */
  function QuarterOf(w: nat, q: nat): nat {
    if q == 0 then w % 0x200 else QuarterOf(w / 0x200, q - 1)
  }

  /** The comma chart: for each quarter from the left the quarter it is filled from, counted from 1, or 0. */
  const CHART: seq<seq<seq<nat>>> := [
    [[4, 3, 2, 1], [1, 0, 0, 0], [2, 1, 0, 0], [3, 2, 1, 0]],
    [[0, 0, 0, 1], [0, 2, 1, 0], [0, 1, 0, 0], [4, 3, 2, 0]],
    [[0, 0, 2, 1], [0, 0, 1, 0], [2, 1, 4, 3], [0, 0, 4, 3]],
    [[0, 0, 0, 1], [0, 0, 0, 4], [0, 4, 0, 0], [0, 0, 4, 3]]]

  function FromQuarters(q3: nat, q2: nat, q1: nat, q0: nat): nat {
    q3 * 0x800_0000 + q2 * 0x4_0000 + q1 * 0x200 + q0
  }

  lemma QuartersAre(q3: nat, q2: nat, q1: nat, q0: nat)
    requires q3 < 0x200 && q2 < 0x200 && q1 < 0x200 && q0 < 0x200
    ensures var w := FromQuarters(q3, q2, q1, q0);
      QuarterOf(w, 0) == q0 && QuarterOf(w, 1) == q1 && QuarterOf(w, 2) == q2 && QuarterOf(w, 3) == q3
  {
    var w := FromQuarters(q3, q2, q1, q0);
    assert w / 0x200 == q3 * 0x4_0000 + q2 * 0x200 + q1;
    assert w / 0x200 / 0x200 == q3 * 0x200 + q2;
    assert w / 0x200 / 0x200 / 0x200 == q3;
    assert QuarterOf(w, 1) == QuarterOf(w / 0x200, 0);
    assert QuarterOf(w, 2) == QuarterOf(w / 0x200, 1) == QuarterOf(w / 0x200 / 0x200, 0);
    assert QuarterOf(w, 3) == QuarterOf(w / 0x200, 2) == QuarterOf(w / 0x200 / 0x200, 1);
    assert QuarterOf(w / 0x200 / 0x200, 1) == QuarterOf(w / 0x200 / 0x200 / 0x200, 0);
  }

  /** A quarter chosen by its number, counted from 1; nothing if that is 0. */
  function Chosen(q3: nat, q2: nat, q1: nat, q0: nat, from: nat): nat {
    match from
    case 1 => q0
    case 2 => q1
    case 3 => q2
    case 4 => q3
    case _ => 0
  }

  /** Commas move the quarters of a value as the chart says. */
  lemma CommasFollowTheChart(leading: Commas, q3: nat, q2: nat, q1: nat, q0: nat, trailing: Commas)
    requires q3 < 0x200 && q2 < 0x200 && q1 < 0x200 && q0 < 0x200
    ensures var row := CHART[leading][trailing];
      CommaTransform(leading, FromQuarters(q3, q2, q1, q0), trailing) == FromQuarters(
        Chosen(q3, q2, q1, q0, row[0]), Chosen(q3, q2, q1, q0, row[1]),
        Chosen(q3, q2, q1, q0, row[2]), Chosen(q3, q2, q1, q0, row[3]))
  {
    var v := FromQuarters(q3, q2, q1, q0);
    PartsOf(q3, q2, q1, q0);
  }

  lemma PartsOf(q3: nat, q2: nat, q1: nat, q0: nat)
    requires q3 < 0x200 && q2 < 0x200 && q1 < 0x200 && q0 < 0x200
    ensures var v := FromQuarters(q3, q2, q1, q0);
      && v < 0x10_0000_0000
      && v % 0x200 == q0 && v % 0x4_0000 == q1 * 0x200 + q0
      && v % 0x800_0000 == q2 * 0x4_0000 + q1 * 0x200 + q0
      && v / 0x800_0000 == q3 && v / 0x4_0000 == q3 * 0x200 + q2
  {
    var v := FromQuarters(q3, q2, q1, q0);
    assert v / 0x200 == q3 * 0x4_0000 + q2 * 0x200 + q1 && v % 0x200 == q0;
    var low := q1 * 0x200 + q0;
    assert low < 0x4_0000 && v == (q3 * 0x200 + q2) * 0x4_0000 + low;
    assert v / 0x4_0000 == q3 * 0x200 + q2 && v % 0x4_0000 == low;
    var lower := q2 * 0x4_0000 + low;
    assert lower < 0x800_0000 && v == q3 * 0x800_0000 + lower;
    assert v / 0x800_0000 == q3 && v % 0x800_0000 == lower;
  }

  lemma {:induction false} SameBitsSameNumber(places: nat, v: nat, w: nat)
    requires v < Shifted(1, places) && w < Shifted(1, places) && forall k: nat :: k < places ==> Bit(v, k) == Bit(w, k)
    ensures v == w
    decreases places
  {
    if places > 0 {
      assert Bit(v, 0) == Bit(w, 0);
      forall k: nat | k < places - 1 ensures Bit(v / 2, k) == Bit(w / 2, k) {
        assert Bit(v, k + 1) == Bit(w, k + 1);
      }
      SameBitsSameNumber(places - 1, v / 2, w / 2);
    }
  }

  /** The hold syllable of a fragment takes effect on its body, before the commas move quarters. */
  lemma FragmentValue(f: Fragment, rho: Valuation, ctx: Context, held: Word36)
    requires EvalBody(f.body, rho, ctx).Valued?
    requires forall k: nat :: k < 36 ==>
      (Bit(held, k) <==>
        if k == 35 && !f.hold.Unspecified? then f.hold.Hold? else Bit(EvalBody(f.body, rho, ctx).value, k))
    ensures EvalFragment(f, rho, ctx) ==
      Valued(CommaTransform(f.leading, held, f.trailing), EvalBody(f.body, rho, ctx).updates)
  {
    var v := EvalBody(f.body, rho, ctx).value;
    forall k: nat | k < 36 ensures Bit(held, k) == Bit(WithHold(v, f.hold), k) {
      HoldDecidesOneBit(v, f.hold, k);
    }
    ThirtySixPlaces();
    SameBitsSameNumber(36, held, WithHold(v, f.hold));
  }

  // ----- expressions -----

  /** Operators apply from left to right: the last one applies to all that comes before it. */
  lemma {:induction false} LastOperatorGoesLast(acc: Word36, tail: seq<Term>, t: Term, rho: Valuation, ctx: Context)
    ensures EvalTerms(acc, tail + [t], rho, ctx) ==
      var r := EvalTerms(acc, tail, rho, ctx);
      if r.Failed? then Failed else Then(r.updates, EvalStep(r.value, t, rho, ctx))
    decreases tail
  {
    if tail == [] {
      assert [] + [t] == [t] && [t][1..] == [];
      var step := EvalStep(acc, t, rho, ctx);
      if step.Valued? {
        assert EvalTerms(step.value, [], rho, ctx) == Valued(step.value, []);
        assert step.updates + [] == step.updates && [] + step.updates == step.updates;
      }
    } else {
      assert (tail + [t])[1..] == tail[1..] + [t];
      var first := EvalStep(acc, tail[0], rho, ctx);
      if first.Valued? {
        LastOperatorGoesLast(first.value, tail[1..], t, rho, ctx);
        var rest := EvalTerms(first.value, tail[1..], rho, ctx);
        if rest.Valued? {
          var last := EvalStep(rest.value, t, rho, ctx);
          if last.Valued? {
            assert first.updates + (rest.updates + last.updates) == first.updates + rest.updates + last.updates;
          }
        }
      }
    }
  }

  function SignedNumber(negated: bool, w: Word36): int {
    if negated then -SignedValue36(w) else SignedValue36(w)
  }

  /** A term has its sign, and the left operand is what came before. */
  lemma StepSubtracts(acc: Word36, negated: bool, atom: Atom, rho: Valuation, ctx: Context)
    requires EvalAtom(atom, rho, ctx).Valued?
    ensures var r := EvalStep(acc, Term(Subtract, negated, atom), rho, ctx);
      IsResult(if r.Valued? then Some(r.value) else None,
               SignedValue36(acc) - SignedNumber(negated, EvalAtom(atom, rho, ctx).value))
  {
    var right := EvalOperand(Term(Subtract, negated, atom), rho, ctx).value;
    ArithmeticOperators(acc, right);
  }

  /** A single atom is an expression, with its sign. */
  lemma OneAtomHasItsSign(negated: bool, atom: Atom, rho: Valuation, ctx: Context)
    requires EvalAtom(atom, rho, ctx).Valued?
    ensures var r := EvalExpr(Expr(negated, atom, []), rho, ctx);
      && r.Valued? && SignedValue36(r.value) == SignedNumber(negated, EvalAtom(atom, rho, ctx).value)
      && r.updates == EvalAtom(atom, rho, ctx).updates
  {
    var v := EvalAtom(atom, rho, ctx);
    assert v.updates + [] == v.updates;
  }

  // ----- whole words -----

  /** A fragment of the word has a value with bit `k` set. */
  ghost predicate SomeFragmentHas(word: seq<Fragment>, rho: Valuation, ctx: Context, k: nat) {
    exists i :: 0 <= i < |word| && EvalFragment(word[i], rho, ctx).Valued? &&
      Bit(EvalFragment(word[i], rho, ctx).value, k)
  }

  lemma {:induction false} FragmentsAreUnited(acc: Word36, word: seq<Fragment>, rho: Valuation, ctx: Context, k: nat)
    requires k < 36 && EvalFragments(acc, word, rho, ctx).Valued?
    ensures forall i :: 0 <= i < |word| ==> EvalFragment(word[i], rho, ctx).Valued?
    ensures Bit(EvalFragments(acc, word, rho, ctx).value, k) <==> Bit(acc, k) || SomeFragmentHas(word, rho, ctx, k)
    decreases word
  {
    if word != [] {
      var r := EvalFragment(word[0], rho, ctx);
      BitOfUnion(acc, r.value, k);
      FragmentsAreUnited(Union(acc, r.value), word[1..], rho, ctx, k);
      assert forall i :: 0 < i < |word| ==> word[i] == word[1..][i - 1];
      if SomeFragmentHas(word[1..], rho, ctx, k) {
        var i :| 0 <= i < |word[1..]| && EvalFragment(word[1..][i], rho, ctx).Valued? &&
          Bit(EvalFragment(word[1..][i], rho, ctx).value, k);
        assert word[i + 1] == word[1..][i];
      }
    }
  }

  /**
   * Main result: a word has a value exactly if all its fragments have, and then a bit of it is
   * set exactly if it is set in the value of some fragment.
   */
  lemma WordIsUnionOfFragments(word: seq<Fragment>, rho: Valuation, ctx: Context, k: nat)
    requires k < 36
    ensures EvalFragments(0, word, rho, ctx).Valued? <==>
      forall i :: 0 <= i < |word| ==> EvalFragment(word[i], rho, ctx).Valued?
    ensures EvalFragments(0, word, rho, ctx).Valued? ==>
      (Bit(EvalFragments(0, word, rho, ctx).value, k) <==> SomeFragmentHas(word, rho, ctx, k))
  {
    if EvalFragments(0, word, rho, ctx).Valued? {
      FragmentsAreUnited(0, word, rho, ctx, k);
      NoBitsInZero(k);
    } else {
      SomeFragmentFails(0, word, rho, ctx);
    }
  }

  lemma {:induction false} SomeFragmentFails(acc: Word36, word: seq<Fragment>, rho: Valuation, ctx: Context)
    requires EvalFragments(acc, word, rho, ctx).Failed?
    ensures exists i :: 0 <= i < |word| && EvalFragment(word[i], rho, ctx).Failed?
    decreases word
  {
    var r := EvalFragment(word[0], rho, ctx);
    if r.Valued? {
      SomeFragmentFails(Union(acc, r.value), word[1..], rho, ctx);
      var i :| 0 <= i < |word[1..]| && EvalFragment(word[1..][i], rho, ctx).Failed?;
      assert word[i + 1] == word[1..][i];
    }
  }

  /** The pipe construct unites its index, the address of its RC-word and the defer bit, which is bit 17. */
  lemma PipeIsUnion(index: Expr, target: RcWord, rho: Valuation, ctx: Context, k: nat)
    requires k < 36 && EvalBody(Pipe(index, target), rho, ctx).Valued?
    ensures EvalExpr(index, rho, ctx).Valued?
    ensures Bit(EvalBody(Pipe(index, target), rho, ctx).value, k) <==>
      Bit(EvalExpr(index, rho, ctx).value, k) || Bit(target.address, k) || k == 17
  {
    var p, t := EvalExpr(index, rho, ctx), EvalRcWord(target, rho, ctx.scope);
    BitOfUnion(p.value, t.value, k);
    BitOfUnion(Union(p.value, t.value), DEFER_BIT, k);
    EighteenPlaces(1);
    BitOfSum(17, 0, k);
    NoBitsInZero(k);
    assert Shifted(1, 18) == 2 * Shifted(1, 17);
  }

  /** A configuration syllable goes to bits 30 to 34, from there if it is raised already. */
  lemma ConfigGoesToItsPlace(v: Word36, alreadySuper: bool)
    ensures ConfigField(v, alreadySuper) % 0x4000_0000 == 0 && ConfigField(v, alreadySuper) < 0x8_0000_0000
    ensures alreadySuper ==> ConfigField(v, alreadySuper) / 0x4000_0000 == v / 0x4000_0000 % 32
    ensures !alreadySuper ==> ConfigField(v, alreadySuper) / 0x4000_0000 == v % 32
  {
  }
}
