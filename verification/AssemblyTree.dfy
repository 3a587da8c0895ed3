/**
 * The part of the assembler's syntax tree that has a value, and the arithmetic of 36-bit
 * words that gives it one.  Source positions are not represented.
 */
module AssemblyTree {
  import opened Words

  type Name = string

  datatype Operator = Add | LogicalAnd | LogicalOr | LogicalXor | Multiply | Subtract | Divide

  datatype HoldBit = Unspecified | Hold | NotHold

  type Commas = n: nat | n <= 3

  datatype Expr = Expr(negated: bool, first: Atom, tail: seq<Term>)

  datatype Term = Term(op: Operator, negated: bool, atom: Atom)

  datatype Atom =
    | Symbol(script: Script, name: Name)
    | Literal(script: Script, value: Word36)
    | Here(script: Script)
    | Parens(script: Script, inner: Expr)
    | AssembledWord(word: seq<Fragment>)
    /** Words of the RC-block; those of a macro expansion have symbols of their own. */
    | RcRef(locals: Scope, words: seq<RcWord>)

  /** A word of the RC-block, with the address it was given. */
  datatype RcWord = RcWord(address: Word18, word: seq<Fragment>)

  datatype Fragment = Fragment(leading: Commas, hold: HoldBit, body: Body, trailing: Commas)

  datatype Body =
    | Null
    | Arithmetic(expr: Expr)
    | DeferredAddressing
    | Config(alreadySuper: bool, value: Expr)
    | Pipe(index: Expr, target: RcWord)

  datatype Origin = AtAddress(address: Word18) | AtSymbol(name: Name) | AtExpression(expr: Expr)

  datatype Definition =
    | Address(address: Word18)
    | OriginExpression(expr: Expr)
    | UndeducedOrigin
    | Tag(block: nat, offset: Word18)
    | Equality(word: seq<Fragment>)

  /** The definitions in force at some place. */
  type Scope = map<Name, Definition>

  // ----- words -----

  const DEFER_BIT: Word36 := 0x2_0000

  function Not(w: Word36): Word36 {
    0xF_FFFF_FFFF - w
  }

  /** The assembler's shift is a rotation of the 36 bits. */
  function Elevate(w: Word36, script: Script): Word36 {
    match script
    case Normal => w
    case Super => w % 0x40 * 0x4000_0000 + w / 0x40
    case Sub => w % 0x4_0000 * 0x4_0000 + w / 0x4_0000
  }

  lemma NotComplementsEachPart(w: Word36)
    ensures Not(w) / 0x40 == 0x3FFF_FFFF - w / 0x40 && Not(w) % 0x40 == 0x3F - w % 0x40
    ensures Not(w) / 0x4_0000 == 0x3_FFFF - w / 0x4_0000 && Not(w) % 0x4_0000 == 0x3_FFFF - w % 0x4_0000
  {
  }

  lemma ElevateCommutesWithNot(w: Word36, script: Script)
    ensures Elevate(Not(w), script) == Not(Elevate(w, script))
  {
    NotComplementsEachPart(w);
  }

  /** The bitwise combination that `f` describes of the bits below `limit`, a power of two. */
  function Bitwise(limit: nat, f: (bool, bool) -> bool, a: nat, b: nat): (r: nat)
    requires limit > 0
    ensures r < limit
  {
    if limit == 1 then 0
    else 2 * Bitwise(limit / 2, f, a / 2, b / 2) + if f(a % 2 == 1, b % 2 == 1) then 1 else 0
  }

  function Combine(f: (bool, bool) -> bool, a: Word36, b: Word36): Word36 {
    Bitwise(0x10_0000_0000, f, a, b)
  }

  function Union(a: Word36, b: Word36): Word36 {
    Combine((x, y) => x || y, a, b)
  }

  function SignedValue36(w: Word36): int {
    if w >= 0x8_0000_0000 then w - 0xF_FFFF_FFFF else w
  }

  /** The word for a signed value; a value out of range is an unhandled overflow. */
  function FromSigned(v: int): Option<Word36> {
    if -0x8_0000_0000 < v < 0 then Some(0xF_FFFF_FFFF + v)
    else if 0 <= v < 0x8_0000_0000 then Some(v)
    else None
  }

  /** `n` with `places` zero bits put below it. */
  function Shifted(n: nat, places: nat): (r: nat)
    ensures n > 0 ==> r > 0
  {
    if places == 0 then n else 2 * Shifted(n, places - 1)
  }

  lemma {:induction false} ShiftsAdd(n: nat, first: nat, more: nat)
    ensures Shifted(n, first + more) == Shifted(Shifted(n, first), more)
  {
    if more > 0 {
      ShiftsAdd(n, first, more - 1);
    }
  }

  lemma SixPlaces(n: nat)
    ensures Shifted(n, 6) == 0x40 * n
  {
    assert Shifted(n, 1) == 2 * n;
    assert Shifted(n, 2) == 4 * n;
    assert Shifted(n, 3) == 8 * n;
    assert Shifted(n, 4) == 16 * n;
    assert Shifted(n, 5) == 32 * n;
  }

  lemma EighteenPlaces(n: nat)
    ensures Shifted(n, 18) == 0x4_0000 * n
  {
    SixPlaces(n);
    SixPlaces(0x40 * n);
    SixPlaces(0x1000 * n);
    ShiftsAdd(n, 6, 6);
    ShiftsAdd(n, 12, 6);
  }

  lemma ThirtyPlaces(n: nat)
    ensures Shifted(n, 30) == 0x4000_0000 * n
  {
    EighteenPlaces(n);
    SixPlaces(0x4_0000 * n);
    SixPlaces(0x100_0000 * n);
    ShiftsAdd(n, 18, 6);
    ShiftsAdd(n, 24, 6);
  }

  /** The lower bits and the higher ones are combined apart from each other. */
  lemma {:induction false} BitwiseInParts(places: nat, high: nat, f: (bool, bool) -> bool, ah: nat, al: nat, bh: nat,
      bl: nat)
    requires high > 0 && al < Shifted(1, places) && bl < Shifted(1, places)
    ensures Bitwise(Shifted(high, places), f, Shifted(ah, places) + al, Shifted(bh, places) + bl)
      == Shifted(Bitwise(high, f, ah, bh), places) + Bitwise(Shifted(1, places), f, al, bl)
    decreases places
  {
    if places > 0 {
      BitwiseInParts(places - 1, high, f, ah, al / 2, bh, bl / 2);
    }
  }

  lemma {:induction false} BitwiseWithZero(places: nat, f: (bool, bool) -> bool, v: nat)
    requires v < Shifted(1, places) && forall b :: f(b, false) == b
    ensures Bitwise(Shifted(1, places), f, v, 0) == v
    decreases places
  {
    if places > 0 {
      BitwiseWithZero(places - 1, f, v / 2);
    }
  }

  lemma {:induction false} BitwiseWithOnes(places: nat, f: (bool, bool) -> bool, v: nat)
    requires v < Shifted(1, places) && forall b :: f(b, true) == b
    ensures Bitwise(Shifted(1, places), f, v, Shifted(1, places) - 1) == v
    decreases places
  {
    if places > 0 {
      var half := Shifted(1, places - 1);
      assert 2 * half / 2 == half && (2 * half - 1) / 2 == half - 1 && (2 * half - 1) % 2 == 1;
      BitwiseWithOnes(places - 1, f, v / 2);
      assert Bitwise(2 * half, f, v, 2 * half - 1) == 2 * (v / 2) + if f(v % 2 == 1, true) then 1 else 0;
    }
  }

  lemma ThirtySixPlaces()
    ensures Shifted(1, 36) == 0x10_0000_0000
  {
    EighteenPlaces(1);
    EighteenPlaces(0x4_0000);
    ShiftsAdd(1, 18, 18);
  }

  lemma CombineWithZero(f: (bool, bool) -> bool, v: Word36)
    requires forall b :: f(b, false) == b
    ensures Combine(f, v, 0) == v
  {
    ThirtySixPlaces();
    BitwiseWithZero(36, f, v);
  }

  lemma CombineWithOnes(f: (bool, bool) -> bool, v: Word36)
    requires forall b :: f(b, true) == b
    ensures Combine(f, v, Not(0)) == v
  {
    ThirtySixPlaces();
    BitwiseWithOnes(36, f, v);
  }

  lemma {:induction false} BitwiseIsSymmetric(limit: nat, f: (bool, bool) -> bool, a: nat, b: nat)
    requires limit > 0 && forall x, y :: f(x, y) == f(y, x)
    ensures Bitwise(limit, f, a, b) == Bitwise(limit, f, b, a)
    decreases limit
  {
    if limit > 1 {
      BitwiseIsSymmetric(limit / 2, f, a / 2, b / 2);
    }
  }

  /** Main result: moving values to the place of a script commutes with combining them bit by bit. */
  lemma ElevateCommutesWithCombine(f: (bool, bool) -> bool, a: Word36, b: Word36, script: Script)
    ensures Elevate(Combine(f, a, b), script) == Combine(f, Elevate(a, script), Elevate(b, script))
  {
    match script {
      case Normal =>
      case Super => SuperCommutesWithCombine(f, a, b);
      case Sub => SubCommutesWithCombine(f, a, b);
    }
  }

  lemma SuperCommutesWithCombine(f: (bool, bool) -> bool, a: Word36, b: Word36)
    ensures Elevate(Combine(f, a, b), Super) == Combine(f, Elevate(a, Super), Elevate(b, Super))
  {
    hide Bitwise;
    SplitAtSix(f, a / 0x40, a % 0x40, b / 0x40, b % 0x40);
    assert Combine(f, a, b) ==
      Bitwise(0x4000_0000, f, a / 0x40, b / 0x40) * 0x40 + Bitwise(0x40, f, a % 0x40, b % 0x40);
    SplitAtThirty(f, a % 0x40, a / 0x40, b % 0x40, b / 0x40);
  }

  lemma SubCommutesWithCombine(f: (bool, bool) -> bool, a: Word36, b: Word36)
    ensures Elevate(Combine(f, a, b), Sub) == Combine(f, Elevate(a, Sub), Elevate(b, Sub))
  {
    hide Bitwise;
    SplitAtEighteen(f, a / 0x4_0000, a % 0x4_0000, b / 0x4_0000, b % 0x4_0000);
    assert Combine(f, a, b) == Bitwise(0x4_0000, f, a / 0x4_0000, b / 0x4_0000) * 0x4_0000
      + Bitwise(0x4_0000, f, a % 0x4_0000, b % 0x4_0000);
    SplitAtEighteen(f, a % 0x4_0000, a / 0x4_0000, b % 0x4_0000, b / 0x4_0000);
  }

  lemma SplitAtSix(f: (bool, bool) -> bool, ah: nat, al: nat, bh: nat, bl: nat)
    requires al < 0x40 && bl < 0x40
    ensures Bitwise(0x10_0000_0000, f, ah * 0x40 + al, bh * 0x40 + bl)
      == Bitwise(0x4000_0000, f, ah, bh) * 0x40 + Bitwise(0x40, f, al, bl)
  {
    hide *;
    SixPlaces(1);
    SixPlaces(0x4000_0000);
    SixPlaces(ah);
    SixPlaces(bh);
    SixPlaces(Bitwise(0x4000_0000, f, ah, bh));
    BitwiseInParts(6, 0x4000_0000, f, ah, al, bh, bl);
  }

  lemma SplitAtEighteen(f: (bool, bool) -> bool, ah: nat, al: nat, bh: nat, bl: nat)
    requires al < 0x4_0000 && bl < 0x4_0000
    ensures Bitwise(0x10_0000_0000, f, ah * 0x4_0000 + al, bh * 0x4_0000 + bl)
      == Bitwise(0x4_0000, f, ah, bh) * 0x4_0000 + Bitwise(0x4_0000, f, al, bl)
  {
    hide *;
    EighteenPlaces(1);
    EighteenPlaces(0x4_0000);
    EighteenPlaces(ah);
    EighteenPlaces(bh);
    EighteenPlaces(Bitwise(0x4_0000, f, ah, bh));
    BitwiseInParts(18, 0x4_0000, f, ah, al, bh, bl);
  }

  lemma SplitAtThirty(f: (bool, bool) -> bool, ah: nat, al: nat, bh: nat, bl: nat)
    requires al < 0x4000_0000 && bl < 0x4000_0000
    ensures Bitwise(0x10_0000_0000, f, ah * 0x4000_0000 + al, bh * 0x4000_0000 + bl)
      == Bitwise(0x40, f, ah, bh) * 0x4000_0000 + Bitwise(0x4000_0000, f, al, bl)
  {
    hide *;
    ThirtyPlaces(1);
    ThirtyPlaces(0x40);
    ThirtyPlaces(ah);
    ThirtyPlaces(bh);
    ThirtyPlaces(Bitwise(0x40, f, ah, bh));
    BitwiseInParts(30, 0x40, f, ah, al, bh, bl);
  }

  lemma ElevateIsInjective(a: Word36, b: Word36, script: Script)
    requires Elevate(a, script) == Elevate(b, script)
    ensures a == b
  {
    if script.Super? {
      assert Elevate(a, script) % 0x4000_0000 == a / 0x40 && Elevate(a, script) / 0x4000_0000 == a % 0x40;
      assert Elevate(b, script) % 0x4000_0000 == b / 0x40 && Elevate(b, script) / 0x4000_0000 == b % 0x40;
    } else if script.Sub? {
      assert Elevate(a, script) % 0x4_0000 == a / 0x4_0000 && Elevate(a, script) / 0x4_0000 == a % 0x4_0000;
      assert Elevate(b, script) % 0x4_0000 == b / 0x4_0000 && Elevate(b, script) / 0x4_0000 == b % 0x4_0000;
    }
  }

  function Magnitude(v: int): nat {
    if v < 0 then -v else v
  }

  /** Division rounding towards zero. */
  function Quotient(a: int, b: int): int
    requires b != 0
  {
    var magnitude := Magnitude(a) / Magnitude(b);
    if (a < 0) == (b < 0) then magnitude else -magnitude
  }

  function DivideWords(left: Word36, right: Word36): Option<Word36> {
    var dividend, divisor := SignedValue36(left), SignedValue36(right);
    if dividend == 0 && divisor == 0 then Some(0)
    else if divisor != 0 then FromSigned(Quotient(dividend, divisor))
    else if right == 0 then Some(Not(left))
    else Some(left)
  }

  /** `None` is the overflow that the assembler does not handle. */
  function EvalBinop(left: Word36, op: Operator, right: Word36): Option<Word36> {
    match op
    case Add => FromSigned(SignedValue36(left) + SignedValue36(right))
    case Subtract => FromSigned(SignedValue36(left) - SignedValue36(right))
    case Multiply => FromSigned(SignedValue36(left) * SignedValue36(right))
    case Divide => DivideWords(left, right)
    case LogicalAnd => Some(Combine((x, y) => x && y, left, right))
    case LogicalOr => Some(Union(left, right))
    case LogicalXor => Some(Combine((x, y) => x != y, left, right))
  }

  function CommaTransform(leading: Commas, v: Word36, trailing: Commas): Word36 {
    match (leading, trailing)
    case (0, 0) => v
    case (0, 1) => v % 0x200 * 0x800_0000
    case (0, 2) => v % 0x4_0000 * 0x4_0000
    case (0, _) => v % 0x800_0000 * 0x200
    case (1, 0) => v % 0x200
    case (1, 1) => v % 0x4_0000 * 0x200
    case (1, 2) => v % 0x200 * 0x4_0000
    case (1, _) => v - v % 0x200
    case (2, 0) => v % 0x4_0000
    case (2, 1) => v % 0x200 * 0x200
    case (2, 2) => v % 0x4_0000 * 0x4_0000 + v / 0x4_0000
    case (2, _) => v / 0x4_0000
    case (_, 0) => v % 0x200
    case (_, 1) => v / 0x800_0000
    case (_, 2) => v / 0x800_0000 * 0x4_0000
    case (_, _) => v / 0x4_0000
  }

  function WithHold(v: Word36, hold: HoldBit): Word36 {
    match hold
    case Unspecified => v
    case Hold => if v >= 0x8_0000_0000 then v else v + 0x8_0000_0000
    case NotHold => v % 0x8_0000_0000
  }

  function ConfigField(v: Word36, alreadySuper: bool): Word36 {
    if alreadySuper then v / 0x4000_0000 % 32 * 0x4000_0000 else v % 32 * 0x4000_0000
  }

  // ----- values -----

  /** The address that `#` stands for, where it stands for one. */
  type HereValue = Option<Word18>

  /** Where a tree is evaluated. */
  datatype Context = Context(here: HereValue, scope: Scope)

  type Updates = seq<(Word18, Word36)>

  /** A value together with the RC-words that evaluating it fills in, in order. */
  datatype Outcome = Failed | Valued(value: Word36, updates: Updates)

  /** What each name means to a tree at some place. */
  type Valuation = (Name, Context) -> Outcome

  function Then(before: Updates, after: Outcome): Outcome {
    if after.Failed? then Failed else Valued(after.value, before + after.updates)
  }

  function Signed(negated: bool, r: Outcome): Outcome {
    if r.Valued? && negated then Valued(Not(r.value), r.updates) else r
  }

  function EvalExpr(e: Expr, rho: Valuation, ctx: Context): Outcome
    decreases e, 0
  {
    var first := Signed(e.negated, EvalAtom(e.first, rho, ctx));
    if first.Failed? then Failed
    else Then(first.updates, EvalTerms(first.value, e.tail, rho, ctx))
  }

  /** Operators apply from left to right, without precedence. */
  function EvalTerms(acc: Word36, tail: seq<Term>, rho: Valuation, ctx: Context): Outcome
    decreases tail, 0
  {
    if tail == [] then Valued(acc, [])
    else
      var r := EvalStep(acc, tail[0], rho, ctx);
      if r.Failed? then Failed else Then(r.updates, EvalTerms(r.value, tail[1..], rho, ctx))
  }

  /** One operator applied to the value so far and its right operand. */
  function EvalStep(acc: Word36, t: Term, rho: Valuation, ctx: Context): Outcome
    decreases t, 1
  {
    var right := EvalOperand(t, rho, ctx);
    if right.Failed? || EvalBinop(acc, t.op, right.value).None? then Failed
    else Valued(EvalBinop(acc, t.op, right.value).value, right.updates)
  }

  function EvalOperand(t: Term, rho: Valuation, ctx: Context): Outcome
    decreases t, 0
  {
    Signed(t.negated, EvalAtom(t.atom, rho, ctx))
  }

  function EvalAtom(a: Atom, rho: Valuation, ctx: Context): Outcome
    decreases a, 0
  {
    match a
    case Symbol(script, name) =>
      var r := rho(name, ctx);
      if r.Failed? then Failed else Valued(Elevate(r.value, script), r.updates)
    case Literal(script, value) => Valued(Elevate(value, script), [])
    case Here(script) => if ctx.here.Some? then Valued(Elevate(ctx.here.value, script), []) else Failed
    case Parens(_, inner) => EvalExpr(inner, rho, ctx)
    case AssembledWord(word) => EvalFragments(0, word, rho, ctx)
    case RcRef(locals, words) =>
      if words == [] then Failed
      else
        var r := EvalRcWords(words, rho, ctx.scope + locals);
        if r.Failed? then Failed else Valued(words[0].address, r.updates)
  }

  /** Each RC-word is evaluated with `#` standing for its own address. */
  function EvalRcWords(words: seq<RcWord>, rho: Valuation, scope: Scope): Outcome
    decreases words, 0
  {
    if words == [] then Valued(0, [])
    else
      var r := EvalRcWord(words[0], rho, scope);
      if r.Failed? then Failed else Then(r.updates, EvalRcWords(words[1..], rho, scope))
  }

  function EvalRcWord(w: RcWord, rho: Valuation, scope: Scope): Outcome
    decreases w, 0
  {
    var r := EvalFragments(0, w.word, rho, Context(Some(w.address), scope));
    if r.Failed? then Failed else Valued(w.address, r.updates + [(w.address, r.value)])
  }

  /** The fragments of a word are united, from left to right. */
  function EvalFragments(acc: Word36, word: seq<Fragment>, rho: Valuation, ctx: Context): Outcome
    decreases word, 0
  {
    if word == [] then Valued(acc, [])
    else
      var r := EvalFragment(word[0], rho, ctx);
      if r.Failed? then Failed
      else Then(r.updates, EvalFragments(Union(acc, r.value), word[1..], rho, ctx))
  }

  function EvalFragment(f: Fragment, rho: Valuation, ctx: Context): Outcome
    decreases f, 0
  {
    var r := EvalBody(f.body, rho, ctx);
    if r.Failed? then Failed
    else Valued(CommaTransform(f.leading, WithHold(r.value, f.hold), f.trailing), r.updates)
  }

  function EvalBody(b: Body, rho: Valuation, ctx: Context): Outcome
    decreases b, 0
  {
    match b
    case Null => Valued(0, [])
    case Arithmetic(expr) => EvalExpr(expr, rho, ctx)
    case DeferredAddressing => Valued(DEFER_BIT, [])
    case Config(alreadySuper, value) =>
      var r := EvalExpr(value, rho, ctx);
      if r.Failed? then Failed else Valued(ConfigField(r.value, alreadySuper), r.updates)
    case Pipe(index, target) =>
      var p := EvalExpr(index, rho, ctx);
      if p.Failed? then Failed
      else
        var t := EvalRcWord(target, rho, ctx.scope);
        if t.Failed? then Failed
        else Valued(Union(Union(p.value, t.value), DEFER_BIT), p.updates + t.updates)
  }

  // ----- the names that evaluation looks up, and where -----

  datatype Lookup = Lookup(name: Name, scope: Scope)

  function ExprLookups(e: Expr, scope: Scope): set<Lookup>
    decreases e, 0
  {
    AtomLookups(e.first, scope) + TermLookups(e.tail, scope)
  }

  function TermLookups(tail: seq<Term>, scope: Scope): set<Lookup>
    decreases tail, 0
  {
    if tail == [] then {} else OperandLookups(tail[0], scope) + TermLookups(tail[1..], scope)
  }

  function OperandLookups(t: Term, scope: Scope): set<Lookup>
    decreases t, 0
  {
    AtomLookups(t.atom, scope)
  }

  function AtomLookups(a: Atom, scope: Scope): set<Lookup>
    decreases a, 0
  {
    match a
    case Symbol(_, name) => {Lookup(name, scope)}
    case Parens(_, inner) => ExprLookups(inner, scope)
    case AssembledWord(word) => WordLookups(word, scope)
    case RcRef(locals, words) => RcLookups(words, scope + locals)
    case _ => {}
  }

  function RcLookups(words: seq<RcWord>, scope: Scope): set<Lookup>
    decreases words, 0
  {
    if words == [] then {} else RcWordLookups(words[0], scope) + RcLookups(words[1..], scope)
  }

  function RcWordLookups(w: RcWord, scope: Scope): set<Lookup>
    decreases w, 0
  {
    WordLookups(w.word, scope)
  }

  function WordLookups(word: seq<Fragment>, scope: Scope): set<Lookup>
    decreases word, 0
  {
    if word == [] then {} else FragmentLookups(word[0], scope) + WordLookups(word[1..], scope)
  }

  function FragmentLookups(f: Fragment, scope: Scope): set<Lookup>
    decreases f, 0
  {
    BodyLookups(f.body, scope)
  }

  function BodyLookups(b: Body, scope: Scope): set<Lookup>
    decreases b, 0
  {
    match b
    case Arithmetic(expr) => ExprLookups(expr, scope)
    case Config(_, value) => ExprLookups(value, scope)
    case Pipe(index, target) => ExprLookups(index, scope) + RcWordLookups(target, scope)
    case _ => {}
  }
}
