/**
 * A macro argument is put into the script of its use part by part.  Which arguments keep
 * their meaning by that, whatever their names stand for, and which lose it.
 */
module MacroScripts {
  import opened Words
  import opened AssemblyTree
  import opened MacroSubstitution

  /** Using the argument in this script always gives its value, moved to the script. */
  ghost predicate KeepsMeaning(argument: Expr, script: Script) {
    forall rho: Valuation, ctx ::
      EvalAtom(Wrapped(ExprWithScript(argument, script), script), rho, ctx) ==
      Elevated(EvalExpr(argument, rho, ctx), script)
  }

  lemma MeaningLost(argument: Expr, script: Script, rho: Valuation, ctx: Context)
    requires EvalExpr(ExprWithScript(argument, script), rho, ctx) != Elevated(EvalExpr(argument, rho, ctx), script)
    ensures !KeepsMeaning(argument, script)
  {
    WrappedValue(ExprWithScript(argument, script), script, rho, ctx);
  }

  lemma FittingKeepsMeaning(argument: Expr, script: Script)
    requires FitsScript(argument, script)
    ensures KeepsMeaning(argument, script)
  {
    forall rho: Valuation, ctx
      ensures EvalAtom(Wrapped(ExprWithScript(argument, script), script), rho, ctx) ==
        Elevated(EvalExpr(argument, rho, ctx), script)
    {
      WrappedValue(ExprWithScript(argument, script), script, rho, ctx);
      FittingArgument(argument, script, rho, ctx);
    }
  }

  /** One symbol, number or `#`, perhaps in parentheses, with any signs. */
  predicate IsSimple(e: Expr)
    decreases e, 0
  {
    e.tail == [] && IsSimpleAtom(e.first)
  }

  predicate IsSimpleAtom(a: Atom)
    decreases a, 0
  {
    match a
    case Parens(_, inner) => IsSimple(inner)
    case AssembledWord(_) => false
    case RcRef(_, _) => false
    case _ => true
  }

  const ONE_EVERYWHERE: Valuation := (name: Name, ctx: Context) => Valued(1, [])
  const AT_ONE: Context := Context(Some(1), map[])

  /** A value that its own script moves is moved by one script too many. */
  lemma MovedTwice(value: Word36, own: Script, script: Script)
    requires Elevate(value, own) != value
    ensures Elevate(Elevate(value, own), script) != Elevate(value, script)
  {
    if Elevate(Elevate(value, own), script) == Elevate(value, script) {
      ElevateIsInjective(Elevate(value, own), value, script);
    }
  }

  lemma {:induction false} SimpleAtomLosesMeaning(a: Atom, script: Script)
    requires IsSimpleAtom(a) && !AtomFits(a, script)
    ensures EvalAtom(AtomWithScript(a, script), ONE_EVERYWHERE, AT_ONE) !=
      Elevated(EvalAtom(a, ONE_EVERYWHERE, AT_ONE), script)
    decreases a, 0
  {
    match a {
      case Symbol(own, _) => MovedTwice(1, own, script);
      case Literal(own, value) => MovedTwice(value, own, script);
      case Here(own) => MovedTwice(1, own, script);
      case Parens(_, inner) => SimpleLosesMeaning(inner, script);
    }
  }

  lemma {:induction false} SimpleLosesMeaning(e: Expr, script: Script)
    requires IsSimple(e) && !FitsScript(e, script)
    ensures EvalExpr(ExprWithScript(e, script), ONE_EVERYWHERE, AT_ONE) !=
      Elevated(EvalExpr(e, ONE_EVERYWHERE, AT_ONE), script)
    decreases e, 0
  {
    assert TermsFit(e.tail, script);
    SimpleAtomLosesMeaning(e.first, script);
    var whole := EvalAtom(e.first, ONE_EVERYWHERE, AT_ONE);
    var moved := EvalAtom(AtomWithScript(e.first, script), ONE_EVERYWHERE, AT_ONE);
    SignedElevates(e.negated, whole, script);
    OneAtomValue(e, ONE_EVERYWHERE, AT_ONE);
    OneAtomValue(ExprWithScript(e, script), ONE_EVERYWHERE, AT_ONE);
    assert Signed(e.negated, moved) != Signed(e.negated, Elevated(whole, script));
  }

  /**
   * Main result: an argument of one symbol, number or `#` keeps its meaning in a script
   * exactly if it is in normal script itself, or is a number that its own script leaves as it is.
   */
  lemma SimpleArgumentKeptIff(argument: Expr, script: Script)
    requires IsSimple(argument)
    ensures KeepsMeaning(argument, script) <==> FitsScript(argument, script)
  {
    if FitsScript(argument, script) {
      FittingKeepsMeaning(argument, script);
    } else {
      SimpleLosesMeaning(argument, script);
      MeaningLost(argument, script, ONE_EVERYWHERE, AT_ONE);
    }
  }

  /** Two values on which an arithmetic operator gives something else in a raised script. */
  function Telling(op: Operator, script: Script): (Word36, Word36) {
    match op
    case Multiply => (2, 3)
    case Divide => (6, 3)
    case Subtract => if script.Super? then (31, Not(31)) else (0x1_FFFF, Not(0x1_FFFF))
    case _ => if script.Super? then (31, 31) else (0x1_FFFF, 0x1_FFFF)
  }

  predicate IsZero(w: Word36) {
    w == 0 || w == Not(0)
  }

  predicate Tells(op: Operator, script: Script) {
    var (left, right) := Telling(op, script);
    var whole, moved := EvalBinop(left, op, right), EvalBinop(Elevate(left, script), op, Elevate(right, script));
    && whole.Some? && !IsZero(left) && !IsZero(Elevate(left, script)) && !IsZero(whole.value)
    && (moved.Some? ==> !op.Multiply? && !IsZero(moved.value) && moved.value != Elevate(whole.value, script))
  }

  lemma OperatorTells(op: Operator, script: Script)
    requires !script.Normal? && !IsLogical(op)
    ensures Tells(op, script)
  {
    match op {
      case Multiply =>
      case Divide => DivisionTells(script);
      case _ => SumTells(op, script);
    }
  }

  lemma SumTells(op: Operator, script: Script)
    requires !script.Normal? && (op.Add? || op.Subtract?)
    ensures Tells(op, script)
  {
    var (left, right) := Telling(op, script);
    assert EvalBinop(Elevate(left, script), op, Elevate(right, script)) == None;
  }

  lemma DivisionTells(script: Script)
    requires !script.Normal?
    ensures Tells(Divide, script)
  {
    assert EvalBinop(6, Divide, 3) == Some(2);
    if script.Super? {
      assert EvalBinop(6 * 0x4000_0000, Divide, 3 * 0x4000_0000) == Some(2);
    } else {
      assert EvalBinop(6 * 0x4_0000, Divide, 3 * 0x4_0000) == Some(2);
    }
  }

  /** Symbols in normal script, none of which occurs twice or is one of `seen`. */
  predicate DistinctSymbols(tail: seq<Term>, seen: set<Name>)
    decreases tail
  {
    tail != [] ==>
      && tail[0].atom.Symbol? && tail[0].atom.script.Normal? && tail[0].atom.name !in seen
      && DistinctSymbols(tail[1..], seen + {tail[0].atom.name})
  }

  /** Distinct symbols in normal script joined by operators, any of them negated. */
  predicate IsChain(e: Expr) {
    e.first.Symbol? && e.first.script.Normal? && DistinctSymbols(e.tail, {e.first.name})
  }

  /** The chain with values for its symbols, whatever their signs. */
  function Fold(acc: Word36, tail: seq<Term>, values: seq<Word36>): Option<Word36>
    requires |values| == |tail|
    decreases tail
  {
    if tail == [] then Some(acc)
    else
      match EvalBinop(acc, tail[0].op, values[0])
      case None => None
      case Some(v) => Fold(v, tail[1..], values[1..])
  }

  function AllElevated(values: seq<Word36>, script: Script): (r: seq<Word36>)
    ensures |r| == |values|
    decreases |values|
  {
    if values == [] then [] else [Elevate(values[0], script)] + AllElevated(values[1..], script)
  }

  function SignedWord(negated: bool, w: Word36): Word36 {
    if negated then Not(w) else w
  }

  /** What the symbols have to be for the operands to have these values. */
  function Assigned(tail: seq<Term>, values: seq<Word36>): map<Name, Word36>
    requires |values| == |tail|
    decreases tail
  {
    if tail == [] then map[]
    else if tail[0].atom.Symbol? then
      Assigned(tail[1..], values[1..])[tail[0].atom.name := SignedWord(tail[0].negated, values[0])]
    else Assigned(tail[1..], values[1..])
  }

  predicate Gives(rho: Valuation, ctx: Context, symbols: map<Name, Word36>) {
    forall n <- symbols :: rho(n, ctx) == Valued(symbols[n], [])
  }

  lemma {:induction false} AssignedKeepsOthers(tail: seq<Term>, values: seq<Word36>, seen: set<Name>)
    requires |values| == |tail| && DistinctSymbols(tail, seen)
    ensures forall n <- seen :: n !in Assigned(tail, values)
    decreases tail
  {
    if tail != [] {
      AssignedKeepsOthers(tail[1..], values[1..], seen + {tail[0].atom.name});
    }
  }

  function FoldOutcome(r: Option<Word36>): Outcome {
    match r
    case None => Failed
    case Some(v) => Valued(v, [])
  }

  lemma {:induction false} ChainValue(acc: Word36, tail: seq<Term>, values: seq<Word36>, seen: set<Name>,
      script: Script, rho: Valuation, ctx: Context)
    requires |values| == |tail| && DistinctSymbols(tail, seen) && Gives(rho, ctx, Assigned(tail, values))
    ensures EvalTerms(acc, TermsWithScript(tail, script), rho, ctx) ==
      FoldOutcome(Fold(acc, tail, AllElevated(values, script)))
    decreases tail
  {
    if tail != [] {
      hide EvalBinop;
      var t := tail[0];
      AssignedKeepsOthers(tail[1..], values[1..], seen + {t.atom.name});
      assert t.atom.name in Assigned(tail, values);
      ElevateCommutesWithNot(values[0], script);
      assert EvalAtom(Symbol(script, t.atom.name), rho, ctx) ==
        Valued(Elevate(SignedWord(t.negated, values[0]), script), []);
      assert EvalOperand(TermWithScript(t, script), rho, ctx) == Valued(Elevate(values[0], script), []);
      var moved := TermsWithScript(tail, script);
      assert moved[0] == TermWithScript(t, script) && moved[1..] == TermsWithScript(tail[1..], script);
      var elevated := AllElevated(values, script);
      assert elevated[1..] == AllElevated(values[1..], script);
      var step := EvalBinop(acc, t.op, Elevate(values[0], script));
      if step.Some? {
        forall n | n in Assigned(tail[1..], values[1..])
          ensures rho(n, ctx) == Valued(Assigned(tail[1..], values[1..])[n], [])
        {
          assert n != t.atom.name && n in Assigned(tail, values);
        }
        ChainValue(step.value, tail[1..], values[1..], seen + {t.atom.name}, script, rho, ctx);
      }
    }
  }

  // Operands that leave a value as it is, moved or not; only that of a product is moved.

  function Neutral(op: Operator): Word36 {
    match op
    case LogicalAnd => Not(0)
    case Divide => Not(0)
    case Multiply => 1
    case _ => 0
  }

  lemma NeutralKeeps(acc: Word36, op: Operator)
    requires !IsZero(acc)
    ensures EvalBinop(acc, op, Neutral(op)) == Some(acc)
  {
    hide Bitwise;
    match op {
      case LogicalAnd => CombineWithOnes((x, y) => x && y, acc);
      case LogicalOr => CombineWithZero((x, y) => x || y, acc);
      case LogicalXor => CombineWithZero((x, y) => x != y, acc);
      case _ =>
    }
  }

  function Neutrals(tail: seq<Term>): (r: seq<Word36>)
    ensures |r| == |tail|
    decreases tail
  {
    if tail == [] then [] else [Neutral(tail[0].op)] + Neutrals(tail[1..])
  }

  predicate NoProduct(tail: seq<Term>) {
    forall t <- tail :: !t.op.Multiply?
  }

  lemma {:induction false} NeutralFold(acc: Word36, tail: seq<Term>)
    requires !IsZero(acc)
    ensures Fold(acc, tail, Neutrals(tail)) == Some(acc)
    decreases tail
  {
    if tail != [] {
      hide EvalBinop;
      NeutralKeeps(acc, tail[0].op);
      assert Neutrals(tail)[1..] == Neutrals(tail[1..]);
      NeutralFold(acc, tail[1..]);
    }
  }

  lemma {:induction false} NeutralsUnmoved(tail: seq<Term>, script: Script)
    requires NoProduct(tail)
    ensures AllElevated(Neutrals(tail), script) == Neutrals(tail)
    decreases tail
  {
    if tail != [] {
      assert forall t <- tail[1..] :: t in tail;
      assert tail[0] in tail;
      assert Neutrals(tail)[1..] == Neutrals(tail[1..]);
      NeutralsUnmoved(tail[1..], script);
    }
  }

  /** Values that tell the operator at `j` apart, with neutral ones elsewhere. */
  function TellingValues(tail: seq<Term>, script: Script, j: nat): (r: seq<Word36>)
    requires j < |tail|
    ensures |r| == |tail|
    decreases tail
  {
    if j == 0 then [Telling(tail[0].op, script).1] + Neutrals(tail[1..])
    else [Neutral(tail[0].op)] + TellingValues(tail[1..], script, j - 1)
  }

  predicate IsTelling(tail: seq<Term>, j: nat)
    requires j < |tail|
  {
    !IsLogical(tail[j].op) && (if tail[j].op.Multiply? then NoProduct(tail[..j]) else NoProduct(tail))
  }

  lemma NeutralStep(acc: Word36, tail: seq<Term>, values: seq<Word36>)
    requires tail != [] && |values| == |tail| && values[0] == Neutral(tail[0].op) && !IsZero(acc)
    ensures Fold(acc, tail, values) == Fold(acc, tail[1..], values[1..])
  {
    hide EvalBinop;
    NeutralKeeps(acc, tail[0].op);
  }

  /** With these values the chain comes to something else in the script, if anything. */
  predicate TellsApart(left: Word36, tail: seq<Term>, values: seq<Word36>, script: Script)
    requires |values| == |tail|
  {
    var whole, moved := Fold(left, tail, values), Fold(Elevate(left, script), tail, AllElevated(values, script));
    whole.Some? && moved != Some(Elevate(whole.value, script))
  }

  lemma TellingOperatorTells(tail: seq<Term>, script: Script)
    requires !script.Normal? && tail != [] && IsTelling(tail, 0)
    ensures TellsApart(Telling(tail[0].op, script).0, tail, TellingValues(tail, script, 0), script)
  {
    hide EvalBinop;
    hide Telling;
    var op, values := tail[0].op, TellingValues(tail, script, 0);
    var (left, right) := Telling(op, script);
    OperatorTells(op, script);
    assert values[1..] == Neutrals(tail[1..]);
    assert AllElevated(values, script)[1..] == AllElevated(values[1..], script);
    var whole := EvalBinop(left, op, right).value;
    NeutralFold(whole, tail[1..]);
    var moved := EvalBinop(Elevate(left, script), op, Elevate(right, script));
    if moved.Some? {
      assert forall t <- tail[1..] :: t in tail;
      NeutralsUnmoved(tail[1..], script);
      NeutralFold(moved.value, tail[1..]);
    }
  }

  lemma TellingLater(tail: seq<Term>, j: nat)
    requires 0 < j < |tail| && IsTelling(tail, j)
    ensures !tail[0].op.Multiply? && tail[1..][j - 1] == tail[j] && IsTelling(tail[1..], j - 1)
  {
    assert tail[0] in tail && tail[0] in tail[..j];
    assert forall t <- tail[1..] :: t in tail;
    assert tail[1..][..j - 1] == tail[..j][1..];
    assert forall t <- tail[..j][1..] :: t in tail[..j];
  }

  lemma ElevatedNeutralFirst(op: Operator, rest: seq<Word36>, script: Script)
    requires !op.Multiply?
    ensures AllElevated([Neutral(op)] + rest, script) == [Neutral(op)] + AllElevated(rest, script)
  {
    assert ([Neutral(op)] + rest)[1..] == rest;
  }

  lemma {:induction false} SomeOperatorTells(tail: seq<Term>, script: Script, j: nat)
    requires !script.Normal? && j < |tail| && IsTelling(tail, j)
    ensures TellsApart(Telling(tail[j].op, script).0, tail, TellingValues(tail, script, j), script)
    decreases j
  {
    if j == 0 {
      TellingOperatorTells(tail, script);
    } else {
      hide EvalBinop;
      hide Telling;
      hide Fold;
      hide Elevate;
      hide AllElevated;
      hide Neutral;
      hide IsZero;
      OperatorTells(tail[j].op, script);
      TellingLater(tail, j);
      hide IsTelling;
      SomeOperatorTells(tail[1..], script, j - 1);
      var left, rest := Telling(tail[j].op, script).0, TellingValues(tail[1..], script, j - 1);
      ElevatedNeutralFirst(tail[0].op, rest, script);
      var values, elevated := TellingValues(tail, script, j), AllElevated(TellingValues(tail, script, j), script);
      assert values[1..] == rest && elevated[1..] == AllElevated(rest, script);
      NeutralStep(left, tail, values);
      NeutralStep(Elevate(left, script), tail, elevated);
    }
  }

  /** Where to tell an arithmetic operator: at the first product, or if there is none anywhere. */
  lemma TellingPlace(tail: seq<Term>) returns (j: nat)
    requires exists t <- tail :: !IsLogical(t.op)
    ensures j < |tail| && IsTelling(tail, j)
  {
    if NoProduct(tail) {
      var t :| t in tail && !IsLogical(t.op);
      j :| 0 <= j < |tail| && tail[j] == t;
    } else {
      j := 0;
      while !tail[j].op.Multiply?
        invariant j < |tail| && NoProduct(tail[..j])
        invariant exists i :: j <= i < |tail| && tail[i].op.Multiply?
        decreases |tail| - j
      {
        assert tail[..j + 1] == tail[..j] + [tail[j]];
        j := j + 1;
      }
    }
  }

  predicate AllLogical(tail: seq<Term>) {
    forall t <- tail :: IsLogical(t.op)
  }

  lemma {:induction false} ChainFits(tail: seq<Term>, seen: set<Name>, script: Script)
    requires DistinctSymbols(tail, seen) && (script.Normal? || AllLogical(tail))
    ensures TermsFit(tail, script)
    decreases tail
  {
    if tail != [] {
      assert forall t <- tail[1..] :: t in tail;
      assert tail[0] in tail;
      ChainFits(tail[1..], seen + {tail[0].atom.name}, script);
    }
  }

  lemma ChainOutcome(e: Expr, left: Word36, values: seq<Word36>, script: Script, rho: Valuation, ctx: Context)
    requires IsChain(e) && |values| == |e.tail| && Gives(rho, ctx, Assigned(e.tail, values))
    requires rho(e.first.name, ctx) == Valued(SignedWord(e.negated, left), [])
    ensures EvalExpr(ExprWithScript(e, script), rho, ctx) ==
      FoldOutcome(Fold(Elevate(left, script), e.tail, AllElevated(values, script)))
  {
    ElevateCommutesWithNot(left, script);
    assert AtomWithScript(e.first, script) == Symbol(script, e.first.name);
    ChainValue(Elevate(left, script), e.tail, values, {e.first.name}, script, rho, ctx);
  }

  lemma {:induction false} NormalChain(e: Expr, seen: set<Name>)
    requires DistinctSymbols(e.tail, seen)
    ensures TermsWithScript(e.tail, Normal) == e.tail
    decreases e.tail
  {
    if e.tail != [] {
      assert TermWithScript(e.tail[0], Normal) == e.tail[0];
      assert [e.tail[0]] + e.tail[1..] == e.tail;
      NormalChain(e.(tail := e.tail[1..]), seen + {e.tail[0].atom.name});
    }
  }

  lemma {:induction false} NormalValues(values: seq<Word36>)
    ensures AllElevated(values, Normal) == values
    decreases |values|
  {
    if values != [] {
      NormalValues(values[1..]);
    }
  }

  lemma ChainValuation(e: Expr, left: Word36, values: seq<Word36>) returns (rho: Valuation)
    requires IsChain(e) && |values| == |e.tail|
    ensures rho(e.first.name, AT_ONE) == Valued(SignedWord(e.negated, left), [])
    ensures Gives(rho, AT_ONE, Assigned(e.tail, values))
  {
    AssignedKeepsOthers(e.tail, values, {e.first.name});
    var symbols := Assigned(e.tail, values)[e.first.name := SignedWord(e.negated, left)];
    rho := (name: Name, ctx: Context) => if name in symbols then Valued(symbols[name], []) else Failed;
  }

  lemma UnmovedChainOutcome(e: Expr, left: Word36, values: seq<Word36>, rho: Valuation)
    requires IsChain(e) && |values| == |e.tail| && Gives(rho, AT_ONE, Assigned(e.tail, values))
    requires rho(e.first.name, AT_ONE) == Valued(SignedWord(e.negated, left), [])
    ensures EvalExpr(e, rho, AT_ONE) == FoldOutcome(Fold(left, e.tail, values))
  {
    ChainOutcome(e, left, values, Normal, rho, AT_ONE);
    NormalChain(e, {e.first.name});
    NormalValues(values);
    assert ExprWithScript(e, Normal) == e;
  }

  lemma ArithmeticChainLosesMeaning(e: Expr, script: Script, j: nat)
    requires IsChain(e) && !script.Normal? && j < |e.tail| && IsTelling(e.tail, j)
    ensures !KeepsMeaning(e, script)
  {
    hide *;
    var left, values := Telling(e.tail[j].op, script).0, TellingValues(e.tail, script, j);
    SomeOperatorTells(e.tail, script, j);
    var rho := ChainValuation(e, left, values);
    ChainOutcome(e, left, values, script, rho, AT_ONE);
    UnmovedChainOutcome(e, left, values, rho);
    ApartIsNotElevated(left, e.tail, values, script);
    MeaningLost(e, script, rho, AT_ONE);
  }

  lemma ApartIsNotElevated(left: Word36, tail: seq<Term>, values: seq<Word36>, script: Script)
    requires |values| == |tail| && TellsApart(left, tail, values, script)
    ensures FoldOutcome(Fold(Elevate(left, script), tail, AllElevated(values, script))) !=
      Elevated(FoldOutcome(Fold(left, tail, values)), script)
  {
  }

  /**
   * Main result: distinct symbols joined by any number of operators keep their meaning in a
   * script exactly if it is normal script or all the operators are logical ones.
   */
  lemma ChainKeptIff(e: Expr, script: Script)
    requires IsChain(e)
    ensures KeepsMeaning(e, script) <==> script.Normal? || AllLogical(e.tail)
  {
    if script.Normal? || AllLogical(e.tail) {
      ChainFits(e.tail, {e.first.name}, script);
      FittingKeepsMeaning(e, script);
    } else {
      var j := TellingPlace(e.tail);
      ArithmeticChainLosesMeaning(e, script, j);
    }
  }

  // ----- a symbol and a number -----

  function ElevatedResult(r: Option<Word36>, script: Script): Option<Word36> {
    match r
    case None => None
    case Some(v) => Some(Elevate(v, script))
  }

  /** The operator gives something else for these operands when they are moved. */
  predicate Disturbs(left: Word36, op: Operator, right: Word36, script: Script) {
    EvalBinop(Elevate(left, script), op, Elevate(right, script)) != ElevatedResult(EvalBinop(left, op, right), script)
  }

  /** What an arithmetic operator makes of a value and a zero. */
  function WithZero(left: Word36, op: Operator, zero: Word36): Word36 {
    match op
    case Multiply => 0
    case Divide => if IsZero(left) then 0 else if zero == 0 then Not(left) else left
    case _ => if left == Not(0) then 0 else left
  }

  lemma ZeroOperand(left: Word36, op: Operator, zero: Word36)
    requires IsZero(zero) && !IsLogical(op)
    ensures EvalBinop(left, op, zero) == Some(WithZero(left, op, zero))
  {
    assert SignedValue36(zero) == 0;
  }

  lemma ZerosStay(w: Word36, script: Script)
    ensures Elevate(w, script) == 0 <==> w == 0
    ensures Elevate(w, script) == Not(0) <==> w == Not(0)
  {
    assert Elevate(0, script) == 0 && Elevate(Not(0), script) == Not(0);
    if Elevate(w, script) == 0 {
      ElevateIsInjective(w, 0, script);
    } else if Elevate(w, script) == Not(0) {
      ElevateIsInjective(w, Not(0), script);
    }
  }

  lemma ZeroNeverDisturbs(left: Word36, op: Operator, zero: Word36, script: Script)
    requires IsZero(zero) && !IsLogical(op)
    ensures !Disturbs(left, op, zero, script)
  {
    hide EvalBinop;
    hide Elevate;
    ZerosStay(zero, script);
    ZerosStay(left, script);
    ZerosStay(0, script);
    ElevateCommutesWithNot(left, script);
    ZeroOperand(left, op, zero);
    ZeroOperand(Elevate(left, script), op, Elevate(zero, script));
  }

  /** The sum overflows in one of the two places only. */
  predicate OverflowsOnce(left: Word36, right: Word36, script: Script) {
    EvalBinop(left, Add, right).None? != EvalBinop(Elevate(left, script), Add, Elevate(right, script)).None?
  }

  /**
   * Adding in one's complement commutes with the rotation but for overflows, so it takes a
   * sum that overflows in one of the two places to tell a number from zero.
   */
  lemma SumDisturbs(right: Word36, script: Script) returns (left: Word36)
    requires !script.Normal? && !IsZero(right)
    ensures OverflowsOnce(left, right, script)
  {
    ElevateCommutesWithNot(right, script);
    if SignedValue36(Elevate(right, script)) > 0 {
      left := PositiveSumDisturbs(right, script);
    } else {
      left := PositiveSumDisturbs(Not(right), script);
      ElevateCommutesWithNot(left, script);
      SumsOfComplements(left, Not(right));
      SumsOfComplements(Elevate(left, script), Elevate(Not(right), script));
      left := Not(left);
    }
  }

  lemma SumsOfComplements(left: Word36, right: Word36)
    ensures EvalBinop(Not(left), Add, Not(right)).None? <==> EvalBinop(left, Add, right).None?
  {
    assert SignedValue36(Not(left)) == -SignedValue36(left) && SignedValue36(Not(right)) == -SignedValue36(right);
  }

  lemma PositiveSumDisturbs(right: Word36, script: Script) returns (left: Word36)
    requires !script.Normal? && SignedValue36(Elevate(right, script)) > 0
    ensures OverflowsOnce(left, right, script)
  {
    var unit := if script.Super? then 0x20 else 0x2_0000;
    if SignedValue36(right) - unit > -0x8_0000_0000 {
      left := Not(unit);
      assert Elevate(unit, script) == 0x8_0000_0000;
      ElevateCommutesWithNot(unit, script);
      assert SignedValue36(left) == -unit && EvalBinop(left, Add, right).Some?;
      assert EvalBinop(0x7_FFFF_FFFF, Add, Elevate(right, script)) == None;
    } else {
      left := Not(2 * unit);
      assert Elevate(2 * unit, script) == 1;
      ElevateCommutesWithNot(2 * unit, script);
      assert SignedValue36(left) == -2 * unit && EvalBinop(left, Add, right) == None;
      assert EvalBinop(Elevate(left, script), Add, Elevate(right, script)).Some?;
    }
  }

  lemma NumberTells(op: Operator, right: Word36, script: Script) returns (left: Word36)
    requires !script.Normal? && !IsLogical(op) && !IsZero(right)
    ensures Disturbs(left, op, right, script)
  {
    match op {
      case Add => left := SumDisturbs(right, script);
      case Subtract =>
        left := SumDisturbs(Not(right), script);
        ElevateCommutesWithNot(right, script);
        DifferenceIsSum(left, right);
        DifferenceIsSum(Elevate(left, script), Elevate(right, script));
      case Multiply =>
        left := 1;
        ProductTells(right, script);
      case Divide =>
        left := right;
        QuotientTells(right, script);
    }
  }

  lemma DifferenceIsSum(left: Word36, right: Word36)
    ensures EvalBinop(left, Subtract, right) == EvalBinop(left, Add, Not(right))
  {
    assert SignedValue36(Not(right)) == -SignedValue36(right);
  }

  lemma ProductTells(right: Word36, script: Script)
    requires !script.Normal? && !IsZero(right)
    ensures Disturbs(1, Multiply, right, script)
  {
    assert EvalBinop(1, Multiply, right) == Some(right);
    var moved := Elevate(right, script);
    assert !IsZero(moved);
    if script.Super? {
      assert EvalBinop(0x4000_0000, Multiply, moved) == FromSigned(0x4000_0000 * SignedValue36(moved));
    } else {
      assert EvalBinop(0x4_0000, Multiply, moved) == FromSigned(0x4_0000 * SignedValue36(moved));
    }
  }

  lemma QuotientTells(right: Word36, script: Script)
    requires !script.Normal? && !IsZero(right)
    ensures Disturbs(right, Divide, right, script)
  {
    DivideByItself(right);
    DivideByItself(Elevate(right, script));
  }

  lemma DivideByItself(w: Word36)
    requires !IsZero(w)
    ensures EvalBinop(w, Divide, w) == Some(1)
  {
    var v := SignedValue36(w);
    assert v != 0;
    assert Quotient(v, v) == 1;
  }

  function SymbolAndNumber(first: bool, x: Name, op: Operator, second: bool, n: Word36): Expr {
    Expr(first, Symbol(Normal, x), [Term(op, second, Literal(Normal, n))])
  }

  /** The outcome of the symbol and the number, put into the script one by one. */
  function Joined(r: Outcome, first: bool, op: Operator, right: Word36, script: Script): Outcome {
    if r.Failed? then Failed
    else
      match EvalBinop(Elevate(SignedWord(first, r.value), script), op, Elevate(right, script))
      case None => Failed
      case Some(v) => Valued(v, r.updates)
  }

  lemma SymbolAndNumberValue(first: bool, x: Name, op: Operator, second: bool, n: Word36, script: Script,
      rho: Valuation, ctx: Context)
    ensures EvalExpr(ExprWithScript(SymbolAndNumber(first, x, op, second, n), script), rho, ctx) ==
      Joined(rho(x, ctx), first, op, SignedWord(second, n), script)
  {
    hide EvalBinop;
    var r, t := rho(x, ctx), Term(op, second, Literal(script, n));
    assert AtomWithScript(Symbol(Normal, x), script) == Symbol(script, x);
    assert [Term(op, second, Literal(Normal, n))][1..] == [] && TermsWithScript([], script) == [];
    assert TermWithScript(Term(op, second, Literal(Normal, n)), script) == t;
    assert ExprWithScript(SymbolAndNumber(first, x, op, second, n), script) == Expr(first, Symbol(script, x), [t]);
    if r.Valued? {
      ElevateCommutesWithNot(r.value, script);
      ElevateCommutesWithNot(n, script);
      assert EvalOperand(t, rho, ctx) == Valued(Elevate(SignedWord(second, n), script), []);
      var left := Elevate(SignedWord(first, r.value), script);
      var step := EvalStep(left, t, rho, ctx);
      assert [t][1..] == [] && (step.Valued? ==> EvalTerms(step.value, [], rho, ctx) == Valued(step.value, []));
      assert EvalTerms(left, [t], rho, ctx) == step;
      assert r.updates + [] == r.updates;
    }
  }

  lemma UnmovedValue(first: bool, x: Name, op: Operator, second: bool, n: Word36, rho: Valuation, ctx: Context)
    ensures EvalExpr(SymbolAndNumber(first, x, op, second, n), rho, ctx) ==
      Joined(rho(x, ctx), first, op, SignedWord(second, n), Normal)
  {
    var e := SymbolAndNumber(first, x, op, second, n);
    assert TermsWithScript(e.tail[1..], Normal) == e.tail[1..];
    assert TermWithScript(e.tail[0], Normal) == e.tail[0];
    assert ExprWithScript(e, Normal) == e;
    SymbolAndNumberValue(first, x, op, second, n, Normal, rho, ctx);
  }

  lemma SymbolAndZeroKept(first: bool, x: Name, op: Operator, second: bool, zero: Word36, script: Script)
    requires IsZero(zero) && !IsLogical(op)
    ensures KeepsMeaning(SymbolAndNumber(first, x, op, second, zero), script)
  {
    var e := SymbolAndNumber(first, x, op, second, zero);
    forall rho: Valuation, ctx
      ensures EvalAtom(Wrapped(ExprWithScript(e, script), script), rho, ctx) == Elevated(EvalExpr(e, rho, ctx), script)
    {
      WrappedValue(ExprWithScript(e, script), script, rho, ctx);
      SymbolAndNumberValue(first, x, op, second, zero, script, rho, ctx);
      UnmovedValue(first, x, op, second, zero, rho, ctx);
      if rho(x, ctx).Valued? {
        ZeroNeverDisturbs(SignedWord(first, rho(x, ctx).value), op, SignedWord(second, zero), script);
      }
    }
  }

  /**
   * Main result: a symbol and a number joined by an operator, such as `x + 1`, keep their
   * meaning in a script exactly if it is normal script, the operator is a logical one, or the
   * number is a zero.
   */
  lemma SymbolAndNumberKeptIff(first: bool, x: Name, op: Operator, second: bool, n: Word36, script: Script)
    ensures KeepsMeaning(SymbolAndNumber(first, x, op, second, n), script) <==>
      script.Normal? || IsLogical(op) || IsZero(n)
  {
    var e, right := SymbolAndNumber(first, x, op, second, n), SignedWord(second, n);
    if script.Normal? || IsLogical(op) {
      assert AtomFits(e.tail[0].atom, script) && TermsFit(e.tail[1..], script) && TermsFit(e.tail, script);
      FittingKeepsMeaning(e, script);
    } else if IsZero(n) {
      SymbolAndZeroKept(first, x, op, second, n, script);
    } else {
      var left := NumberTells(op, right, script);
      var rho: Valuation := (name: Name, ctx: Context) => Valued(SignedWord(first, left), []);
      assert SignedWord(first, SignedWord(first, left)) == left;
      SymbolAndNumberValue(first, x, op, second, n, script, rho, AT_ONE);
      UnmovedValue(first, x, op, second, n, rho, AT_ONE);
      hide EvalBinop;
      MeaningLost(e, script, rho, AT_ONE);
    }
  }

  /** An argument that repeats a symbol may keep its meaning although it does not fit: `x - x` is 0. */
  lemma CancellingArgumentIsKept(x: Name, script: Script)
    requires !script.Normal?
    ensures var t := Term(Subtract, false, Symbol(Normal, x));
      var argument := Expr(false, Symbol(Normal, x), [t]);
      KeepsMeaning(argument, script) && !FitsScript(argument, script)
  {
    var t, moved := Term(Subtract, false, Symbol(Normal, x)), Term(Subtract, false, Symbol(script, x));
    var argument := Expr(false, Symbol(Normal, x), [t]);
    assert !TermFits(t, script) && !TermsFit([t], script);
    assert AtomWithScript(Symbol(Normal, x), script) == Symbol(script, x);
    assert TermWithScript(t, script) == moved && [t][1..] == [] && TermsWithScript([t], script) == [moved];
    forall rho: Valuation, ctx
      ensures EvalAtom(Wrapped(ExprWithScript(argument, script), script), rho, ctx) ==
        Elevated(EvalExpr(argument, rho, ctx), script)
    {
      WrappedValue(ExprWithScript(argument, script), script, rho, ctx);
      Cancels(rho, ctx, Symbol(Normal, x));
      Cancels(rho, ctx, Symbol(script, x));
    }
  }

  lemma Cancels(rho: Valuation, ctx: Context, a: Atom)
    requires a.Symbol?
    ensures var r := EvalAtom(a, rho, ctx);
      EvalExpr(Expr(false, a, [Term(Subtract, false, a)]), rho, ctx) ==
      if r.Failed? then Failed else Valued(0, r.updates + r.updates)
  {
    var r, t := EvalAtom(a, rho, ctx), Term(Subtract, false, a);
    if r.Valued? {
      assert EvalBinop(r.value, Subtract, r.value) == Some(0);
      assert EvalStep(r.value, t, rho, ctx) == Valued(0, r.updates);
      assert [t][1..] == [] && EvalTerms(0, [], rho, ctx) == Valued(0, []);
      assert r.updates + [] == r.updates;
      assert EvalTerms(r.value, [t], rho, ctx) == Valued(0, r.updates);
    }
  }

  /** A product used in superscript: the factors are elevated one by one, and overflow. */
  lemma CompoundArgumentInSuperscriptDiffers(rho: Valuation, ctx: Context)
    ensures var b := map["a" := Bound(Expr(false, Literal(Normal, 2), [Term(Multiply, false, Literal(Normal, 3))]))];
      var use := Symbol(Super, "a");
      && EvalAtom(use, BindValues(b, rho), ctx) == Valued(6 * 0x4000_0000, [])
      && SubstAtom(use, b, ElideReference).Some?
      && EvalAtom(SubstAtom(use, b, ElideReference).value, rho, ctx).Failed?
  {
    var factor := Term(Multiply, false, Literal(Normal, 3));
    var argument := Expr(false, Literal(Normal, 2), [factor]);
    assert EvalStep(2, factor, rho, ctx) == Valued(6, []);
    assert EvalTerms(6, [factor][1..], rho, ctx) == Valued(6, []);
    assert EvalTerms(2, [factor], rho, ctx) == Valued(6, []);
    assert EvalExpr(argument, rho, ctx) == Valued(6, []);
    assert BindValues(map["a" := Bound(argument)], rho)("a", ctx) == Valued(6, []);
    var elevated := ExprWithScript(argument, Super);
    assert TermWithScript(factor, Super) == Term(Multiply, false, Literal(Super, 3));
    assert TermsWithScript([factor], Super) == [TermWithScript(factor, Super)] + TermsWithScript([], Super);
    assert elevated.tail == [Term(Multiply, false, Literal(Super, 3))];
    assert EvalStep(2 * 0x4000_0000, elevated.tail[0], rho, ctx).Failed?;
  }

  /** A superscript argument used in normal script loses its place in the word. */
  lemma SuperscriptArgumentIsFlattened(rho: Valuation, ctx: Context)
    ensures var b := map["a" := Bound(Expr(false, Literal(Super, 1), []))];
      var use := Symbol(Normal, "a");
      && EvalAtom(use, BindValues(b, rho), ctx) == Valued(0x4000_0000, [])
      && SubstAtom(use, b, ElideReference).Some?
      && EvalAtom(SubstAtom(use, b, ElideReference).value, rho, ctx) == Valued(1, [])
  {
    var argument := Expr(false, Literal(Super, 1), []);
    assert EvalExpr(argument, rho, ctx) == Valued(0x4000_0000, []);
    assert BindValues(map["a" := Bound(argument)], rho)("a", ctx) == Valued(0x4000_0000, []);
    assert ExprWithScript(argument, Normal) == Expr(false, Literal(Normal, 1), []);
  }
}
