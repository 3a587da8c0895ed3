/**
 * Macro expansion puts argument expressions where the body names parameters.  The result
 * has to mean what the body means when each parameter stands for its argument's value.
 */
module MacroSubstitution {
  import opened Words
  import opened AssemblyTree

  /** A parameter that the invocation gave an expression for, or did not. */
  datatype Binding = Unbound | Bound(argument: Expr)

  type Bindings = map<Name, Binding>

  datatype OnUnbound = ElideReference | SubstituteZero

  // ----- changing the script of an argument -----

  function ExprWithScript(e: Expr, script: Script): Expr
    decreases e, 0
  {
    Expr(e.negated, AtomWithScript(e.first, script), TermsWithScript(e.tail, script))
  }

  function TermsWithScript(tail: seq<Term>, script: Script): (r: seq<Term>)
    ensures |r| == |tail|
    decreases tail, 0
  {
    if tail == [] then [] else [TermWithScript(tail[0], script)] + TermsWithScript(tail[1..], script)
  }

  function TermWithScript(t: Term, script: Script): Term
    decreases t, 0
  {
    t.(atom := AtomWithScript(t.atom, script))
  }

  function AtomWithScript(a: Atom, script: Script): Atom
    decreases a, 0
  {
    match a
    case Symbol(_, name) => Symbol(script, name)
    case Literal(_, value) => Literal(script, value)
    case Here(_) => Here(script)
    case Parens(_, inner) => Parens(script, ExprWithScript(inner, script))
    case _ => a
  }

  // ----- substitution -----

  function SubstExpr(e: Expr, b: Bindings, missing: OnUnbound): Option<Expr>
    decreases e, 0
  {
    match (SubstAtom(e.first, b, missing), SubstTerms(e.tail, b, missing))
    case (Some(first), Some(tail)) => Some(Expr(e.negated, first, tail))
    case _ => None
  }

  function SubstTerms(tail: seq<Term>, b: Bindings, missing: OnUnbound): Option<seq<Term>>
    decreases tail, 0
  {
    if tail == [] then Some([])
    else
      match (SubstTerm(tail[0], b, missing), SubstTerms(tail[1..], b, missing))
      case (Some(t), Some(rest)) => Some([t] + rest)
      case _ => None
  }

  function SubstTerm(t: Term, b: Bindings, missing: OnUnbound): Option<Term>
    decreases t, 0
  {
    match SubstAtom(t.atom, b, missing)
    case Some(atom) => Some(t.(atom := atom))
    case None => None
  }

  /** An argument that is more than one positive atom is put in parentheses. */
  function Wrapped(argument: Expr, script: Script): Atom {
    if argument.tail == [] && !argument.negated then argument.first else Parens(script, argument)
  }

  function SubstAtom(a: Atom, b: Bindings, missing: OnUnbound): Option<Atom>
    decreases a, 0
  {
    match a
    case Symbol(script, name) =>
      if name !in b then Some(a)
      else
        (match b[name]
         case Bound(argument) => Some(Wrapped(ExprWithScript(argument, script), script))
         case Unbound => if missing.ElideReference? then None else Some(Literal(Normal, 0)))
    case Parens(script, inner) =>
      (match SubstExpr(inner, b, missing)
       case Some(e) => Some(Parens(script, e))
       case None => None)
    case AssembledWord(word) =>
      (match SubstWord(word, b, missing)
       case Some(w) => Some(AssembledWord(w))
       case None => None)
    case RcRef(locals, words) =>
      (match SubstRcWords(words, b, missing)
       case Some(ws) => Some(RcRef(locals, ws))
       case None => None)
    case _ => Some(a)
  }

  function SubstRcWords(words: seq<RcWord>, b: Bindings, missing: OnUnbound): (r: Option<seq<RcWord>>)
    ensures r.Some? ==> |r.value| == |words| && (words != [] ==> r.value[0].address == words[0].address)
    decreases words, 0
  {
    if words == [] then Some([])
    else
      match (SubstRcWord(words[0], b, missing), SubstRcWords(words[1..], b, missing))
      case (Some(w), Some(rest)) => Some([w] + rest)
      case _ => None
  }

  function SubstRcWord(w: RcWord, b: Bindings, missing: OnUnbound): (r: Option<RcWord>)
    ensures r.Some? ==> r.value.address == w.address
    decreases w, 0
  {
    match SubstWord(w.word, b, missing)
    case Some(word) => Some(w.(word := word))
    case None => None
  }

  function SubstWord(word: seq<Fragment>, b: Bindings, missing: OnUnbound): Option<seq<Fragment>>
    decreases word, 0
  {
    if word == [] then Some([])
    else
      match (SubstFragment(word[0], b, missing), SubstWord(word[1..], b, missing))
      case (Some(f), Some(rest)) => Some([f] + rest)
      case _ => None
  }

  function SubstFragment(f: Fragment, b: Bindings, missing: OnUnbound): Option<Fragment>
    decreases f, 0
  {
    match SubstBody(f.body, b, missing)
    case Some(body) => Some(f.(body := body))
    case None => None
  }

  function SubstBody(body: Body, b: Bindings, missing: OnUnbound): Option<Body>
    decreases body, 0
  {
    match body
    case Arithmetic(expr) =>
      (match SubstExpr(expr, b, missing)
       case Some(e) => Some(Arithmetic(e))
       case None => None)
    case Config(alreadySuper, value) =>
      (match SubstExpr(value, b, missing)
       case Some(e) => Some(Config(alreadySuper, e))
       case None => None)
    case Pipe(index, target) =>
      (match (SubstExpr(index, b, missing), SubstRcWord(target, b, missing))
       case (Some(i), Some(t)) => Some(Pipe(i, t))
       case _ => None)
    case _ => Some(body)
  }

  // ----- a condition on every use of a name -----

  type UseTest = (Script, Name) -> bool

  predicate ExprUses(e: Expr, ok: UseTest)
    decreases e, 0
  {
    AtomUses(e.first, ok) && TermsUse(e.tail, ok)
  }

  predicate TermsUse(tail: seq<Term>, ok: UseTest)
    decreases tail, 0
  {
    tail != [] ==> TermUses(tail[0], ok) && TermsUse(tail[1..], ok)
  }

  predicate TermUses(t: Term, ok: UseTest)
    decreases t, 0
  {
    AtomUses(t.atom, ok)
  }

  predicate AtomUses(a: Atom, ok: UseTest)
    decreases a, 0
  {
    match a
    case Symbol(script, name) => ok(script, name)
    case Parens(_, inner) => ExprUses(inner, ok)
    case AssembledWord(word) => WordUses(word, ok)
    case RcRef(_, words) => RcWordsUse(words, ok)
    case _ => true
  }

  predicate RcWordsUse(words: seq<RcWord>, ok: UseTest)
    decreases words, 0
  {
    words != [] ==> RcWordUses(words[0], ok) && RcWordsUse(words[1..], ok)
  }

  predicate RcWordUses(w: RcWord, ok: UseTest)
    decreases w, 0
  {
    WordUses(w.word, ok)
  }

  predicate WordUses(word: seq<Fragment>, ok: UseTest)
    decreases word, 0
  {
    word != [] ==> FragmentUses(word[0], ok) && WordUses(word[1..], ok)
  }

  predicate FragmentUses(f: Fragment, ok: UseTest)
    decreases f, 0
  {
    BodyUses(f.body, ok)
  }

  predicate BodyUses(body: Body, ok: UseTest)
    decreases body, 0
  {
    match body
    case Arithmetic(expr) => ExprUses(expr, ok)
    case Config(_, value) => ExprUses(value, ok)
    case Pipe(index, target) => ExprUses(index, ok) && RcWordUses(target, ok)
    case _ => true
  }

  // ----- when anything is left out -----

  function NotUnbound(b: Bindings): UseTest {
    (script: Script, name: Name) => name in b ==> b[name].Bound?
  }

  /** Whether substitution keeps a part whose every use passes `whole`. */
  predicate Keeps(missing: OnUnbound, whole: bool) {
    missing.SubstituteZero? || whole
  }

  lemma {:induction false} ExprKept(e: Expr, b: Bindings, missing: OnUnbound)
    ensures SubstExpr(e, b, missing).Some? <==> Keeps(missing, ExprUses(e, NotUnbound(b)))
    decreases e, 0
  {
    AtomKept(e.first, b, missing);
    TermsKept(e.tail, b, missing);
  }

  lemma {:induction false} TermsKept(tail: seq<Term>, b: Bindings, missing: OnUnbound)
    ensures SubstTerms(tail, b, missing).Some? <==> Keeps(missing, TermsUse(tail, NotUnbound(b)))
    decreases tail, 0
  {
    if tail != [] {
      TermKept(tail[0], b, missing);
      TermsKept(tail[1..], b, missing);
    }
  }

  lemma {:induction false} TermKept(t: Term, b: Bindings, missing: OnUnbound)
    ensures SubstTerm(t, b, missing).Some? <==> Keeps(missing, TermUses(t, NotUnbound(b)))
    decreases t, 0
  {
    AtomKept(t.atom, b, missing);
  }

  lemma {:induction false} AtomKept(a: Atom, b: Bindings, missing: OnUnbound)
    ensures SubstAtom(a, b, missing).Some? <==> Keeps(missing, AtomUses(a, NotUnbound(b)))
    decreases a, 0
  {
    match a {
      case Parens(_, inner) => ExprKept(inner, b, missing);
      case AssembledWord(word) => WordKept(word, b, missing);
      case RcRef(_, words) => RcWordsKept(words, b, missing);
      case _ =>
    }
  }

  lemma {:induction false} RcWordsKept(words: seq<RcWord>, b: Bindings, missing: OnUnbound)
    ensures SubstRcWords(words, b, missing).Some? <==> Keeps(missing, RcWordsUse(words, NotUnbound(b)))
    decreases words, 0
  {
    if words != [] {
      RcWordKept(words[0], b, missing);
      RcWordsKept(words[1..], b, missing);
    }
  }

  lemma {:induction false} RcWordKept(w: RcWord, b: Bindings, missing: OnUnbound)
    ensures SubstRcWord(w, b, missing).Some? <==> Keeps(missing, RcWordUses(w, NotUnbound(b)))
    decreases w, 0
  {
    WordKept(w.word, b, missing);
  }

  /**
   * Main result: eliding leaves a word out exactly when it uses a parameter without a value,
   * anywhere in it, and substituting zero never leaves anything out.
   */
  lemma {:induction false} WordKept(word: seq<Fragment>, b: Bindings, missing: OnUnbound)
    ensures SubstWord(word, b, missing).Some? <==> Keeps(missing, WordUses(word, NotUnbound(b)))
    decreases word, 0
  {
    if word != [] {
      FragmentKept(word[0], b, missing);
      WordKept(word[1..], b, missing);
    }
  }

  lemma {:induction false} FragmentKept(f: Fragment, b: Bindings, missing: OnUnbound)
    ensures SubstFragment(f, b, missing).Some? <==> Keeps(missing, FragmentUses(f, NotUnbound(b)))
    decreases f, 0
  {
    BodyKept(f.body, b, missing);
  }

  lemma {:induction false} BodyKept(body: Body, b: Bindings, missing: OnUnbound)
    ensures SubstBody(body, b, missing).Some? <==> Keeps(missing, BodyUses(body, NotUnbound(b)))
    decreases body, 0
  {
    match body {
      case Arithmetic(expr) => ExprKept(expr, b, missing);
      case Config(_, value) => ExprKept(value, b, missing);
      case Pipe(index, target) =>
        ExprKept(index, b, missing);
        RcWordKept(target, b, missing);
      case _ =>
    }
  }

  // ----- meaning -----

  /** Each parameter stands for the value of its argument where it is used; without one, for zero. */
  function BindValues(b: Bindings, rho: Valuation): Valuation {
    (name: Name, ctx: Context) =>
      if name !in b then rho(name, ctx)
      else
        match b[name]
        case Bound(argument) => EvalExpr(argument, rho, ctx)
        case Unbound => Valued(0, [])
  }

  predicate IsLogical(op: Operator) {
    op.LogicalAnd? || op.LogicalOr? || op.LogicalXor?
  }

  /**
   * An argument that means the same when its parts are put into the script of its use instead
   * of its value: its parts are in normal script, or numbers that their script does not move,
   * and outside normal script no operator but the logical ones joins them.
   */
  predicate FitsScript(e: Expr, script: Script)
    decreases e, 0
  {
    AtomFits(e.first, script) && TermsFit(e.tail, script)
  }

  predicate TermsFit(tail: seq<Term>, script: Script)
    decreases tail, 0
  {
    tail != [] ==> TermFits(tail[0], script) && TermsFit(tail[1..], script)
  }

  predicate TermFits(t: Term, script: Script)
    decreases t, 0
  {
    (script.Normal? || IsLogical(t.op)) && AtomFits(t.atom, script)
  }

  predicate AtomFits(a: Atom, script: Script)
    decreases a, 0
  {
    match a
    case Symbol(own, _) => own.Normal?
    case Literal(own, value) => Elevate(value, own) == value
    case Here(own) => own.Normal?
    case Parens(_, inner) => FitsScript(inner, script)
    case _ => script.Normal?
  }

  function Fits(b: Bindings): UseTest {
    (script: Script, name: Name) => name in b && b[name].Bound? ==> FitsScript(b[name].argument, script)
  }

  /** The outcome with its value in the place of a script. */
  function Elevated(r: Outcome, script: Script): Outcome {
    if r.Failed? then Failed else Valued(Elevate(r.value, script), r.updates)
  }

  lemma WrappedValue(argument: Expr, script: Script, rho: Valuation, ctx: Context)
    ensures EvalAtom(Wrapped(argument, script), rho, ctx) == EvalExpr(argument, rho, ctx)
  {
    var first := EvalAtom(argument.first, rho, ctx);
    if argument.tail == [] && !argument.negated && first.Valued? {
      assert first.updates + [] == first.updates;
    }
  }

  lemma OneAtomValue(e: Expr, rho: Valuation, ctx: Context)
    requires e.tail == []
    ensures EvalExpr(e, rho, ctx) == Signed(e.negated, EvalAtom(e.first, rho, ctx))
  {
    var first := Signed(e.negated, EvalAtom(e.first, rho, ctx));
    assert first.Valued? ==> first.updates + [] == first.updates;
  }

  lemma SignedElevates(negated: bool, r: Outcome, script: Script)
    ensures Signed(negated, Elevated(r, script)) == Elevated(Signed(negated, r), script)
  {
    if r.Valued? {
      ElevateCommutesWithNot(r.value, script);
    }
  }

  /** Main result: an argument that fits has its value, moved to the script it is put into. */
  lemma {:induction false} FittingArgument(e: Expr, script: Script, rho: Valuation, ctx: Context)
    requires FitsScript(e, script)
    ensures EvalExpr(ExprWithScript(e, script), rho, ctx) == Elevated(EvalExpr(e, rho, ctx), script)
    decreases e, 0
  {
    FittingAtom(e.first, script, rho, ctx);
    SignedElevates(e.negated, EvalAtom(e.first, rho, ctx), script);
    var first := Signed(e.negated, EvalAtom(e.first, rho, ctx));
    if first.Valued? {
      FittingTerms(first.value, e.tail, script, rho, ctx);
    }
  }

  lemma {:induction false} FittingTerms(acc: Word36, tail: seq<Term>, script: Script, rho: Valuation, ctx: Context)
    requires TermsFit(tail, script)
    ensures EvalTerms(Elevate(acc, script), TermsWithScript(tail, script), rho, ctx) ==
      Elevated(EvalTerms(acc, tail, rho, ctx), script)
    decreases tail, 0
  {
    if tail != [] {
      FittingStep(acc, tail[0], script, rho, ctx);
      var r := EvalStep(acc, tail[0], rho, ctx);
      if r.Valued? {
        FittingTerms(r.value, tail[1..], script, rho, ctx);
      }
    }
  }

  lemma {:induction false} FittingStep(acc: Word36, t: Term, script: Script, rho: Valuation, ctx: Context)
    requires TermFits(t, script)
    ensures EvalStep(Elevate(acc, script), TermWithScript(t, script), rho, ctx) ==
      Elevated(EvalStep(acc, t, rho, ctx), script)
    decreases t, 0
  {
    FittingAtom(t.atom, script, rho, ctx);
    SignedElevates(t.negated, EvalAtom(t.atom, rho, ctx), script);
    var right := EvalOperand(t, rho, ctx);
    if right.Valued? && IsLogical(t.op) {
      ElevateCommutesWithLogical(acc, t.op, right.value, script);
    }
  }

  lemma ElevateCommutesWithLogical(left: Word36, op: Operator, right: Word36, script: Script)
    requires IsLogical(op)
    ensures EvalBinop(left, op, right).Some?
    ensures EvalBinop(Elevate(left, script), op, Elevate(right, script)) ==
      Some(Elevate(EvalBinop(left, op, right).value, script))
  {
    match op {
      case LogicalAnd => ElevateCommutesWithCombine((x, y) => x && y, left, right, script);
      case LogicalOr => ElevateCommutesWithCombine((x, y) => x || y, left, right, script);
      case LogicalXor => ElevateCommutesWithCombine((x, y) => x != y, left, right, script);
    }
  }

  lemma {:induction false} FittingAtom(a: Atom, script: Script, rho: Valuation, ctx: Context)
    requires AtomFits(a, script)
    ensures EvalAtom(AtomWithScript(a, script), rho, ctx) == Elevated(EvalAtom(a, rho, ctx), script)
    decreases a, 0
  {
    match a {
      case Parens(_, inner) => FittingArgument(inner, script, rho, ctx);
      case _ =>
    }
  }

  lemma UseValue(script: Script, name: Name, b: Bindings, missing: OnUnbound, rho: Valuation, ctx: Context)
    requires SubstAtom(Symbol(script, name), b, missing).Some? && Fits(b)(script, name)
    ensures EvalAtom(SubstAtom(Symbol(script, name), b, missing).value, rho, ctx) ==
      EvalAtom(Symbol(script, name), BindValues(b, rho), ctx)
  {
    if name in b && b[name].Bound? {
      var argument := b[name].argument;
      WrappedValue(ExprWithScript(argument, script), script, rho, ctx);
      FittingArgument(argument, script, rho, ctx);
    }
  }

  lemma {:induction false} ExprSubstituted(e: Expr, b: Bindings, missing: OnUnbound, rho: Valuation, ctx: Context)
    requires SubstExpr(e, b, missing).Some? && ExprUses(e, Fits(b))
    ensures EvalExpr(SubstExpr(e, b, missing).value, rho, ctx) == EvalExpr(e, BindValues(b, rho), ctx)
    decreases e, 0
  {
    AtomSubstituted(e.first, b, missing, rho, ctx);
    var first := Signed(e.negated, EvalAtom(e.first, BindValues(b, rho), ctx));
    if first.Valued? {
      TermsSubstituted(first.value, e.tail, b, missing, rho, ctx);
    }
  }

  lemma {:induction false} TermsSubstituted(acc: Word36, tail: seq<Term>, b: Bindings, missing: OnUnbound,
      rho: Valuation, ctx: Context)
    requires SubstTerms(tail, b, missing).Some? && TermsUse(tail, Fits(b))
    ensures EvalTerms(acc, SubstTerms(tail, b, missing).value, rho, ctx) ==
      EvalTerms(acc, tail, BindValues(b, rho), ctx)
    decreases tail, 0
  {
    if tail != [] {
      StepSubstituted(acc, tail[0], b, missing, rho, ctx);
      var r := EvalStep(acc, tail[0], BindValues(b, rho), ctx);
      if r.Valued? {
        TermsSubstituted(r.value, tail[1..], b, missing, rho, ctx);
      }
    }
  }

  lemma {:induction false} StepSubstituted(acc: Word36, t: Term, b: Bindings, missing: OnUnbound, rho: Valuation,
      ctx: Context)
    requires SubstTerm(t, b, missing).Some? && TermUses(t, Fits(b))
    ensures EvalStep(acc, SubstTerm(t, b, missing).value, rho, ctx) == EvalStep(acc, t, BindValues(b, rho), ctx)
    decreases t, 0
  {
    AtomSubstituted(t.atom, b, missing, rho, ctx);
  }

  lemma {:induction false} AtomSubstituted(a: Atom, b: Bindings, missing: OnUnbound, rho: Valuation, ctx: Context)
    requires SubstAtom(a, b, missing).Some? && AtomUses(a, Fits(b))
    ensures EvalAtom(SubstAtom(a, b, missing).value, rho, ctx) == EvalAtom(a, BindValues(b, rho), ctx)
    decreases a, 0
  {
    match a {
      case Symbol(script, name) => UseValue(script, name, b, missing, rho, ctx);
      case Parens(_, inner) => ExprSubstituted(inner, b, missing, rho, ctx);
      case AssembledWord(word) => WordSubstituted(0, word, b, missing, rho, ctx);
      case RcRef(locals, words) => RcWordsSubstituted(words, b, missing, rho, ctx.scope + locals);
      case _ =>
    }
  }

  lemma {:induction false} RcWordsSubstituted(words: seq<RcWord>, b: Bindings, missing: OnUnbound, rho: Valuation,
      scope: Scope)
    requires SubstRcWords(words, b, missing).Some? && RcWordsUse(words, Fits(b))
    ensures EvalRcWords(SubstRcWords(words, b, missing).value, rho, scope) ==
      EvalRcWords(words, BindValues(b, rho), scope)
    decreases words, 0
  {
    if words != [] {
      RcWordSubstituted(words[0], b, missing, rho, scope);
      RcWordsSubstituted(words[1..], b, missing, rho, scope);
    }
  }

  lemma {:induction false} RcWordSubstituted(w: RcWord, b: Bindings, missing: OnUnbound, rho: Valuation, scope: Scope)
    requires SubstRcWord(w, b, missing).Some? && RcWordUses(w, Fits(b))
    ensures EvalRcWord(SubstRcWord(w, b, missing).value, rho, scope) == EvalRcWord(w, BindValues(b, rho), scope)
    decreases w, 0
  {
    WordSubstituted(0, w.word, b, missing, rho, Context(Some(w.address), scope));
  }

  /**
   * Main result: a word after substitution has the value, and fills in the RC-words, that
   * the body has when every parameter stands for its argument's value.
   */
  lemma {:induction false} WordSubstituted(
      acc: Word36, word: seq<Fragment>, b: Bindings, missing: OnUnbound, rho: Valuation, ctx: Context)
    requires SubstWord(word, b, missing).Some? && WordUses(word, Fits(b))
    ensures EvalFragments(acc, SubstWord(word, b, missing).value, rho, ctx) ==
      EvalFragments(acc, word, BindValues(b, rho), ctx)
    decreases word, 0
  {
    if word != [] {
      FragmentSubstituted(word[0], b, missing, rho, ctx);
      var r := EvalFragment(word[0], BindValues(b, rho), ctx);
      if r.Valued? {
        WordSubstituted(Union(acc, r.value), word[1..], b, missing, rho, ctx);
      }
    }
  }

  lemma {:induction false} FragmentSubstituted(f: Fragment, b: Bindings, missing: OnUnbound, rho: Valuation,
      ctx: Context)
    requires SubstFragment(f, b, missing).Some? && FragmentUses(f, Fits(b))
    ensures EvalFragment(SubstFragment(f, b, missing).value, rho, ctx) == EvalFragment(f, BindValues(b, rho), ctx)
    decreases f, 0
  {
    BodySubstituted(f.body, b, missing, rho, ctx);
  }

  lemma {:induction false} BodySubstituted(body: Body, b: Bindings, missing: OnUnbound, rho: Valuation, ctx: Context)
    requires SubstBody(body, b, missing).Some? && BodyUses(body, Fits(b))
    ensures EvalBody(SubstBody(body, b, missing).value, rho, ctx) == EvalBody(body, BindValues(b, rho), ctx)
    decreases body, 0
  {
    match body {
      case Arithmetic(expr) => ExprSubstituted(expr, b, missing, rho, ctx);
      case Config(_, value) => ExprSubstituted(value, b, missing, rho, ctx);
      case Pipe(index, target) =>
        ExprSubstituted(index, b, missing, rho, ctx);
        RcWordSubstituted(target, b, missing, rho, ctx.scope);
      case _ =>
    }
  }
}
