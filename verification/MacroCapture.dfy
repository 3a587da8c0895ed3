/**
 * An argument is put into the body of a macro as it was written, and means there what its
 * names mean there.  When that is what they meant where the macro was invoked, and when a
 * symbol of the expansion or the address of an RC-word captures the argument instead.
 */
module MacroCapture {
  import opened Words
  import opened AssemblyTree
  import opened Unfolding
  import opened Scoping
  import opened MacroSubstitution

  // ----- a tree in two places -----

  /** Whether a name is to be taken for the same in two contexts. */
  type Sameness = (Name, Context, Context) -> bool

  /** All names of a tree are the same in both places, and so is `#` wherever it is used. */
  predicate SameExpr(e: Expr, c: Context, d: Context, same: Sameness)
    decreases e, 0
  {
    SameAtom(e.first, c, d, same) && SameTerms(e.tail, c, d, same)
  }

  predicate SameTerms(tail: seq<Term>, c: Context, d: Context, same: Sameness)
    decreases tail, 0
  {
    tail != [] ==> SameTerm(tail[0], c, d, same) && SameTerms(tail[1..], c, d, same)
  }

  predicate SameTerm(t: Term, c: Context, d: Context, same: Sameness)
    decreases t, 0
  {
    SameAtom(t.atom, c, d, same)
  }

  predicate SameAtom(a: Atom, c: Context, d: Context, same: Sameness)
    decreases a, 0
  {
    match a
    case Symbol(_, name) => same(name, c, d)
    case Literal(_, _) => true
    case Here(_) => c.here == d.here
    case Parens(_, inner) => SameExpr(inner, c, d, same)
    case AssembledWord(word) => SameWord(word, c, d, same)
    case RcRef(locals, words) => SameRcWords(words, c.scope + locals, d.scope + locals, same)
  }

  predicate SameRcWords(words: seq<RcWord>, s: Scope, s': Scope, same: Sameness)
    decreases words, 0
  {
    words != [] ==> SameRcWord(words[0], s, s', same) && SameRcWords(words[1..], s, s', same)
  }

  predicate SameRcWord(w: RcWord, s: Scope, s': Scope, same: Sameness)
    decreases w, 0
  {
    SameWord(w.word, Context(Some(w.address), s), Context(Some(w.address), s'), same)
  }

  predicate SameWord(word: seq<Fragment>, c: Context, d: Context, same: Sameness)
    decreases word, 0
  {
    word != [] ==> SameFragment(word[0], c, d, same) && SameWord(word[1..], c, d, same)
  }

  predicate SameFragment(f: Fragment, c: Context, d: Context, same: Sameness)
    decreases f, 0
  {
    SameBody(f.body, c, d, same)
  }

  predicate SameBody(b: Body, c: Context, d: Context, same: Sameness)
    decreases b, 0
  {
    match b
    case Arithmetic(expr) => SameExpr(expr, c, d, same)
    case Config(_, value) => SameExpr(value, c, d, same)
    case Pipe(index, target) => SameExpr(index, c, d, same) && SameRcWord(target, c.scope, d.scope, same)
    case _ => true
  }

  predicate SameDefinition(p: Program, def: Definition, c: Context, d: Context, same: Sameness) {
    match def
    case OriginExpression(expr) => SameExpr(expr, c, d, same)
    case Equality(word) => SameWord(word, c, d, same)
    case Tag(block, _) =>
      block < |p.blocks| ==>
        (match p.blocks[block].origin
         case Some(AtSymbol(name)) => same(name, c, d)
         case Some(AtExpression(expr)) => SameExpr(expr, c, d, same)
         case _ => true)
    case _ => true
  }

  // ----- names with the same values give trees the same value -----

  /** Where names count as the same, they have the same value. */
  ghost predicate Agree(same: Sameness, rho: Valuation, rho': Valuation) {
    forall n, c, d :: same(n, c, d) ==> rho(n, c) == rho'(n, d)
  }

  lemma {:induction false} ExprAgrees(e: Expr, c: Context, d: Context, same: Sameness, rho: Valuation, rho': Valuation)
    requires Agree(same, rho, rho') && SameExpr(e, c, d, same)
    ensures EvalExpr(e, rho, c) == EvalExpr(e, rho', d)
    decreases e, 0
  {
    AtomAgrees(e.first, c, d, same, rho, rho');
    var first := Signed(e.negated, EvalAtom(e.first, rho, c));
    if first.Valued? {
      TermsAgree(first.value, e.tail, c, d, same, rho, rho');
    }
  }

  lemma {:induction false} TermsAgree(acc: Word36, tail: seq<Term>, c: Context, d: Context, same: Sameness,
      rho: Valuation, rho': Valuation)
    requires Agree(same, rho, rho') && SameTerms(tail, c, d, same)
    ensures EvalTerms(acc, tail, rho, c) == EvalTerms(acc, tail, rho', d)
    decreases tail, 0
  {
    if tail != [] {
      StepAgrees(acc, tail[0], c, d, same, rho, rho');
      var r := EvalStep(acc, tail[0], rho, c);
      if r.Valued? {
        TermsAgree(r.value, tail[1..], c, d, same, rho, rho');
      }
    }
  }

  lemma {:induction false} StepAgrees(acc: Word36, t: Term, c: Context, d: Context, same: Sameness, rho: Valuation,
      rho': Valuation)
    requires Agree(same, rho, rho') && SameTerm(t, c, d, same)
    ensures EvalStep(acc, t, rho, c) == EvalStep(acc, t, rho', d)
    decreases t, 0
  {
    AtomAgrees(t.atom, c, d, same, rho, rho');
  }

  lemma {:induction false} AtomAgrees(a: Atom, c: Context, d: Context, same: Sameness, rho: Valuation, rho': Valuation)
    requires Agree(same, rho, rho') && SameAtom(a, c, d, same)
    ensures EvalAtom(a, rho, c) == EvalAtom(a, rho', d)
    decreases a, 0
  {
    match a {
      case Parens(_, inner) => ExprAgrees(inner, c, d, same, rho, rho');
      case AssembledWord(word) => WordAgrees(0, word, c, d, same, rho, rho');
      case RcRef(locals, words) => RcWordsAgree(words, c.scope + locals, d.scope + locals, same, rho, rho');
      case _ =>
    }
  }

  lemma {:induction false} RcWordsAgree(words: seq<RcWord>, s: Scope, s': Scope, same: Sameness, rho: Valuation,
      rho': Valuation)
    requires Agree(same, rho, rho') && SameRcWords(words, s, s', same)
    ensures EvalRcWords(words, rho, s) == EvalRcWords(words, rho', s')
    decreases words, 0
  {
    if words != [] {
      RcWordAgrees(words[0], s, s', same, rho, rho');
      RcWordsAgree(words[1..], s, s', same, rho, rho');
    }
  }

  lemma {:induction false} RcWordAgrees(w: RcWord, s: Scope, s': Scope, same: Sameness, rho: Valuation, rho': Valuation)
    requires Agree(same, rho, rho') && SameRcWord(w, s, s', same)
    ensures EvalRcWord(w, rho, s) == EvalRcWord(w, rho', s')
    decreases w, 0
  {
    WordAgrees(0, w.word, Context(Some(w.address), s), Context(Some(w.address), s'), same, rho, rho');
  }

  /** Main result: a tree has one value in two places where all its names have. */
  lemma {:induction false} WordAgrees(acc: Word36, word: seq<Fragment>, c: Context, d: Context, same: Sameness,
      rho: Valuation, rho': Valuation)
    requires Agree(same, rho, rho') && SameWord(word, c, d, same)
    ensures EvalFragments(acc, word, rho, c) == EvalFragments(acc, word, rho', d)
    decreases word, 0
  {
    if word != [] {
      FragmentAgrees(word[0], c, d, same, rho, rho');
      var r := EvalFragment(word[0], rho, c);
      if r.Valued? {
        WordAgrees(Union(acc, r.value), word[1..], c, d, same, rho, rho');
      }
    }
  }

  lemma {:induction false} FragmentAgrees(f: Fragment, c: Context, d: Context, same: Sameness, rho: Valuation,
      rho': Valuation)
    requires Agree(same, rho, rho') && SameFragment(f, c, d, same)
    ensures EvalFragment(f, rho, c) == EvalFragment(f, rho', d)
    decreases f, 0
  {
    BodyAgrees(f.body, c, d, same, rho, rho');
  }

  lemma {:induction false} BodyAgrees(b: Body, c: Context, d: Context, same: Sameness, rho: Valuation, rho': Valuation)
    requires Agree(same, rho, rho') && SameBody(b, c, d, same)
    ensures EvalBody(b, rho, c) == EvalBody(b, rho', d)
    decreases b, 0
  {
    match b {
      case Arithmetic(expr) => ExprAgrees(expr, c, d, same, rho, rho');
      case Config(_, value) => ExprAgrees(value, c, d, same, rho, rho');
      case Pipe(index, target) =>
        ExprAgrees(index, c, d, same, rho, rho');
        RcWordAgrees(target, c.scope, d.scope, same, rho, rho');
      case _ =>
    }
  }

  lemma DefinitionAgrees(p: Program, def: Definition, c: Context, d: Context, same: Sameness, rho: Valuation,
      rho': Valuation)
    requires Agree(same, rho, rho') && SameDefinition(p, def, c, d, same)
    ensures EvalDefinition(p, def, rho, c) == EvalDefinition(p, def, rho', d)
  {
    match def {
      case OriginExpression(expr) => ExprAgrees(expr, c, d, same, rho, rho');
      case Equality(word) => WordAgrees(0, word, c, d, same, rho, rho');
      case Tag(block, _) =>
        if block < |p.blocks| {
          match p.blocks[block].origin {
            case Some(AtExpression(expr)) => ExprAgrees(expr, c, d, same, rho, rho');
            case _ =>
          }
        }
      case _ =>
    }
  }

  // ----- names that are not redefined on the way -----

  /**
   * A name has the same definition, or none, in both places, and so has every name that it
   * leads to in at most `depth` steps.
   */
  predicate Undisturbed(p: Program, depth: nat, n: Name, c: Context, d: Context)
    decreases depth, 0
  {
    && (n in c.scope <==> n in d.scope)
    && (n in c.scope ==>
          && c.scope[n] == d.scope[n]
          && (depth > 0 ==> SameDefinition(p, c.scope[n], c, d, Undisturbing(p, depth - 1))))
  }

  function Undisturbing(p: Program, depth: nat): Sameness
    decreases depth, 1
  {
    (n: Name, c: Context, d: Context) => Undisturbed(p, depth, n, c, d)
  }

  /** Main result: names that are not redefined keep their meaning. */
  lemma {:induction false} UndisturbedMeans(p: Program, table: ImplicitTable, fuel: nat)
    ensures Agree(Undisturbing(p, fuel), Meanings(p, table, fuel), Meanings(p, table, fuel))
    decreases fuel
  {
    forall n, c, d | Undisturbed(p, fuel, n, c, d)
      ensures Unfold(p, table, fuel, n, c) == Unfold(p, table, fuel, n, d)
    {
      if n in c.scope && fuel > 0 {
        UndisturbedMeans(p, table, fuel - 1);
        var rho := Meanings(p, table, fuel - 1);
        DefinitionAgrees(p, c.scope[n], c, d, Undisturbing(p, fuel - 1), rho, rho);
      }
    }
  }

  /** Neither the name nor anything it leads to, however far, is defined differently in the other place. */
  ghost predicate NeverDisturbed(p: Program, n: Name, c: Context, d: Context) {
    forall depth: nat :: Undisturbed(p, depth, n, c, d)
  }

  ghost function NeverDisturbing(p: Program): Sameness {
    (n: Name, c: Context, d: Context) => NeverDisturbed(p, n, c, d)
  }

  lemma NeverDisturbedMeans(p: Program, table: ImplicitTable)
    ensures Agree(NeverDisturbing(p), Sense(p, table), Sense(p, table))
  {
    var sense := Sense(p, table);
    forall n, c, d | NeverDisturbed(p, n, c, d) ensures sense(n, c) == sense(n, d) {
      if sense(n, c).Valued? {
        var fuel: nat :| Unfold(p, table, fuel, n, c).Valued? && sense(n, c) == Unfold(p, table, fuel, n, c);
        SameAtDepth(p, table, fuel, n, c, d);
      } else if sense(n, d).Valued? {
        var fuel: nat :| Unfold(p, table, fuel, n, d).Valued?;
        SameAtDepth(p, table, fuel, n, c, d);
        assert false;
      }
    }
  }

  lemma SameAtDepth(p: Program, table: ImplicitTable, fuel: nat, n: Name, c: Context, d: Context)
    requires NeverDisturbed(p, n, c, d)
    ensures Unfold(p, table, fuel, n, c) == Unfold(p, table, fuel, n, d)
    ensures Unfold(p, table, fuel, n, c).Valued? ==> Sense(p, table)(n, d) == Unfold(p, table, fuel, n, c)
  {
    UndisturbedMeans(p, table, fuel);
    assert Undisturbed(p, fuel, n, c, d) && Undisturbing(p, fuel)(n, c, d);
    assert Meanings(p, table, fuel)(n, c) == Meanings(p, table, fuel)(n, d);
    SenseAtDepth(p, table, fuel);
    assert Meanings(p, table, fuel)(n, d) == Unfold(p, table, fuel, n, d);
  }

  // ----- the value of an argument at the invocation -----

  /** Where a line of an expansion is evaluated: it has an address, and the expansion has symbols. */
  function Line(invocation: Context, symbols: Scope, address: Word18): Context {
    Context(Some(address), invocation.scope + symbols)
  }

  /** Each parameter stands for the value that its argument has where the macro is invoked. */
  function BindAtInvocation(b: Bindings, rho: Valuation, invocation: Context): Valuation {
    (name: Name, ctx: Context) =>
      if name !in b then rho(name, ctx)
      else
        match b[name]
        case Bound(argument) => EvalExpr(argument, rho, invocation)
        case Unbound => Valued(0, [])
  }

  /** Nothing that the argument of a parameter says is captured where the parameter is used. */
  ghost function NotCaptured(p: Program, b: Bindings, invocation: Context): Sameness {
    (n: Name, c: Context, d: Context) =>
      && c == d
      && (n in b && b[n].Bound? ==> SameExpr(b[n].argument, c, invocation, NeverDisturbing(p)))
  }

  /**
   * Wherever the word, evaluated at `line`, uses a parameter, no symbol redefines what its
   * argument leads to at the invocation, and `#` in the argument stands for the same address.
   */
  ghost predicate CaptureFree(p: Program, word: seq<Fragment>, b: Bindings, line: Context, invocation: Context) {
    SameWord(word, line, line, NotCaptured(p, b, invocation))
  }

  /**
   * What is left after substitution means, at `line`, what the body means there when each
   * parameter stands for the value of its argument, found once, where the macro is invoked.
   */
  ghost predicate BindsValues(rho: Valuation, word: seq<Fragment>, b: Bindings, missing: OnUnbound,
      line: Context, invocation: Context) {
    var expansion := SubstWord(word, b, missing);
    && expansion.Some?
    && EvalFragments(0, expansion.value, rho, line) ==
         EvalFragments(0, word, BindAtInvocation(b, rho, invocation), line)
  }

  /**
   * Main result: a line of a macro expansion without capture binds each parameter to a value,
   * whatever the program, its defaults, the macro and the place of the line.
   */
  lemma SubstitutionBindsValues(p: Program, table: ImplicitTable, word: seq<Fragment>, b: Bindings,
      missing: OnUnbound, line: Context, invocation: Context)
    requires SubstWord(word, b, missing).Some? && WordUses(word, Fits(b))
    requires CaptureFree(p, word, b, line, invocation)
    ensures BindsValues(Sense(p, table), word, b, missing, line, invocation)
  {
    var rho := Sense(p, table);
    WordSubstituted(0, word, b, missing, rho, line);
    var same, once := NotCaptured(p, b, invocation), BindAtInvocation(b, rho, invocation);
    forall n, c, d | same(n, c, d) ensures BindValues(b, rho)(n, c) == once(n, d) {
      if n in b && b[n].Bound? {
        NeverDisturbedMeans(p, table);
        ExprAgrees(b[n].argument, c, invocation, NeverDisturbing(p), rho, rho);
      }
    }
    WordAgrees(0, word, line, line, same, BindValues(b, rho), once);
  }

  // ----- the lines of an expansion -----

  type Lines = seq<seq<Fragment>>

  /** The lines that substitution leaves, in order. */
  function Expansion(body: Lines, b: Bindings, missing: OnUnbound): Lines {
    if body == [] then []
    else
      match SubstWord(body[0], b, missing)
      case Some(line) => [line] + Expansion(body[1..], b, missing)
      case None => Expansion(body[1..], b, missing)
  }

  /** The lines of the body that are not left out. */
  function Kept(body: Lines, b: Bindings, missing: OnUnbound): Lines {
    if body == [] then []
    else
      (if SubstWord(body[0], b, missing).Some? then [body[0]] else []) + Kept(body[1..], b, missing)
  }

  /** The values and updates of lines that follow one another from an address on. */
  function Outcomes(lines: Lines, rho: Valuation, invocation: Context, symbols: Scope, from: Word18): seq<Outcome> {
    if lines == [] then []
    else
      [EvalFragments(0, lines[0], rho, Line(invocation, symbols, from))] +
      Outcomes(lines[1..], rho, invocation, symbols, Successor(from))
  }

  ghost predicate NoneCaptured(p: Program, lines: Lines, b: Bindings, invocation: Context, symbols: Scope,
      from: Word18)
  {
    lines != [] ==>
      && WordUses(lines[0], Fits(b))
      && CaptureFree(p, lines[0], b, Line(invocation, symbols, from), invocation)
      && NoneCaptured(p, lines[1..], b, invocation, symbols, Successor(from))
  }

  /**
   * Main result: the expansion of a whole macro, whose lines have the expansion's own symbols
   * and addresses of their own, gives what the lines of its body that are kept give with each
   * parameter standing for the value of its argument at the invocation.
   */
  lemma {:induction false} ExpansionBindsValues(p: Program, table: ImplicitTable, body: Lines, b: Bindings,
      missing: OnUnbound, invocation: Context, symbols: Scope, from: Word18)
    requires NoneCaptured(p, Kept(body, b, missing), b, invocation, symbols, from)
    ensures var rho := Sense(p, table);
      Outcomes(Expansion(body, b, missing), rho, invocation, symbols, from) ==
      Outcomes(Kept(body, b, missing), BindAtInvocation(b, rho, invocation), invocation, symbols, from)
    decreases |body|
  {
    if body != [] {
      match SubstWord(body[0], b, missing) {
        case Some(line) =>
          var kept, expanded := Kept(body, b, missing), Expansion(body, b, missing);
          assert kept[1..] == Kept(body[1..], b, missing) && expanded[1..] == Expansion(body[1..], b, missing);
          SubstitutionBindsValues(p, table, body[0], b, missing, Line(invocation, symbols, from), invocation);
          ExpansionBindsValues(p, table, body[1..], b, missing, invocation, symbols, Successor(from));
        case None =>
          assert Kept(body, b, missing) == Kept(body[1..], b, missing);
          ExpansionBindsValues(p, table, body[1..], b, missing, invocation, symbols, from);
      }
    }
  }

  // ----- arguments that are captured -----

  /** A macro whose body is one RC-word holding its parameter, in an expansion with a symbol `x`. */
  function BodyWithLocal(local: Word18, at: Word18): seq<Fragment> {
    Word(RcRef(map["x" := Address(local)], [RcWord(at, Word(Symbol(Normal, "a")))]))
  }

  function Argument(a: Atom): Bindings {
    map["a" := Bound(Expr(false, a, []))]
  }

  lemma UnionWithZero(v: Word36)
    ensures Union(0, v) == v
  {
    CombineWithZero((x, y) => x || y, v);
    BitwiseIsSymmetric(0x10_0000_0000, (x, y) => x || y, 0, v);
  }

  lemma RcWordOfOneAtom(at: Word18, a: Atom, rho: Valuation, scope: Scope, v: Word36)
    requires EvalAtom(a, rho, Context(Some(at), scope)) == Valued(v, [])
    ensures EvalRcWords([RcWord(at, Word(a))], rho, scope) == Valued(0, [(at, v)])
  {
    hide Word;
    hide Union;
    var w := RcWord(at, Word(a));
    WordOfOneAtom(a, rho, Context(Some(at), scope));
    UnionWithZero(v);
    assert EvalFragments(0, w.word, rho, Context(Some(at), scope)) == Valued(v, []);
    assert EvalRcWord(w, rho, scope) == Valued(at, [(at, v)]);
    assert [w][1..] == [] && EvalRcWords([], rho, scope) == Valued(0, []);
  }

  /** A word that names one RC-word, which holds one atom with a value. */
  lemma OneRcWord(locals: Scope, at: Word18, a: Atom, rho: Valuation, ctx: Context, v: Word36)
    requires EvalAtom(a, rho, Context(Some(at), ctx.scope + locals)) == Valued(v, [])
    ensures EvalFragments(0, Word(RcRef(locals, [RcWord(at, Word(a))])), rho, ctx) == Valued(at, [(at, v)])
  {
    hide Word;
    hide Union;
    hide EvalFragments;
    hide EvalRcWords;
    RcWordOfOneAtom(at, a, rho, ctx.scope + locals, v);
    UnionWithZero(at);
    WordOfOneAtom(RcRef(locals, [RcWord(at, Word(a))]), rho, ctx);
  }

  lemma BodySubstitution(local: Word18, at: Word18, a: Atom, missing: OnUnbound)
    requires a == Symbol(Normal, "x") || a == Here(Normal)
    ensures SubstWord(BodyWithLocal(local, at), Argument(a), missing) ==
      Some(Word(RcRef(map["x" := Address(local)], [RcWord(at, Word(a))])))
  {
    var b, used := Argument(a), Symbol(Normal, "a");
    assert SubstAtom(used, b, missing) == Some(a);
    AtomWordSubstitution(used, a, b, missing);
    var w, w' := RcWord(at, Word(used)), RcWord(at, Word(a));
    assert SubstRcWord(w, b, missing) == Some(w');
    assert [w][1..] == [];
    assert SubstRcWords([], b, missing) == Some([]) && [w'] + [] == [w'];
    assert SubstRcWords([w], b, missing) == Some([w']);
    AtomWordSubstitution(RcRef(map["x" := Address(local)], [w]), RcRef(map["x" := Address(local)], [w']), b, missing);
  }

  lemma AtomWordSubstitution(a: Atom, a': Atom, b: Bindings, missing: OnUnbound)
    requires SubstAtom(a, b, missing) == Some(a')
    ensures SubstWord(Word(a), b, missing) == Some(Word(a'))
  {
    var e, e' := Expr(false, a, []), Expr(false, a', []);
    assert SubstExpr(e, b, missing) == Some(e');
    var f, f' := Fragment(0, Unspecified, Arithmetic(e), 0), Fragment(0, Unspecified, Arithmetic(e'), 0);
    assert SubstBody(f.body, b, missing) == Some(f'.body);
    assert SubstFragment(f, b, missing) == Some(f');
    assert Word(a) == [f] && [f][1..] == [] && Word(a') == [f'];
    assert SubstWord([], b, missing) == Some([]) && [f'] + [] == [f'];
    assert SubstWord([f], b, missing) == Some([f']);
  }

  lemma AddressSense(p: Program, table: ImplicitTable, name: Name, ctx: Context, a: Word18)
    requires name in ctx.scope && ctx.scope[name] == Address(a)
    ensures EvalAtom(Symbol(Normal, name), Sense(p, table), ctx) == Valued(a, [])
  {
    SenseUnfolds(p, table, name, ctx);
  }

  lemma OneAtomLine(a: Atom, rho: Valuation, ctx: Context, v: Word36)
    requires EvalAtom(a, rho, ctx) == Valued(v, [])
    ensures EvalFragments(0, Word(a), rho, ctx) == Valued(v, [])
  {
    WordOfOneAtom(a, rho, ctx);
    UnionWithZero(v);
  }

  /**
   * A line that is just the parameter, with an argument that names `x`: a symbol `x` of the
   * expansion captures it, so that the line is right exactly if both have the same value.
   */
  lemma LineCapturesSymbolIff(p: Program, table: ImplicitTable, missing: OnUnbound, here: HereValue, outside: Word18,
      inside: Word18, at: Word18)
    ensures var invocation := Context(here, map["x" := Address(outside)]);
      var line := Line(invocation, map["x" := Address(inside)], at);
      BindsValues(Sense(p, table), Word(Symbol(Normal, "a")), Argument(Symbol(Normal, "x")), missing, line, invocation)
      <==> inside == outside
  {
    var a, rho, invocation := Symbol(Normal, "x"), Sense(p, table), Context(here, map["x" := Address(outside)]);
    var b, line := Argument(a), Line(invocation, map["x" := Address(inside)], at);
    assert SubstAtom(Symbol(Normal, "a"), b, missing) == Some(a);
    AtomWordSubstitution(Symbol(Normal, "a"), a, b, missing);
    AddressSense(p, table, "x", line, inside);
    AddressSense(p, table, "x", invocation, outside);
    OneAtomLine(a, rho, line, inside);
    OneAtomValue(Expr(false, a, []), rho, invocation);
    OneAtomLine(Symbol(Normal, "a"), BindAtInvocation(b, rho, invocation), line, outside);
  }

  /** `#` as an argument is captured by the address of the line. */
  lemma LineCapturesHereIff(p: Program, table: ImplicitTable, missing: OnUnbound, outside: Word18, symbols: Scope,
      at: Word18)
    ensures var invocation := Context(Some(outside), map[]);
      BindsValues(Sense(p, table), Word(Symbol(Normal, "a")), Argument(Here(Normal)), missing,
          Line(invocation, symbols, at), invocation)
      <==> at == outside
  {
    var a, rho, invocation := Here(Normal), Sense(p, table), Context(Some(outside), map[]);
    var b, line := Argument(a), Line(invocation, symbols, at);
    assert SubstAtom(Symbol(Normal, "a"), b, missing) == Some(a);
    AtomWordSubstitution(Symbol(Normal, "a"), a, b, missing);
    OneAtomLine(a, rho, line, at);
    OneAtomValue(Expr(false, a, []), rho, invocation);
    OneAtomLine(Symbol(Normal, "a"), BindAtInvocation(b, rho, invocation), line, outside);
  }

  /** In the same way a symbol of an RC-reference captures an argument in its RC-words. */
  lemma SymbolIsCapturedIff(p: Program, table: ImplicitTable, missing: OnUnbound, here: HereValue, outside: Word18,
      inside: Word18, at: Word18)
    ensures var body, invocation := BodyWithLocal(inside, at), Context(here, map["x" := Address(outside)]);
      BindsValues(Sense(p, table), body, Argument(Symbol(Normal, "x")), missing, invocation, invocation)
      <==> inside == outside
  {
    var a, rho := Symbol(Normal, "x"), Sense(p, table);
    var invocation, locals := Context(here, map["x" := Address(outside)]), map["x" := Address(inside)];
    BodySubstitution(inside, at, a, missing);
    AddressSense(p, table, "x", Context(Some(at), invocation.scope + locals), inside);
    AddressSense(p, table, "x", invocation, outside);
    OneRcWord(locals, at, a, rho, invocation, inside);
    OneAtomValue(Expr(false, a, []), rho, invocation);
    OneRcWord(locals, at, Symbol(Normal, "a"), BindAtInvocation(Argument(a), rho, invocation), invocation, outside);
    assert [(at, inside)][0] == (at, inside) && [(at, outside)][0] == (at, outside);
  }

  /** And the address of an RC-word captures the argument `#` that is put into it. */
  lemma HereIsCapturedIff(p: Program, table: ImplicitTable, missing: OnUnbound, outside: Word18, local: Word18,
      at: Word18)
    ensures var body, invocation := BodyWithLocal(local, at), Context(Some(outside), map[]);
      BindsValues(Sense(p, table), body, Argument(Here(Normal)), missing, invocation, invocation) <==> at == outside
  {
    var a, rho, invocation := Here(Normal), Sense(p, table), Context(Some(outside), map[]);
    var locals := map["x" := Address(local)];
    BodySubstitution(local, at, a, missing);
    OneRcWord(locals, at, a, rho, invocation, at);
    OneAtomValue(Expr(false, a, []), rho, invocation);
    OneRcWord(locals, at, Symbol(Normal, "a"), BindAtInvocation(Argument(a), rho, invocation), invocation, outside);
    assert [(at, at)][0] == (at, at) && [(at, outside)][0] == (at, outside);
  }
}
