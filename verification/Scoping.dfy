/**
 * Symbols of macro expansions are in force while the RC-words of the expansion are being
 * evaluated, and in everything that is looked up from there.  How scopes grow along a chain
 * of lookups, and when that cannot change what a name means.
 */
module Scoping {
  import opened Words
  import opened AssemblyTree
  import opened Unfolding

  /** A definition made somewhere. */
  type Entry = (Name, Definition)

  // ----- all definitions made inside a tree -----

  function ExprEntries(e: Expr): set<Entry>
    decreases e, 0
  {
    AtomEntries(e.first) + TermEntries(e.tail)
  }

  function TermEntries(tail: seq<Term>): set<Entry>
    decreases tail, 0
  {
    if tail == [] then {} else OperandEntries(tail[0]) + TermEntries(tail[1..])
  }

  function OperandEntries(t: Term): set<Entry>
    decreases t, 0
  {
    AtomEntries(t.atom)
  }

  function AtomEntries(a: Atom): set<Entry>
    decreases a, 0
  {
    match a
    case Parens(_, inner) => ExprEntries(inner)
    case AssembledWord(word) => WordEntries(word)
    case RcRef(locals, words) =>
      locals.Items + (set n, x | n in locals && x in DefinitionEntries(locals[n]) :: x) + RcEntries(words)
    case _ => {}
  }

  function RcEntries(words: seq<RcWord>): set<Entry>
    decreases words, 0
  {
    if words == [] then {} else RcWordEntries(words[0]) + RcEntries(words[1..])
  }

  function RcWordEntries(w: RcWord): set<Entry>
    decreases w, 0
  {
    WordEntries(w.word)
  }

  function WordEntries(word: seq<Fragment>): set<Entry>
    decreases word, 0
  {
    if word == [] then {} else FragmentEntries(word[0]) + WordEntries(word[1..])
  }

  function FragmentEntries(f: Fragment): set<Entry>
    decreases f, 0
  {
    BodyEntries(f.body)
  }

  function BodyEntries(b: Body): set<Entry>
    decreases b, 0
  {
    match b
    case Arithmetic(expr) => ExprEntries(expr)
    case Config(_, value) => ExprEntries(value)
    case Pipe(index, target) => ExprEntries(index) + RcWordEntries(target)
    case _ => {}
  }

  function DefinitionEntries(def: Definition): set<Entry>
    decreases def, 0
  {
    match def
    case OriginExpression(expr) => ExprEntries(expr)
    case Equality(word) => WordEntries(word)
    case _ => {}
  }

  function ScopeEntries(scope: Scope): set<Entry> {
    scope.Items + set n, x | n in scope && x in DefinitionEntries(scope[n]) :: x
  }

  function BlockEntries(b: Block): set<Entry> {
    match b.origin
    case Some(AtExpression(expr)) => ExprEntries(expr)
    case _ => {}
  }

  /** Every definition that evaluating a word of the program can come across. */
  function World(p: Program, word: seq<Fragment>): set<Entry> {
    ScopeEntries(p.explicit) + (set b, x | b in p.blocks && x in BlockEntries(b) :: x) + WordEntries(word)
  }

  /** What is made inside a definition belongs to the same world. */
  ghost predicate Closed(p: Program, world: set<Entry>) {
    && (forall x <- world :: DefinitionEntries(x.1) <= world)
    && (forall b <- p.blocks :: BlockEntries(b) <= world)
  }

  // The definitions inside the definitions inside a tree are inside the tree.

  lemma {:induction false} ExprClosed(e: Expr, x: Entry)
    requires x in ExprEntries(e)
    ensures DefinitionEntries(x.1) <= ExprEntries(e)
    decreases e, 0
  {
    if x in AtomEntries(e.first) {
      AtomClosed(e.first, x);
    } else {
      TermsClosed(e.tail, x);
    }
  }

  lemma {:induction false} TermsClosed(tail: seq<Term>, x: Entry)
    requires x in TermEntries(tail)
    ensures DefinitionEntries(x.1) <= TermEntries(tail)
    decreases tail, 0
  {
    if x in OperandEntries(tail[0]) {
      OperandClosed(tail[0], x);
    } else {
      TermsClosed(tail[1..], x);
    }
  }

  lemma {:induction false} OperandClosed(t: Term, x: Entry)
    requires x in OperandEntries(t)
    ensures DefinitionEntries(x.1) <= OperandEntries(t)
    decreases t, 0
  {
    AtomClosed(t.atom, x);
  }

  lemma {:induction false} AtomClosed(a: Atom, x: Entry)
    requires x in AtomEntries(a)
    ensures DefinitionEntries(x.1) <= AtomEntries(a)
    decreases a, 0
  {
    match a {
      case Parens(_, inner) => ExprClosed(inner, x);
      case AssembledWord(word) => WordClosed(word, x);
      case RcRef(locals, words) =>
        if x in RcEntries(words) {
          RcClosed(words, x);
        } else if x !in locals.Items {
          var n :| n in locals && x in DefinitionEntries(locals[n]);
          DefinitionClosed(locals[n], x);
        }
    }
  }

  lemma {:induction false} RcClosed(words: seq<RcWord>, x: Entry)
    requires x in RcEntries(words)
    ensures DefinitionEntries(x.1) <= RcEntries(words)
    decreases words, 0
  {
    if x in RcWordEntries(words[0]) {
      RcWordClosed(words[0], x);
    } else {
      RcClosed(words[1..], x);
    }
  }

  lemma {:induction false} RcWordClosed(w: RcWord, x: Entry)
    requires x in RcWordEntries(w)
    ensures DefinitionEntries(x.1) <= RcWordEntries(w)
    decreases w, 0
  {
    WordClosed(w.word, x);
  }

  lemma {:induction false} WordClosed(word: seq<Fragment>, x: Entry)
    requires x in WordEntries(word)
    ensures DefinitionEntries(x.1) <= WordEntries(word)
    decreases word, 0
  {
    if x in FragmentEntries(word[0]) {
      FragmentClosed(word[0], x);
    } else {
      WordClosed(word[1..], x);
    }
  }

  lemma {:induction false} FragmentClosed(f: Fragment, x: Entry)
    requires x in FragmentEntries(f)
    ensures DefinitionEntries(x.1) <= FragmentEntries(f)
    decreases f, 0
  {
    match f.body {
      case Arithmetic(expr) => ExprClosed(expr, x);
      case Config(_, value) => ExprClosed(value, x);
      case Pipe(index, target) =>
        if x in ExprEntries(index) {
          ExprClosed(index, x);
        } else {
          RcWordClosed(target, x);
        }
    }
  }

  lemma {:induction false} DefinitionClosed(def: Definition, x: Entry)
    requires x in DefinitionEntries(def)
    ensures DefinitionEntries(x.1) <= DefinitionEntries(def)
    decreases def, 0
  {
    match def {
      case OriginExpression(expr) => ExprClosed(expr, x);
      case Equality(word) => WordClosed(word, x);
    }
  }

  lemma ScopeClosed(scope: Scope, x: Entry)
    requires x in ScopeEntries(scope)
    ensures DefinitionEntries(x.1) <= ScopeEntries(scope)
  {
    if x !in scope.Items {
      var n :| n in scope && x in DefinitionEntries(scope[n]);
      DefinitionClosed(scope[n], x);
    }
  }

  lemma WorldIsClosed(p: Program, word: seq<Fragment>)
    ensures Closed(p, World(p, word))
  {
    forall x | x in World(p, word) ensures DefinitionEntries(x.1) <= World(p, word) {
      if x in ScopeEntries(p.explicit) {
        ScopeClosed(p.explicit, x);
      } else if x in WordEntries(word) {
        WordClosed(word, x);
      } else {
        var b :| b in p.blocks && x in BlockEntries(b);
        ExprClosed(b.origin.value.expr, x);
      }
    }
  }

  // ----- a larger scope leads to the same lookups, in larger scopes -----

  predicate Under(scope: Scope, larger: Scope) {
    forall n <- scope :: n in larger && larger[n] == scope[n]
  }

  /** The same name, looked up with at least the same definitions in force. */
  predicate SameButLarger(l: Lookup, m: Lookup) {
    m.name == l.name && Under(l.scope, m.scope)
  }

  lemma {:induction false} ExprGrows(e: Expr, scope: Scope, larger: Scope, l: Lookup) returns (m: Lookup)
    requires Under(scope, larger) && l in ExprLookups(e, scope)
    ensures m in ExprLookups(e, larger) && SameButLarger(l, m)
    decreases e, 0
  {
    if l in AtomLookups(e.first, scope) {
      m := AtomGrows(e.first, scope, larger, l);
    } else {
      m := TermsGrow(e.tail, scope, larger, l);
    }
  }

  lemma {:induction false} TermsGrow(tail: seq<Term>, scope: Scope, larger: Scope, l: Lookup) returns (m: Lookup)
    requires Under(scope, larger) && l in TermLookups(tail, scope)
    ensures m in TermLookups(tail, larger) && SameButLarger(l, m)
    decreases tail, 0
  {
    if l in OperandLookups(tail[0], scope) {
      m := OperandGrows(tail[0], scope, larger, l);
    } else {
      m := TermsGrow(tail[1..], scope, larger, l);
    }
  }

  lemma {:induction false} OperandGrows(t: Term, scope: Scope, larger: Scope, l: Lookup) returns (m: Lookup)
    requires Under(scope, larger) && l in OperandLookups(t, scope)
    ensures m in OperandLookups(t, larger) && SameButLarger(l, m)
    decreases t, 0
  {
    m := AtomGrows(t.atom, scope, larger, l);
  }

  lemma {:induction false} AtomGrows(a: Atom, scope: Scope, larger: Scope, l: Lookup) returns (m: Lookup)
    requires Under(scope, larger) && l in AtomLookups(a, scope)
    ensures m in AtomLookups(a, larger) && SameButLarger(l, m)
    decreases a, 0
  {
    match a {
      case Symbol(_, name) => m := Lookup(name, larger);
      case Parens(_, inner) => m := ExprGrows(inner, scope, larger, l);
      case AssembledWord(word) => m := WordGrows(word, scope, larger, l);
      case RcRef(locals, words) => m := RcGrows(words, scope + locals, larger + locals, l);
    }
  }

  lemma {:induction false} RcGrows(words: seq<RcWord>, scope: Scope, larger: Scope, l: Lookup) returns (m: Lookup)
    requires Under(scope, larger) && l in RcLookups(words, scope)
    ensures m in RcLookups(words, larger) && SameButLarger(l, m)
    decreases words, 0
  {
    if l in RcWordLookups(words[0], scope) {
      m := RcWordGrows(words[0], scope, larger, l);
    } else {
      m := RcGrows(words[1..], scope, larger, l);
    }
  }

  lemma {:induction false} RcWordGrows(w: RcWord, scope: Scope, larger: Scope, l: Lookup) returns (m: Lookup)
    requires Under(scope, larger) && l in RcWordLookups(w, scope)
    ensures m in RcWordLookups(w, larger) && SameButLarger(l, m)
    decreases w, 0
  {
    m := WordGrows(w.word, scope, larger, l);
  }

  lemma {:induction false} WordGrows(word: seq<Fragment>, scope: Scope, larger: Scope, l: Lookup) returns (m: Lookup)
    requires Under(scope, larger) && l in WordLookups(word, scope)
    ensures m in WordLookups(word, larger) && SameButLarger(l, m)
    decreases word, 0
  {
    if l in FragmentLookups(word[0], scope) {
      m := FragmentGrows(word[0], scope, larger, l);
    } else {
      m := WordGrows(word[1..], scope, larger, l);
    }
  }

  lemma {:induction false} FragmentGrows(f: Fragment, scope: Scope, larger: Scope, l: Lookup) returns (m: Lookup)
    requires Under(scope, larger) && l in FragmentLookups(f, scope)
    ensures m in FragmentLookups(f, larger) && SameButLarger(l, m)
    decreases f, 0
  {
    match f.body {
      case Arithmetic(expr) => m := ExprGrows(expr, scope, larger, l);
      case Config(_, value) => m := ExprGrows(value, scope, larger, l);
      case Pipe(index, target) =>
        if l in ExprLookups(index, scope) {
          m := ExprGrows(index, scope, larger, l);
        } else {
          m := RcWordGrows(target, scope, larger, l);
        }
    }
  }

  lemma DefinitionGrows(p: Program, def: Definition, scope: Scope, larger: Scope, l: Lookup) returns (m: Lookup)
    requires Under(scope, larger) && l in DefinitionLookups(p, def, scope)
    ensures m in DefinitionLookups(p, def, larger) && SameButLarger(l, m)
  {
    match def {
      case OriginExpression(expr) => m := ExprGrows(expr, scope, larger, l);
      case Equality(word) => m := WordGrows(word, scope, larger, l);
      case Tag(block, _) =>
        match p.blocks[block].origin {
          case Some(AtSymbol(name)) => m := Lookup(name, larger);
          case Some(AtExpression(expr)) => m := ExprGrows(expr, scope, larger, l);
        }
    }
  }

  // ----- with one definition to a name, scopes only grow -----

  /** No name is defined in two ways. */
  ghost predicate OneDefinitionEach(world: set<Entry>) {
    forall x, y | x in world && y in world && x.0 == y.0 :: x.1 == y.1
  }

  predicate From(world: set<Entry>, scope: Scope) {
    forall n <- scope :: (n, scope[n]) in world
  }

  /** `l` is looked up in a scope that has grown, within the world, from `scope`. */
  predicate Widened(world: set<Entry>, scope: Scope, l: Lookup) {
    From(world, l.scope) && Under(scope, l.scope)
  }

  lemma LocalsWiden(world: set<Entry>, scope: Scope, locals: Scope)
    requires OneDefinitionEach(world) && From(world, scope) && locals.Items <= world
    ensures From(world, scope + locals) && Under(scope, scope + locals)
  {
    forall n | n in scope + locals ensures (n, (scope + locals)[n]) in world {
      if n in locals {
        assert (n, locals[n]) in locals.Items;
      }
    }
    forall n | n in scope ensures (scope + locals)[n] == scope[n] {
      if n in locals {
        assert (n, locals[n]) in world && (n, scope[n]) in world;
      }
    }
  }

  lemma {:induction false} ExprWidens(world: set<Entry>, e: Expr, scope: Scope, l: Lookup)
    requires OneDefinitionEach(world) && From(world, scope) && ExprEntries(e) <= world && l in ExprLookups(e, scope)
    ensures Widened(world, scope, l)
    decreases e, 0
  {
    if l in AtomLookups(e.first, scope) {
      AtomWidens(world, e.first, scope, l);
    } else {
      TermsWiden(world, e.tail, scope, l);
    }
  }

  lemma {:induction false} TermsWiden(world: set<Entry>, tail: seq<Term>, scope: Scope, l: Lookup)
    requires OneDefinitionEach(world) && From(world, scope) && TermEntries(tail) <= world
    requires l in TermLookups(tail, scope)
    ensures Widened(world, scope, l)
    decreases tail, 0
  {
    if l in OperandLookups(tail[0], scope) {
      OperandWidens(world, tail[0], scope, l);
    } else {
      TermsWiden(world, tail[1..], scope, l);
    }
  }

  lemma {:induction false} OperandWidens(world: set<Entry>, t: Term, scope: Scope, l: Lookup)
    requires OneDefinitionEach(world) && From(world, scope) && OperandEntries(t) <= world
    requires l in OperandLookups(t, scope)
    ensures Widened(world, scope, l)
    decreases t, 0
  {
    AtomWidens(world, t.atom, scope, l);
  }

  lemma {:induction false} AtomWidens(world: set<Entry>, a: Atom, scope: Scope, l: Lookup)
    requires OneDefinitionEach(world) && From(world, scope) && AtomEntries(a) <= world && l in AtomLookups(a, scope)
    ensures Widened(world, scope, l)
    decreases a, 0
  {
    match a {
      case Symbol(_, _) =>
      case Parens(_, inner) => ExprWidens(world, inner, scope, l);
      case AssembledWord(word) => WordWidens(world, word, scope, l);
      case RcRef(locals, words) =>
        LocalsWiden(world, scope, locals);
        RcWidens(world, words, scope + locals, l);
    }
  }

  lemma {:induction false} RcWidens(world: set<Entry>, words: seq<RcWord>, scope: Scope, l: Lookup)
    requires OneDefinitionEach(world) && From(world, scope) && RcEntries(words) <= world && l in RcLookups(words, scope)
    ensures Widened(world, scope, l)
    decreases words, 0
  {
    if l in RcWordLookups(words[0], scope) {
      RcWordWidens(world, words[0], scope, l);
    } else {
      RcWidens(world, words[1..], scope, l);
    }
  }

  lemma {:induction false} RcWordWidens(world: set<Entry>, w: RcWord, scope: Scope, l: Lookup)
    requires OneDefinitionEach(world) && From(world, scope) && RcWordEntries(w) <= world && l in RcWordLookups(w, scope)
    ensures Widened(world, scope, l)
    decreases w, 0
  {
    WordWidens(world, w.word, scope, l);
  }

  lemma {:induction false} WordWidens(world: set<Entry>, word: seq<Fragment>, scope: Scope, l: Lookup)
    requires OneDefinitionEach(world) && From(world, scope) && WordEntries(word) <= world
    requires l in WordLookups(word, scope)
    ensures Widened(world, scope, l)
    decreases word, 0
  {
    if l in FragmentLookups(word[0], scope) {
      FragmentWidens(world, word[0], scope, l);
    } else {
      WordWidens(world, word[1..], scope, l);
    }
  }

  lemma {:induction false} FragmentWidens(world: set<Entry>, f: Fragment, scope: Scope, l: Lookup)
    requires OneDefinitionEach(world) && From(world, scope) && FragmentEntries(f) <= world
    requires l in FragmentLookups(f, scope)
    ensures Widened(world, scope, l)
    decreases f, 0
  {
    match f.body {
      case Arithmetic(expr) => ExprWidens(world, expr, scope, l);
      case Config(_, value) => ExprWidens(world, value, scope, l);
      case Pipe(index, target) =>
        if l in ExprLookups(index, scope) {
          ExprWidens(world, index, scope, l);
        } else {
          RcWordWidens(world, target, scope, l);
        }
    }
  }

  lemma DependencyWidens(p: Program, world: set<Entry>, l: Lookup, m: Lookup)
    requires OneDefinitionEach(world) && Closed(p, world) && From(world, l.scope) && m in Dependencies(p, l)
    ensures Widened(world, l.scope, m)
  {
    var def := l.scope[l.name];
    assert (l.name, def) in world;
    match def {
      case OriginExpression(expr) => ExprWidens(world, expr, l.scope, m);
      case Equality(word) => WordWidens(world, word, l.scope, m);
      case Tag(block, _) =>
        match p.blocks[block].origin {
          case Some(AtSymbol(name)) =>
          case Some(AtExpression(expr)) =>
            assert BlockEntries(p.blocks[block]) <= world;
            ExprWidens(world, expr, l.scope, m);
        }
    }
  }

  // ----- chains of lookups -----

  /** A chain of lookups that comes back to a name it passed, wherever that is looked up. */
  ghost predicate RepeatsAName(p: Program, lookups: set<Lookup>, path: seq<Lookup>) {
    && |path| > 1
    && path[0] in lookups
    && IsPath(p, path)
    && exists i :: 0 <= i < |path| - 1 && path[i].name == path[|path| - 1].name
  }

  lemma {:induction false} PathWidens(p: Program, world: set<Entry>, path: seq<Lookup>, k: nat)
    requires OneDefinitionEach(world) && Closed(p, world) && k < |path| && IsPath(p, path) && From(world, path[0].scope)
    ensures Widened(world, path[0].scope, path[k])
    decreases k
  {
    if k > 0 {
      PathWidens(p, world, path, k - 1);
      DependencyWidens(p, world, path[k - 1], path[k]);
    }
  }

  /** The same chain, from the same name with more definitions in force. */
  lemma {:induction false} ReplayPath(p: Program, path: seq<Lookup>, larger: Scope) returns (again: seq<Lookup>)
    requires path != [] && IsPath(p, path) && Under(path[0].scope, larger)
    ensures |again| == |path| && IsPath(p, again) && again[0] == Lookup(path[0].name, larger)
    ensures SameButLarger(path[|path| - 1], again[|path| - 1])
    decreases |path|
  {
    var first := Lookup(path[0].name, larger);
    if |path| == 1 {
      again := [first];
    } else {
      assert path[1] in Dependencies(p, path[0]);
      var m := DefinitionGrows(p, path[0].scope[path[0].name], path[0].scope, larger, path[1]);
      RestIsPath(p, path, 1);
      var rest := ReplayPath(p, path[1..], m.scope);
      again := [first] + rest;
      forall i | 0 < i < |again| ensures again[i] in Dependencies(p, again[i - 1]) {
        if i > 1 {
          assert rest[i - 1] in Dependencies(p, rest[i - 2]);
        }
      }
    }
  }

  /** Along a chain that starts with a value, every lookup has a value, less deep each time. */
  lemma {:induction false} ValuesAlongPath(p: Program, path: seq<Lookup>, table: ImplicitTable, fuel: nat, k: nat)
    requires k < |path| && IsPath(p, path) && HasValue(Meanings(p, table, fuel), path[0])
    ensures k <= fuel && HasValue(Meanings(p, table, fuel - k), path[k])
    decreases k
  {
    if k > 0 {
      ValuesAlongPath(p, path, table, fuel, k - 1);
      var l := path[k - 1];
      var h :| Meanings(p, table, fuel - (k - 1))(l.name, Context(h, l.scope)).Valued?;
      assert path[k] in Dependencies(p, l);
      DefinitionNeeds(p, l, path[k], table, fuel - (k - 1), h);
    }
  }

  /** With one definition to a name, coming back to a name is going round for ever. */
  lemma {:induction false} LoopHasNoValue(p: Program, world: set<Entry>, loop: seq<Lookup>, larger: Scope,
      table: ImplicitTable, fuel: nat)
    requires OneDefinitionEach(world) && Closed(p, world)
    requires |loop| > 1 && IsPath(p, loop) && From(world, loop[0].scope) && loop[0].name == loop[|loop| - 1].name
    requires Under(loop[0].scope, larger)
    ensures !HasValue(Meanings(p, table, fuel), Lookup(loop[0].name, larger))
    decreases fuel
  {
    var last := |loop| - 1;
    var again := ReplayPath(p, loop, larger);
    if HasValue(Meanings(p, table, fuel), again[0]) {
      ValuesAlongPath(p, again, table, fuel, last);
      PathWidens(p, world, loop, last);
      assert again[last] == Lookup(loop[0].name, again[last].scope);
      LoopHasNoValue(p, world, loop, again[last].scope, table, fuel - last);
      assert false;
    }
  }

  /** Main result: with one definition to a name, what leads back to a name never has a value. */
  lemma RepeatsNeverUnfold(p: Program, world: set<Entry>, lookups: set<Lookup>, path: seq<Lookup>,
      table: ImplicitTable, fuel: nat)
    requires OneDefinitionEach(world) && Closed(p, world)
    requires RepeatsAName(p, lookups, path) && From(world, path[0].scope)
    ensures !HasValue(Meanings(p, table, fuel), path[0])
  {
    if HasValue(Meanings(p, table, fuel), path[0]) {
      var i :| 0 <= i < |path| - 1 && path[i].name == path[|path| - 1].name;
      ValuesAlongPath(p, path, table, fuel, i);
      PathWidens(p, world, path, i);
      RestIsPath(p, path, i);
      var loop := path[i..];
      assert loop[0] == Lookup(loop[0].name, loop[0].scope);
      LoopHasNoValue(p, world, loop, loop[0].scope, table, fuel - i);
      assert false;
    }
  }

  // ----- a symbol that hides another of the same name -----

  function Word(a: Atom): seq<Fragment> {
    [Fragment(0, Unspecified, Arithmetic(Expr(false, a, [])), 0)]
  }

  /** `x` is an RC-word that holds the `x` of its own macro expansion, which is 5. */
  function Hiding(): Program {
    Program(map["x" := Equality(Word(RcRef(LOCALS, [RcWord(64, Word(Symbol(Normal, "x")))])))], [])
  }

  lemma WordOfOneAtom(a: Atom, rho: Valuation, ctx: Context)
    requires EvalAtom(a, rho, ctx).Valued?
    ensures EvalFragments(0, Word(a), rho, ctx) ==
      Valued(Union(0, EvalAtom(a, rho, ctx).value), EvalAtom(a, rho, ctx).updates)
  {
    var v := EvalAtom(a, rho, ctx);
    var e := Expr(false, a, []);
    var f := Fragment(0, Unspecified, Arithmetic(e), 0);
    assert v.updates + [] == v.updates;
    assert EvalTerms(v.value, [], rho, ctx) == Valued(v.value, []);
    assert EvalExpr(e, rho, ctx) == v;
    assert EvalBody(f.body, rho, ctx) == v;
    assert EvalFragment(f, rho, ctx) == v;
    assert Word(a) == [f] && [f][1..] == [];
    assert EvalFragments(Union(0, v.value), [], rho, ctx) == Valued(Union(0, v.value), []);
  }

  lemma OneAtomLookups(a: Atom, scope: Scope)
    ensures WordLookups(Word(a), scope) == AtomLookups(a, scope)
  {
    var e := Expr(false, a, []);
    var f := Fragment(0, Unspecified, Arithmetic(e), 0);
    assert Word(a) == [f] && [f][1..] == [];
    assert TermLookups([], scope) == {} && WordLookups([], scope) == {};
    assert ExprLookups(e, scope) == AtomLookups(a, scope);
    assert FragmentLookups(f, scope) == BodyLookups(f.body, scope) == AtomLookups(a, scope);
  }

  const LOCALS: Scope := map["x" := Address(5)]

  lemma HiddenNameRepeats()
    ensures exists path :: RepeatsAName(Hiding(), WordLookups(Word(Symbol(Normal, "x")), Hiding().explicit), path)
  {
    var p, inner := Hiding(), Word(Symbol(Normal, "x"));
    var scope, words := p.explicit + LOCALS, [RcWord(64, inner)];
    var outer, hidden := Lookup("x", p.explicit), Lookup("x", scope);
    OneAtomLookups(Symbol(Normal, "x"), p.explicit);
    OneAtomLookups(Symbol(Normal, "x"), scope);
    OneAtomLookups(RcRef(LOCALS, words), p.explicit);
    assert RcWordLookups(words[0], scope) == {hidden};
    assert hidden in RcLookups(words, scope);
    var path := [outer, hidden];
    assert path[0].name == path[|path| - 1].name;
    assert RepeatsAName(p, WordLookups(inner, p.explicit), path);
  }

  lemma HiddenNameIsFive(table: ImplicitTable, ctx: Context)
    requires ctx.scope == Hiding().explicit + LOCALS
    ensures EvalFragments(0, Word(Symbol(Normal, "x")), Meanings(Hiding(), table, 1), ctx).Valued?
  {
    assert Unfold(Hiding(), table, 1, "x", ctx) == Valued(5, []);
    WordOfOneAtom(Symbol(Normal, "x"), Meanings(Hiding(), table, 1), ctx);
  }

  /** The chain of lookups comes back to the name `x`, yet `x` has a value. */
  lemma HiddenNameHasValue(table: ImplicitTable)
    ensures var p, word := Hiding(), Word(Symbol(Normal, "x"));
      && (exists path :: RepeatsAName(p, WordLookups(word, p.explicit), path))
      && EvalFragments(0, word, Meanings(p, table, 2), Context(None, p.explicit)).Valued?
  {
    HiddenNameRepeats();
    var p, here := Hiding(), Context(None, Hiding().explicit);
    var rho, words := Meanings(p, table, 1), [RcWord(64, Word(Symbol(Normal, "x")))];
    HiddenNameIsFive(table, Context(Some(64), p.explicit + LOCALS));
    assert EvalRcWords(words[1..], rho, p.explicit + LOCALS) == Valued(0, []);
    assert EvalRcWords(words, rho, p.explicit + LOCALS).Valued?;
    WordOfOneAtom(RcRef(LOCALS, words), rho, here);
    assert Unfold(p, table, 2, "x", here).Valued?;
    WordOfOneAtom(Symbol(Normal, "x"), Meanings(p, table, 2), here);
  }
}
