/**
 * What a symbol means: its definition, unfolded.  This is the yardstick for the evaluator,
 * which keeps a stack of the names being looked up and fills in defaults as it goes.
 */
module Unfolding {
  import opened Words
  import opened AssemblyTree

  datatype Block = Block(origin: Option<Origin>, address: Option<Word18>, size: Word18)

  /** The tables that evaluation only reads. */
  datatype Program = Program(explicit: Scope, blocks: seq<Block>)

  /** What is known of a name without a definition. */
  datatype Implicit =
    | DefaultAssigned(value: Word36)
    | UsedAsConfig
    | UsedAsIndex
    | UsedAsAddress
    | UsedAsOrigin(block: nat)

  type ImplicitTable = map<Name, Implicit>

  const DEFAULT_ORIGIN: Word18 := 0x1_0000

  /** The sum of an address and an offset, unless it needs more than 18 bits. */
  function OffsetFromOrigin(origin: Word18, offset: Word18): Option<Word18> {
    if Physical(origin) + offset < 0x4_0000 then Some(Physical(origin) + offset) else None
  }

  /** The place of a block without an origin: after the block before it, if that one is placed. */
  function PlaceAfterPrevious(p: Program, block: nat): Option<Word18> {
    if block == 0 then Some(DEFAULT_ORIGIN)
    else if block <= |p.blocks| && p.blocks[block - 1].address.Some?
    then OffsetFromOrigin(p.blocks[block - 1].address.value, p.blocks[block - 1].size)
    else None
  }

  function AddressOutcome(a: Option<Word18>): Outcome {
    if a.Some? then Valued(a.value, []) else Failed
  }

  function EvalBlock(p: Program, block: nat, rho: Valuation, ctx: Context): Outcome {
    if block >= |p.blocks| then Failed
    else
      match p.blocks[block].origin
      case None => AddressOutcome(PlaceAfterPrevious(p, block))
      case Some(AtAddress(a)) => Valued(a, [])
      case Some(AtSymbol(name)) => rho(name, ctx)
      case Some(AtExpression(expr)) => EvalExpr(expr, rho, ctx)
  }

  function EvalDefinition(p: Program, def: Definition, rho: Valuation, ctx: Context): Outcome {
    match def
    case Address(a) => Valued(a, [])
    case UndeducedOrigin => Failed
    case OriginExpression(expr) => EvalExpr(expr, rho, ctx)
    case Equality(word) => EvalFragments(0, word, rho, ctx)
    case Tag(block, offset) =>
      var origin := EvalBlock(p, block, rho, ctx);
      if origin.Failed? then Failed
      else
        var place := OffsetFromOrigin(origin.value % 0x4_0000, offset);
        if place.Some? then Valued(place.value, origin.updates) else Failed
  }

  function DefaultValue(p: Program, table: ImplicitTable, n: Name): Outcome {
    if n !in table then Failed
    else
      match table[n]
      case DefaultAssigned(v) => Valued(v, [])
      case UsedAsOrigin(block) => AddressOutcome(PlaceAfterPrevious(p, block))
      case _ => Failed
  }

  /** The meaning of `n` when definitions are unfolded at most `fuel` deep. */
  function Unfold(p: Program, table: ImplicitTable, fuel: nat, n: Name, ctx: Context): Outcome
    decreases fuel, 0
  {
    if n !in ctx.scope then DefaultValue(p, table, n)
    else if fuel == 0 then Failed
    else EvalDefinition(p, ctx.scope[n], Meanings(p, table, fuel - 1), ctx)
  }

  function Meanings(p: Program, table: ImplicitTable, fuel: nat): Valuation
    decreases fuel, 1
  {
    (n: Name, ctx: Context) => Unfold(p, table, fuel, n, ctx)
  }

  // ----- what a definition looks up -----

  function BlockLookups(p: Program, block: nat, scope: Scope): set<Lookup> {
    if block >= |p.blocks| then {}
    else
      match p.blocks[block].origin
      case Some(AtSymbol(name)) => {Lookup(name, scope)}
      case Some(AtExpression(expr)) => ExprLookups(expr, scope)
      case _ => {}
  }

  function DefinitionLookups(p: Program, def: Definition, scope: Scope): set<Lookup> {
    match def
    case OriginExpression(expr) => ExprLookups(expr, scope)
    case Equality(word) => WordLookups(word, scope)
    case Tag(block, _) => BlockLookups(p, block, scope)
    case _ => {}
  }

  // ----- a richer valuation gives the same values -----

  ghost predicate Refines(rho: Valuation, rho': Valuation) {
    forall n, c :: rho(n, c).Valued? ==> rho'(n, c) == rho(n, c)
  }

  /** The same, as far as these lookups go. */
  ghost predicate RefinesOn(rho: Valuation, rho': Valuation, lookups: set<Lookup>) {
    forall l, h :: l in lookups && rho(l.name, Context(h, l.scope)).Valued? ==>
      rho'(l.name, Context(h, l.scope)) == rho(l.name, Context(h, l.scope))
  }

  lemma {:induction false} ExprMonotone(e: Expr, rho: Valuation, rho': Valuation, ctx: Context)
    requires RefinesOn(rho, rho', ExprLookups(e, ctx.scope)) && EvalExpr(e, rho, ctx).Valued?
    ensures EvalExpr(e, rho', ctx) == EvalExpr(e, rho, ctx)
    decreases e, 0
  {
    AtomMonotone(e.first, rho, rho', ctx);
    TermsMonotone(Signed(e.negated, EvalAtom(e.first, rho, ctx)).value, e.tail, rho, rho', ctx);
  }

  lemma {:induction false} TermsMonotone(acc: Word36, tail: seq<Term>, rho: Valuation, rho': Valuation, ctx: Context)
    requires RefinesOn(rho, rho', TermLookups(tail, ctx.scope)) && EvalTerms(acc, tail, rho, ctx).Valued?
    ensures EvalTerms(acc, tail, rho', ctx) == EvalTerms(acc, tail, rho, ctx)
    decreases tail, 0
  {
    if tail != [] {
      OperandMonotone(tail[0], rho, rho', ctx);
      TermsMonotone(EvalStep(acc, tail[0], rho, ctx).value, tail[1..], rho, rho', ctx);
    }
  }

  lemma {:induction false} OperandMonotone(t: Term, rho: Valuation, rho': Valuation, ctx: Context)
    requires RefinesOn(rho, rho', OperandLookups(t, ctx.scope)) && EvalOperand(t, rho, ctx).Valued?
    ensures EvalOperand(t, rho', ctx) == EvalOperand(t, rho, ctx)
    decreases t, 0
  {
    AtomMonotone(t.atom, rho, rho', ctx);
  }

  lemma {:induction false} AtomMonotone(a: Atom, rho: Valuation, rho': Valuation, ctx: Context)
    requires RefinesOn(rho, rho', AtomLookups(a, ctx.scope)) && EvalAtom(a, rho, ctx).Valued?
    ensures EvalAtom(a, rho', ctx) == EvalAtom(a, rho, ctx)
    decreases a, 0
  {
    match a {
      case Symbol(_, name) =>
        assert Lookup(name, ctx.scope) in AtomLookups(a, ctx.scope) && Context(ctx.here, ctx.scope) == ctx;
      case Parens(_, inner) => ExprMonotone(inner, rho, rho', ctx);
      case AssembledWord(word) => FragmentsMonotone(0, word, rho, rho', ctx);
      case RcRef(locals, words) => RcWordsMonotone(words, rho, rho', ctx.scope + locals);
      case _ =>
    }
  }

  lemma {:induction false} RcWordsMonotone(words: seq<RcWord>, rho: Valuation, rho': Valuation, scope: Scope)
    requires RefinesOn(rho, rho', RcLookups(words, scope)) && EvalRcWords(words, rho, scope).Valued?
    ensures EvalRcWords(words, rho', scope) == EvalRcWords(words, rho, scope)
    decreases words, 0
  {
    if words != [] {
      RcWordMonotone(words[0], rho, rho', scope);
      RcWordsMonotone(words[1..], rho, rho', scope);
    }
  }

  lemma {:induction false} RcWordMonotone(w: RcWord, rho: Valuation, rho': Valuation, scope: Scope)
    requires RefinesOn(rho, rho', RcWordLookups(w, scope)) && EvalRcWord(w, rho, scope).Valued?
    ensures EvalRcWord(w, rho', scope) == EvalRcWord(w, rho, scope)
    decreases w, 0
  {
    FragmentsMonotone(0, w.word, rho, rho', Context(Some(w.address), scope));
  }

  lemma {:induction false} FragmentsMonotone(acc: Word36, word: seq<Fragment>, rho: Valuation, rho': Valuation,
      ctx: Context)
    requires RefinesOn(rho, rho', WordLookups(word, ctx.scope)) && EvalFragments(acc, word, rho, ctx).Valued?
    ensures EvalFragments(acc, word, rho', ctx) == EvalFragments(acc, word, rho, ctx)
    decreases word, 0
  {
    if word != [] {
      FragmentMonotone(word[0], rho, rho', ctx);
      FragmentsMonotone(Union(acc, EvalFragment(word[0], rho, ctx).value), word[1..], rho, rho', ctx);
    }
  }

  lemma {:induction false} FragmentMonotone(f: Fragment, rho: Valuation, rho': Valuation, ctx: Context)
    requires RefinesOn(rho, rho', FragmentLookups(f, ctx.scope)) && EvalFragment(f, rho, ctx).Valued?
    ensures EvalFragment(f, rho', ctx) == EvalFragment(f, rho, ctx)
    decreases f, 0
  {
    BodyMonotone(f.body, rho, rho', ctx);
  }

  lemma {:induction false} BodyMonotone(b: Body, rho: Valuation, rho': Valuation, ctx: Context)
    requires RefinesOn(rho, rho', BodyLookups(b, ctx.scope)) && EvalBody(b, rho, ctx).Valued?
    ensures EvalBody(b, rho', ctx) == EvalBody(b, rho, ctx)
    decreases b, 0
  {
    match b {
      case Arithmetic(expr) => ExprMonotone(expr, rho, rho', ctx);
      case Config(_, value) => ExprMonotone(value, rho, rho', ctx);
      case Pipe(index, target) =>
        ExprMonotone(index, rho, rho', ctx);
        RcWordMonotone(target, rho, rho', ctx.scope);
      case _ =>
    }
  }

  lemma BlockMonotone(p: Program, block: nat, rho: Valuation, rho': Valuation, ctx: Context)
    requires RefinesOn(rho, rho', BlockLookups(p, block, ctx.scope)) && EvalBlock(p, block, rho, ctx).Valued?
    ensures EvalBlock(p, block, rho', ctx) == EvalBlock(p, block, rho, ctx)
  {
    match p.blocks[block].origin {
      case Some(AtSymbol(name)) =>
        assert Lookup(name, ctx.scope) in BlockLookups(p, block, ctx.scope) && Context(ctx.here, ctx.scope) == ctx;
      case Some(AtExpression(expr)) => ExprMonotone(expr, rho, rho', ctx);
      case _ =>
    }
  }

  lemma DefinitionMonotone(p: Program, def: Definition, rho: Valuation, rho': Valuation, ctx: Context)
    requires RefinesOn(rho, rho', DefinitionLookups(p, def, ctx.scope)) && EvalDefinition(p, def, rho, ctx).Valued?
    ensures EvalDefinition(p, def, rho', ctx) == EvalDefinition(p, def, rho, ctx)
  {
    match def {
      case OriginExpression(expr) => ExprMonotone(expr, rho, rho', ctx);
      case Equality(word) => FragmentsMonotone(0, word, rho, rho', ctx);
      case Tag(block, _) => BlockMonotone(p, block, rho, rho', ctx);
      case _ =>
    }
  }

  /** A later table only gives values to names that had none. */
  predicate Extends(table: ImplicitTable, later: ImplicitTable) {
    && table.Keys == later.Keys
    && forall n <- table :: later[n] == table[n] || (!table[n].DefaultAssigned? && !table[n].UsedAsOrigin? &&
        later[n].DefaultAssigned?)
  }

  lemma {:induction false} MeaningsMonotone(p: Program, table: ImplicitTable, later: ImplicitTable, fuel: nat,
      deeper: nat)
    requires Extends(table, later) && fuel <= deeper
    ensures Refines(Meanings(p, table, fuel), Meanings(p, later, deeper))
    decreases fuel
  {
    forall n, c | Unfold(p, table, fuel, n, c).Valued?
      ensures Unfold(p, later, deeper, n, c) == Unfold(p, table, fuel, n, c)
    {
      if n in c.scope {
        MeaningsMonotone(p, table, later, fuel - 1, deeper - 1);
        DefinitionMonotone(p, c.scope[n], Meanings(p, table, fuel - 1), Meanings(p, later, deeper - 1), c);
      }
    }
  }

  // ----- unfolding as deep as it takes -----

  /** The meaning of `n` if it has one at some depth; which depth that is makes no difference. */
  ghost function SenseOf(p: Program, table: ImplicitTable, n: Name, ctx: Context): Outcome {
    if exists fuel: nat :: Unfold(p, table, fuel, n, ctx).Valued?
    then
      var fuel: nat :| Unfold(p, table, fuel, n, ctx).Valued?;
      Unfold(p, table, fuel, n, ctx)
    else Failed
  }

  ghost function Sense(p: Program, table: ImplicitTable): Valuation {
    (n: Name, ctx: Context) => SenseOf(p, table, n, ctx)
  }

  /** Two depths at which a name has a value give it the same one. */
  lemma DepthsAgree(p: Program, table: ImplicitTable, fuel: nat, other: nat, n: Name, ctx: Context)
    requires Unfold(p, table, fuel, n, ctx).Valued? && Unfold(p, table, other, n, ctx).Valued?
    ensures Unfold(p, table, fuel, n, ctx) == Unfold(p, table, other, n, ctx)
  {
    var low, high := if fuel < other then fuel else other, if fuel < other then other else fuel;
    MeaningsMonotone(p, table, table, low, high);
    assert Meanings(p, table, low)(n, ctx).Valued?;
  }

  lemma SenseAtDepth(p: Program, table: ImplicitTable, fuel: nat)
    ensures Refines(Meanings(p, table, fuel), Sense(p, table))
  {
    forall n, c | Meanings(p, table, fuel)(n, c).Valued?
      ensures Sense(p, table)(n, c) == Meanings(p, table, fuel)(n, c)
    {
      assert Unfold(p, table, fuel, n, c).Valued?;
      var other: nat :|
        Unfold(p, table, other, n, c).Valued? && SenseOf(p, table, n, c) == Unfold(p, table, other, n, c);
      DepthsAgree(p, table, fuel, other, n, c);
    }
  }

  /** One depth at which names have their meanings at all of finitely many places. */
  lemma {:induction false} DepthForPlaces(p: Program, table: ImplicitTable, places: set<(Name, Context)>)
    returns (fuel: nat)
    ensures forall n, c :: (n, c) in places && SenseOf(p, table, n, c).Valued? ==>
      Unfold(p, table, fuel, n, c) == SenseOf(p, table, n, c)
    decreases |places|
  {
    fuel := 0;
    if places != {} {
      var place :| place in places;
      var (n, c) := place;
      var rest := DepthForPlaces(p, table, places - {place});
      var own: nat := if SenseOf(p, table, n, c).Valued?
        then var own: nat :| Unfold(p, table, own, n, c) == SenseOf(p, table, n, c); own else 0;
      fuel := if own < rest then rest else own;
      MeaningsMonotone(p, table, table, own, fuel);
      MeaningsMonotone(p, table, table, rest, fuel);
      forall m, d | (m, d) in places && SenseOf(p, table, m, d).Valued?
        ensures Unfold(p, table, fuel, m, d) == SenseOf(p, table, m, d)
      {
        assert (m, d) == place || (m, d) in places - {place};
        assert Meanings(p, table, own)(m, d).Valued? || Meanings(p, table, rest)(m, d).Valued?;
      }
    }
  }

  /** Every place that `#` may stand for, and none. */
  function HereNumber(i: nat): HereValue {
    if i < 0x4_0000 then Some(i) else None
  }

  /** One depth that is enough for everything looked up by a tree, wherever `#` stands. */
  lemma DepthForLookups(p: Program, table: ImplicitTable, lookups: set<Lookup>) returns (fuel: nat)
    ensures RefinesOn(Sense(p, table), Meanings(p, table, fuel), lookups)
  {
    var places := set l, i | l in lookups && 0 <= i <= 0x4_0000 :: (l.name, Context(HereNumber(i), l.scope));
    fuel := DepthForPlaces(p, table, places);
    forall l, h | l in lookups && Sense(p, table)(l.name, Context(h, l.scope)).Valued?
      ensures Meanings(p, table, fuel)(l.name, Context(h, l.scope)) == Sense(p, table)(l.name, Context(h, l.scope))
    {
      assert h == HereNumber(if h.Some? then h.value else 0x4_0000);
      assert (l.name, Context(h, l.scope)) in places;
    }
  }

  /** Main result: a name means what its definition means, with no bound on how deep that goes. */
  lemma SenseUnfolds(p: Program, table: ImplicitTable, n: Name, ctx: Context)
    ensures Sense(p, table)(n, ctx) ==
      if n in ctx.scope then EvalDefinition(p, ctx.scope[n], Sense(p, table), ctx) else DefaultValue(p, table, n)
  {
    if n !in ctx.scope {
      assert Unfold(p, table, 0, n, ctx) == DefaultValue(p, table, n);
      SenseAtDepth(p, table, 0);
    } else {
      var def, sense := ctx.scope[n], Sense(p, table);
      if EvalDefinition(p, def, sense, ctx).Valued? {
        var fuel := DepthForLookups(p, table, DefinitionLookups(p, def, ctx.scope));
        DefinitionMonotone(p, def, sense, Meanings(p, table, fuel), ctx);
        assert Unfold(p, table, fuel + 1, n, ctx) == EvalDefinition(p, def, sense, ctx);
        SenseAtDepth(p, table, fuel + 1);
      } else if sense(n, ctx).Valued? {
        var fuel: nat :| Unfold(p, table, fuel, n, ctx).Valued?;
        SenseAtDepth(p, table, fuel - 1);
        DefinitionMonotone(p, def, Meanings(p, table, fuel - 1), sense, ctx);
        assert false;
      }
    }
  }

  /** A word has a value exactly if it has one at some depth, and then that one. */
  lemma WordSense(p: Program, table: ImplicitTable, word: seq<Fragment>, ctx: Context)
    ensures var o := EvalFragments(0, word, Sense(p, table), ctx);
      && (o.Valued? <==> exists fuel: nat :: EvalFragments(0, word, Meanings(p, table, fuel), ctx).Valued?)
      && forall fuel: nat :: EvalFragments(0, word, Meanings(p, table, fuel), ctx).Valued? ==>
           EvalFragments(0, word, Meanings(p, table, fuel), ctx) == o
  {
    var sense := Sense(p, table);
    forall fuel: nat | EvalFragments(0, word, Meanings(p, table, fuel), ctx).Valued?
      ensures EvalFragments(0, word, Meanings(p, table, fuel), ctx) == EvalFragments(0, word, sense, ctx)
    {
      SenseAtDepth(p, table, fuel);
      FragmentsMonotone(0, word, Meanings(p, table, fuel), sense, ctx);
    }
    if EvalFragments(0, word, sense, ctx).Valued? {
      var fuel := DepthForLookups(p, table, WordLookups(word, ctx.scope));
      FragmentsMonotone(0, word, sense, Meanings(p, table, fuel), ctx);
      assert EvalFragments(0, word, Meanings(p, table, fuel), ctx).Valued?;
    }
  }

  /** Later defaults leave every meaning as it is. */
  lemma SenseLater(p: Program, table: ImplicitTable, later: ImplicitTable)
    requires Extends(table, later)
    ensures Refines(Sense(p, table), Sense(p, later))
  {
    forall n, c | Sense(p, table)(n, c).Valued? ensures Sense(p, later)(n, c) == Sense(p, table)(n, c) {
      var fuel: nat :| Unfold(p, table, fuel, n, c).Valued? && SenseOf(p, table, n, c) == Unfold(p, table, fuel, n, c);
      MeaningsMonotone(p, table, later, fuel, fuel);
      SenseAtDepth(p, later, fuel);
      assert Meanings(p, table, fuel)(n, c).Valued?;
    }
  }

  // ----- a value needs the values of all names in it -----

  ghost predicate HasValue(rho: Valuation, l: Lookup) {
    exists h :: rho(l.name, Context(h, l.scope)).Valued?
  }

  lemma {:induction false} ExprNeeds(e: Expr, rho: Valuation, ctx: Context, l: Lookup)
    requires EvalExpr(e, rho, ctx).Valued? && l in ExprLookups(e, ctx.scope)
    ensures HasValue(rho, l)
    decreases e, 0
  {
    if l in AtomLookups(e.first, ctx.scope) {
      AtomNeeds(e.first, rho, ctx, l);
    } else {
      TermsNeed(Signed(e.negated, EvalAtom(e.first, rho, ctx)).value, e.tail, rho, ctx, l);
    }
  }

  lemma {:induction false} TermsNeed(acc: Word36, tail: seq<Term>, rho: Valuation, ctx: Context, l: Lookup)
    requires EvalTerms(acc, tail, rho, ctx).Valued? && l in TermLookups(tail, ctx.scope)
    ensures HasValue(rho, l)
    decreases tail, 0
  {
    if l in OperandLookups(tail[0], ctx.scope) {
      OperandNeeds(tail[0], rho, ctx, l);
    } else {
      TermsNeed(EvalStep(acc, tail[0], rho, ctx).value, tail[1..], rho, ctx, l);
    }
  }

  lemma {:induction false} OperandNeeds(t: Term, rho: Valuation, ctx: Context, l: Lookup)
    requires EvalOperand(t, rho, ctx).Valued? && l in OperandLookups(t, ctx.scope)
    ensures HasValue(rho, l)
    decreases t, 0
  {
    AtomNeeds(t.atom, rho, ctx, l);
  }

  lemma {:induction false} AtomNeeds(a: Atom, rho: Valuation, ctx: Context, l: Lookup)
    requires EvalAtom(a, rho, ctx).Valued? && l in AtomLookups(a, ctx.scope)
    ensures HasValue(rho, l)
    decreases a, 0
  {
    match a {
      case Symbol(_, name) => assert rho(name, Context(ctx.here, ctx.scope)).Valued?;
      case Parens(_, inner) => ExprNeeds(inner, rho, ctx, l);
      case AssembledWord(word) => FragmentsNeed(0, word, rho, ctx, l);
      case RcRef(locals, words) => RcWordsNeed(words, rho, ctx.scope + locals, l);
    }
  }

  lemma {:induction false} RcWordsNeed(words: seq<RcWord>, rho: Valuation, scope: Scope, l: Lookup)
    requires EvalRcWords(words, rho, scope).Valued? && l in RcLookups(words, scope)
    ensures HasValue(rho, l)
    decreases words, 0
  {
    if l in RcWordLookups(words[0], scope) {
      RcWordNeeds(words[0], rho, scope, l);
    } else {
      RcWordsNeed(words[1..], rho, scope, l);
    }
  }

  lemma {:induction false} RcWordNeeds(w: RcWord, rho: Valuation, scope: Scope, l: Lookup)
    requires EvalRcWord(w, rho, scope).Valued? && l in RcWordLookups(w, scope)
    ensures HasValue(rho, l)
    decreases w, 0
  {
    FragmentsNeed(0, w.word, rho, Context(Some(w.address), scope), l);
  }

  lemma {:induction false} FragmentsNeed(acc: Word36, word: seq<Fragment>, rho: Valuation, ctx: Context, l: Lookup)
    requires EvalFragments(acc, word, rho, ctx).Valued? && l in WordLookups(word, ctx.scope)
    ensures HasValue(rho, l)
    decreases word, 0
  {
    if l in FragmentLookups(word[0], ctx.scope) {
      FragmentNeeds(word[0], rho, ctx, l);
    } else {
      FragmentsNeed(Union(acc, EvalFragment(word[0], rho, ctx).value), word[1..], rho, ctx, l);
    }
  }

  lemma {:induction false} FragmentNeeds(f: Fragment, rho: Valuation, ctx: Context, l: Lookup)
    requires EvalFragment(f, rho, ctx).Valued? && l in FragmentLookups(f, ctx.scope)
    ensures HasValue(rho, l)
    decreases f, 0
  {
    match f.body {
      case Arithmetic(expr) => ExprNeeds(expr, rho, ctx, l);
      case Config(_, value) => ExprNeeds(value, rho, ctx, l);
      case Pipe(index, target) =>
        if l in ExprLookups(index, ctx.scope) {
          ExprNeeds(index, rho, ctx, l);
        } else {
          RcWordNeeds(target, rho, ctx.scope, l);
        }
    }
  }

  // ----- dependencies and cycles -----

  /** What looking a name up somewhere leads to looking up next. */
  function Dependencies(p: Program, l: Lookup): set<Lookup> {
    if l.name in l.scope then DefinitionLookups(p, l.scope[l.name], l.scope) else {}
  }

  predicate IsPath(p: Program, path: seq<Lookup>) {
    forall i :: 0 < i < |path| ==> path[i] in Dependencies(p, path[i - 1])
  }

  /** A path of dependencies that starts in `lookups` and comes back to a lookup it passed. */
  predicate CyclicPath(p: Program, lookups: set<Lookup>, path: seq<Lookup>) {
    && |path| > 1
    && path[0] in lookups
    && IsPath(p, path)
    && path[|path| - 1] in path[..|path| - 1]
  }

  lemma {:induction false} DefinitionNeeds(p: Program, l: Lookup, m: Lookup, table: ImplicitTable, fuel: nat,
      h: HereValue)
    requires m in Dependencies(p, l) && Unfold(p, table, fuel, l.name, Context(h, l.scope)).Valued?
    ensures fuel > 0 && HasValue(Meanings(p, table, fuel - 1), m)
  {
    var rho, ctx := Meanings(p, table, fuel - 1), Context(h, l.scope);
    match l.scope[l.name] {
      case OriginExpression(expr) => ExprNeeds(expr, rho, ctx, m);
      case Equality(word) => FragmentsNeed(0, word, rho, ctx, m);
      case Tag(block, _) =>
        match p.blocks[block].origin {
          case Some(AtSymbol(name)) => assert rho(name, ctx).Valued?;
          case Some(AtExpression(expr)) => ExprNeeds(expr, rho, ctx, m);
        }
    }
  }

  lemma RestIsPath(p: Program, path: seq<Lookup>, from: nat)
    requires IsPath(p, path) && from <= |path|
    ensures IsPath(p, path[from..])
  {
    forall i | 0 < i < |path[from..]| ensures path[from..][i] in Dependencies(p, path[from..][i - 1]) {
      assert path[from + i] in Dependencies(p, path[from + i - 1]);
    }
  }

  /** A lookup that unfolds within `fuel` starts no path of more than `fuel` dependencies. */
  lemma {:induction false} PathsAreShort(p: Program, path: seq<Lookup>, table: ImplicitTable, fuel: nat)
    requires path != [] && IsPath(p, path) && HasValue(Meanings(p, table, fuel), path[0])
    ensures |path| <= fuel + 1
    decreases |path|
  {
    if |path| > 1 {
      var h :| Meanings(p, table, fuel)(path[0].name, Context(h, path[0].scope)).Valued?;
      assert path[1] in Dependencies(p, path[0]);
      DefinitionNeeds(p, path[0], path[1], table, fuel, h);
      RestIsPath(p, path, 1);
      PathsAreShort(p, path[1..], table, fuel - 1);
    }
  }

  /** Going round the cycle once more makes the path longer. */
  lemma {:induction false} CyclesGiveLongPaths(p: Program, lookups: set<Lookup>, path: seq<Lookup>, length: nat)
    requires CyclicPath(p, lookups, path)
    ensures exists longer :: CyclicPath(p, lookups, longer) && |longer| >= length
    decreases length - |path|
  {
    if |path| < length {
      var last := |path| - 1;
      var i :| 0 <= i < last && path[i] == path[last];
      var longer := path + path[i + 1..];
      forall k | 0 < k < |longer| ensures longer[k] in Dependencies(p, longer[k - 1]) {
        if k <= last {
          assert path[k] in Dependencies(p, path[k - 1]);
        } else {
          var j := k - last + i;
          assert longer[k] == path[j];
          assert longer[k - 1] == path[j - 1];
          assert path[j] in Dependencies(p, path[j - 1]);
        }
      }
      assert longer[|longer| - 1] == path[last];
      assert path[last] == longer[last] && last < |longer| - 1;
      assert longer[..|longer| - 1][last] == path[last];
      CyclesGiveLongPaths(p, lookups, longer, length);
    }
  }

  /** Main result: what reaches a cycle of definitions has no unfolded value, at any depth. */
  lemma CyclesNeverUnfold(p: Program, lookups: set<Lookup>, path: seq<Lookup>, table: ImplicitTable, fuel: nat)
    requires CyclicPath(p, lookups, path)
    ensures exists l :: l in lookups && !HasValue(Meanings(p, table, fuel), l)
  {
    CyclesGiveLongPaths(p, lookups, path, fuel + 2);
    var longer :| CyclicPath(p, lookups, longer) && |longer| >= fuel + 2;
    if HasValue(Meanings(p, table, fuel), longer[0]) {
      PathsAreShort(p, longer, table, fuel);
    }
  }
}
