/**
 * The evaluator of the assembler: it looks symbols up recursively, notices loops by the
 * stack of names being looked up, assigns defaults on first use and fills in RC-words.
 */
module SymbolEvaluation {
  import opened Words
  import opened AssemblyTree
  import opened Unfolding
  import opened Scoping

  datatype Result =
    | Ok(value: Word36)
    | DefinitionLoop(deps: seq<Name>)
    | IndexRegistersExhausted(name: Name)
    | HereNotAllowed
    | BlockTooLarge(block: nat)
    /** The evaluator stops the assembler: an overflow or a broken internal promise. */
    | Panic

  ghost function Elements(stack: seq<Name>): set<Name> {
    set n | n in stack
  }

  function NamesOf(path: seq<Lookup>): (names: seq<Name>)
    ensures |names| == |path| && forall i :: 0 <= i < |path| ==> names[i] == path[i].name
  {
    seq(|path|, i requires 0 <= i < |path| => path[i].name)
  }

  function DefinedNames(world: set<Entry>): set<Name> {
    set x <- world :: x.0
  }

  /** Each lookup on the stack is there because the definition of the one before it needs it. */
  ghost predicate GoodStack(p: Program, stack: seq<Lookup>) {
    IsPath(p, stack) && forall l <- stack :: l.name in l.scope
  }

  /** What the definition on top of the stack may need; anything when nothing is being looked up. */
  ghost predicate Needed(p: Program, stack: seq<Lookup>, lookups: set<Lookup>) {
    stack != [] ==> lookups <= Dependencies(p, stack[|stack| - 1])
  }

  /** A chain of lookups through the stack and one of `lookups` to a name already passed. */
  ghost predicate IsReport(p: Program, stack: seq<Lookup>, lookups: set<Lookup>, deps: seq<Name>, path: seq<Lookup>) {
    && NamesOf(path) == deps && IsPath(p, path)
    && |path| > |stack| && path[..|stack|] == stack
    && path[|stack|] in lookups
    && deps[|deps| - 1] in deps[..|deps| - 1]
  }

  ghost predicate LoopReport(p: Program, stack: seq<Lookup>, lookups: set<Lookup>, deps: seq<Name>) {
    exists path :: IsReport(p, stack, lookups, deps, path)
  }

  /** No chain from `lookups` meets a name twice, or a name being looked up. */
  ghost predicate Fresh(p: Program, onStack: set<Name>, lookups: set<Lookup>) {
    forall path :: IsPath(p, path) && path != [] && path[0] in lookups ==> MeetsNewNames(onStack, path)
  }

  ghost predicate MeetsNewNames(onStack: set<Name>, path: seq<Lookup>) {
    && (forall i :: 0 <= i < |path| ==> path[i].name !in onStack)
    && forall i, j :: 0 <= i < j < |path| ==> path[i].name != path[j].name
  }

  // A value found under the defaults assigned so far is the same under later defaults.

  lemma ExprLater(p: Program, table: ImplicitTable, later: ImplicitTable, e: Expr, ctx: Context)
    requires Extends(table, later) && EvalExpr(e, Sense(p, table), ctx).Valued?
    ensures EvalExpr(e, Sense(p, later), ctx) == EvalExpr(e, Sense(p, table), ctx)
  {
    SenseLater(p, table, later);
    ExprMonotone(e, Sense(p, table), Sense(p, later), ctx);
  }

  lemma AtomLater(p: Program, table: ImplicitTable, later: ImplicitTable, a: Atom, ctx: Context)
    requires Extends(table, later) && EvalAtom(a, Sense(p, table), ctx).Valued?
    ensures EvalAtom(a, Sense(p, later), ctx) == EvalAtom(a, Sense(p, table), ctx)
  {
    SenseLater(p, table, later);
    AtomMonotone(a, Sense(p, table), Sense(p, later), ctx);
  }

  lemma StepLater(p: Program, table: ImplicitTable, later: ImplicitTable, acc: Word36, t: Term, ctx: Context)
    requires Extends(table, later) && EvalStep(acc, t, Sense(p, table), ctx).Valued?
    ensures EvalStep(acc, t, Sense(p, later), ctx) == EvalStep(acc, t, Sense(p, table), ctx)
  {
    SenseLater(p, table, later);
    OperandMonotone(t, Sense(p, table), Sense(p, later), ctx);
  }

  lemma RcWordLater(p: Program, table: ImplicitTable, later: ImplicitTable, w: RcWord, scope: Scope)
    requires Extends(table, later) && EvalRcWord(w, Sense(p, table), scope).Valued?
    ensures EvalRcWord(w, Sense(p, later), scope) == EvalRcWord(w, Sense(p, table), scope)
  {
    SenseLater(p, table, later);
    RcWordMonotone(w, Sense(p, table), Sense(p, later), scope);
  }

  lemma FragmentLater(p: Program, table: ImplicitTable, later: ImplicitTable, f: Fragment, ctx: Context)
    requires Extends(table, later) && EvalFragment(f, Sense(p, table), ctx).Valued?
    ensures EvalFragment(f, Sense(p, later), ctx) == EvalFragment(f, Sense(p, table), ctx)
  {
    SenseLater(p, table, later);
    FragmentMonotone(f, Sense(p, table), Sense(p, later), ctx);
  }

  /** The bookkeeping of an evaluation at one moment. */
  datatype View = View(table: ImplicitTable, used: nat, names: seq<Name>, lookups: seq<Lookup>, onStack: set<Name>,
      updates: Updates)

  /**
   * What every evaluation step promises.  The table only gains defaults.  A success has the
   * value and has made the updates of `outcome`, and has met no name twice; a failure means
   * that there is no value.  The stack is as it was, except that a reported loop leaves its
   * first new name behind.
   */
  ghost predicate Done(p: Program, before: View, after: View, lookups: set<Lookup>, outcome: Outcome, r: Result) {
    && Extends(before.table, after.table)
    && after.used < 64
    && after.onStack == before.onStack && after.lookups == before.lookups
    && (!r.DefinitionLoop? ==> after.names == before.names)
    && (r.DefinitionLoop? ==>
          && LoopReport(p, before.lookups, lookups, r.deps)
          && |r.deps| > |before.names| && after.names == r.deps[..|before.names| + 1])
    && (!r.Ok? && !r.DefinitionLoop? ==> outcome.Failed?)
    && (r.Ok? ==>
          && outcome.Valued? && outcome.value == r.value && after.updates == before.updates + outcome.updates
          && Fresh(p, before.onStack, lookups))
  }

  lemma MoreLookups(p: Program, stack: seq<Lookup>, lookups: set<Lookup>, more: set<Lookup>, deps: seq<Name>)
    requires LoopReport(p, stack, lookups, deps) && lookups <= more
    ensures LoopReport(p, stack, more, deps)
  {
    var path :| IsReport(p, stack, lookups, deps, path);
    assert IsReport(p, stack, more, deps, path);
  }

  /** A successful step and then another one. */
  lemma DoneTwice(
      p: Program, v0: View, v1: View, v2: View, first: set<Lookup>, second: set<Lookup>,
      o1: Outcome, o2: Outcome, r: Result)
    requires o1.Valued? && Done(p, v0, v1, first, o1, Ok(o1.value)) && Done(p, v1, v2, second, o2, r)
    ensures Done(p, v0, v2, first + second, Then(o1.updates, o2), r)
  {
    if r.Ok? {
      assert v0.updates + (o1.updates + o2.updates) == v0.updates + o1.updates + o2.updates;
    }
    if r.DefinitionLoop? {
      MoreLookups(p, v0.lookups, second, first + second, r.deps);
    }
  }

  /** Nothing to look up. */
  lemma DoneAtOnce(p: Program, v: View, value: Word36)
    requires v.used < 64
    ensures Done(p, v, v, {}, Valued(value, []), Ok(value))
  {
    assert v.updates + [] == v.updates;
  }

  lemma LoopHasNoOutcome(p: Program, before: View, after: View, lookups: set<Lookup>, o: Outcome, o': Outcome,
      r: Result)
    requires Done(p, before, after, lookups, o, r) && r.DefinitionLoop?
    ensures Done(p, before, after, lookups, o', r)
  {
  }

  lemma DefaultDone(p: Program, before: View, after: View, o: Outcome, r: Result)
    requires Extends(before.table, after.table) && after.used < 64 && !r.DefinitionLoop?
    requires after == before.(table := after.table, used := after.used)
    requires o == if r.Ok? then Valued(r.value, []) else Failed
    ensures Done(p, before, after, {}, o, r)
  {
    assert before.updates + [] == before.updates;
  }

  lemma DoneIsValued(p: Program, before: View, after: View, lookups: set<Lookup>, o: Outcome, r: Result)
    requires Done(p, before, after, lookups, o, r)
    ensures r.Ok? ==> o.Valued? && o.value == r.value
    ensures !r.DefinitionLoop? ==> after.names == before.names
  {
  }

  lemma NothingDone(p: Program, v: View, lookups: set<Lookup>)
    requires v.used < 64
    ensures Done(p, v, v, lookups, Failed, Panic)
  {
  }

  /** The same step, with something computed from its value. */
  lemma DoneMapped(p: Program, before: View, after: View, lookups: set<Lookup>, o: Outcome, r: Result, o': Outcome,
      r': Result)
    requires Done(p, before, after, lookups, o, r)
    requires r.Ok? ==> o'.Valued? && o'.updates == o.updates && r' == Ok(o'.value)
    requires !r.Ok? ==> r' == r && (o.Failed? ==> o'.Failed?)
    ensures Done(p, before, after, lookups, o', r')
  {
  }

  /** The same step, with its value put in an RC-word. */
  lemma DoneUpdating(p: Program, before: View, after: View, lookups: set<Lookup>, o: Outcome, value: Word36, at: Word18)
    requires Done(p, before, after, lookups, o, Ok(value))
    ensures Done(p, before, after.(updates := after.updates + [(at, value)]), lookups,
              Valued(at, o.updates + [(at, value)]), Ok(at))
  {
    assert before.updates + (o.updates + [(at, value)]) == before.updates + o.updates + [(at, value)];
  }

  /** A step that fails, whatever else there is to do. */
  lemma DoneFailing(p: Program, v0: View, v1: View, first: set<Lookup>, second: set<Lookup>, o1: Outcome, o: Outcome,
      r: Result)
    requires !r.Ok? && Done(p, v0, v1, first, o1, r) && (o1.Failed? ==> o.Failed?)
    ensures Done(p, v0, v1, first + second, o, r)
  {
    if r.DefinitionLoop? {
      MoreLookups(p, v0.lookups, first, first + second, r.deps);
    }
  }

  /** Looking a name up again while its own lookup is under way is a loop. */
  lemma PushFindsLoop(p: Program, stack: seq<Lookup>, l: Lookup)
    requires GoodStack(p, stack) && Needed(p, stack, {l}) && l.name in NamesOf(stack)
    ensures LoopReport(p, stack, {l}, NamesOf(stack) + [l.name])
  {
    var path := stack + [l];
    assert path[..|stack|] == stack && NamesOf(path) == NamesOf(stack) + [l.name];
    forall i | 0 < i < |path| ensures path[i] in Dependencies(p, path[i - 1]) {
      if i < |stack| {
        assert stack[i] in Dependencies(p, stack[i - 1]);
      }
    }
    var deps := NamesOf(stack) + [l.name];
    assert deps[..|deps| - 1] == NamesOf(stack) && deps[|deps| - 1] == l.name;
    assert IsReport(p, stack, {l}, NamesOf(stack) + [l.name], path);
  }

  lemma LoopDone(p: Program, before: View, l: Lookup, outcome: Outcome)
    requires GoodStack(p, before.lookups) && Needed(p, before.lookups, {l}) && before.used < 64
    requires before.names == NamesOf(before.lookups) && l.name in before.names
    ensures var names := before.names + [l.name];
      Done(p, before, before.(names := names), {l}, outcome, DefinitionLoop(names))
  {
    PushFindsLoop(p, before.lookups, l);
    assert (before.names + [l.name])[..|before.names| + 1] == before.names + [l.name];
  }

  lemma PushGrowsStack(names: seq<Name>, name: Name)
    ensures Elements(names + [name]) == Elements(names) + {name}
  {
  }

  lemma PushDefinedName(p: Program, stack: seq<Lookup>, l: Lookup)
    requires GoodStack(p, stack) && Needed(p, stack, {l}) && l.name in l.scope
    ensures GoodStack(p, stack + [l]) && Needed(p, stack + [l], Dependencies(p, l))
  {
    var pushed := stack + [l];
    forall i | 0 < i < |pushed| ensures pushed[i] in Dependencies(p, pushed[i - 1]) {
      if i < |stack| {
        assert stack[i] in Dependencies(p, stack[i - 1]);
      }
    }
  }

  lemma PopPassesReportOn(p: Program, stack: seq<Lookup>, l: Lookup, lookups: set<Lookup>, deps: seq<Name>)
    requires LoopReport(p, stack + [l], lookups, deps)
    ensures LoopReport(p, stack, {l}, deps) && |deps| > |stack| + 1
    ensures deps[..|stack| + 2][..|stack| + 1] == deps[..|stack| + 1]
  {
    var path :| IsReport(p, stack + [l], lookups, deps, path);
    assert path[..|stack|] == path[..|stack| + 1][..|stack|] == stack;
    assert path[|stack|] == path[..|stack| + 1][|stack|] == l;
    assert IsReport(p, stack, {l}, deps, path);
  }

  /** What meets no name twice from the dependencies on meets none from the name itself. */
  lemma PopIsFresh(p: Program, onStack: set<Name>, l: Lookup)
    requires l.name !in onStack && Fresh(p, onStack + {l.name}, Dependencies(p, l))
    ensures Fresh(p, onStack, {l})
  {
    forall path | IsPath(p, path) && path != [] && path[0] in {l} ensures MeetsNewNames(onStack, path) {
      if |path| > 1 {
        RestIsPath(p, path, 1);
        assert path[1] in Dependencies(p, path[0]);
        assert MeetsNewNames(onStack + {l.name}, path[1..]);
        assert forall i :: 1 <= i < |path| ==> path[i] == path[1..][i - 1];
      }
    }
  }

  function Push(v: View, l: Lookup): View {
    v.(names := v.names + [l.name], lookups := v.lookups + [l], onStack := v.onStack + {l.name})
  }

  function Pop(v: View, l: Lookup): View
    requires v.names != [] && v.lookups != []
  {
    v.(names := v.names[..|v.names| - 1], lookups := v.lookups[..|v.lookups| - 1], onStack := v.onStack - {l.name})
  }

  /** What holds with the name pushed holds for the name once it is popped. */
  lemma PopDone(p: Program, before: View, after: View, l: Lookup, outcome: Outcome, r: Result)
    requires l.name !in before.onStack && before.names == NamesOf(before.lookups)
    requires Done(p, Push(before, l), after, Dependencies(p, l), outcome, r)
    ensures after.names != [] && after.lookups != [] && Done(p, before, Pop(after, l), {l}, outcome, r)
    ensures !r.DefinitionLoop? ==> Pop(after, l).names == before.names
  {
    if r.DefinitionLoop? {
      PopPassesReportOn(p, before.lookups, l, Dependencies(p, l), r.deps);
    }
    if r.Ok? {
      PopIsFresh(p, before.onStack, l);
    }
    assert (before.lookups + [l])[..|before.lookups|] == before.lookups;
    assert (before.names + [l.name])[..|before.names|] == before.names;
  }

  // ----- words without a value -----

  /** A word that reaches a cycle of definitions has no value, whatever the defaults. */
  lemma CyclicWordHasNoValue(p: Program, word: seq<Fragment>, path: seq<Lookup>, table: ImplicitTable, fuel: nat,
      ctx: Context)
    requires CyclicPath(p, WordLookups(word, ctx.scope), path)
    ensures EvalFragments(0, word, Meanings(p, table, fuel), ctx).Failed?
  {
    if EvalFragments(0, word, Meanings(p, table, fuel), ctx).Valued? {
      CyclesNeverUnfold(p, WordLookups(word, ctx.scope), path, table, fuel);
      var l :| l in WordLookups(word, ctx.scope) && !HasValue(Meanings(p, table, fuel), l);
      FragmentsNeed(0, word, Meanings(p, table, fuel), ctx, l);
    }
  }

  /** Some chain of lookups from the word comes back to a name. */
  ghost predicate Repeats(p: Program, word: seq<Fragment>) {
    exists path :: RepeatsAName(p, WordLookups(word, p.explicit), path)
  }

  /** What the word means when definitions are unfolded at most `fuel` deep. */
  ghost function MeaningAt(p: Program, table: ImplicitTable, fuel: nat, word: seq<Fragment>, here: HereValue): Outcome {
    EvalFragments(0, word, Meanings(p, table, fuel), Context(here, p.explicit))
  }

  /** The definitions that the word leads to can be unfolded, however deep that goes. */
  ghost predicate HasMeaning(p: Program, table: ImplicitTable, word: seq<Fragment>, here: HereValue) {
    exists fuel: nat :: MeaningAt(p, table, fuel, word, here).Valued?
  }

  /** The value and the updates are what the word means, at whatever depth it means anything. */
  ghost predicate IsMeaning(p: Program, table: ImplicitTable, word: seq<Fragment>, here: HereValue, value: Word36,
      updates: Updates) {
    && HasMeaning(p, table, word, here)
    && forall fuel: nat :: MeaningAt(p, table, fuel, word, here).Valued? ==>
         MeaningAt(p, table, fuel, word, here) == Valued(value, updates)
  }

  /** If no name has two definitions, a word that leads back to a name has no value at any depth. */
  lemma RepeatingWordHasNoValue(p: Program, word: seq<Fragment>, table: ImplicitTable, here: HereValue)
    requires OneDefinitionEach(World(p, word)) && Repeats(p, word)
    ensures !HasMeaning(p, table, word, here)
  {
    var world, lookups := World(p, word), WordLookups(word, p.explicit);
    var path :| RepeatsAName(p, lookups, path);
    WorldIsClosed(p, word);
    ExplicitIsInWorld(p, word);
    WordWidens(world, word, p.explicit, path[0]);
    forall fuel: nat ensures MeaningAt(p, table, fuel, word, here).Failed? {
      RepeatsNeverUnfold(p, world, lookups, path, table, fuel);
      if MeaningAt(p, table, fuel, word, here).Valued? {
        FragmentsNeed(0, word, Meanings(p, table, fuel), Context(here, p.explicit), path[0]);
      }
    }
  }

  lemma ExplicitIsInWorld(p: Program, word: seq<Fragment>)
    ensures From(World(p, word), p.explicit) && WordEntries(word) <= World(p, word)
  {
    forall n | n in p.explicit ensures (n, p.explicit[n]) in World(p, word) {
      assert (n, p.explicit[n]) in p.explicit.Items;
    }
  }

  lemma LocalsAreFrom(world: set<Entry>, scope: Scope, locals: Scope)
    requires From(world, scope) && locals.Items <= world
    ensures From(world, scope + locals)
  {
    forall n | n in scope + locals ensures (n, (scope + locals)[n]) in world {
      if n in locals {
        assert (n, locals[n]) in locals.Items;
      }
    }
  }

  lemma FreshWordDoesNotRepeat(p: Program, word: seq<Fragment>)
    requires Fresh(p, {}, WordLookups(word, p.explicit))
    ensures !Repeats(p, word)
  {
    forall path | IsPath(p, path) && |path| > 1 && path[0] in WordLookups(word, p.explicit)
      ensures !RepeatsAName(p, WordLookups(word, p.explicit), path)
    {
      assert MeetsNewNames({}, path);
    }
  }

  lemma ReportedWordRepeats(p: Program, word: seq<Fragment>, deps: seq<Name>)
    requires LoopReport(p, [], WordLookups(word, p.explicit), deps)
    ensures exists path :: RepeatsAName(p, WordLookups(word, p.explicit), path) && NamesOf(path) == deps
  {
    var path :| IsReport(p, [], WordLookups(word, p.explicit), deps, path);
    assert RepeatsAName(p, WordLookups(word, p.explicit), path);
  }

  ghost function SenseOfWord(p: Program, table: ImplicitTable, word: seq<Fragment>, here: HereValue): Outcome {
    EvalFragments(0, word, Sense(p, table), Context(here, p.explicit))
  }

  lemma SenseIsMeaning(p: Program, table: ImplicitTable, word: seq<Fragment>, here: HereValue)
    ensures var o := SenseOfWord(p, table, word, here);
      && (o.Valued? <==> HasMeaning(p, table, word, here))
      && (o.Valued? ==> IsMeaning(p, table, word, here, o.value, o.updates))
  {
    WordSense(p, table, word, Context(here, p.explicit));
    forall fuel: nat
      ensures MeaningAt(p, table, fuel, word, here) ==
        EvalFragments(0, word, Meanings(p, table, fuel), Context(here, p.explicit))
    {
    }
  }

  /** What a finished evaluation says about the word. */
  lemma WordDone(p: Program, before: View, after: View, word: seq<Fragment>, here: HereValue, r: Result)
    requires Done(p, before, after, WordLookups(word, p.explicit), SenseOfWord(p, after.table, word, here), r)
    requires before.names == [] && before.lookups == [] && before.onStack == {}
    ensures r.Ok? <==> HasMeaning(p, after.table, word, here) && !Repeats(p, word)
    ensures HasMeaning(p, after.table, word, here) && Repeats(p, word) ==> r.DefinitionLoop?
    ensures OneDefinitionEach(World(p, word)) ==> (r.Ok? <==> HasMeaning(p, after.table, word, here))
    ensures r.Ok? ==>
      && after.names == [] && before.updates <= after.updates
      && IsMeaning(p, after.table, word, here, r.value, after.updates[|before.updates|..])
    ensures r.DefinitionLoop? ==>
      exists path :: RepeatsAName(p, WordLookups(word, p.explicit), path) && NamesOf(path) == r.deps
    ensures Extends(before.table, after.table) && after.onStack == {}
  {
    hide OneDefinitionEach;
    hide HasMeaning;
    hide IsMeaning;
    hide SenseOfWord;
    SenseIsMeaning(p, after.table, word, here);
    if r.DefinitionLoop? {
      ReportedWordRepeats(p, word, r.deps);
    }
    if r.Ok? {
      FreshWordDoesNotRepeat(p, word);
    }
    if OneDefinitionEach(World(p, word)) && Repeats(p, word) {
      RepeatingWordHasNoValue(p, word, after.table, here);
    }
  }

  class Evaluation {
    const program: Program
    var table: ImplicitTable
    var indexRegistersUsed: nat
    var depsInOrder: seq<Name>
    var dependsOn: set<Name>
    var updates: Updates
    /** Where each name on the stack is being looked up. */
    ghost var lookups: seq<Lookup>

    constructor (program: Program, table: ImplicitTable)
      ensures this.program == program && this.table == table
      ensures depsInOrder == [] && dependsOn == {} && updates == [] && indexRegistersUsed == 0 && lookups == []
    {
      this.program, this.table := program, table;
      indexRegistersUsed, depsInOrder, dependsOn, updates, lookups := 0, [], {}, [], [];
    }

    ghost predicate Consistent()
      reads this
    {
      && GoodStack(program, lookups) && depsInOrder == NamesOf(lookups)
      && dependsOn == Elements(depsInOrder) && indexRegistersUsed < 64
    }

    ghost function Now(): View
      reads this
    {
      View(table, indexRegistersUsed, depsInOrder, lookups, dependsOn, updates)
    }

    /** Names mean what they unfold to under the defaults assigned so far. */
    ghost function Rho(): Valuation
      reads this
    {
      Sense(program, table)
    }

    /** A tree with these entries and lookups may be evaluated here. */
    ghost predicate Ready(world: set<Entry>, scope: Scope, entries: set<Entry>, needed: set<Lookup>)
      reads this
    {
      && Consistent() && Closed(program, world) && From(world, scope) && entries <= world
      && Needed(program, lookups, needed)
    }

    /**
     * Main result, for a lookup operation that starts afresh.  It ends on every program.  It
     * succeeds exactly when the definitions can be unfolded, at some depth, and no chain of
     * lookups comes back to a name, and then with the value they unfold to.  A word that has
     * a value and comes back to a name is reported as a loop, and a reported loop is such a
     * chain.  If no name has two definitions, coming back to a name is a real loop, and the
     * evaluation succeeds exactly when there is a value.
     */
    method EvaluateWord(word: seq<Fragment>, here: HereValue) returns (r: Result)
      requires depsInOrder == [] && dependsOn == {} && lookups == [] && indexRegistersUsed < 64
      modifies this
      ensures r.Ok? <==> HasMeaning(program, table, word, here) && !Repeats(program, word)
      ensures HasMeaning(program, table, word, here) && Repeats(program, word) ==> r.DefinitionLoop?
      ensures OneDefinitionEach(World(program, word)) ==> (r.Ok? <==> HasMeaning(program, table, word, here))
      ensures r.Ok? ==>
        && depsInOrder == [] && old(updates) <= updates
        && IsMeaning(program, table, word, here, r.value, updates[|old(updates)|..])
      ensures r.DefinitionLoop? ==>
        exists path :: RepeatsAName(program, WordLookups(word, program.explicit), path) && NamesOf(path) == r.deps
      ensures Extends(old(table), table) && dependsOn == {}
    {
      hide Done;
      hide Repeats;
      hide HasMeaning;
      hide IsMeaning;
      ghost var world := World(program, word);
      WorldIsClosed(program, word);
      ExplicitIsInWorld(program, word);
      r := EvaluateFragments(0, word, Context(here, program.explicit), world);
      WordDone(program, old(Now()), Now(), word, here, r);
    }

    /** A default for a name without a definition, assigned now if need be and then kept. */
    method FetchOrAssignDefault(name: Name) returns (r: Result)
      requires indexRegistersUsed < 64
      modifies this`table, this`indexRegistersUsed
      ensures Extends(old(table), table) && indexRegistersUsed < 64
      ensures !r.DefinitionLoop? && !r.HereNotAllowed?
      ensures DefaultValue(program, table, name) == if r.Ok? then Valued(r.value, []) else Failed
      ensures table == old(table) || (name in old(table) && r.Ok? && table ==
          old(table)[name := DefaultAssigned(r.value)])
      ensures indexRegistersUsed == old(indexRegistersUsed) ||
        (name in old(table) && old(table)[name].UsedAsIndex?
         && r == Ok(indexRegistersUsed) && indexRegistersUsed == old(indexRegistersUsed) + 1)
      ensures name in old(table) && old(table)[name].UsedAsConfig? ==> r == Ok(0)
      ensures name in old(table) && old(table)[name].UsedAsIndex? ==>
        r == if old(indexRegistersUsed) < 63 then Ok(old(indexRegistersUsed) + 1) else IndexRegistersExhausted(name)
    {
      if name !in table {
        return Panic;
      }
      match table[name] {
        case DefaultAssigned(value) =>
          r := Ok(value);
        case UsedAsOrigin(block) =>
          r := PlaceWithoutOrigin(block);
        case UsedAsConfig =>
          table := table[name := DefaultAssigned(0)];
          r := Ok(0);
        case UsedAsIndex =>
          if indexRegistersUsed == 63 {
            return IndexRegistersExhausted(name);
          }
          indexRegistersUsed := indexRegistersUsed + 1;
          table := table[name := DefaultAssigned(indexRegistersUsed)];
          r := Ok(indexRegistersUsed);
        case UsedAsAddress =>
          r := Panic;
      }
    }

    /** The place of a block as if it had no origin. */
    method PlaceWithoutOrigin(block: nat) returns (r: Result)
      ensures r.Ok? || r.Panic? || r.BlockTooLarge?
      ensures r.Ok? <==> PlaceAfterPrevious(program, block).Some?
      ensures r.Ok? ==> r.value == PlaceAfterPrevious(program, block).value
    {
      if block == 0 {
        return Ok(DEFAULT_ORIGIN);
      }
      if block > |program.blocks| || program.blocks[block - 1].address.None? {
        return Panic;
      }
      var previous := program.blocks[block - 1];
      match OffsetFromOrigin(previous.address.value, previous.size) {
        case Some(place) => r := Ok(place);
        case None => r := BlockTooLarge(block - 1);
      }
    }

    method EvaluateNormalSymbol(name: Name, ctx: Context, ghost world: set<Entry>) returns (r: Result)
      requires Ready(world, ctx.scope, {}, {Lookup(name, ctx.scope)})
      modifies this
      ensures Done(program, old(Now()), Now(), {Lookup(name, ctx.scope)}, Rho()(name, ctx), r)
      decreases DefinedNames(world) - dependsOn, 0, 1
    {
      hide Done;
      hide Dependencies;
      ghost var before, l := Now(), Lookup(name, ctx.scope);
      depsInOrder := depsInOrder + [name];
      if name in dependsOn {
        LoopDone(program, before, l, Rho()(name, ctx));
        return DefinitionLoop(depsInOrder);
      }
      dependsOn, lookups := dependsOn + {name}, lookups + [l];
      assert Now() == Push(before, l);
      r := LookUp(name, before.lookups, ctx, world);
      PopDone(program, before, Now(), l, Rho()(name, ctx), r);
      ghost var after := Now();
      depsInOrder := depsInOrder[..|depsInOrder| - 1];
      dependsOn, lookups := dependsOn - {name}, lookups[..|lookups| - 1];
      assert Now() == Pop(after, l);
    }

    /** The value of a name that has just been pushed: its definition's, or a default. */
    method LookUp(name: Name, ghost below: seq<Lookup>, ctx: Context, ghost world: set<Entry>) returns (r: Result)
      requires GoodStack(program, below) && Needed(program, below, {Lookup(name, ctx.scope)}) && name !in NamesOf(below)
      requires lookups == below + [Lookup(name, ctx.scope)] && depsInOrder == NamesOf(below) + [name]
      requires dependsOn == Elements(NamesOf(below)) + {name} && indexRegistersUsed < 64
      requires Closed(program, world) && From(world, ctx.scope)
      modifies this
      ensures Done(program, old(Now()), Now(), Dependencies(program, Lookup(name, ctx.scope)),
                Rho()(name, ctx), r)
      decreases DefinedNames(world) - Elements(NamesOf(below)), 0, 0
    {
      hide Done;
      ghost var l := Lookup(name, ctx.scope);
      if name in ctx.scope {
        var def := ctx.scope[name];
        assert (name, def) in world && (name, def).0 in DefinedNames(world);
        PushDefinedName(program, below, l);
        PushGrowsStack(NamesOf(below), name);
        assert depsInOrder == NamesOf(lookups);
        r := EvaluateDefinition(def, ctx, world);
      } else {
        r := FetchOrAssignDefault(name);
        DefaultDone(program, old(Now()), Now(), DefaultValue(program, table, name), r);
        assert Dependencies(program, l) == {};
      }
      SenseUnfolds(program, table, name, ctx);
    }

    method EvaluateDefinition(def: Definition, ctx: Context, ghost world: set<Entry>) returns (r: Result)
      requires Ready(world, ctx.scope, DefinitionEntries(def), DefinitionLookups(program, def, ctx.scope))
      modifies this
      ensures Done(program, old(Now()), Now(), DefinitionLookups(program, def, ctx.scope),
                EvalDefinition(program, def, Rho(), ctx), r)
      decreases DefinedNames(world) - dependsOn, 5
    {
      match def {
        case Address(a) =>
          r := Ok(a);
          assert updates == old(updates) + [];
        case UndeducedOrigin =>
          r := Panic;
        case OriginExpression(expr) =>
          r := EvaluateExpr(expr, ctx, world);
        case Equality(word) =>
          r := EvaluateFragments(0, word, ctx, world);
        case Tag(block, offset) =>
          r := EvaluateTag(block, offset, ctx, world);
      }
    }

    method EvaluateTag(block: nat, offset: Word18, ctx: Context, ghost world: set<Entry>) returns (r: Result)
      requires Ready(world, ctx.scope, {}, BlockLookups(program, block, ctx.scope))
      modifies this
      ensures Done(program, old(Now()), Now(), BlockLookups(program, block, ctx.scope),
                EvalDefinition(program, Tag(block, offset), Rho(), ctx), r)
      decreases DefinedNames(world) - dependsOn, 4
    {
      r := EvaluateBlock(block, ctx, world);
      if r.Ok? {
        var place := OffsetFromOrigin(r.value % 0x4_0000, offset);
        r := if place.Some? then Ok(place.value) else BlockTooLarge(block);
      }
    }

    method EvaluateBlock(block: nat, ctx: Context, ghost world: set<Entry>) returns (r: Result)
      requires Ready(world, ctx.scope, {}, BlockLookups(program, block, ctx.scope))
      modifies this
      ensures Done(program, old(Now()), Now(), BlockLookups(program, block, ctx.scope),
                EvalBlock(program, block, Rho(), ctx), r)
      decreases DefinedNames(world) - dependsOn, 3
    {
      if block >= |program.blocks| {
        return Panic;
      }
      assert BlockEntries(program.blocks[block]) <= world;
      match program.blocks[block].origin {
        case None =>
          r := PlaceWithoutOrigin(block);
          assert updates == old(updates) + [];
        case Some(AtAddress(a)) =>
          r := Ok(a);
          assert updates == old(updates) + [];
        case Some(AtSymbol(name)) =>
          r := EvaluateNormalSymbol(name, ctx, world);
        case Some(AtExpression(expr)) =>
          r := EvaluateExpr(expr, ctx, world);
      }
    }

    method EvaluateExpr(e: Expr, ctx: Context, ghost world: set<Entry>) returns (r: Result)
      requires Ready(world, ctx.scope, ExprEntries(e), ExprLookups(e, ctx.scope))
      modifies this
      ensures Done(program, old(Now()), Now(), ExprLookups(e, ctx.scope), EvalExpr(e, Rho(), ctx), r)
      decreases DefinedNames(world) - dependsOn, 2, e, 0
    {
      hide Fresh;
      hide LoopReport;
      r := EvaluateAtom(e.first, ctx, world);
      ghost var v, first, o := Now(), r, Signed(e.negated, EvalAtom(e.first, Rho(), ctx));
      if !r.Ok? {
        DoneFailing(program, old(Now()), v, AtomLookups(e.first, ctx.scope), TermLookups(e.tail, ctx.scope), o,
            EvalExpr(e, Rho(), ctx), r);
        return;
      }
      r := EvaluateTerms(if e.negated then Not(r.value) else r.value, e.tail, ctx, world);
      AtomLater(program, v.table, table, e.first, ctx);
      DoneTwice(program, old(Now()), v, Now(), AtomLookups(e.first, ctx.scope), TermLookups(e.tail, ctx.scope), o,
                EvalTerms(o.value, e.tail, Rho(), ctx), r);
    }

    method EvaluateTerms(acc: Word36, tail: seq<Term>, ctx: Context, ghost world: set<Entry>) returns (r: Result)
      requires Ready(world, ctx.scope, TermEntries(tail), TermLookups(tail, ctx.scope))
      modifies this
      ensures Done(program, old(Now()), Now(), TermLookups(tail, ctx.scope), EvalTerms(acc, tail, Rho(), ctx), r)
      decreases DefinedNames(world) - dependsOn, 2, tail, 0
    {
      hide Fresh;
      hide LoopReport;
      if tail == [] {
        DoneAtOnce(program, Now(), acc);
        return Ok(acc);
      }
      r := EvaluateStep(acc, tail[0], ctx, world);
      ghost var v, o := Now(), EvalStep(acc, tail[0], Rho(), ctx);
      if !r.Ok? {
        DoneFailing(program, old(Now()), v, OperandLookups(tail[0], ctx.scope), TermLookups(tail[1..], ctx.scope), o,
                    EvalTerms(acc, tail, Rho(), ctx), r);
        return;
      }
      r := EvaluateTerms(r.value, tail[1..], ctx, world);
      StepLater(program, v.table, table, acc, tail[0], ctx);
      DoneTwice(program, old(Now()), v, Now(), OperandLookups(tail[0], ctx.scope), TermLookups(tail[1..], ctx.scope), o,
                EvalTerms(o.value, tail[1..], Rho(), ctx), r);
    }

    method EvaluateStep(acc: Word36, t: Term, ctx: Context, ghost world: set<Entry>) returns (r: Result)
      requires Ready(world, ctx.scope, OperandEntries(t), OperandLookups(t, ctx.scope))
      modifies this
      ensures Done(program, old(Now()), Now(), OperandLookups(t, ctx.scope), EvalStep(acc, t, Rho(), ctx), r)
      decreases DefinedNames(world) - dependsOn, 2, t, 1
    {
      r := EvaluateOperand(t, ctx, world);
      if r.Ok? {
        var combined := EvalBinop(acc, t.op, r.value);
        r := if combined.Some? then Ok(combined.value) else Panic;
      }
    }

    method EvaluateOperand(t: Term, ctx: Context, ghost world: set<Entry>) returns (r: Result)
      requires Ready(world, ctx.scope, OperandEntries(t), OperandLookups(t, ctx.scope))
      modifies this
      ensures Done(program, old(Now()), Now(), OperandLookups(t, ctx.scope), EvalOperand(t, Rho(), ctx), r)
      decreases DefinedNames(world) - dependsOn, 2, t, 0
    {
      r := EvaluateAtom(t.atom, ctx, world);
      if r.Ok? && t.negated {
        r := Ok(Not(r.value));
      }
    }

    method EvaluateAtom(a: Atom, ctx: Context, ghost world: set<Entry>) returns (r: Result)
      requires Ready(world, ctx.scope, AtomEntries(a), AtomLookups(a, ctx.scope))
      modifies this
      ensures Done(program, old(Now()), Now(), AtomLookups(a, ctx.scope), EvalAtom(a, Rho(), ctx), r)
      decreases DefinedNames(world) - dependsOn, 2, a, 0
    {
      match a {
        case Symbol(script, name) =>
          r := EvaluateElevatedSymbol(name, script, ctx, world);
        case Literal(script, value) =>
          r := Ok(Elevate(value, script));
        case Here(script) =>
          r := if ctx.here.Some? then Ok(Elevate(ctx.here.value, script)) else HereNotAllowed;
        case Parens(_, inner) =>
          r := EvaluateExpr(inner, ctx, world);
        case AssembledWord(word) =>
          r := EvaluateFragments(0, word, ctx, world);
        case RcRef(locals, words) =>
          r := EvaluateRcRef(locals, words, ctx, world);
      }
    }

    method EvaluateElevatedSymbol(name: Name, script: Script, ctx: Context, ghost world: set<Entry>) returns (r: Result)
      requires Ready(world, ctx.scope, {}, {Lookup(name, ctx.scope)})
      modifies this
      ensures Done(program, old(Now()), Now(), {Lookup(name, ctx.scope)},
                EvalAtom(Symbol(script, name), Rho(), ctx), r)
      decreases DefinedNames(world) - dependsOn, 1, 0
    {
      r := EvaluateNormalSymbol(name, ctx, world);
      if r.Ok? {
        r := Ok(Elevate(r.value, script));
      }
    }

    /** The symbols of a macro expansion hide others of the same name; the result is the first address. */
    method EvaluateRcRef(locals: Scope, words: seq<RcWord>, ctx: Context, ghost world: set<Entry>) returns (r: Result)
      requires Ready(world, ctx.scope, locals.Items + RcEntries(words), RcLookups(words, ctx.scope + locals))
      modifies this
      ensures Done(program, old(Now()), Now(), RcLookups(words, ctx.scope + locals),
                EvalAtom(RcRef(locals, words), Rho(), ctx), r)
      decreases DefinedNames(world) - dependsOn, 2, words, 1
    {
      hide Done;
      if words == [] {
        NothingDone(program, Now(), RcLookups(words, ctx.scope + locals));
        return Panic;
      }
      LocalsAreFrom(world, ctx.scope, locals);
      ghost var looks := RcLookups(words, ctx.scope + locals);
      r := EvaluateRcWords(words, ctx.scope + locals, world);
      ghost var o, inner := EvalRcWords(words, Rho(), ctx.scope + locals), r;
      ghost var o' := if o.Failed? then Failed else Valued(words[0].address, o.updates);
      assert o' == EvalAtom(RcRef(locals, words), Rho(), ctx);
      DoneIsValued(program, old(Now()), Now(), looks, o, r);
      if r.Ok? {
        r := Ok(words[0].address);
      }
      DoneMapped(program, old(Now()), Now(), looks, o, inner, o', r);
    }

    method EvaluateRcWords(words: seq<RcWord>, scope: Scope, ghost world: set<Entry>) returns (r: Result)
      requires Ready(world, scope, RcEntries(words), RcLookups(words, scope))
      modifies this
      ensures Done(program, old(Now()), Now(), RcLookups(words, scope), EvalRcWords(words, Rho(), scope), r)
      decreases DefinedNames(world) - dependsOn, 2, words, 0
    {
      hide Fresh;
      hide LoopReport;
      if words == [] {
        DoneAtOnce(program, Now(), 0);
        return Ok(0);
      }
      r := EvaluateRcWord(words[0], scope, world);
      ghost var v, o := Now(), EvalRcWord(words[0], Rho(), scope);
      if !r.Ok? {
        DoneFailing(program, old(Now()), v, RcWordLookups(words[0], scope), RcLookups(words[1..], scope), o,
                    EvalRcWords(words, Rho(), scope), r);
        return;
      }
      r := EvaluateRcWords(words[1..], scope, world);
      RcWordLater(program, v.table, table, words[0], scope);
      DoneTwice(program, old(Now()), v, Now(), RcWordLookups(words[0], scope), RcLookups(words[1..], scope), o,
                EvalRcWords(words[1..], Rho(), scope), r);
    }

    /** The value goes to the address that the word was given, and the address is the result. */
    method EvaluateRcWord(w: RcWord, scope: Scope, ghost world: set<Entry>) returns (r: Result)
      requires Ready(world, scope, RcWordEntries(w), RcWordLookups(w, scope))
      modifies this
      ensures Done(program, old(Now()), Now(), RcWordLookups(w, scope), EvalRcWord(w, Rho(), scope), r)
      decreases DefinedNames(world) - dependsOn, 2, w, 0
    {
      hide Done;
      ghost var inner := Context(Some(w.address), scope);
      r := EvaluateFragments(0, w.word, Context(Some(w.address), scope), world);
      ghost var o := EvalFragments(0, w.word, Rho(), inner);
      DoneIsValued(program, old(Now()), Now(), RcWordLookups(w, scope), o, r);
      if r.Ok? {
        DoneUpdating(program, old(Now()), Now(), RcWordLookups(w, scope), o, r.value, w.address);
        updates := updates + [(w.address, r.value)];
        r := Ok(w.address);
      } else {
        DoneMapped(program, old(Now()), Now(), RcWordLookups(w, scope), o, r, EvalRcWord(w, Rho(), scope), r);
      }
    }

    method EvaluateFragments(acc: Word36, word: seq<Fragment>, ctx: Context, ghost world: set<Entry>)
      returns (r: Result)
      requires Ready(world, ctx.scope, WordEntries(word), WordLookups(word, ctx.scope))
      modifies this
      ensures Done(program, old(Now()), Now(), WordLookups(word, ctx.scope),
                EvalFragments(acc, word, Rho(), ctx), r)
      decreases DefinedNames(world) - dependsOn, 2, word, 0
    {
      hide Fresh;
      hide LoopReport;
      if word == [] {
        DoneAtOnce(program, Now(), acc);
        return Ok(acc);
      }
      r := EvaluateFragment(word[0], ctx, world);
      ghost var v, o := Now(), EvalFragment(word[0], Rho(), ctx);
      if !r.Ok? {
        DoneFailing(program, old(Now()), v, FragmentLookups(word[0], ctx.scope), WordLookups(word[1..], ctx.scope), o,
                    EvalFragments(acc, word, Rho(), ctx), r);
        return;
      }
      r := EvaluateFragments(Union(acc, r.value), word[1..], ctx, world);
      FragmentLater(program, v.table, table, word[0], ctx);
      DoneTwice(program, old(Now()), v, Now(), FragmentLookups(word[0], ctx.scope), WordLookups(word[1..], ctx.scope),
                o, EvalFragments(Union(acc, o.value), word[1..], Rho(), ctx), r);
    }

    method EvaluateFragment(f: Fragment, ctx: Context, ghost world: set<Entry>) returns (r: Result)
      requires Ready(world, ctx.scope, FragmentEntries(f), FragmentLookups(f, ctx.scope))
      modifies this
      ensures Done(program, old(Now()), Now(), FragmentLookups(f, ctx.scope), EvalFragment(f, Rho(), ctx), r)
      decreases DefinedNames(world) - dependsOn, 2, f, 0
    {
      r := EvaluateBody(f.body, ctx, world);
      if r.Ok? {
        r := Ok(CommaTransform(f.leading, WithHold(r.value, f.hold), f.trailing));
      }
    }

    method EvaluateBody(b: Body, ctx: Context, ghost world: set<Entry>) returns (r: Result)
      requires Ready(world, ctx.scope, BodyEntries(b), BodyLookups(b, ctx.scope))
      modifies this
      ensures Done(program, old(Now()), Now(), BodyLookups(b, ctx.scope), EvalBody(b, Rho(), ctx), r)
      decreases DefinedNames(world) - dependsOn, 2, b, 1
    {
      match b {
        case Null =>
          r := Ok(0);
        case Arithmetic(expr) =>
          r := EvaluateExpr(expr, ctx, world);
        case DeferredAddressing =>
          r := Ok(DEFER_BIT);
        case Config(alreadySuper, value) =>
          r := EvaluateExpr(value, ctx, world);
          if r.Ok? {
            r := Ok(ConfigField(r.value, alreadySuper));
          }
        case Pipe(index, target) =>
          r := EvaluatePipe(index, target, ctx, world);
      }
    }

    method EvaluatePipe(index: Expr, target: RcWord, ctx: Context, ghost world: set<Entry>) returns (r: Result)
      requires Ready(world, ctx.scope, BodyEntries(Pipe(index, target)), BodyLookups(Pipe(index, target), ctx.scope))
      modifies this
      ensures Done(program, old(Now()), Now(), BodyLookups(Pipe(index, target), ctx.scope),
                EvalBody(Pipe(index, target), Rho(), ctx), r)
      decreases DefinedNames(world) - dependsOn, 2, Pipe(index, target), 0
    {
      hide Fresh;
      hide LoopReport;
      r := EvaluateExpr(index, ctx, world);
      ghost var v, o := Now(), EvalExpr(index, Rho(), ctx);
      if !r.Ok? {
        DoneFailing(program, old(Now()), v, ExprLookups(index, ctx.scope), RcWordLookups(target, ctx.scope), o,
                    EvalBody(Pipe(index, target), Rho(), ctx), r);
        return;
      }
      var p := r.value;
      r := EvaluateRcWord(target, ctx.scope, world);
      ExprLater(program, v.table, table, index, ctx);
      DoneTwice(program, old(Now()), v, Now(), ExprLookups(index, ctx.scope), RcWordLookups(target, ctx.scope), o,
                EvalRcWord(target, Rho(), ctx.scope), r);
      if r.Ok? {
        r := Ok(Union(Union(p, r.value), DEFER_BIT));
      }
    }
  }
}
