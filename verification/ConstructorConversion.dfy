/** The provided template constructors, converted: each converts exactly when its symbols are in the alphabet and its
    size is within the budgets, and then the converted program has exactly the constructor's relation. */
module ConstructorConversion {
  import opened Wrappers
  import opened Collections
  import opened Graphs
  import opened StackMachine
  import opened StackTemplates
  import opened TemplateConversion

  // ----- Graphs whose edges go forward -----

  lemma {:induction false} ForwardWalk(g: Graph, path: seq<nat>, i: nat)
    requires forall s, t :: 0 <= s < |g| && t in g[s] ==> s < t
    requires Walk(g, path) && 0 < i < |path|
    ensures path[0] < path[i]
  {
    if i > 1 {
      ForwardWalk(g, path, i - 1);
    }
    assert path[i - 1 + 1] in g[path[i - 1]];
  }

  lemma ForwardIsAcyclic(g: Graph)
    requires forall s, t :: 0 <= s < |g| && t in g[s] ==> s < t
    ensures Acyclic(g)
  {
    forall path | Walk(g, path) && |path| >= 2 ensures path[0] != path[|path| - 1] {
      ForwardWalk(g, path, |path| - 1);
    }
  }

  // ----- Shapes of the constructors' phases -----

  predicate InAlphabet(word: seq<nat>, symbols: nat) {
    forall i :: 0 <= i < |word| ==> word[i] < symbols
  }

  ghost predicate LabelsInAlphabet(labels: seq<StackLabel>, symbols: nat) {
    forall i :: 0 <= i < |labels| && labels[i].Sym? ==> labels[i].symbol < symbols
  }

  /** A phase of which every state has at most one transition, to the next state. */
  ghost predicate IsChain(p: StackDfa, labels: seq<StackLabel>) {
    && p.start == 0 && |p.states| == |labels| + 1 && p.states[|labels|].transitions == []
    && forall i :: 0 <= i < |labels| ==> p.states[i].transitions == [StackTransition(labels[i], i + 1)]
  }

  lemma ChainWellFormed(p: StackDfa, labels: seq<StackLabel>, mode: Mode, symbols: nat)
    requires IsChain(p, labels)
    ensures WellFormed(p, mode, symbols) <==> LabelsInAlphabet(labels, symbols) && (mode == Pop || Default !in labels)
  {
    forall i | 0 <= i < |labels| ensures p.states[i].transitions[0] == StackTransition(labels[i], i + 1) {
    }
    forall s, t | 0 <= s < |p.states| && t in InputGraph(p)[s] ensures s < t {
      var e :| e in p.states[s].transitions && e.target == t;
    }
    ForwardIsAcyclic(InputGraph(p));
  }

  lemma {:induction false} ChainEdges(p: StackDfa, labels: seq<StackLabel>, n: nat)
    requires IsChain(p, labels) && n <= |labels|
    ensures EdgeCount(p.states[..n]) == n
  {
    if n > 0 {
      ChainEdges(p, labels, n - 1);
      OneLonger(p.states, n - 1);
      SumOneMore(EdgesFrom(), p.states[..n - 1], p.states[n - 1]);
    }
  }

  lemma ChainSize(p: StackDfa, labels: seq<StackLabel>)
    requires IsChain(p, labels)
    ensures EdgeCount(p.states) == |labels|
  {
    ChainEdges(p, labels, |labels|);
    SumOneMore(EdgesFrom(), p.states[..|labels|], p.states[|labels|]);
    LastApart(p.states);
  }

  lemma PushWord(push: seq<nat>, symbols: nat)
    ensures WellFormed(WordDfa(Symbols(push)), Push, symbols) <==> InAlphabet(push, symbols)
    ensures EdgeCount(WordDfa(Symbols(push)).states) == |push| && |WordDfa(Symbols(push)).states| == |push| + 1
  {
    ChainWellFormed(WordDfa(Symbols(push)), Symbols(push), Push, symbols);
    assert forall i :: 0 <= i < |push| ==> Symbols(push)[i] == Sym(push[i]);
    ChainSize(WordDfa(Symbols(push)), Symbols(push));
  }

  lemma SingleState(accepting: bool, mode: Mode, symbols: nat)
    ensures WellFormed(StackDfa(0, [StackState(accepting, [])]), mode, symbols)
    ensures EdgeCount([StackState(accepting, [])]) == 0
  {
    var p := StackDfa(0, [StackState(accepting, [])]);
    ChainWellFormed(p, [], mode, symbols);
    ChainSize(p, []);
  }

  /** A state with tests of the top, and the state that all of them lead to. */
  ghost predicate IsTests(p: StackDfa, sorted: seq<nat>) {
    && p.start == 0 && |p.states| == 2 && p.states[1].transitions == [] && |p.states[0].transitions| == |sorted|
    && forall i :: 0 <= i < |sorted| ==> p.states[0].transitions[i] == StackTransition(Sym(sorted[i]), 1)
  }

  lemma TestsAcyclic(p: StackDfa, sorted: seq<nat>)
    requires IsTests(p, sorted)
    ensures Acyclic(InputGraph(p))
  {
    forall s, t | 0 <= s < |p.states| && t in InputGraph(p)[s] ensures s < t {
      var e :| e in p.states[s].transitions && e.target == t;
    }
    ForwardIsAcyclic(InputGraph(p));
  }

  lemma TestsWellFormed(p: StackDfa, sorted: seq<nat>, symbols: nat)
    requires IsTests(p, sorted) && forall i, j :: 0 <= i < j < |sorted| ==> sorted[i] < sorted[j]
    ensures WellFormed(p, Read, symbols) <==> InAlphabet(sorted, symbols)
  {
    TestsAcyclic(p, sorted);
    if WellFormed(p, Read, symbols) {
      forall i | 0 <= i < |sorted| ensures sorted[i] < symbols {
        assert p.states[0].transitions[i].on == Sym(sorted[i]);
      }
    }
  }

  lemma TestsSize(p: StackDfa, sorted: seq<nat>)
    requires IsTests(p, sorted)
    ensures EdgeCount(p.states) == |sorted|
  {
    var first, second := p.states[..1], p.states[..0];
    OneLonger(p.states, 0);
    SumOneMore(EdgesFrom(), second, p.states[0]);
    OneLonger(p.states, 1);
    SumOneMore(EdgesFrom(), first, p.states[1]);
    LastApart(p.states);
  }

  // ----- What the constructors' templates need -----

  lemma PlainTemplatesFit(symbols: nat)
    ensures WellFormedTemplate(RejectTemplate(), symbols) && StatesOf(RejectTemplate()) == 3 && EdgesIn(RejectTemplate()) == 0
    ensures WellFormedTemplate(IdentityTemplate(), symbols) && StatesOf(IdentityTemplate()) == 3 && EdgesIn(IdentityTemplate()) == 0
  {
    SingleState(true, Pop, symbols);
    SingleState(false, Pop, symbols);
    SingleState(false, Read, symbols);
    SingleState(false, Push, symbols);
  }

  lemma RewriteFits(pop: seq<StackLabel>, push: seq<nat>, symbols: nat)
    ensures var t := RewriteTemplate(pop, push);
            && (WellFormedTemplate(t, symbols) <==> LabelsInAlphabet(pop, symbols) && InAlphabet(push, symbols))
            && StatesOf(t) == |pop| + |push| + 3 && EdgesIn(t) == |pop| + |push|
  {
    var t := RewriteTemplate(pop, push);
    ChainWellFormed(t.pop, pop, Pop, symbols);
    ChainSize(t.pop, pop);
    PushWord(push, symbols);
    SingleState(false, Read, symbols);
  }

  lemma TopTestFits(sorted: seq<nat>, push: seq<nat>, symbols: nat)
    requires forall i, j :: 0 <= i < j < |sorted| ==> sorted[i] < sorted[j]
    ensures var t := TopTestTemplate(sorted, push);
            && (WellFormedTemplate(t, symbols) <==> InAlphabet(sorted, symbols) && InAlphabet(push, symbols))
            && StatesOf(t) == |push| + 4 && EdgesIn(t) == |sorted| + |push|
  {
    var p := TopTestTemplate(sorted, push).read;
    TestsWellFormed(p, sorted, symbols);
    TestsSize(p, sorted);
    PushWord(push, symbols);
    SingleState(false, Pop, symbols);
  }

  // ----- From the constructor to the converted program -----

  /** The relation of a converted template. */
  ghost predicate ConvertedEmits(converted: CommitTemplates, symbols: nat, stack: Stack, out: Stack) {
    Emits(FastMachine(converted, symbols), stack, out)
  }

  /** The identity terminal converts whenever three states are left, and emits its input. */
  method ConvertIdentity(symbols: nat, budget: Budget) returns (r: Result<CommitTemplates>)
    requires symbols < DEFAULT_LABEL
    modifies budget
    ensures r.Success? <==> old(budget.statesLeft) >= 3
    ensures r.Success? ==> forall stack, out :: ConvertedEmits(r.value, symbols, stack, out) <==> out == stack
  {
    PlainTemplatesFit(symbols);
    r := Convert(IdentityTemplate(), symbols, budget);
    if r.Success? {
      forall stack, out ensures ConvertedEmits(r.value, symbols, stack, out) <==> out == stack {
        IdentityEmitsItself(stack, out);
      }
    }
  }

  /** The reject terminal converts whenever three states are left, and emits nothing. */
  method ConvertReject(symbols: nat, budget: Budget) returns (r: Result<CommitTemplates>)
    requires symbols < DEFAULT_LABEL
    modifies budget
    ensures r.Success? <==> old(budget.statesLeft) >= 3
    ensures r.Success? ==> forall stack, out :: !ConvertedEmits(r.value, symbols, stack, out)
  {
    PlainTemplatesFit(symbols);
    r := Convert(RejectTemplate(), symbols, budget);
    if r.Success? {
      forall stack, out ensures !ConvertedEmits(r.value, symbols, stack, out) {
        RejectEmitsNothing(stack, out);
      }
    }
  }

  /** A rewrite converts exactly when its symbols are in the alphabet and its words fit the budgets; then it replaces
      a matching top-first prefix by the suffix, as the constructor promises. */
  method ConvertRewrite(pop: seq<StackLabel>, push: seq<nat>, symbols: nat, budget: Budget) returns (r: Result<CommitTemplates>)
    requires symbols < DEFAULT_LABEL
    modifies budget
    ensures r.Success? <==>
              && (forall i :: 0 <= i < |pop| && pop[i].Sym? ==> pop[i].symbol < symbols) && (forall i :: 0 <= i < |push| ==> push[i] < symbols)
              && |pop| + |push| + 3 <= old(budget.statesLeft) && |pop| + |push| <= old(budget.edgesLeft)
    ensures r.Success? ==> forall stack, out :: ConvertedEmits(r.value, symbols, stack, out) <==> RewritesTo(pop, push, stack, out)
  {
    RewriteFits(pop, push, symbols);
    var t := Rewrite(pop, push);
    r := Convert(t, symbols, budget);
  }

  /** A test of the top converts exactly when its symbols are in the alphabet and fit the budgets, repeated tops
      counted once; then it passes the stacks with such a top and puts the suffix above it. */
  method ConvertReadTopAndPush(tops: seq<nat>, push: seq<nat>, symbols: nat, budget: Budget) returns (r: Result<CommitTemplates>)
    requires symbols < DEFAULT_LABEL
    modifies budget
    ensures r.Success? <==>
              && (forall i :: 0 <= i < |tops| ==> tops[i] < symbols) && (forall i :: 0 <= i < |push| ==> push[i] < symbols)
              && |push| + 4 <= old(budget.statesLeft) && |Elements(tops)| + |push| <= old(budget.edgesLeft)
    ensures r.Success? ==> forall stack, out :: ConvertedEmits(r.value, symbols, stack, out) <==> stack != [] && Top(stack) in tops && out == stack + push
  {
    var t;
    ghost var sorted;
    t, sorted := ReadTopAndPush(tops, push);
    TopTestFits(sorted, push, symbols);
    SortedTops(tops, sorted, symbols);
    r := Convert(t, symbols, budget);
  }

  lemma SortedTops(tops: seq<nat>, sorted: seq<nat>, symbols: nat)
    requires (forall x :: x in sorted <==> x in tops) && forall i, j :: 0 <= i < j < |sorted| ==> sorted[i] < sorted[j]
    ensures InAlphabet(sorted, symbols) <==> InAlphabet(tops, symbols)
    ensures |sorted| == |Elements(tops)|
  {
    DistinctSize(sorted, Elements(tops));
    assert forall i :: 0 <= i < |tops| ==> tops[i] in sorted;
    assert forall i :: 0 <= i < |sorted| ==> sorted[i] in tops;
  }
}
