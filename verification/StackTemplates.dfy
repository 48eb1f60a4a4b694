/** Provider-side stack templates: one POP/READ/PUSH relation per terminal, the constructors for common
    relations, and what sequences of terminals do to the one-symbol start stack `[0]`. */
module StackTemplates {
  import opened Wrappers
  import opened Collections
  import opened StackMachine

  datatype StackLabel = Sym(symbol: nat) | Default

  datatype StackTransition = StackTransition(on: StackLabel, target: nat)

  datatype StackState = StackState(accepting: bool, transitions: seq<StackTransition>)

  datatype StackDfa = StackDfa(start: nat, states: seq<StackState>)

  datatype StackTemplate = StackTemplate(
    pop: StackDfa, read: StackDfa, push: StackDfa,
    popToRead: seq<Option<nat>>, popToPush: seq<Option<nat>>, readToPush: seq<Option<nat>>)

  // ----- The program a template denotes -----

  /** The first transition on a label wins; validation rejects a second one. */
  function EdgesOf(transitions: seq<StackTransition>): map<nat, nat> {
    if transitions == [] then map[]
    else
      var rest := EdgesOf(transitions[1..]);
      match transitions[0].on
      case Sym(x) => rest[x := transitions[0].target]
      case Default => rest
  }

  function DefaultOf(transitions: seq<StackTransition>): Option<nat> {
    if transitions == [] then None
    else if transitions[0].on == Default then Some(transitions[0].target)
    else DefaultOf(transitions[1..])
  }

  function RowOf(state: StackState): Row {
    Row(state.accepting, EdgesOf(state.transitions), DefaultOf(state.transitions))
  }

  function PhaseView(dfa: StackDfa): Phase {
    Phase(dfa.start, seq(|dfa.states|, i requires 0 <= i < |dfa.states| => RowOf(dfa.states[i])))
  }

  function View(t: StackTemplate): Machine {
    Machine(PhaseView(t.pop), PhaseView(t.read), PhaseView(t.push), t.popToRead, t.popToPush, t.readToPush)
  }

  // ----- Label words of one phase graph -----

  ghost predicate AcceptsWord(dfa: StackDfa, state: nat, word: seq<StackLabel>)
    decreases |word|
  {
    state < |dfa.states| &&
    if word == [] then dfa.states[state].accepting
    else exists i :: 0 <= i < |dfa.states[state].transitions|
           && dfa.states[state].transitions[i].on == word[0]
           && AcceptsWord(dfa, dfa.states[state].transitions[i].target, word[1..])
  }

  // ----- Phase graph constructors -----

  const EMPTY_STATE := StackState(false, [])

  function RejectDfa(): StackDfa { StackDfa(0, [EMPTY_STATE]) }

  function AcceptDfa(): StackDfa { StackDfa(0, [StackState(true, [])]) }

  function WordState(labels: seq<StackLabel>, i: nat): StackState
    requires i <= |labels|
  {
    if i < |labels| then StackState(false, [StackTransition(labels[i], i + 1)]) else StackState(true, [])
  }

  function WordDfa(labels: seq<StackLabel>): StackDfa {
    StackDfa(0, seq(|labels| + 1, i requires 0 <= i <= |labels| => WordState(labels, i)))
  }

  /** The linear graph, built by hanging each new state off the last one; it accepts exactly `labels`. */
  method Word(labels: seq<StackLabel>) returns (dfa: StackDfa)
    ensures dfa == WordDfa(labels)
    ensures forall word :: AcceptsWord(dfa, dfa.start, word) <==> word == labels
  {
    var states := [EMPTY_STATE];
    for i := 0 to |labels|
      invariant |states| == i + 1 && states[i] == EMPTY_STATE
      invariant forall k :: 0 <= k < i ==> states[k] == WordState(labels, k)
    {
      var last := |states| - 1;
      var target := |states|;
      states := states[last := states[last].(transitions := states[last].transitions + [StackTransition(labels[i], target)])];
      states := states + [EMPTY_STATE];
    }
    var last := |states| - 1;
    states := states[last := states[last].(accepting := true)];
    dfa := StackDfa(0, states);
    forall word ensures AcceptsWord(dfa, 0, word) <==> word == labels {
      assert dfa == WordDfa(labels);
      WordLanguage(labels, 0, word);
      assert labels[0..] == labels;
    }
  }

  lemma {:induction false} WordLanguage(labels: seq<StackLabel>, i: nat, word: seq<StackLabel>)
    requires i <= |labels|
    ensures AcceptsWord(WordDfa(labels), i, word) <==> word == labels[i..]
    decreases |labels| - i
  {
    var dfa := WordDfa(labels);
    if word != [] && i < |labels| {
      WordLanguage(labels, i + 1, word[1..]);
      var transitions := dfa.states[i].transitions;
      assert transitions == [StackTransition(labels[i], i + 1)];
      if word == labels[i..] {
        assert word[1..] == labels[i + 1..];
        assert transitions[0].on == word[0] && AcceptsWord(dfa, transitions[0].target, word[1..]);
      }
      if AcceptsWord(dfa, i, word) {
        assert word[0] == labels[i] && word[1..] == labels[i + 1..];
        assert word == [word[0]] + word[1..] && labels[i..] == [labels[i]] + labels[i + 1..];
      }
    }
  }

  // ----- Template constructors -----

  function RejectTemplate(): StackTemplate {
    StackTemplate(RejectDfa(), RejectDfa(), RejectDfa(), [], [], [])
  }

  function IdentityTemplate(): StackTemplate {
    RejectTemplate().(pop := AcceptDfa())
  }

  /** The empty relation: no stack at all. */
  lemma RejectEmitsNothing(stack: Stack, out: Stack)
    ensures !Emits(View(RejectTemplate()), stack, out)
  {
    var m := View(RejectTemplate());
    EmitsUnfold(m, Start(m, stack), out);
  }

  /** The identity relation: the stack itself and nothing else. */
  lemma IdentityEmitsItself(stack: Stack, out: Stack)
    ensures Emits(View(IdentityTemplate()), stack, out) <==> out == stack
  {
    var m := View(IdentityTemplate());
    EmitsUnfold(m, Start(m, stack), out);
  }

  function Symbols(word: seq<nat>): seq<StackLabel> {
    seq(|word|, i requires 0 <= i < |word| => Sym(word[i]))
  }

  predicate MatchesTop(labels: seq<StackLabel>, stack: Stack) {
    |labels| <= |stack| && forall i :: 0 <= i < |labels| ==> labels[i] == Default || labels[i] == Sym(stack[|stack| - 1 - i])
  }

  predicate RewritesTo(pop: seq<StackLabel>, push: seq<nat>, stack: Stack, out: Stack) {
    MatchesTop(pop, stack) && out == stack[..|stack| - |pop|] + push
  }

  /** A POP word whose last state does not accept but links to the PUSH word. */
  ghost function RewriteTemplate(pop: seq<StackLabel>, push: seq<nat>): StackTemplate {
    RejectTemplate().(
      pop := StackDfa(0, WordDfa(pop).states[|pop| := EMPTY_STATE]),
      push := WordDfa(Symbols(push)),
      popToPush := seq(|pop|, _ => None) + [Some(0)])
  }

  /** Consume a top-first prefix, DEFAULT matching any symbol, then append a bottom-first suffix. */
  method Rewrite(pop: seq<StackLabel>, push: seq<nat>) returns (t: StackTemplate)
    ensures t == RewriteTemplate(pop, push)
    ensures forall stack, out :: Emits(View(t), stack, out) <==> RewritesTo(pop, push, stack, out)
  {
    var popDfa := Word(pop);
    var last := |popDfa.states| - 1;
    popDfa := popDfa.(states := popDfa.states[last := popDfa.states[last].(accepting := false)]);
    var links: seq<Option<nat>> := seq(|popDfa.states|, _ => None);
    links := links[last := Some(0)];
    var pushDfa := Word(Symbols(push));
    t := RejectTemplate().(pop := popDfa, push := pushDfa, popToPush := links);
    assert popDfa.states == WordDfa(pop).states[|pop| := EMPTY_STATE];
    assert links == RewriteTemplate(pop, push).popToPush;
    forall stack, out
      ensures Emits(View(t), stack, out) <==> RewritesTo(pop, push, stack, out)
    {
      forall i | 0 <= i < |pop| ensures RowOf(popDfa.states[i]) == RowOf(WordState(pop, i)) {
        assert popDfa.states[i] == WordState(pop, i);
      }
      PopWordEmits(View(t), pop, push, 0, stack, out);
      assert pop[0..] == pop;
    }
  }

  /** The single edge of a word state, as a row. */
  lemma WordRow(labels: seq<StackLabel>, i: nat)
    requires i < |labels|
    ensures RowOf(WordState(labels, i)).fallback == (if labels[i] == Default then Some(i + 1) else None)
    ensures RowOf(WordState(labels, i)).edges == (match labels[i] case Default => map[] case Sym(x) => map[x := i + 1])
    ensures !RowOf(WordState(labels, i)).accepting
  {
    var transitions := WordState(labels, i).transitions;
    assert transitions[1..] == [];
    assert EdgesOf(transitions[1..]) == map[] && DefaultOf(transitions[1..]) == None;
  }

  lemma {:induction false} PushWordEmits(m: Machine, push: seq<nat>, i: nat, stack: Stack, out: Stack)
    requires m.push == PhaseView(WordDfa(Symbols(push))) && i <= |push|
    ensures EmitsFrom(m, Config(Push, i, stack), out) <==> out == stack + push[i..]
    decreases |push| - i
  {
    var c := Config(Push, i, stack);
    EmitsUnfold(m, c, out);
    if i < |push| {
      WordRow(Symbols(push), i);
      assert m.push.rows[i] == RowOf(WordState(Symbols(push), i));
      var e := Config(Push, i + 1, stack + [push[i]]);
      assert Steps(m, c) == {e};
      PushWordEmits(m, push, i + 1, stack + [push[i]], out);
      assert stack + [push[i]] + push[i + 1..] == stack + push[i..];
    } else {
      assert m.push.rows[i] == RowOf(WordState(Symbols(push), i));
      assert Steps(m, c) == {};
      assert stack + push[i..] == stack;
    }
  }

  /** What `Rewrite` builds: a POP word whose last state links to the PUSH word and does not accept. */
  ghost predicate IsRewrite(m: Machine, pop: seq<StackLabel>, push: seq<nat>) {
    && |m.pop.rows| == |pop| + 1 == |m.popToPush| && m.popToRead == []
    && (forall i :: 0 <= i < |pop| ==> m.pop.rows[i] == RowOf(WordState(pop, i)) && m.popToPush[i] == None)
    && m.pop.rows[|pop|] == Row(false, map[], None) && m.popToPush[|pop|] == Some(0)
    && m.push == PhaseView(WordDfa(Symbols(push)))
  }

  lemma {:induction false} PopWordEmits(m: Machine, pop: seq<StackLabel>, push: seq<nat>, i: nat, stack: Stack, out: Stack)
    requires IsRewrite(m, pop, push) && i <= |pop|
    ensures EmitsFrom(m, Config(Pop, i, stack), out) <==> RewritesTo(pop[i..], push, stack, out)
    decreases |pop| - i
  {
    var c := Config(Pop, i, stack);
    EmitsUnfold(m, c, out);
    if i == |pop| {
      assert Steps(m, c) == {Config(Push, 0, stack)};
      PushWordEmits(m, push, 0, stack, out);
      assert push[0..] == push && stack[..|stack|] == stack;
    } else {
      WordRow(pop, i);
      var labels := pop[i..];
      assert labels[1..] == pop[i + 1..];
      if stack == [] || !(labels[0] == Default || labels[0] == Sym(Top(stack))) {
        assert Steps(m, c) == {};
        assert stack != [] ==> labels[0] != Sym(stack[|stack| - 1 - 0]);
      } else {
        assert Steps(m, c) == {Config(Pop, i + 1, Rest(stack))};
        PopWordEmits(m, pop, push, i + 1, Rest(stack), out);
        MatchesTopHead(labels, stack);
        assert |labels| <= |stack| ==> Rest(stack)[..|stack| - |labels|] == stack[..|stack| - |labels|];
      }
    }
  }

  lemma MatchesTopHead(labels: seq<StackLabel>, stack: Stack)
    requires labels != [] && stack != [] && (labels[0] == Default || labels[0] == Sym(Top(stack)))
    ensures MatchesTop(labels, stack) <==> MatchesTop(labels[1..], Rest(stack))
  {
    var rest := labels[1..];
    if MatchesTop(rest, Rest(stack)) {
      forall i | 0 <= i < |labels|
        ensures labels[i] == Default || labels[i] == Sym(stack[|stack| - 1 - i])
      {
        if i > 0 {
          assert rest[i - 1] == labels[i];
          assert Rest(stack)[|stack| - 1 - i] == stack[|stack| - 1 - i];
        }
      }
    }
    if MatchesTop(labels, stack) {
      forall i | 0 <= i < |rest|
        ensures rest[i] == Default || rest[i] == Sym(Rest(stack)[|stack| - 2 - i])
      {
        assert labels[i + 1] == rest[i];
      }
    }
  }

  // ----- Testing the top without consuming it -----

  predicate Least(s: set<nat>, x: nat) {
    x in s && forall y :: y in s ==> x <= y
  }

  /** A set's elements in ascending order. */
  method Ascending(items: set<nat>) returns (list: seq<nat>)
    ensures forall x :: x in list <==> x in items
    ensures forall i, j :: 0 <= i < j < |list| ==> list[i] < list[j]
  {
    list := [];
    var todo := items;
    while todo != {}
      invariant todo <= items && forall x :: x in items <==> x in list || x in todo
      invariant forall i, j :: 0 <= i < j < |list| ==> list[i] < list[j]
      invariant forall x, y :: x in list && y in todo ==> x < y
      decreases todo
    {
      LeastExists(todo);
      var least :| Least(todo, least);
      assert forall i :: 0 <= i < |list| ==> list[i] in list;
      list, todo := list + [least], todo - {least};
    }
  }

  lemma {:induction false} LeastExists(s: set<nat>)
    requires s != {}
    ensures exists x :: Least(s, x)
    decreases |s|
  {
    var x :| x in s;
    var rest := s - {x};
    assert s == rest + {x};
    if rest == {} {
      assert Least(s, x);
    } else {
      LeastExists(rest);
      var z :| Least(rest, z);
      assert Least(s, if x <= z then x else z);
    }
  }

  function TopTests(tops: seq<nat>): seq<StackTransition> {
    seq(|tops|, i requires 0 <= i < |tops| => StackTransition(Sym(tops[i]), 1))
  }

  lemma {:induction false} TopTestEdges(tops: seq<nat>)
    ensures forall x :: x in EdgesOf(TopTests(tops)) <==> x in tops
    ensures forall x :: x in EdgesOf(TopTests(tops)) ==> EdgesOf(TopTests(tops))[x] == 1
  {
    if tops != [] {
      TopTestEdges(tops[1..]);
      assert TopTests(tops)[1..] == TopTests(tops[1..]);
    }
  }

  lemma {:induction false} NoDefaultTests(tops: seq<nat>)
    ensures DefaultOf(TopTests(tops)) == None
  {
    if tops != [] {
      NoDefaultTests(tops[1..]);
      assert TopTests(tops)[1..] == TopTests(tops[1..]);
    }
  }

  const DEAD_ROW := Row(false, map[], None)

  /** What `ReadTopAndPush` builds: POP links at once to READ, whose tests lead to a state linked to the PUSH word. */
  ghost predicate IsTopTest(m: Machine, tops: seq<nat>, push: seq<nat>) {
    && m.pop == Phase(0, [DEAD_ROW]) && m.popToRead == [Some(0)] && m.popToPush == []
    && m.read == Phase(0, [Row(false, EdgesOf(TopTests(tops)), None), DEAD_ROW])
    && m.readToPush == [None, Some(0)] && m.push == PhaseView(WordDfa(Symbols(push)))
  }

  lemma TopTestEmits(m: Machine, tops: seq<nat>, push: seq<nat>, stack: Stack, out: Stack)
    requires IsTopTest(m, tops, push)
    ensures Emits(m, stack, out) <==> stack != [] && Top(stack) in tops && out == stack + push
  {
    var c, r0, r1, p := Start(m, stack), Config(Read, 0, stack), Config(Read, 1, stack), Config(Push, 0, stack);
    TopTestEdges(tops);
    EmitsUnfold(m, c, out);
    assert Steps(m, c) == {r0};
    EmitsUnfold(m, r0, out);
    assert Steps(m, r0) == if stack != [] && Top(stack) in tops then {r1} else {};
    EmitsUnfold(m, r1, out);
    assert Steps(m, r1) == {p};
    PushWordEmits(m, push, 0, stack, out);
    assert push[0..] == push;
  }

  /** POP links at once to READ, whose tests lead to a state that links to the PUSH word. */
  ghost function TopTestTemplate(sorted: seq<nat>, push: seq<nat>): StackTemplate {
    RejectTemplate().(
      read := StackDfa(0, [StackState(false, TopTests(sorted)), EMPTY_STATE]),
      push := WordDfa(Symbols(push)), popToRead := [Some(0)], readToPush := [None, Some(0)])
  }

  /** Passes only stacks whose top is one of `tops`, keeps that top, and puts `push` above it. */
  method ReadTopAndPush(tops: seq<nat>, push: seq<nat>) returns (t: StackTemplate, ghost sorted: seq<nat>)
    ensures t == TopTestTemplate(sorted, push) && (forall x :: x in sorted <==> x in tops)
    ensures forall i, j :: 0 <= i < j < |sorted| ==> sorted[i] < sorted[j]
    ensures forall stack, out :: Emits(View(t), stack, out) <==> stack != [] && Top(stack) in tops && out == stack + push
  {
    var list := Ascending(set x | x in tops);
    sorted := list;
    var read := RejectDfa();
    read := read.(states := read.states + [EMPTY_STATE]);
    read := read.(states := read.states[0 := read.states[0].(transitions := TopTests(list))]);
    var pushDfa := Word(Symbols(push));
    t := RejectTemplate().(read := read, push := pushDfa, popToRead := [Some(0)], readToPush := [None, Some(0)]);
    ghost var m := View(t);
    assert m.read.rows == [RowOf(read.states[0]), RowOf(read.states[1])];
    NoDefaultTests(sorted);
    forall stack, out
      ensures Emits(m, stack, out) <==> stack != [] && Top(stack) in tops && out == stack + push
    {
      TopTestEmits(m, sorted, push, stack, out);
    }
  }

  /** An explicit POP edge shadows DEFAULT even when it is dead: nothing is emitted through DEFAULT. */
  lemma ExplicitEdgeShadowsDefault(m: Machine, state: nat, stack: Stack, out: Stack)
    requires state < |m.pop.rows| && stack != [] && Top(stack) in m.pop.rows[state].edges
    requires !m.pop.rows[state].accepting && Link(m.popToRead, state) == None && Link(m.popToPush, state) == None
    ensures EmitsFrom(m, Config(Pop, state, stack), out) <==> EmitsFrom(m, Config(Pop, m.pop.rows[state].edges[Top(stack)], Rest(stack)), out)
  {
    var c := Config(Pop, state, stack);
    EmitsUnfold(m, c, out);
    assert Steps(m, c) == {Config(Pop, m.pop.rows[state].edges[Top(stack)], Rest(stack))};
  }

  // ----- Collections of terminals -----

  type Relation = (nat, Stack, Stack) -> bool

  /** Terminal `i` takes one stack to another. */
  ghost function EmitsOf(machines: seq<Machine>): Relation {
    (i: nat, from: Stack, to: Stack) => i < |machines| && Emits(machines[i], from, to)
  }

  /** `to` is one of the stacks after the terminals of `word`, in order, from `from`. */
  ghost predicate Advances(emits: Relation, word: seq<nat>, from: Stack, to: Stack)
    decreases |word|
  {
    if word == [] then from == to
    else exists mid :: emits(word[0], from, mid) && Advances(emits, word[1..], mid, to)
  }

  lemma {:induction false} AdvancesSplit(emits: Relation, a: seq<nat>, b: seq<nat>, from: Stack, to: Stack) returns (mid: Stack)
    requires Advances(emits, a + b, from, to)
    ensures Advances(emits, a, from, mid) && Advances(emits, b, mid, to)
    decreases |a|
  {
    if a == [] {
      assert a + b == b;
      mid := from;
    } else {
      assert (a + b)[1..] == a[1..] + b && (a + b)[0] == a[0];
      var first :| emits(a[0], from, first) && Advances(emits, a[1..] + b, first, to);
      mid := AdvancesSplit(emits, a[1..], b, first, to);
    }
  }

  lemma {:induction false} AdvancesJoin(emits: Relation, a: seq<nat>, b: seq<nat>, from: Stack, mid: Stack, to: Stack)
    requires Advances(emits, a, from, mid) && Advances(emits, b, mid, to)
    ensures Advances(emits, a + b, from, to)
    decreases |a|
  {
    if a == [] {
      assert a + b == b;
    } else {
      assert (a + b)[1..] == a[1..] + b && (a + b)[0] == a[0];
      var first :| emits(a[0], from, first) && Advances(emits, a[1..], first, mid);
      AdvancesJoin(emits, a[1..], b, first, mid, to);
    }
  }

  lemma IdentityIsInvisible(emits: Relation, ignored: nat, a: seq<nat>, b: seq<nat>, from: Stack, to: Stack)
    requires forall s, t :: emits(ignored, s, t) <==> t == s
    ensures Advances(emits, a + [ignored] + b, from, to) <==> Advances(emits, a + b, from, to)
  {
    var one := [ignored];
    assert one[1..] == [];
    if Advances(emits, a + one + b, from, to) {
      var after := AdvancesSplit(emits, a + one, b, from, to);
      var mid := AdvancesSplit(emits, a, one, from, after);
      AdvancesJoin(emits, a, b, from, mid, to);
    }
    if Advances(emits, a + b, from, to) {
      var mid := AdvancesSplit(emits, a, b, from, to);
      assert emits(one[0], mid, mid) && Advances(emits, one[1..], mid, mid);
      AdvancesJoin(emits, a, one, from, mid, mid);
      AdvancesJoin(emits, a + one, b, from, mid, to);
    }
  }

  /** An ignored terminal, whose relation is the identity, may appear anywhere without changing the reachable stacks. */
  lemma IgnoredTerminalIsInvisible(machines: seq<Machine>, ignored: nat, a: seq<nat>, b: seq<nat>, from: Stack, to: Stack)
    requires ignored < |machines| && machines[ignored] == View(IdentityTemplate())
    ensures Advances(EmitsOf(machines), a + [ignored] + b, from, to) <==> Advances(EmitsOf(machines), a + b, from, to)
  {
    forall s, t ensures EmitsOf(machines)(ignored, s, t) <==> t == s {
      IdentityEmitsItself(s, t);
    }
    IdentityIsInvisible(EmitsOf(machines), ignored, a, b, from, to);
  }

  ghost predicate GrowsBy(emits: Relation, growth: nat) {
    forall i, s, t :: emits(i, s, t) ==> |t| <= |s| + growth
  }

  lemma {:induction false} HeightAfterSteps(emits: Relation, growth: nat, word: seq<nat>, from: Stack, to: Stack)
    requires GrowsBy(emits, growth) && Advances(emits, word, from, to)
    ensures |to| <= |from| + |word| * growth
    decreases |word|
  {
    if word != [] {
      var mid :| emits(word[0], from, mid) && Advances(emits, word[1..], mid, to);
      HeightAfterSteps(emits, growth, word[1..], mid, to);
      assert |word| * growth == |word[1..]| * growth + growth;
    }
  }

  ghost function PushOf(growth: nat): Machine -> bool {
    m => Valid(m) && |m.push.rows| <= growth + 1
  }

  /** Every terminal's program is valid and has at most `growth + 1` PUSH states. */
  ghost predicate PushesAtMost(machines: seq<Machine>, growth: nat) {
    All(PushOf(growth), machines)
  }

  lemma TerminalsGrow(machines: seq<Machine>, growth: nat)
    requires PushesAtMost(machines, growth)
    ensures GrowsBy(EmitsOf(machines), growth)
  {
    forall i: nat, s, t | i < |machines| && Emits(machines[i], s, t) ensures |t| <= |s| + growth {
      AllAt(PushOf(growth), machines, i);
      HeightBounds(machines[i], s, t);
    }
  }

  /** After any number of terminals from `[0]`: one for the start symbol and at most `growth` for each terminal. */
  lemma HeightAfterTerminals(machines: seq<Machine>, growth: nat, word: seq<nat>, to: Stack)
    requires PushesAtMost(machines, growth)
    requires Advances(EmitsOf(machines), word, [0], to)
    ensures |to| <= 1 + |word| * growth
  {
    TerminalsGrow(machines, growth);
    HeightAfterSteps(EmitsOf(machines), growth, word, [0], to);
  }
}
