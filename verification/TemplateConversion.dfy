/** Validating conversion of stack templates to label automata under shared budgets. */
module TemplateConversion {
  import opened Wrappers
  import opened Collections
  import opened Graphs
  import opened Dfas
  import opened StackMachine
  import opened StackTemplates

  // ----- Label encoding -----

  /** `i32::MAX - 1` */
  const DEFAULT_LABEL: int := 0x7FFF_FFFE

  const I32_MIN: int := -0x8000_0000

  /** `i32::MIN.wrapping_add(symbol as i32)`, for any `u32` symbol. */
  function EncodeNegative(symbol: nat): int {
    I32_MIN + symbol
  }

  function EncodeSymbol(mode: Mode, symbol: nat): int {
    if mode == Push then EncodeNegative(symbol) else symbol
  }

  function EncodeLabel(mode: Mode, on: StackLabel): int {
    match on case Sym(x) => EncodeSymbol(mode, x) case Default => DEFAULT_LABEL
  }

  ghost predicate LegalLabel(mode: Mode, symbols: nat, on: StackLabel) {
    match on case Sym(x) => x < symbols case Default => mode == Pop
  }

  /** Within the alphabet the encoding separates symbols from each other and from DEFAULT. */
  lemma EncodingInjective(mode: Mode, symbols: nat, a: StackLabel, b: StackLabel)
    requires symbols < DEFAULT_LABEL && LegalLabel(mode, symbols, a) && LegalLabel(mode, symbols, b)
    ensures EncodeLabel(mode, a) == EncodeLabel(mode, b) <==> a == b
  {
  }

  /** `i32` arithmetic wraps. */
  function Wrap32(x: int): int {
    (x + 0x8000_0000) % 0x1_0000_0000 - 0x8000_0000
  }

  predicate IsNegative(encoded: int) {
    encoded < 0 && encoded != DEFAULT_LABEL
  }

  /** The symbol that the evaluators read off a PUSH label, `wrapping_sub(i32::MIN)`. */
  function NegativeToPositive(encoded: int): int {
    Wrap32(encoded - I32_MIN)
  }

  /** Labels are `i32` values from which the evaluators read back the phase's kind of label and the symbol. */
  lemma LabelsRoundTrip(mode: Mode, symbols: nat, on: StackLabel)
    requires symbols < DEFAULT_LABEL && LegalLabel(mode, symbols, on)
    ensures Wrap32(EncodeLabel(mode, on)) == EncodeLabel(mode, on)
    ensures IsNegative(EncodeLabel(mode, on)) <==> mode == Push
    ensures EncodeLabel(mode, on) == 0x7FFF_FFFE <==> on == Default
    ensures on.Sym? ==> on.symbol == if mode == Push then NegativeToPositive(EncodeLabel(mode, on)) else EncodeLabel(mode, on)
  {
  }

  /** The sum that the encoding stands for, for every `u32` symbol. */
  lemma EncodeWraps(symbol: nat)
    requires symbol < 0x1_0000_0000
    ensures EncodeNegative(symbol) == Wrap32(I32_MIN + Wrap32(symbol))
    ensures NegativeToPositive(EncodeNegative(symbol)) == Wrap32(symbol)
  {
  }

  // ----- Results -----

  datatype CommitTemplates = CommitTemplates(
    pop: Dfa, read: Dfa, push: Dfa,
    popToRead: seq<Option<nat>>, popToPush: seq<Option<nat>>, readToPush: seq<Option<nat>>)

  /** The budgets that all phases of all templates draw from. */
  class Budget {
    var statesLeft: nat
    var edgesLeft: nat

    constructor (states: nat, edges: nat)
      ensures statesLeft == states && edgesLeft == edges
    {
      statesLeft, edgesLeft := states, edges;
    }
  }

  // ----- What is accepted -----

  ghost predicate DistinctLabels(transitions: seq<StackTransition>) {
    forall i, j :: 0 <= i < j < |transitions| ==> transitions[i].on != transitions[j].on
  }

  ghost predicate LegalTransitions(transitions: seq<StackTransition>, states: nat, mode: Mode, symbols: nat) {
    forall i :: 0 <= i < |transitions| ==> transitions[i].target < states && LegalLabel(mode, symbols, transitions[i].on)
  }

  ghost predicate LegalState(state: StackState, states: nat, mode: Mode, symbols: nat) {
    LegalAndDistinct(state.transitions, states, mode, symbols)
  }

  function InputGraph(input: StackDfa): Graph {
    seq(|input.states|, i requires 0 <= i < |input.states| => set e | e in input.states[i].transitions :: e.target)
  }

  /** What a phase has to respect: a start state, targets that are states, symbols of the alphabet, DEFAULT in POP only, no
      label twice at a state, and no cycle. */
  ghost predicate WellFormed(input: StackDfa, mode: Mode, symbols: nat) {
    && input.start < |input.states|
    && (forall i, k :: 0 <= i < |input.states| && 0 <= k < |input.states[i].transitions| ==>
          input.states[i].transitions[k].target < |input.states| &&
          match input.states[i].transitions[k].on case Sym(x) => x < symbols case Default => mode == Pop)
    && (forall i, k, l :: 0 <= i < |input.states| && 0 <= k < l < |input.states[i].transitions| ==>
          input.states[i].transitions[k].on != input.states[i].transitions[l].on)
    && Acyclic(InputGraph(input))
  }

  ghost predicate LegalStates(input: StackDfa, mode: Mode, symbols: nat) {
    forall i :: 0 <= i < |input.states| ==> LegalState(input.states[i], |input.states|, mode, symbols)
  }

  lemma WellFormedStates(input: StackDfa, mode: Mode, symbols: nat)
    ensures WellFormed(input, mode, symbols) <==>
              input.start < |input.states| && LegalStates(input, mode, symbols) && Acyclic(InputGraph(input))
  {
    if LegalStates(input, mode, symbols) {
      forall i, k | 0 <= i < |input.states| && 0 <= k < |input.states[i].transitions|
        ensures input.states[i].transitions[k].target < |input.states|
        ensures LegalLabel(mode, symbols, input.states[i].transitions[k].on)
        ensures forall l :: k < l < |input.states[i].transitions| ==> input.states[i].transitions[k].on != input.states[i].transitions[l].on
      {
        assert LegalState(input.states[i], |input.states|, mode, symbols);
      }
    }
  }

  function EdgesFrom(): StackState -> nat {
    (s: StackState) => |s.transitions|
  }

  function EdgeCount(states: seq<StackState>): nat {
    Sum(EdgesFrom(), states)
  }

  // ----- The automaton built from an accepted phase -----

  function EncodeTransitions(transitions: seq<StackTransition>, mode: Mode): map<int, nat> {
    if transitions == [] then map[]
    else
      var last := transitions[|transitions| - 1];
      EncodeTransitions(transitions[..|transitions| - 1], mode)[EncodeLabel(mode, last.on) := last.target]
  }

  function EncodeDfa(input: StackDfa, mode: Mode): Dfa {
    Dfa(seq(|input.states|, i requires 0 <= i < |input.states| =>
          DfaState(input.states[i].accepting, EncodeTransitions(input.states[i].transitions, mode))),
        input.start)
  }

  /** Exactly the labels of the transitions are encoded, each with its target. */
  lemma {:induction false} EncodedLabels(transitions: seq<StackTransition>, states: nat, mode: Mode, symbols: nat)
    requires symbols < DEFAULT_LABEL && LegalTransitions(transitions, states, mode, symbols) && DistinctLabels(transitions)
    ensures forall i :: 0 <= i < |transitions| ==>
              EncodeLabel(mode, transitions[i].on) in EncodeTransitions(transitions, mode)
              && EncodeTransitions(transitions, mode)[EncodeLabel(mode, transitions[i].on)] == transitions[i].target
    ensures forall l :: l in EncodeTransitions(transitions, mode) ==>
              exists i :: 0 <= i < |transitions| && l == EncodeLabel(mode, transitions[i].on)
  {
    if transitions != [] {
      var last := |transitions| - 1;
      var init := transitions[..last];
      EncodedLabels(init, states, mode, symbols);
      forall i | 0 <= i < last
        ensures EncodeLabel(mode, transitions[i].on) != EncodeLabel(mode, transitions[last].on)
      {
        EncodingInjective(mode, symbols, transitions[i].on, transitions[last].on);
      }
      forall i | 0 <= i < |transitions|
        ensures EncodeLabel(mode, transitions[i].on) in EncodeTransitions(transitions, mode)
        ensures EncodeTransitions(transitions, mode)[EncodeLabel(mode, transitions[i].on)] == transitions[i].target
      {
        assert i < last ==> init[i] == transitions[i];
      }
      forall l | l in EncodeTransitions(transitions, mode)
        ensures exists i :: 0 <= i < |transitions| && l == EncodeLabel(mode, transitions[i].on)
      {
        if l != EncodeLabel(mode, transitions[last].on) {
          assert l in EncodeTransitions(init, mode);
          var i :| 0 <= i < |init| && l == EncodeLabel(mode, init[i].on);
          assert transitions[i] == init[i];
        }
      }
    }
  }

  /** A label is new to the automaton just when no earlier transition carries it. */
  lemma DuplicateCheck(transitions: seq<StackTransition>, next: StackTransition, states: nat, mode: Mode, symbols: nat)
    requires symbols < DEFAULT_LABEL && LegalTransitions(transitions + [next], states, mode, symbols) && DistinctLabels(transitions)
    ensures EncodeLabel(mode, next.on) !in EncodeTransitions(transitions, mode) <==> DistinctLabels(transitions + [next])
  {
    var all := transitions + [next];
    assert LegalTransitions(transitions, states, mode, symbols) by {
      assert forall i :: 0 <= i < |transitions| ==> all[i] == transitions[i];
    }
    assert all[|transitions|] == next;
    EncodedLabels(transitions, states, mode, symbols);
    forall i | 0 <= i < |transitions|
      ensures EncodeLabel(mode, transitions[i].on) == EncodeLabel(mode, next.on) <==> transitions[i].on == next.on
    {
      assert all[i] == transitions[i];
      EncodingInjective(mode, symbols, transitions[i].on, next.on);
    }
    if EncodeLabel(mode, next.on) in EncodeTransitions(transitions, mode) {
      var i :| 0 <= i < |transitions| && EncodeLabel(mode, next.on) == EncodeLabel(mode, transitions[i].on);
      assert all[i].on == all[|transitions|].on;
    }
  }

  ghost predicate LegalAndDistinct(transitions: seq<StackTransition>, states: nat, mode: Mode, symbols: nat) {
    LegalTransitions(transitions, states, mode, symbols) && DistinctLabels(transitions)
  }

  lemma PrefixLegal(transitions: seq<StackTransition>, n: nat, states: nat, mode: Mode, symbols: nat)
    requires n <= |transitions| && LegalAndDistinct(transitions, states, mode, symbols)
    ensures LegalAndDistinct(transitions[..n], states, mode, symbols)
  {
  }

  /** What one more transition changes: it is checked against those before it, and encoded. */
  lemma OneMoreTransition(transitions: seq<StackTransition>, next: StackTransition, states: nat, mode: Mode, symbols: nat)
    requires symbols < DEFAULT_LABEL && LegalAndDistinct(transitions, states, mode, symbols)
    ensures LegalAndDistinct(transitions + [next], states, mode, symbols) <==>
              next.target < states && LegalLabel(mode, symbols, next.on) && EncodeLabel(mode, next.on) !in EncodeTransitions(transitions, mode)
    ensures EncodeTransitions(transitions + [next], mode) == EncodeTransitions(transitions, mode)[EncodeLabel(mode, next.on) := next.target]
  {
    var all := transitions + [next];
    assert all[|transitions|] == next && all[..|all| - 1] == transitions;
    if next.target < states && LegalLabel(mode, symbols, next.on) {
      assert LegalTransitions(all, states, mode, symbols);
      DuplicateCheck(transitions, next, states, mode, symbols);
    }
  }

  method ConvertState(state: StackState, states: nat, mode: Mode, symbols: nat) returns (r: Result<map<int, nat>>)
    requires symbols < DEFAULT_LABEL
    ensures r.Success? <==> LegalState(state, states, mode, symbols)
    ensures r.Success? ==> r.value == EncodeTransitions(state.transitions, mode)
  {
    var edges := state.transitions;
    var transitions: map<int, nat> := map[];
    assert edges[..0] == [];
    for i := 0 to |edges|
      invariant LegalAndDistinct(edges[..i], states, mode, symbols) && transitions == EncodeTransitions(edges[..i], mode)
    {
      var edge := edges[i];
      OneLonger(edges, i);
      OneMoreTransition(edges[..i], edge, states, mode, symbols);
      if LegalState(state, states, mode, symbols) {
        PrefixLegal(edges, i + 1, states, mode, symbols);
      }
      if edge.target >= states {
        return Failure;
      }
      match edge.on {
        case Default =>
          if mode != Pop {
            return Failure;
          }
        case Sym(symbol) =>
          if symbol >= symbols {
            return Failure;
          }
      }
      var encoded := EncodeLabel(mode, edge.on);
      if encoded in transitions {
        return Failure;
      }
      transitions := transitions[encoded := edge.target];
    }
    assert edges[..|edges|] == edges;
    r := Success(transitions);
  }

  /** The states of a phase in order, each charged for its edges. */
  method ConvertStates(input: StackDfa, symbols: nat, mode: Mode, budget: Budget) returns (r: Result<seq<DfaState>>)
    requires symbols < DEFAULT_LABEL
    modifies budget`edgesLeft
    ensures r.Success? <==> LegalStates(input, mode, symbols) && EdgeCount(input.states) <= old(budget.edgesLeft)
    ensures r.Success? ==> r.value == EncodeDfa(input, mode).states && budget.edgesLeft == old(budget.edgesLeft) - EdgeCount(input.states)
  {
    var states: seq<DfaState> := [];
    assert input.states[..0] == [];
    for i := 0 to |input.states|
      invariant budget.edgesLeft == old(budget.edgesLeft) - EdgeCount(input.states[..i])
      invariant states == EncodeDfa(input, mode).states[..i]
      invariant forall k :: 0 <= k < i ==> LegalState(input.states[k], |input.states|, mode, symbols)
    {
      var state := input.states[i];
      OneLonger(input.states, i);
      SumOneMore(EdgesFrom(), input.states[..i], state);
      SumAt(EdgesFrom(), input.states, i);
      if budget.edgesLeft < |state.transitions| {
        return Failure;
      }
      budget.edgesLeft := budget.edgesLeft - |state.transitions|;
      var converted := ConvertState(state, |input.states|, mode, symbols);
      if converted.Failure? {
        return Failure;
      }
      states := states + [DfaState(state.accepting, converted.value)];
    }
    assert input.states[..|input.states|] == input.states;
    r := Success(states);
  }

  /** One phase: charge its states and edges, check every state, reject cycles. */
  method PhaseGraphOf(input: StackDfa, symbols: nat, mode: Mode, budget: Budget) returns (r: Result<Dfa>)
    requires symbols < DEFAULT_LABEL
    modifies budget
    ensures r.Success? <==> WellFormed(input, mode, symbols) && |input.states| <= old(budget.statesLeft) && EdgeCount(input.states) <= old(budget.edgesLeft)
    ensures r.Success? ==> r.value == EncodeDfa(input, mode)
    ensures r.Success? ==> budget.statesLeft == old(budget.statesLeft) - |input.states| && budget.edgesLeft == old(budget.edgesLeft) - EdgeCount(input.states)
  {
    WellFormedStates(input, mode, symbols);
    if input.states == [] || input.start >= |input.states| {
      return Failure;
    }
    if budget.statesLeft < |input.states| {
      return Failure;
    }
    budget.statesLeft := budget.statesLeft - |input.states|;
    var states := ConvertStates(input, symbols, mode, budget);
    if states.Failure? {
      return Failure;
    }
    var graph := Dfa(states.value, input.start);
    EncodedGraph(input, mode, symbols);
    var acyclic := ComputeIsAcyclic(graph);
    if !acyclic {
      return Failure;
    }
    r := Success(graph);
  }

  lemma EncodedGraph(input: StackDfa, mode: Mode, symbols: nat)
    requires symbols < DEFAULT_LABEL
    requires forall k :: 0 <= k < |input.states| ==> LegalState(input.states[k], |input.states|, mode, symbols)
    ensures SuccessorGraph(EncodeDfa(input, mode)) == InputGraph(input)
  {
    forall k | 0 <= k < |input.states|
      ensures SuccessorGraph(EncodeDfa(input, mode))[k] == InputGraph(input)[k]
    {
      var ts := input.states[k].transitions;
      EncodedLabels(ts, |input.states|, mode, symbols);
      forall t ensures t in SuccessorGraph(EncodeDfa(input, mode))[k] <==> t in InputGraph(input)[k] {
        if t in InputGraph(input)[k] {
          var i :| 0 <= i < |ts| && ts[i].target == t;
          assert EncodeTransitions(ts, mode)[EncodeLabel(mode, ts[i].on)] == t;
        }
        if t in SuccessorGraph(EncodeDfa(input, mode))[k] {
          var l :| l in EncodeTransitions(ts, mode) && EncodeTransitions(ts, mode)[l] == t;
          var i :| 0 <= i < |ts| && l == EncodeLabel(mode, ts[i].on);
          assert ts[i] in ts;
        }
      }
    }
  }

  // ----- A converted template denotes the same program -----

  /** The evaluator's row of an automaton state: symbols by their encoded labels, DEFAULT kept apart. */
  function FastRow(state: DfaState, mode: Mode, symbols: nat): Row {
    Row(state.accepting,
        map x: nat | x < symbols && EncodeSymbol(mode, x) in state.transitions :: state.transitions[EncodeSymbol(mode, x)],
        if DEFAULT_LABEL in state.transitions then Some(state.transitions[DEFAULT_LABEL]) else None)
  }

  function FastPhase(dfa: Dfa, mode: Mode, symbols: nat): Phase {
    Phase(dfa.start, seq(|dfa.states|, i requires 0 <= i < |dfa.states| => FastRow(dfa.states[i], mode, symbols)))
  }

  function FastMachine(t: CommitTemplates, symbols: nat): Machine {
    Machine(FastPhase(t.pop, Pop, symbols), FastPhase(t.read, Read, symbols), FastPhase(t.push, Push, symbols),
            t.popToRead, t.popToPush, t.readToPush)
  }

  lemma {:induction false} EdgesOfLabels(transitions: seq<StackTransition>)
    requires DistinctLabels(transitions)
    ensures forall x :: x in EdgesOf(transitions) <==> exists i :: 0 <= i < |transitions| && transitions[i].on == Sym(x)
    ensures forall i :: 0 <= i < |transitions| && transitions[i].on.Sym? ==>
              transitions[i].on.symbol in EdgesOf(transitions) && EdgesOf(transitions)[transitions[i].on.symbol] == transitions[i].target
    ensures DefaultOf(transitions).Some? <==> exists i :: 0 <= i < |transitions| && transitions[i].on == Default
    ensures forall i :: 0 <= i < |transitions| && transitions[i].on == Default ==> DefaultOf(transitions) == Some(transitions[i].target)
  {
    if transitions != [] {
      var rest := transitions[1..];
      assert forall i :: 0 <= i < |rest| ==> rest[i] == transitions[i + 1];
      EdgesOfLabels(rest);
      forall x
        ensures x in EdgesOf(transitions) <==> exists i :: 0 <= i < |transitions| && transitions[i].on == Sym(x)
      {
        if i :| 0 <= i < |rest| && rest[i].on == Sym(x) {
          assert transitions[i + 1].on == Sym(x);
        }
        if i :| 0 <= i < |transitions| && transitions[i].on == Sym(x) {
          assert i > 0 ==> rest[i - 1].on == Sym(x);
        }
      }
      if i :| 0 <= i < |rest| && rest[i].on == Default {
        assert transitions[i + 1].on == Default;
      }
      if i :| 0 <= i < |transitions| && transitions[i].on == Default {
        assert i > 0 ==> rest[i - 1].on == Default;
      }
      forall i | 0 <= i < |transitions|
        ensures transitions[i].on.Sym? ==> transitions[i].on.symbol in EdgesOf(transitions) && EdgesOf(transitions)[transitions[i].on.symbol] == transitions[i].target
        ensures transitions[i].on == Default ==> DefaultOf(transitions) == Some(transitions[i].target)
      {
        if i > 0 {
          assert rest[i - 1] == transitions[i] && transitions[0].on != transitions[i].on;
        }
      }
    }
  }

  lemma EdgePreserved(ts: seq<StackTransition>, states: nat, mode: Mode, symbols: nat, x: nat)
    requires symbols < DEFAULT_LABEL && LegalTransitions(ts, states, mode, symbols) && DistinctLabels(ts)
    ensures x in EdgesOf(ts) <==> x < symbols && EncodeSymbol(mode, x) in EncodeTransitions(ts, mode)
    ensures x in EdgesOf(ts) ==> EncodeTransitions(ts, mode)[EncodeSymbol(mode, x)] == EdgesOf(ts)[x]
  {
    EncodedLabels(ts, states, mode, symbols);
    EdgesOfLabels(ts);
    if x in EdgesOf(ts) {
      var i :| 0 <= i < |ts| && ts[i].on == Sym(x);
      assert EncodeLabel(mode, ts[i].on) == EncodeSymbol(mode, x);
    }
    if x < symbols && EncodeSymbol(mode, x) in EncodeTransitions(ts, mode) {
      var i :| 0 <= i < |ts| && EncodeSymbol(mode, x) == EncodeLabel(mode, ts[i].on);
      EncodingInjective(mode, symbols, Sym(x), ts[i].on);
    }
  }

  lemma DefaultPreserved(ts: seq<StackTransition>, states: nat, mode: Mode, symbols: nat)
    requires symbols < DEFAULT_LABEL && LegalTransitions(ts, states, mode, symbols) && DistinctLabels(ts)
    ensures DefaultOf(ts).Some? <==> DEFAULT_LABEL in EncodeTransitions(ts, mode)
    ensures DefaultOf(ts).Some? ==> EncodeTransitions(ts, mode)[DEFAULT_LABEL] == DefaultOf(ts).value
  {
    EncodedLabels(ts, states, mode, symbols);
    EdgesOfLabels(ts);
    if DefaultOf(ts).Some? {
      var i :| 0 <= i < |ts| && ts[i].on == Default;
      assert EncodeLabel(mode, ts[i].on) == DEFAULT_LABEL;
    }
    if DEFAULT_LABEL in EncodeTransitions(ts, mode) {
      var i :| 0 <= i < |ts| && DEFAULT_LABEL == EncodeLabel(mode, ts[i].on);
      assert ts[i].on == Default;
    }
  }

  lemma RowPreserved(state: StackState, states: nat, mode: Mode, symbols: nat)
    requires symbols < DEFAULT_LABEL && LegalState(state, states, mode, symbols)
    ensures FastRow(DfaState(state.accepting, EncodeTransitions(state.transitions, mode)), mode, symbols) == RowOf(state)
  {
    var encoded := DfaState(state.accepting, EncodeTransitions(state.transitions, mode));
    forall x: nat
      ensures x in FastRow(encoded, mode, symbols).edges <==> x in EdgesOf(state.transitions)
      ensures x in EdgesOf(state.transitions) ==> FastRow(encoded, mode, symbols).edges[x] == EdgesOf(state.transitions)[x]
    {
      EdgePreserved(state.transitions, states, mode, symbols, x);
    }
    assert FastRow(encoded, mode, symbols).edges == EdgesOf(state.transitions);
    DefaultPreserved(state.transitions, states, mode, symbols);
  }

  lemma PhasePreserved(input: StackDfa, mode: Mode, symbols: nat)
    requires symbols < DEFAULT_LABEL && WellFormed(input, mode, symbols)
    ensures FastPhase(EncodeDfa(input, mode), mode, symbols) == PhaseView(input)
  {
    WellFormedStates(input, mode, symbols);
    forall i | 0 <= i < |input.states|
      ensures FastRow(EncodeDfa(input, mode).states[i], mode, symbols) == RowOf(input.states[i])
    {
      RowPreserved(input.states[i], |input.states|, mode, symbols);
    }
  }

  lemma PhaseIsValid(input: StackDfa, mode: Mode, symbols: nat)
    requires symbols < DEFAULT_LABEL && WellFormed(input, mode, symbols)
    ensures ValidPhase(PhaseView(input))
  {
    WellFormedStates(input, mode, symbols);
    var p := PhaseView(input);
    forall i | 0 <= i < |input.states|
      ensures Targets(p.rows[i]) == InputGraph(input)[i]
      ensures forall t :: t in Targets(p.rows[i]) ==> t < |p.rows|
    {
      RowTargets(input.states[i]);
    }
    assert PhaseGraph(p) == InputGraph(input);
  }

  lemma RowTargets(state: StackState)
    requires DistinctLabels(state.transitions)
    ensures Targets(RowOf(state)) == set e | e in state.transitions :: e.target
  {
    var ts := state.transitions;
    EdgesOfLabels(ts);
    forall t ensures t in Targets(RowOf(state)) <==> exists e :: e in ts && e.target == t {
      if t in Targets(RowOf(state)) {
        if x :| x in EdgesOf(ts) && EdgesOf(ts)[x] == t {
          var i :| 0 <= i < |ts| && ts[i].on == Sym(x);
          assert ts[i] in ts && ts[i].target == t;
        } else {
          var i :| 0 <= i < |ts| && ts[i].on == Default;
          assert ts[i] in ts && ts[i].target == t;
        }
      }
      if e :| e in ts && e.target == t {
        var i :| 0 <= i < |ts| && ts[i] == e;
        assert ts[i].on.Sym? ==> EdgesOf(ts)[ts[i].on.symbol] == t;
      }
    }
  }

  // ----- Whole templates -----

  /** Three well-formed phases, and no more links than states, each to a state of the later phase. */
  ghost predicate WellFormedTemplate(t: StackTemplate, symbols: nat) {
    && |t.popToRead| <= |t.pop.states| && (forall i :: 0 <= i < |t.popToRead| && t.popToRead[i].Some? ==> t.popToRead[i].value < |t.read.states|)
    && |t.popToPush| <= |t.pop.states| && (forall i :: 0 <= i < |t.popToPush| && t.popToPush[i].Some? ==> t.popToPush[i].value < |t.push.states|)
    && |t.readToPush| <= |t.read.states| && (forall i :: 0 <= i < |t.readToPush| && t.readToPush[i].Some? ==> t.readToPush[i].value < |t.push.states|)
    && WellFormed(t.pop, Pop, symbols) && WellFormed(t.read, Read, symbols) && WellFormed(t.push, Push, symbols)
  }

  function StatesOf(t: StackTemplate): nat { |t.pop.states| + |t.read.states| + |t.push.states| }

  function EdgesIn(t: StackTemplate): nat { EdgeCount(t.pop.states) + EdgeCount(t.read.states) + EdgeCount(t.push.states) }

  /** The converted template is the input's program. */
  ghost predicate Denotes(converted: CommitTemplates, t: StackTemplate, symbols: nat) {
    FastMachine(converted, symbols) == View(t)
  }

  /** A well-formed template is a valid program: in range, with acyclic phases. */
  lemma WellFormedIsValid(t: StackTemplate, symbols: nat)
    requires symbols < DEFAULT_LABEL && WellFormedTemplate(t, symbols)
    ensures Valid(View(t))
  {
    PhaseIsValid(t.pop, Pop, symbols);
    PhaseIsValid(t.read, Read, symbols);
    PhaseIsValid(t.push, Push, symbols);
  }

  predicate LinksOutOfRange(links: seq<Option<nat>>, sources: nat, targets: nat) {
    |links| > sources || exists link :: link in links && link.Some? && link.value >= targets
  }

  method Convert(input: StackTemplate, symbols: nat, budget: Budget) returns (r: Result<CommitTemplates>)
    requires symbols < DEFAULT_LABEL
    modifies budget
    ensures r.Success? <==> WellFormedTemplate(input, symbols) && StatesOf(input) <= old(budget.statesLeft) && EdgesIn(input) <= old(budget.edgesLeft)
    ensures r.Success? ==> Denotes(r.value, input, symbols)
    ensures r.Success? ==> budget.statesLeft == old(budget.statesLeft) - StatesOf(input) && budget.edgesLeft == old(budget.edgesLeft) - EdgesIn(input)
  {
    if LinksOutOfRange(input.popToRead, |input.pop.states|, |input.read.states|)
      || LinksOutOfRange(input.popToPush, |input.pop.states|, |input.push.states|)
      || LinksOutOfRange(input.readToPush, |input.read.states|, |input.push.states|) {
      return Failure;
    }
    var pop := PhaseGraphOf(input.pop, symbols, Pop, budget);
    if pop.Failure? {
      return Failure;
    }
    var read := PhaseGraphOf(input.read, symbols, Read, budget);
    if read.Failure? {
      return Failure;
    }
    var push := PhaseGraphOf(input.push, symbols, Push, budget);
    if push.Failure? {
      return Failure;
    }
    PhasePreserved(input.pop, Pop, symbols);
    PhasePreserved(input.read, Read, symbols);
    PhasePreserved(input.push, Push, symbols);
    r := Success(CommitTemplates(pop.value, read.value, push.value, input.popToRead, input.popToPush, input.readToPush));
  }

  // ----- Label words -----

  function EncodeWord(mode: Mode, word: seq<StackLabel>): seq<int> {
    seq(|word|, i requires 0 <= i < |word| => EncodeLabel(mode, word[i]))
  }

  ghost predicate LegalWord(mode: Mode, symbols: nat, word: seq<StackLabel>) {
    forall i :: 0 <= i < |word| ==> LegalLabel(mode, symbols, word[i])
  }

  /** Over legal labels the converted phase accepts the encodings of exactly the words its input accepts. */
  lemma {:induction false} LabelWordsPreserved(input: StackDfa, mode: Mode, symbols: nat, state: nat, word: seq<StackLabel>)
    requires symbols < DEFAULT_LABEL && WellFormed(input, mode, symbols) && LegalWord(mode, symbols, word)
    ensures Accepts(EncodeDfa(input, mode), state, EncodeWord(mode, word)) <==> AcceptsWord(input, state, word)
    decreases |word|
  {
    WellFormedStates(input, mode, symbols);
    if word != [] && state < |input.states| {
      var ts, encoded := input.states[state].transitions, EncodeDfa(input, mode).states[state].transitions;
      assert LegalState(input.states[state], |input.states|, mode, symbols);
      EncodedLabels(ts, |input.states|, mode, symbols);
      var label0 := EncodeLabel(mode, word[0]);
      assert EncodeWord(mode, word)[1..] == EncodeWord(mode, word[1..]);
      forall i | 0 <= i < |ts|
        ensures label0 == EncodeLabel(mode, ts[i].on) <==> ts[i].on == word[0]
      {
        EncodingInjective(mode, symbols, word[0], ts[i].on);
      }
      if label0 in encoded {
        LabelWordsPreserved(input, mode, symbols, encoded[label0], word[1..]);
        var i :| 0 <= i < |ts| && label0 == EncodeLabel(mode, ts[i].on);
        assert ts[i].on == word[0] && encoded[label0] == ts[i].target;
      }
    }
  }

  lemma LabelBehind(input: StackDfa, mode: Mode, symbols: nat, state: nat, encoded: int) returns (on: StackLabel)
    requires symbols < DEFAULT_LABEL && WellFormed(input, mode, symbols)
    requires state < |input.states| && encoded in EncodeDfa(input, mode).states[state].transitions
    ensures LegalLabel(mode, symbols, on) && EncodeLabel(mode, on) == encoded
  {
    var ts := input.states[state].transitions;
    WellFormedStates(input, mode, symbols);
    assert LegalState(input.states[state], |input.states|, mode, symbols);
    EncodedLabels(ts, |input.states|, mode, symbols);
    var i :| 0 <= i < |ts| && encoded == EncodeLabel(mode, ts[i].on);
    on := ts[i].on;
  }

  lemma EncodeCons(mode: Mode, symbols: nat, on: StackLabel, rest: seq<StackLabel>)
    requires LegalLabel(mode, symbols, on) && LegalWord(mode, symbols, rest)
    ensures LegalWord(mode, symbols, [on] + rest)
    ensures EncodeWord(mode, [on] + rest) == [EncodeLabel(mode, on)] + EncodeWord(mode, rest)
  {
  }

  /** Every encoded word a converted phase accepts is the encoding of a word over legal labels. */
  lemma {:induction false} AcceptedWordsAreEncodings(input: StackDfa, mode: Mode, symbols: nat, state: nat, word: seq<int>) returns (labels: seq<StackLabel>)
    requires symbols < DEFAULT_LABEL && WellFormed(input, mode, symbols)
    requires Accepts(EncodeDfa(input, mode), state, word)
    ensures LegalWord(mode, symbols, labels) && EncodeWord(mode, labels) == word
    decreases |word|
  {
    if word == [] {
      labels := [];
    } else {
      var on := LabelBehind(input, mode, symbols, state, word[0]);
      var next := EncodeDfa(input, mode).states[state].transitions[word[0]];
      var rest := AcceptedWordsAreEncodings(input, mode, symbols, next, word[1..]);
      labels := [on] + rest;
      EncodeCons(mode, symbols, on, rest);
    }
  }
}
