/** Automata with epsilon edges: what they accept, epsilon closure, and their acyclicity check. */
module Nfas {
  import opened Collections
  import opened Graphs
  import opened Reachability
  import opened Dfas

  datatype NfaState = NfaState(accepting: bool, transitions: map<int, seq<nat>>, epsilons: seq<nat>)

  datatype Nfa = Nfa(states: seq<NfaState>, starts: seq<nat>)

  // ----- What an automaton with epsilon edges accepts -----

  ghost function EpsStep(nfa: Nfa): nat -> set<nat> {
    (s: nat) => if s < |nfa.states| then set t | t in nfa.states[s].epsilons && t < |nfa.states| else {}
  }

  ghost predicate EpsReach(nfa: Nfa, s: nat, t: nat) {
    exists n: nat :: Reach(EpsStep(nfa), s, t, n)
  }

  function Moves(nfa: Nfa, s: nat, l: int): seq<nat> {
    if s < |nfa.states| && l in nfa.states[s].transitions then nfa.states[s].transitions[l] else []
  }

  ghost predicate NfaAccepts(nfa: Nfa, s: nat, word: seq<int>)
    decreases |word|
  {
    exists t: nat :: EpsReach(nfa, s, t) && t < |nfa.states| &&
      if word == [] then nfa.states[t].accepting else exists u :: u in Moves(nfa, t, word[0]) && NfaAccepts(nfa, u, word[1..])
  }

  ghost predicate NfaLanguage(nfa: Nfa, word: seq<int>) {
    exists s :: s in nfa.starts && s < |nfa.states| && NfaAccepts(nfa, s, word)
  }

  lemma {:induction false} ReachOn(next: nat -> set<nat>, a: nat, b: nat, c: nat, m: nat, n: nat)
    requires Reach(next, a, b, m) && Reach(next, b, c, n)
    ensures Reach(next, a, c, m + n)
    decreases m
  {
    if m > 0 {
      var e :| e in next(a) && Reach(next, e, b, m - 1);
      ReachOn(next, e, b, c, m - 1, n);
    }
  }

  lemma EpsReachOn(nfa: Nfa, a: nat, b: nat, c: nat)
    requires EpsReach(nfa, a, b) && EpsReach(nfa, b, c)
    ensures EpsReach(nfa, a, c)
  {
    var m: nat :| Reach(EpsStep(nfa), a, b, m);
    var n: nat :| Reach(EpsStep(nfa), b, c, n);
    ReachOn(EpsStep(nfa), a, b, c, m, n);
  }

  lemma EpsReachSelf(nfa: Nfa, s: nat)
    ensures EpsReach(nfa, s, s)
  {
    assert Reach(EpsStep(nfa), s, s, 0);
  }

  // ----- Epsilon closure -----

  ghost predicate InClosure(nfa: Nfa, seeds: set<nat>, t: nat) {
    t < |nfa.states| && exists s :: s in seeds && s < |nfa.states| && EpsReach(nfa, s, t)
  }

  ghost function Closure(nfa: Nfa, seeds: set<nat>): set<nat> {
    set t | t in Below(|nfa.states|) && InClosure(nfa, seeds, t)
  }

  type Step = nat -> set<nat>

  /** Marked states belong to the closure; the targets of those no longer on the stack are marked. */
  ghost predicate Closing(step: Step, closure: set<nat>, seeds: set<nat>, marks: set<nat>, stack: seq<nat>) {
    && seeds <= marks <= closure
    && (forall c :: c in stack ==> c in marks)
    && forall c :: c in marks && c !in stack ==> step(c) <= marks
  }

  /** As `Closing`, while the targets of `c` are being marked. */
  ghost predicate Marking(step: Step, closure: set<nat>, seeds: set<nat>, c: nat, marks: set<nat>, stack: seq<nat>) {
    && seeds <= marks <= closure && c in marks
    && (forall x :: x in stack ==> x in marks)
    && forall x :: x in marks && x !in stack && x != c ==> step(x) <= marks
  }

  lemma MarkOne(step: Step, closure: set<nat>, seeds: set<nat>, c: nat, marks: set<nat>, stack: seq<nat>, t: nat)
    requires Marking(step, closure, seeds, c, marks, stack) && t in closure
    ensures Marking(step, closure, seeds, c, marks + {t}, stack + [t])
  {
  }

  lemma TopOff(step: Step, closure: set<nat>, seeds: set<nat>, marks: set<nat>, rest: seq<nat>, c: nat)
    requires Closing(step, closure, seeds, marks, rest + [c])
    ensures Marking(step, closure, seeds, c, marks, rest) && c in closure
  {
    assert c in rest + [c];
  }

  lemma TopDone(step: Step, closure: set<nat>, seeds: set<nat>, c: nat, marks: set<nat>, stack: seq<nat>)
    requires Marking(step, closure, seeds, c, marks, stack) && step(c) <= marks
    ensures Closing(step, closure, seeds, marks, stack)
  {
  }

  lemma ClosedHasAll(step: Step, closure: set<nat>, seeds: set<nat>, marks: set<nat>, s: nat, t: nat, n: nat)
    requires Closing(step, closure, seeds, marks, []) && s in seeds && Reach(step, s, t, n)
    ensures t in marks
  {
    forall c, e | c in marks && e in step(c) ensures e in marks {
      assert c !in [];
    }
    CoveredHasRuns(step, marks, s, t, n);
  }

  ghost function SeedsIn(nfa: Nfa, seeds: seq<nat>): set<nat> {
    set s | s in seeds && s < |nfa.states|
  }

  lemma ClosureStep(nfa: Nfa, seeds: set<nat>, c: nat, t: nat)
    requires c in Closure(nfa, seeds) && t in EpsStep(nfa)(c)
    ensures t in Closure(nfa, seeds)
  {
    var s :| s in seeds && s < |nfa.states| && EpsReach(nfa, s, c);
    assert Reach(EpsStep(nfa), t, t, 0);
    assert Reach(EpsStep(nfa), c, t, 1);
    EpsReachOn(nfa, s, c, t);
  }

  lemma ClosureRun(nfa: Nfa, seeds: seq<nat>, t: nat) returns (s: nat, n: nat)
    requires t in Closure(nfa, Elements(seeds))
    ensures s in SeedsIn(nfa, seeds) && Reach(EpsStep(nfa), s, t, n)
  {
    s :| s in Elements(seeds) && s < |nfa.states| && EpsReach(nfa, s, t);
    n :| Reach(EpsStep(nfa), s, t, n);
  }

  lemma Closed(nfa: Nfa, seeds: seq<nat>, marks: set<nat>)
    requires Closing(EpsStep(nfa), Closure(nfa, Elements(seeds)), SeedsIn(nfa, seeds), marks, [])
    ensures marks == Closure(nfa, Elements(seeds))
  {
    forall t: nat | t in Closure(nfa, Elements(seeds)) ensures t in marks {
      var s, n := ClosureRun(nfa, seeds, t);
      ClosedHasAll(EpsStep(nfa), Closure(nfa, Elements(seeds)), SeedsIn(nfa, seeds), marks, s, t, n);
    }
  }

  lemma SeedInClosure(nfa: Nfa, seeds: set<nat>, s: nat)
    requires s in seeds && s < |nfa.states|
    ensures s in Closure(nfa, seeds)
  {
    EpsReachSelf(nfa, s);
  }

  method EpsilonClosure(nfa: Nfa, seeds: seq<nat>) returns (marks: set<nat>)
    ensures marks == Closure(nfa, Elements(seeds))
  {
    ghost var step, closure, starts := EpsStep(nfa), Closure(nfa, Elements(seeds)), SeedsIn(nfa, seeds);
    var stack: seq<nat>;
    marks, stack := MarkSeeds(nfa, seeds);
    while stack != []
      invariant Closing(step, closure, starts, marks, stack)
      decreases closure - marks, |stack|
    {
      var c, rest := stack[|stack| - 1], stack[..|stack| - 1];
      LastApart(stack);
      TopOff(step, closure, starts, marks, rest, c);
      marks, stack := MarkTargets(nfa, seeds, c, marks, rest);
    }
    Closed(nfa, seeds, marks);
  }

  method MarkSeeds(nfa: Nfa, seeds: seq<nat>) returns (marks: set<nat>, stack: seq<nat>)
    ensures Closing(EpsStep(nfa), Closure(nfa, Elements(seeds)), SeedsIn(nfa, seeds), marks, stack)
  {
    marks, stack := {}, [];
    for i := 0 to |seeds|
      invariant marks <= Closure(nfa, Elements(seeds)) && forall c :: c in stack <==> c in marks
      invariant forall k :: 0 <= k < i && seeds[k] < |nfa.states| ==> seeds[k] in marks
    {
      if seeds[i] < |nfa.states| && seeds[i] !in marks {
        SeedInClosure(nfa, Elements(seeds), seeds[i]);
        marks, stack := marks + {seeds[i]}, stack + [seeds[i]];
      }
    }
  }

  method MarkTargets(nfa: Nfa, ghost seeds: seq<nat>, c: nat, marks0: set<nat>, stack0: seq<nat>) returns (marks: set<nat>, stack: seq<nat>)
    requires c in Closure(nfa, Elements(seeds))
    requires Marking(EpsStep(nfa), Closure(nfa, Elements(seeds)), SeedsIn(nfa, seeds), c, marks0, stack0)
    ensures Closing(EpsStep(nfa), Closure(nfa, Elements(seeds)), SeedsIn(nfa, seeds), marks, stack)
    ensures (marks == marks0 && stack == stack0) || marks0 < marks
  {
    ghost var step, closure, starts := EpsStep(nfa), Closure(nfa, Elements(seeds)), SeedsIn(nfa, seeds);
    marks, stack := marks0, stack0;
    var epsilons := nfa.states[c].epsilons;
    for i := 0 to |epsilons|
      invariant Marking(step, closure, starts, c, marks, stack)
      invariant (marks == marks0 && stack == stack0) || marks0 < marks
      invariant SeedsIn(nfa, epsilons[..i]) <= marks
    {
      var t := epsilons[i];
      OneMoreSeed(nfa, epsilons, i);
      if t < |nfa.states| && t !in marks {
        EpsTarget(nfa, c, i);
        ClosureStep(nfa, Elements(seeds), c, t);
        MarkOne(step, closure, starts, c, marks, stack, t);
        marks, stack := marks + {t}, stack + [t];
      }
    }
    assert epsilons[..|epsilons|] == epsilons;
    TopDone(step, closure, starts, c, marks, stack);
  }

  lemma OneMoreSeed(nfa: Nfa, seeds: seq<nat>, i: nat)
    requires i < |seeds|
    ensures SeedsIn(nfa, seeds[..i + 1]) == SeedsIn(nfa, seeds[..i]) + if seeds[i] < |nfa.states| then {seeds[i]} else {}
  {
    OneLonger(seeds, i);
  }

  lemma EpsTarget(nfa: Nfa, c: nat, i: nat)
    requires c < |nfa.states| && i < |nfa.states[c].epsilons| && nfa.states[c].epsilons[i] < |nfa.states|
    ensures nfa.states[c].epsilons[i] in EpsStep(nfa)(c)
  {
  }

  // ----- Acyclicity -----

  ghost predicate IsTarget(state: NfaState, t: nat) {
    t in state.epsilons || exists l :: l in state.transitions && t in state.transitions[l]
  }

  ghost function TargetSet(state: NfaState): set<nat> {
    Elements(state.epsilons) + set l, t | l in state.transitions && t in state.transitions[l] :: t
  }

  /** Labelled and epsilon edges together. */
  ghost function NfaGraph(nfa: Nfa): Graph {
    seq(|nfa.states|, i requires 0 <= i < |nfa.states| => TargetSet(nfa.states[i]))
  }

  /** Every edge of a state, once each. */
  method ListTargets(state: NfaState) returns (targets: seq<nat>)
    ensures Elements(targets) == TargetSet(state)
  {
    targets := state.epsilons;
    var todo := state.transitions.Keys;
    while todo != {}
      invariant todo <= state.transitions.Keys
      invariant forall t :: t in targets <==> t in state.epsilons || exists l :: l in state.transitions && l !in todo && t in state.transitions[l]
      decreases todo
    {
      Inhabited(todo);
      var l :| l in todo;
      targets := targets + state.transitions[l];
      todo := todo - {l};
    }
  }

  function EdgeState(targets: seq<nat>): DfaState {
    DfaState(false, map i: int | 0 <= i < |targets| :: targets[i])
  }

  lemma EdgeTargets(targets: seq<nat>)
    ensures (set l | l in EdgeState(targets).transitions :: EdgeState(targets).transitions[l]) == Elements(targets)
  {
    forall t | t in targets ensures exists l :: l in EdgeState(targets).transitions && EdgeState(targets).transitions[l] == t {
      var i :| 0 <= i < |targets| && targets[i] == t;
      assert i in EdgeState(targets).transitions;
    }
  }

  /** The check counts every edge, labelled or not; the numbers stand in for labels. */
  method NfaIsAcyclic(nfa: Nfa) returns (acyclic: bool, ghost order: seq<nat>)
    ensures acyclic <==> Acyclic(NfaGraph(nfa))
    ensures acyclic ==> PredecessorsFirst(NfaGraph(nfa), order) && forall s: nat :: s < |nfa.states| ==> s in order
  {
    var states: seq<DfaState> := [];
    for i := 0 to |nfa.states|
      invariant |states| == i
      invariant forall k :: 0 <= k < i ==> (set l | l in states[k].transitions :: states[k].transitions[l]) == TargetSet(nfa.states[k])
    {
      var targets := ListTargets(nfa.states[i]);
      EdgeTargets(targets);
      states := states + [EdgeState(targets)];
    }
    var edges := Dfa(states, 0);
    assert SuccessorGraph(edges) == NfaGraph(nfa);
    var visited := VisitOrder(edges);
    acyclic := |visited| == |nfa.states|;
    order := visited;
    if acyclic {
      AllListed(visited, |nfa.states|);
    }
  }
}
