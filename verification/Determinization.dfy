/** Subset construction for automata with epsilon edges. */
module Determinization {
  import opened Wrappers
  import opened Collections
  import opened Graphs
  import opened Reachability
  import opened Dfas
  import opened Nfas
  import opened KeyedAutomata

  // ----- The next subsets -----

  type Pair = (nat, int)

  /** Every labelled transition leads to a state. */
  ghost predicate TargetsInRange(nfa: Nfa) {
    forall s, l, i :: 0 <= s < |nfa.states| && l in nfa.states[s].transitions && 0 <= i < |nfa.states[s].transitions[l]| ==>
      nfa.states[s].transitions[l][i] < |nfa.states|
  }

  /** The labelled transitions of a set of states. */
  ghost function PairsOf(nfa: Nfa, subset: set<nat>): set<Pair> {
    set s, l | s in subset && s < |nfa.states| && l in nfa.states[s].transitions :: (s, l)
  }

  ghost function TargetsOf(nfa: Nfa, pairs: set<Pair>, l: int): set<nat> {
    set p, u | p in pairs && p.1 == l && u in Moves(nfa, p.0, l) :: u
  }

  ghost function LabelsOf(nfa: Nfa, pairs: set<Pair>): set<int> {
    set p | p in pairs && Moves(nfa, p.0, p.1) != [] :: p.1
  }

  ghost function NextSubsets(nfa: Nfa, subset: set<nat>): map<int, set<nat>> {
    map l | l in LabelsOf(nfa, PairsOf(nfa, subset)) :: Closure(nfa, TargetsOf(nfa, PairsOf(nfa, subset), l))
  }

  /** The targets of the pairs, gathered by label. */
  ghost predicate Gathered(nfa: Nfa, pairs: set<Pair>, buckets: map<int, seq<nat>>) {
    && (forall l :: l in buckets <==> l in LabelsOf(nfa, pairs))
    && (forall l :: l in buckets ==> Elements(buckets[l]) == TargetsOf(nfa, pairs, l))
  }

  function WithTargets(buckets: map<int, seq<nat>>, l: int, targets: seq<nat>): map<int, seq<nat>> {
    if targets == [] then buckets else buckets[l := (if l in buckets then buckets[l] else []) + targets]
  }

  lemma LabelsGrow(nfa: Nfa, pairs: set<Pair>, s: nat, l: int)
    ensures LabelsOf(nfa, pairs + {(s, l)}) == LabelsOf(nfa, pairs) + if Moves(nfa, s, l) == [] then {} else {l}
    ensures TargetsOf(nfa, pairs + {(s, l)}, l) == TargetsOf(nfa, pairs, l) + Elements(Moves(nfa, s, l))
    ensures forall k :: k != l ==> TargetsOf(nfa, pairs + {(s, l)}, k) == TargetsOf(nfa, pairs, k)
    ensures l !in LabelsOf(nfa, pairs) ==> TargetsOf(nfa, pairs, l) == {}
  {
  }

  lemma GatherOne(nfa: Nfa, pairs: set<Pair>, buckets: map<int, seq<nat>>, s: nat, l: int)
    requires Gathered(nfa, pairs, buckets)
    ensures Gathered(nfa, pairs + {(s, l)}, WithTargets(buckets, l, Moves(nfa, s, l)))
  {
    var targets, after := Moves(nfa, s, l), WithTargets(buckets, l, Moves(nfa, s, l));
    LabelsGrow(nfa, pairs, s, l);
    forall k | k in after ensures Elements(after[k]) == TargetsOf(nfa, pairs + {(s, l)}, k) {
      if k == l && targets != [] {
        var before := if l in buckets then buckets[l] else [];
        assert Elements(before + targets) == Elements(before) + Elements(targets);
      }
    }
  }

  method GatherTargets(nfa: Nfa, subset: set<nat>) returns (buckets: map<int, seq<nat>>)
    requires subset <= Below(|nfa.states|)
    ensures Gathered(nfa, PairsOf(nfa, subset), buckets)
  {
    buckets := map[];
    var todo := subset;
    ghost var pairs: set<Pair> := {};
    while todo != {}
      invariant todo <= subset && pairs == PairsOf(nfa, subset - todo) && Gathered(nfa, pairs, buckets)
      decreases todo
    {
      Inhabited(todo);
      var s :| s in todo;
      buckets := GatherState(nfa, s, pairs, buckets);
      pairs := pairs + PairsOf(nfa, {s});
      PairsGrow(nfa, subset, todo, s);
      todo := todo - {s};
    }
    assert subset - todo == subset;
  }

  lemma PairsGrow(nfa: Nfa, subset: set<nat>, todo: set<nat>, s: nat)
    requires s in todo && todo <= subset
    ensures PairsOf(nfa, subset - (todo - {s})) == PairsOf(nfa, subset - todo) + PairsOf(nfa, {s})
  {
  }

  method GatherState(nfa: Nfa, s: nat, ghost pairs0: set<Pair>, buckets0: map<int, seq<nat>>) returns (buckets: map<int, seq<nat>>)
    requires s < |nfa.states| && Gathered(nfa, pairs0, buckets0)
    ensures Gathered(nfa, pairs0 + PairsOf(nfa, {s}), buckets)
  {
    buckets := buckets0;
    var todo := nfa.states[s].transitions.Keys;
    ghost var pairs := pairs0;
    while todo != {}
      invariant todo <= nfa.states[s].transitions.Keys
      invariant pairs == pairs0 + set l | l in nfa.states[s].transitions.Keys - todo :: (s, l)
      invariant Gathered(nfa, pairs, buckets)
      decreases todo
    {
      Inhabited(todo);
      var l :| l in todo;
      GatherOne(nfa, pairs, buckets, s, l);
      buckets := WithTargets(buckets, l, Moves(nfa, s, l));
      pairs := pairs + {(s, l)};
      todo := todo - {l};
    }
    assert PairsOf(nfa, {s}) == set l | l in nfa.states[s].transitions.Keys - todo :: (s, l);
  }

  /** A single target without epsilon edges is its own closure. */
  lemma LoneTarget(nfa: Nfa, t: nat)
    requires t < |nfa.states| && nfa.states[t].epsilons == []
    ensures Closure(nfa, {t}) == {t}
  {
    SeedInClosure(nfa, {t}, t);
    forall u: nat | u in Closure(nfa, {t}) ensures u == t {
      assert EpsReach(nfa, t, u);
      var n: nat :| Reach(EpsStep(nfa), t, u, n);
      assert EpsStep(nfa)(t) == {};
    }
  }

  method ClosureOf(nfa: Nfa, targets: seq<nat>) returns (key: set<nat>)
    requires forall t :: t in targets ==> t < |nfa.states|
    ensures key == Closure(nfa, Elements(targets))
  {
    assert |targets| == 1 ==> targets[0] in targets;
    if |targets| == 1 && nfa.states[targets[0]].epsilons == [] {
      LoneTarget(nfa, targets[0]);
      assert Elements(targets) == {targets[0]};
      key := {targets[0]};
    } else {
      key := EpsilonClosure(nfa, targets);
    }
  }

  /** The transitions of a subset: for each label the closure of all targets, which is never empty. */
  method NextKeys(nfa: Nfa, subset: set<nat>) returns (edges: map<int, set<nat>>)
    requires TargetsInRange(nfa) && subset <= Below(|nfa.states|)
    ensures Same(edges, NextSubsets(nfa, subset))
  {
    var buckets := GatherTargets(nfa, subset);
    ghost var pairs := PairsOf(nfa, subset);
    edges := map[];
    var todo := buckets.Keys;
    while todo != {}
      invariant todo <= buckets.Keys
      invariant forall l :: l in edges <==> l in buckets && l !in todo
      invariant forall l :: l in edges ==> edges[l] == Closure(nfa, TargetsOf(nfa, pairs, l))
      decreases todo
    {
      Inhabited(todo);
      var l :| l in todo;
      BucketInRange(nfa, pairs, buckets, l);
      var key := ClosureOf(nfa, buckets[l]);
      if key != {} {
        edges := edges[l := key];
      }
      todo := todo - {l};
    }
  }

  lemma BucketInRange(nfa: Nfa, pairs: set<Pair>, buckets: map<int, seq<nat>>, l: int)
    requires TargetsInRange(nfa) && Gathered(nfa, pairs, buckets) && l in buckets
    ensures forall t :: t in buckets[l] ==> t < |nfa.states|
    ensures Closure(nfa, Elements(buckets[l])) != {}
  {
    forall t | t in buckets[l] ensures t < |nfa.states| {
      assert t in TargetsOf(nfa, pairs, l);
      var p :| p in pairs && p.1 == l && t in Moves(nfa, p.0, l);
    }
    var p :| p in pairs && Moves(nfa, p.0, p.1) != [] && p.1 == l;
    var u := Moves(nfa, p.0, l)[0];
    assert u in Moves(nfa, p.0, l);
    assert u in TargetsOf(nfa, pairs, l);
    SeedInClosure(nfa, Elements(buckets[l]), u);
  }

  // ----- What a subset accepts -----

  ghost predicate SubsetAccepts(nfa: Nfa, subset: set<nat>) {
    exists s :: s in subset && s < |nfa.states| && nfa.states[s].accepting
  }

  ghost function NextOfSubsets(nfa: Nfa): set<nat> -> map<int, set<nat>> {
    subset => NextSubsets(nfa, subset)
  }

  ghost function AcceptingSubsets(nfa: Nfa): set<nat> -> bool {
    subset => SubsetAccepts(nfa, subset)
  }

  ghost predicate IsClosed(nfa: Nfa, subset: set<nat>) {
    subset <= Below(|nfa.states|) && forall s: nat, t: nat :: s in subset && EpsReach(nfa, s, t) && t < |nfa.states| ==> t in subset
  }

  lemma ClosureIsClosed(nfa: Nfa, seeds: set<nat>)
    ensures IsClosed(nfa, Closure(nfa, seeds))
  {
    forall s: nat, t: nat | s in Closure(nfa, seeds) && EpsReach(nfa, s, t) && t < |nfa.states| ensures t in Closure(nfa, seeds) {
      var r :| r in seeds && r < |nfa.states| && EpsReach(nfa, r, s);
      EpsReachOn(nfa, r, s, t);
    }
  }

  /** What a state accepts, every state with an epsilon path to it accepts. */
  lemma AcceptsBefore(nfa: Nfa, r: nat, s: nat, word: seq<int>)
    requires EpsReach(nfa, r, s) && NfaAccepts(nfa, s, word)
    ensures NfaAccepts(nfa, r, word)
  {
    var t: nat :| EpsReach(nfa, s, t) && t < |nfa.states| &&
      if word == [] then nfa.states[t].accepting else exists u :: u in Moves(nfa, t, word[0]) && NfaAccepts(nfa, u, word[1..]);
    EpsReachOn(nfa, r, s, t);
  }

  ghost predicate SomeAccepts(nfa: Nfa, states: set<nat>, word: seq<int>) {
    exists s :: s in states && s < |nfa.states| && NfaAccepts(nfa, s, word)
  }

  /** Closing a set of states does not change what it accepts. */
  lemma ClosureAccepts(nfa: Nfa, seeds: set<nat>, word: seq<int>)
    ensures SomeAccepts(nfa, Closure(nfa, seeds), word) <==> SomeAccepts(nfa, seeds, word)
  {
    if SomeAccepts(nfa, Closure(nfa, seeds), word) {
      var s :| s in Closure(nfa, seeds) && NfaAccepts(nfa, s, word);
      var r :| r in seeds && r < |nfa.states| && EpsReach(nfa, r, s);
      AcceptsBefore(nfa, r, s, word);
    }
    if SomeAccepts(nfa, seeds, word) {
      var s :| s in seeds && s < |nfa.states| && NfaAccepts(nfa, s, word);
      SeedInClosure(nfa, seeds, s);
    }
  }

  lemma StepAccepts(nfa: Nfa, s: nat, l: int, u: nat, rest: seq<int>)
    requires s < |nfa.states| && u in Moves(nfa, s, l) && NfaAccepts(nfa, u, rest)
    ensures NfaAccepts(nfa, s, [l] + rest)
  {
    var word := [l] + rest;
    assert word[0] == l && word[1..] == rest;
    EpsReachSelf(nfa, s);
  }

  lemma TargetsThenAccepts(nfa: Nfa, subset: set<nat>, l: int, rest: seq<int>)
    requires SomeAccepts(nfa, TargetsOf(nfa, PairsOf(nfa, subset), l), rest)
    ensures SomeAccepts(nfa, subset, [l] + rest)
  {
    var pairs := PairsOf(nfa, subset);
    var u :| u in TargetsOf(nfa, pairs, l) && u < |nfa.states| && NfaAccepts(nfa, u, rest);
    var p :| p in pairs && p.1 == l && u in Moves(nfa, p.0, l);
    StepAccepts(nfa, p.0, l, u, rest);
  }

  lemma FirstStep(nfa: Nfa, s: nat, l: int, rest: seq<int>) returns (t: nat, u: nat)
    requires NfaAccepts(nfa, s, [l] + rest)
    ensures EpsReach(nfa, s, t) && t < |nfa.states| && u in Moves(nfa, t, l) && NfaAccepts(nfa, u, rest)
  {
    var word := [l] + rest;
    assert word[0] == l && word[1..] == rest;
    t :| EpsReach(nfa, s, t) && t < |nfa.states| && exists u :: u in Moves(nfa, t, word[0]) && NfaAccepts(nfa, u, word[1..]);
    u :| u in Moves(nfa, t, word[0]) && NfaAccepts(nfa, u, word[1..]);
  }

  /** A closed set accepts a word just when its targets under the first label accept the rest. */
  lemma ClosedAccepts(nfa: Nfa, subset: set<nat>, l: int, rest: seq<int>)
    requires TargetsInRange(nfa) && IsClosed(nfa, subset)
    ensures SomeAccepts(nfa, subset, [l] + rest) <==> SomeAccepts(nfa, TargetsOf(nfa, PairsOf(nfa, subset), l), rest)
  {
    if SomeAccepts(nfa, TargetsOf(nfa, PairsOf(nfa, subset), l), rest) {
      TargetsThenAccepts(nfa, subset, l, rest);
    }
    if SomeAccepts(nfa, subset, [l] + rest) {
      var s :| s in subset && s < |nfa.states| && NfaAccepts(nfa, s, [l] + rest);
      var t, u := FirstStep(nfa, s, l, rest);
      assert t in subset && (t, l) in PairsOf(nfa, subset);
      assert u in TargetsOf(nfa, PairsOf(nfa, subset), l);
    }
  }

  lemma {:induction false} SubsetLanguage(nfa: Nfa, subset: set<nat>, word: seq<int>)
    requires TargetsInRange(nfa) && IsClosed(nfa, subset)
    ensures AcceptsKey(NextOfSubsets(nfa), AcceptingSubsets(nfa), subset, word) <==> SomeAccepts(nfa, subset, word)
    decreases |word|
  {
    if word == [] {
      EmptyWord(nfa, subset);
    } else {
      var l, rest := word[0], word[1..];
      assert word == [l] + rest;
      var targets := TargetsOf(nfa, PairsOf(nfa, subset), l);
      ClosedAccepts(nfa, subset, l, rest);
      ClosureAccepts(nfa, targets, rest);
      assert NextOfSubsets(nfa)(subset) == NextSubsets(nfa, subset);
      if l in NextSubsets(nfa, subset) {
        ClosureIsClosed(nfa, targets);
        SubsetLanguage(nfa, Closure(nfa, targets), rest);
      } else {
        NoTargets(nfa, PairsOf(nfa, subset), l);
      }
    }
  }

  lemma NoTargets(nfa: Nfa, pairs: set<Pair>, l: int)
    requires l !in LabelsOf(nfa, pairs)
    ensures TargetsOf(nfa, pairs, l) == {}
  {
    forall p | p in pairs && p.1 == l ensures Moves(nfa, p.0, l) == [] {
      assert p.1 !in LabelsOf(nfa, pairs);
    }
  }

  lemma EmptyWord(nfa: Nfa, subset: set<nat>)
    requires IsClosed(nfa, subset)
    ensures SubsetAccepts(nfa, subset) <==> SomeAccepts(nfa, subset, [])
  {
    if s :| s in subset && s < |nfa.states| && nfa.states[s].accepting {
      EpsReachSelf(nfa, s);
      assert NfaAccepts(nfa, s, []);
    }
  }

  // ----- The construction -----

  function With(s: set<nat>, x: nat): set<nat> { s + {x} }

  ghost function WithAll(sets: set<set<nat>>, x: nat): set<set<nat>> {
    set s | s in sets :: With(s, x)
  }

  ghost function Subsets(n: nat): set<set<nat>> {
    if n == 0 then {{}} else Subsets(n - 1) + WithAll(Subsets(n - 1), n - 1)
  }

  lemma {:induction false} SubsetsComplete(n: nat, subset: set<nat>)
    requires subset <= Below(n)
    ensures subset in Subsets(n)
    decreases n
  {
    if n > 0 {
      var fewer := subset - {n - 1};
      SubsetsComplete(n - 1, fewer);
      assert subset == if n - 1 in subset then With(fewer, n - 1) else fewer;
    } else {
      assert subset == {};
    }
  }

  lemma NextInUniverse(nfa: Nfa, subset: set<nat>, edges: map<int, set<nat>>)
    requires Same(edges, NextSubsets(nfa, subset))
    ensures forall l :: l in edges ==> edges[l] in Subsets(|nfa.states|)
  {
    forall l | l in edges ensures edges[l] in Subsets(|nfa.states|) {
      SubsetsComplete(|nfa.states|, edges[l]);
    }
  }

  lemma {:induction false} SubsetsBelow(n: nat)
    ensures forall s :: s in Subsets(n) ==> s <= Below(n)
  {
    if n > 0 {
      SubsetsBelow(n - 1);
    }
  }

  method IsAcceptingSubset(nfa: Nfa, subset: set<nat>) returns (accepting: bool)
    ensures accepting <==> SubsetAccepts(nfa, subset)
  {
    accepting := exists s :: s in subset && s < |nfa.states| && nfa.states[s].accepting;
  }

  /** Subsets in the order in which they are met, from the closure of the start states. */
  method BuildSubsets(nfa: Nfa) returns (states: seq<DfaState>, ghost taken: seq<set<nat>>, ghost ids: map<set<nat>, nat>)
    requires TargetsInRange(nfa)
    ensures Building(NextOfSubsets(nfa), AcceptingSubsets(nfa), Subsets(|nfa.states|), taken, [], ids, states)
    ensures Closure(nfa, Elements(nfa.starts)) in ids && ids[Closure(nfa, Elements(nfa.starts))] == 0
  {
    ghost var next, accepting, universe := NextOfSubsets(nfa), AcceptingSubsets(nfa), Subsets(|nfa.states|);
    var start := EpsilonClosure(nfa, nfa.starts);
    SubsetsComplete(|nfa.states|, start);
    SubsetsBelow(|nfa.states|);
    states := [EMPTY_STATE];
    var numbers, worklist := map[start := 0], [start];
    taken := [];
    Started(next, accepting, universe, start);
    while worklist != []
      invariant Building(next, accepting, universe, taken, worklist, numbers, states)
      invariant start in numbers && numbers[start] == 0
      decreases universe - Elements(taken)
    {
      HeadInUniverse(next, accepting, universe, taken, worklist, numbers, states);
      ghost var now := taken + [worklist[0]];
      var accepts := IsAcceptingSubset(nfa, worklist[0]);
      var edges := NextKeys(nfa, worklist[0]);
      NextInUniverse(nfa, worklist[0], edges);
      numbers, states, worklist := TakeNext(next, accepting, universe, taken, edges, accepts, numbers, states, worklist);
      taken := now;
    }
    ids := numbers;
  }

  // ----- The result has no cycle when the input has none -----

  lemma {:induction false} EpsWalk(nfa: Nfa, r: nat, t: nat, n: nat) returns (path: seq<nat>)
    requires r < |nfa.states| && Reach(EpsStep(nfa), r, t, n)
    ensures path != [] && path[0] == r && path[|path| - 1] == t && Walk(NfaGraph(nfa), path)
    decreases n
  {
    if n == 0 {
      path := [r];
    } else {
      var e: nat :| e in EpsStep(nfa)(r) && Reach(EpsStep(nfa), e, t, n - 1);
      var rest := EpsWalk(nfa, e, t, n - 1);
      path := [r] + rest;
    }
  }

  /** Whatever of `after` is listed comes after something of `before`. */
  ghost predicate ComesAfter(order: seq<nat>, before: set<nat>, after: set<nat>) {
    forall j :: 0 <= j < |order| && order[j] in after ==> exists i :: 0 <= i < j && order[i] in before
  }

  lemma ComesAfterOn(order: seq<nat>, a: set<nat>, b: set<nat>, c: set<nat>)
    requires ComesAfter(order, a, b) && ComesAfter(order, b, c)
    ensures ComesAfter(order, a, c)
  {
  }

  lemma {:induction false} NothingAfterItself(order: seq<nat>, a: set<nat>, j: nat)
    requires ComesAfter(order, a, a) && j < |order|
    ensures order[j] !in a
    decreases j
  {
    if order[j] in a {
      var i :| 0 <= i < j && order[i] in a;
      NothingAfterItself(order, a, i);
    }
  }

  /** A transition and the epsilon edges after it go forward in the order. */
  lemma MoveGoesForward(nfa: Nfa, order: seq<nat>, s: nat, l: int, r: nat, j: nat)
    requires PredecessorsFirst(NfaGraph(nfa), order) && j < |order|
    requires s < |nfa.states| && r in Moves(nfa, s, l) && r < |nfa.states| && EpsReach(nfa, r, order[j])
    ensures s in order[..j]
  {
    var n: nat :| Reach(EpsStep(nfa), r, order[j], n);
    var rest := EpsWalk(nfa, r, order[j], n);
    var path := [s] + rest;
    assert r in NfaGraph(nfa)[s];
    assert Walk(NfaGraph(nfa), path);
    WalkFollowsOrder(NfaGraph(nfa), order, path, j);
  }

  lemma NextComesAfter(nfa: Nfa, order: seq<nat>, subset: set<nat>, l: int)
    requires PredecessorsFirst(NfaGraph(nfa), order) && TargetsInRange(nfa) && l in NextSubsets(nfa, subset)
    ensures ComesAfter(order, subset, NextSubsets(nfa, subset)[l])
  {
    forall j | 0 <= j < |order| && order[j] in NextSubsets(nfa, subset)[l] ensures exists i :: 0 <= i < j && order[i] in subset {
      var r: nat :| r in TargetsOf(nfa, PairsOf(nfa, subset), l) && r < |nfa.states| && EpsReach(nfa, r, order[j]);
      var p :| p in PairsOf(nfa, subset) && p.1 == l && r in Moves(nfa, p.0, l);
      MoveGoesForward(nfa, order, p.0, l, r, j);
    }
  }

  lemma NextNotEmpty(nfa: Nfa, subset: set<nat>, l: int)
    requires TargetsInRange(nfa) && l in NextSubsets(nfa, subset)
    ensures NextSubsets(nfa, subset)[l] != {}
  {
    var pairs := PairsOf(nfa, subset);
    var p :| p in pairs && Moves(nfa, p.0, p.1) != [] && p.1 == l;
    var u := Moves(nfa, p.0, l)[0];
    assert u in Moves(nfa, p.0, l) && u in TargetsOf(nfa, pairs, l);
    SeedInClosure(nfa, TargetsOf(nfa, pairs, l), u);
  }

  /** Along every edge of the built automaton the subsets come later in the order. */
  lemma EdgeComesAfter(nfa: Nfa, order: seq<nat>, taken: seq<set<nat>>, ids: map<set<nat>, nat>, states: seq<DfaState>, i: nat, t: nat)
    requires TargetsInRange(nfa) && PredecessorsFirst(NfaGraph(nfa), order)
    requires Building(NextOfSubsets(nfa), AcceptingSubsets(nfa), Subsets(|nfa.states|), taken, [], ids, states)
    requires i < |states| && t in SuccessorGraph(Dfa(states, 0))[i]
    ensures t < |taken| && ComesAfter(order, taken[i], taken[t]) && taken[t] != {}
  {
    assert taken + [] == taken;
    var l :| l in states[i].transitions && states[i].transitions[l] == t;
    assert Filled(NextOfSubsets(nfa), AcceptingSubsets(nfa), ids, states[i], taken[i]);
    assert NextOfSubsets(nfa)(taken[i]) == NextSubsets(nfa, taken[i]);
    LinkAt(NextSubsets(nfa, taken[i]), ids, states[i].transitions, l);
    assert taken[t] == NextSubsets(nfa, taken[i])[l];
    NextComesAfter(nfa, order, taken[i], l);
    NextNotEmpty(nfa, taken[i], l);
  }

  /** Every edge leads to a nonempty key that comes after its own. */
  ghost predicate GoesForward(g: Graph, order: seq<nat>, keys: seq<set<nat>>) {
    |keys| == |g| && forall i, t :: 0 <= i < |g| && t in g[i] ==> t < |keys| && ComesAfter(order, keys[i], keys[t]) && keys[t] != {}
  }

  lemma {:induction false} WalkComesAfter(g: Graph, order: seq<nat>, keys: seq<set<nat>>, path: seq<nat>)
    requires GoesForward(g, order, keys) && |path| >= 2 && Walk(g, path)
    ensures ComesAfter(order, keys[path[0]], keys[path[|path| - 1]]) && keys[path[|path| - 1]] != {}
    decreases |path|
  {
    var last := |path| - 1;
    LastEdge(g, path);
    if |path| > 2 {
      WalkComesAfter(g, order, keys, path[..last]);
      ComesAfterOn(order, keys[path[0]], keys[path[last - 1]], keys[path[last]]);
    }
  }

  lemma ForwardIsAcyclic(g: Graph, order: seq<nat>, keys: seq<set<nat>>)
    requires GoesForward(g, order, keys) && forall t, s :: 0 <= t < |keys| && s in keys[t] ==> s in order
    ensures Acyclic(g)
  {
    forall path | Walk(g, path) && |path| >= 2 ensures path[0] != path[|path| - 1] {
      WalkComesAfter(g, order, keys, path);
      var end := keys[path[|path| - 1]];
      var s :| s in end;
      assert s in order;
      var j :| 0 <= j < |order| && order[j] == s;
      if keys[path[0]] == end {
        NothingAfterItself(order, end, j);
      }
    }
  }

  lemma BuiltAcyclic(nfa: Nfa, order: seq<nat>, taken: seq<set<nat>>, ids: map<set<nat>, nat>, states: seq<DfaState>)
    requires TargetsInRange(nfa) && PredecessorsFirst(NfaGraph(nfa), order) && forall s: nat :: s < |nfa.states| ==> s in order
    requires Building(NextOfSubsets(nfa), AcceptingSubsets(nfa), Subsets(|nfa.states|), taken, [], ids, states)
    ensures Acyclic(SuccessorGraph(Dfa(states, 0)))
  {
    var g := SuccessorGraph(Dfa(states, 0));
    SubsetsBelow(|nfa.states|);
    assert taken + [] == taken;
    forall i, t | 0 <= i < |g| && t in g[i] ensures t < |taken| && ComesAfter(order, taken[i], taken[t]) && taken[t] != {} {
      EdgeComesAfter(nfa, order, taken, ids, states, i, t);
    }
    forall t, s | 0 <= t < |taken| && s in taken[t] ensures s in order {
      assert taken[t] in ids;
    }
    ForwardIsAcyclic(g, order, taken);
  }

  /** The deterministic automaton of the same language, or nothing where the source stops on a cyclic input. It has no
      cycle either. */
  method Determinize(nfa: Nfa) returns (r: Option<Dfa>)
    requires forall s, l, i :: 0 <= s < |nfa.states| && l in nfa.states[s].transitions && 0 <= i < |nfa.states[s].transitions[l]| ==>
               nfa.states[s].transitions[l][i] < |nfa.states|
    ensures r.Some? <==> Acyclic(NfaGraph(nfa))
    ensures r.Some? ==> forall word :: Accepts(r.value, r.value.start, word) <==> NfaLanguage(nfa, word)
    ensures r.Some? ==> Acyclic(SuccessorGraph(r.value)) && Dfas.TargetsInRange(r.value) && r.value.start < |r.value.states|
  {
    var acyclic;
    ghost var order;
    acyclic, order := NfaIsAcyclic(nfa);
    if !acyclic {
      return None;
    }
    if nfa.states == [] || nfa.starts == [] {
      EdgelessIsAcyclic(SuccessorGraph(Dfa([EMPTY_STATE], 0)));
      return Some(Dfa([EMPTY_STATE], 0));
    }
    var states;
    ghost var taken, ids;
    states, taken, ids := BuildSubsets(nfa);
    forall word ensures Accepts(Dfa(states, 0), 0, word) <==> NfaLanguage(nfa, word) {
      DeterminizedLanguage(nfa, taken, ids, states, word);
    }
    BuiltAcyclic(nfa, order, taken, ids, states);
    BuiltInRange(NextOfSubsets(nfa), AcceptingSubsets(nfa), Subsets(|nfa.states|), taken, ids, states, Closure(nfa, Elements(nfa.starts)));
    r := Some(Dfa(states, 0));
  }

  lemma DeterminizedLanguage(nfa: Nfa, taken: seq<set<nat>>, ids: map<set<nat>, nat>, states: seq<DfaState>, word: seq<int>)
    requires TargetsInRange(nfa)
    requires Building(NextOfSubsets(nfa), AcceptingSubsets(nfa), Subsets(|nfa.states|), taken, [], ids, states)
    requires Closure(nfa, Elements(nfa.starts)) in ids && ids[Closure(nfa, Elements(nfa.starts))] == 0
    ensures Accepts(Dfa(states, 0), 0, word) <==> NfaLanguage(nfa, word)
  {
    var start := Closure(nfa, Elements(nfa.starts));
    BuiltLanguage(NextOfSubsets(nfa), AcceptingSubsets(nfa), Subsets(|nfa.states|), taken, ids, states, 0, start, word);
    ClosureIsClosed(nfa, Elements(nfa.starts));
    SubsetLanguage(nfa, start, word);
    ClosureAccepts(nfa, Elements(nfa.starts), word);
  }
}
