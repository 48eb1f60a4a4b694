/** The unweighted label automaton and its acyclicity check: indegree counting with a work queue. */
module Dfas {
  import opened Collections
  import opened Graphs

  datatype DfaState = DfaState(accepting: bool, transitions: map<int, nat>)

  datatype Dfa = Dfa(states: seq<DfaState>, start: nat)

  /** The words accepted from a state; a missing transition rejects. */
  predicate Accepts(dfa: Dfa, state: nat, word: seq<int>)
    decreases |word|
  {
    state < |dfa.states| &&
    if word == [] then dfa.states[state].accepting
    else word[0] in dfa.states[state].transitions && Accepts(dfa, dfa.states[state].transitions[word[0]], word[1..])
  }

  /** Every transition leads to a state. */
  predicate TargetsInRange(dfa: Dfa) {
    forall i, l :: 0 <= i < |dfa.states| && l in dfa.states[i].transitions ==> dfa.states[i].transitions[l] < |dfa.states|
  }

  function SuccessorGraph(dfa: Dfa): Graph {
    seq(|dfa.states|, i requires 0 <= i < |dfa.states| => set l | l in dfa.states[i].transitions :: dfa.states[i].transitions[l])
  }

  // ----- Edges, counted once for each label -----

  datatype EdgeId = EdgeId(source: nat, symbol: int)

  predicate IsEdge(dfa: Dfa, e: EdgeId) {
    e.source < |dfa.states| && e.symbol in dfa.states[e.source].transitions
  }

  function Target(dfa: Dfa, e: EdgeId): nat
    requires IsEdge(dfa, e)
  {
    dfa.states[e.source].transitions[e.symbol]
  }

  ghost predicate AreEdges(dfa: Dfa, edges: set<EdgeId>) {
    forall e :: e in edges ==> IsEdge(dfa, e)
  }

  ghost function Into(dfa: Dfa, edges: set<EdgeId>, t: nat): set<EdgeId>
    requires AreEdges(dfa, edges)
  {
    set e | e in edges && Target(dfa, e) == t
  }

  ghost predicate Counts(indegree: seq<nat>, dfa: Dfa, edges: set<EdgeId>) {
    && |indegree| == |dfa.states| && AreEdges(dfa, edges)
    && forall t :: 0 <= t < |indegree| ==> indegree[t] == |Into(dfa, edges, t)|
  }

  lemma CountEdge(indegree: seq<nat>, dfa: Dfa, edges: set<EdgeId>, e: EdgeId)
    requires Counts(indegree, dfa, edges) && IsEdge(dfa, e) && e !in edges
    ensures AreEdges(dfa, edges + {e})
    ensures var t := Target(dfa, e);
            Counts(if t < |indegree| then indegree[t := indegree[t] + 1] else indegree, dfa, edges + {e})
  {
    forall t: nat
      ensures Into(dfa, edges + {e}, t) == if t == Target(dfa, e) then Into(dfa, edges, t) + {e} else Into(dfa, edges, t)
    {
    }
  }

  lemma UncountEdge(indegree: seq<nat>, dfa: Dfa, edges: set<EdgeId>, e: EdgeId)
    requires Counts(indegree, dfa, edges) && e in edges
    ensures var t := Target(dfa, e);
            t < |indegree| ==> indegree[t] > 0 && Counts(indegree[t := indegree[t] - 1], dfa, edges - {e})
    ensures Target(dfa, e) >= |indegree| ==> Counts(indegree, dfa, edges - {e})
  {
    assert e in Into(dfa, edges, Target(dfa, e));
    forall t: nat
      ensures Into(dfa, edges - {e}, t) == if t == Target(dfa, e) then Into(dfa, edges, t) - {e} else Into(dfa, edges, t)
    {
    }
  }

  // ----- Counting -----

  /** All edges whose source is below `bound`. */
  ghost function EdgesBelow(dfa: Dfa, bound: nat): set<EdgeId>
    requires bound <= |dfa.states|
  {
    set s: nat, l | s < bound && l in dfa.states[s].transitions :: EdgeId(s, l)
  }

  method CountIndegrees(dfa: Dfa) returns (indegree: seq<nat>)
    ensures Counts(indegree, dfa, EdgesBelow(dfa, |dfa.states|))
  {
    indegree := seq(|dfa.states|, _ => 0);
    ghost var edges: set<EdgeId> := {};
    for s := 0 to |dfa.states|
      invariant edges == EdgesBelow(dfa, s)
      invariant Counts(indegree, dfa, edges)
    {
      var todo := dfa.states[s].transitions.Keys;
      while todo != {}
        invariant todo <= dfa.states[s].transitions.Keys
        invariant edges == EdgesBelow(dfa, s) + set l | l in dfa.states[s].transitions.Keys - todo :: EdgeId(s, l)
        invariant Counts(indegree, dfa, edges)
        decreases todo
      {
        Inhabited(todo);
      var symbol :| symbol in todo;
        var t := dfa.states[s].transitions[symbol];
        CountEdge(indegree, dfa, edges, EdgeId(s, symbol));
        if t < |indegree| {
          indegree := indegree[t := indegree[t] + 1];
        }
        edges := edges + {EdgeId(s, symbol)};
        todo := todo - {symbol};
      }
      assert edges == EdgesBelow(dfa, s + 1);
    }
  }

  // ----- The work queue -----

  /** Between two queue steps: `edges` are those not yet consumed, and the states without one coming in
      are exactly those already ordered or queued. */
  ghost predicate QueueState(dfa: Dfa, indegree: seq<nat>, edges: set<EdgeId>, order: seq<nat>, queue: seq<nat>) {
    && Counts(indegree, dfa, edges)
    && Distinct(order + queue)
    && (forall t: nat :: t in order + queue <==> t < |indegree| && indegree[t] == 0)
    && PredecessorsFirst(SuccessorGraph(dfa), order)
  }

  ghost function Unconsumed(dfa: Dfa, order: seq<nat>): set<EdgeId> {
    set e | e in EdgesBelow(dfa, |dfa.states|) && e.source !in order
  }

  lemma LabelTo(dfa: Dfa, s: nat, t: nat) returns (symbol: int)
    requires s < |dfa.states| && t in SuccessorGraph(dfa)[s]
    ensures symbol in dfa.states[s].transitions && dfa.states[s].transitions[symbol] == t
  {
    symbol :| symbol in dfa.states[s].transitions && dfa.states[s].transitions[symbol] == t;
  }

  /** A queued state can be ordered next: all its predecessors are. */
  lemma PopIsOrdered(dfa: Dfa, indegree: seq<nat>, order: seq<nat>, queue: seq<nat>)
    requires queue != []
    requires QueueState(dfa, indegree, Unconsumed(dfa, order), order, queue)
    ensures QueueState(dfa, indegree, Unconsumed(dfa, order), order + [queue[0]], queue[1..])
  {
    var g, state, edges := SuccessorGraph(dfa), queue[0], Unconsumed(dfa, order);
    var longer := order + [state];
    assert longer + queue[1..] == order + queue;
    assert state in order + queue;
    forall j, s: nat | 0 <= j < |longer| && s < |g| && longer[j] in g[s]
      ensures s in longer[..j]
    {
      if j == |order| {
        var symbol := LabelTo(dfa, s, state);
        assert Into(dfa, edges, state) == {};
        assert EdgeId(s, symbol) !in Into(dfa, edges, state);
        assert EdgeId(s, symbol) in EdgesBelow(dfa, |dfa.states|);
        assert longer[..j] == order;
      } else {
        assert order[j] in g[s];
        assert longer[..j] == order[..j];
      }
    }
  }

  method Consume(dfa: Dfa, indegree0: seq<nat>, state: nat, ghost order: seq<nat>, queue0: seq<nat>)
    returns (indegree: seq<nat>, queue: seq<nat>)
    requires order != [] && order[|order| - 1] == state && state < |dfa.states|
    requires QueueState(dfa, indegree0, Unconsumed(dfa, order[..|order| - 1]), order, queue0)
    ensures QueueState(dfa, indegree, Unconsumed(dfa, order), order, queue)
  {
    indegree, queue := indegree0, queue0;
    ghost var edges := Unconsumed(dfa, order[..|order| - 1]);
    var todo := dfa.states[state].transitions.Keys;
    DistinctFromPrefix(order + queue0, |order| - 1);
    assert (order + queue0)[..|order| - 1] == order[..|order| - 1];
    assert order == order[..|order| - 1] + [state];
    assert edges == Unconsumed(dfa, order) + set l | l in todo :: EdgeId(state, l);
    while todo != {}
      invariant todo <= dfa.states[state].transitions.Keys
      invariant edges == Unconsumed(dfa, order) + set l | l in todo :: EdgeId(state, l)
      invariant QueueState(dfa, indegree, edges, order, queue)
      decreases todo
    {
      Inhabited(todo);
      var symbol :| symbol in todo;
      var t := dfa.states[state].transitions[symbol];
      ghost var e := EdgeId(state, symbol);
      assert e in edges && Target(dfa, e) == t;
      UncountEdge(indegree, dfa, edges, e);
      if t < |indegree| {
        assert t !in order + queue;
        indegree := indegree[t := indegree[t] - 1];
        if indegree[t] == 0 {
          AppendDistinct(order + queue, t);
          assert order + (queue + [t]) == order + queue + [t];
          queue := queue + [t];
        }
      }
      edges := edges - {e};
      todo := todo - {symbol};
      assert edges == Unconsumed(dfa, order) + set l | l in todo :: EdgeId(state, l);
    }
    assert edges == Unconsumed(dfa, order);
  }

  lemma DistinctFromPrefix(path: seq<nat>, j: nat)
    requires Distinct(path) && j < |path|
    ensures path[j] !in path[..j]
  {
  }

  method InitialQueue(indegree: seq<nat>) returns (queue: seq<nat>)
    ensures Distinct(queue) && forall t: nat :: t in queue <==> t < |indegree| && indegree[t] == 0
  {
    queue := [];
    for t := 0 to |indegree|
      invariant Distinct(queue) && forall s: nat :: s in queue <==> s < t && indegree[s] == 0
    {
      if indegree[t] == 0 {
        AppendDistinct(queue, t);
        queue := queue + [t];
      }
    }
  }

  /** States in the order the queue visits them: predecessors first, and all of them just when there is no cycle. */
  method VisitOrder(dfa: Dfa) returns (order: seq<nat>)
    ensures PredecessorsFirst(SuccessorGraph(dfa), order) && Distinct(order) && forall s :: s in order ==> s < |dfa.states|
    ensures |order| == |dfa.states| <==> Acyclic(SuccessorGraph(dfa))
  {
    var indegree := CountIndegrees(dfa);
    var queue := InitialQueue(indegree);
    order := [];
    assert Unconsumed(dfa, order) == EdgesBelow(dfa, |dfa.states|);
    assert order + queue == queue;
    while queue != []
      invariant |order| <= |dfa.states|
      invariant QueueState(dfa, indegree, Unconsumed(dfa, order), order, queue)
      decreases |dfa.states| - |order|
    {
      var state := queue[0];
      PopIsOrdered(dfa, indegree, order, queue);
      assert state in order + queue;
      OrderFits(dfa, indegree, order, queue);
      ghost var previous := order;
      order := order + [state];
      assert order[..|order| - 1] == previous;
      indegree, queue := Consume(dfa, indegree, state, order, queue[1..]);
    }
    assert order + [] == order;
    Decide(dfa, indegree, order);
  }

  /** True exactly when the automaton has no cycle, in reachable and unreachable states alike: all were visited. */
  method ComputeIsAcyclic(dfa: Dfa) returns (acyclic: bool)
    ensures acyclic <==> Acyclic(SuccessorGraph(dfa))
  {
    var visited := VisitOrder(dfa);
    acyclic := |visited| == |dfa.states|;
  }

  lemma OrderFits(dfa: Dfa, indegree: seq<nat>, order: seq<nat>, queue: seq<nat>)
    requires QueueState(dfa, indegree, Unconsumed(dfa, order), order, queue)
    ensures |order + queue| <= |dfa.states|
  {
    if |order + queue| > |dfa.states| {
      Pigeonhole(order + queue, Below(|dfa.states|));
    }
  }

  /** A state that was never ordered still has an incoming edge from another such state. */
  lemma StuckPredecessor(dfa: Dfa, indegree: seq<nat>, order: seq<nat>, stuck: set<nat>, t: nat)
    requires QueueState(dfa, indegree, Unconsumed(dfa, order), order, [])
    requires stuck == Below(|dfa.states|) - Elements(order) && t in stuck
    ensures HasPredecessor(SuccessorGraph(dfa), stuck, t)
  {
    var into := Into(dfa, Unconsumed(dfa, order), t);
    assert order + [] == order;
    assert indegree[t] > 0;
    assert into != {};
    var e :| e in into;
    assert e.source in stuck && t in SuccessorGraph(dfa)[e.source];
  }

  lemma Decide(dfa: Dfa, indegree: seq<nat>, order: seq<nat>)
    requires QueueState(dfa, indegree, Unconsumed(dfa, order), order, [])
    ensures |order| == |dfa.states| <==> Acyclic(SuccessorGraph(dfa))
  {
    var g, n := SuccessorGraph(dfa), |dfa.states|;
    assert order + [] == order;
    DistinctSize(order, Elements(order));
    var stuck := Below(n) - Elements(order);
    assert Elements(order) <= Below(n);
    assert Below(n) == Elements(order) + stuck;
    if stuck == {} {
      forall s: nat | s < n ensures s in order { assert s in Below(n); }
      OrderedIsAcyclic(g, order);
    } else {
      forall t | t in stuck ensures HasPredecessor(g, stuck, t) {
        StuckPredecessor(dfa, indegree, order, stuck, t);
      }
      assert PredecessorsInside(g, stuck);
      StuckMeansCycle(g, stuck);
    }
  }
}
