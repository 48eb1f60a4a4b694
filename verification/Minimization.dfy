/** Minimizing automata with cycles: reachable part, coarsest partition, quotient. */
module Minimization {
  import opened Wrappers
  import opened Collections
  import opened Graphs
  import opened Dfas
  import opened Trimming
  import opened PartitionRefinement
  import opened FewestStates

  /** Two states share a class exactly when no word tells them apart. */
  ghost predicate IsExact(d: Dfa, c: Classes) {
    && |c| == |d.states| + 1 && TargetsInRange(d)
    && forall s, t :: 0 <= s < |c| && 0 <= t < |c| ==> (c[s] == c[t] <==> Equivalent(d, s, t))
  }

  lemma SinkAlone(d: Dfa, c: Classes, s: nat)
    requires IsExact(d, c) && s < |d.states|
    ensures c[s] != c[|d.states|]
  {
    assert Verdict(d, s, []) != Verdict(d, |d.states|, []);
  }

  /** States of one class have transitions under the same labels, into the same classes. */
  lemma SameTransitions(d: Dfa, c: Classes, s: nat, t: nat, l: int)
    requires IsExact(d, c) && s < |d.states| && t < |d.states| && c[s] == c[t]
    ensures d.states[s].accepting == d.states[t].accepting
    ensures l in d.states[s].transitions <==> l in d.states[t].transitions
    ensures l in d.states[s].transitions ==> c[d.states[s].transitions[l]] == c[d.states[t].transitions[l]]
  {
    assert Verdict(d, s, []) == Verdict(d, t, []);
    EquivalentTargets(d, s, t, l);
    var u, v := NextState(d, s, l), NextState(d, t, l);
    assert u < |c| && v < |c| && c[u] == c[v];
    if u < |d.states| {
      SinkAlone(d, c, u);
    }
    if v < |d.states| {
      SinkAlone(d, c, v);
    }
  }

  // ----- The quotient -----

  type Index = map<nat, nat>

  /** The new states are the classes other than the sink's, one to one; each new state has one of its members listed. */
  ghost predicate Numbers(d: Dfa, c: Classes, index: Index, members: seq<nat>) {
    && |c| == |d.states| + 1
    && (forall p :: 0 <= p < |members| ==> members[p] < |d.states| && c[members[p]] in index && index[c[members[p]]] == p)
    && (forall k :: k in index ==> index[k] < |members| && c[members[index[k]]] == k)
  }

  /** The start's class is numbered first, the others as their members are met. */
  method NumberClasses(d: Dfa, c: Classes) returns (index: Index, count: nat, ghost members: seq<nat>)
    requires IsExact(d, c) && d.start < |d.states|
    ensures Numbers(d, c, index, members) && count == |members| && c[d.start] in index && index[c[d.start]] == 0
    ensures forall s :: 0 <= s < |d.states| ==> c[s] in index
  {
    index, count, members := map[c[d.start] := 0], 1, [d.start];
    for s := 0 to |d.states|
      invariant Numbers(d, c, index, members) && count == |members| && c[d.start] in index && index[c[d.start]] == 0
      invariant forall t :: 0 <= t < s ==> c[t] in index
    {
      SinkAlone(d, c, s);
      if c[s] != c[|d.states|] && c[s] !in index {
        index := index[c[s] := count];
        count, members := count + 1, members + [s];
      }
    }
  }

  /** The new state of a class, copied from its member `s`. */
  function NewState(d: Dfa, c: Classes, index: Index, s: nat): DfaState
    requires s < |d.states| && |c| == |d.states| + 1 && forall l :: l in d.states[s].transitions ==> d.states[s].transitions[l] < |c|
  {
    var state := d.states[s];
    DfaState(state.accepting, map l | l in state.transitions && c[state.transitions[l]] in index :: index[c[state.transitions[l]]])
  }

  ghost predicate CopiesAt(d: Dfa, c: Classes, index: Index, state: DfaState, s: nat)
    requires IsExact(d, c) && s < |d.states|
  {
    var to := d.states[s].transitions;
    && state.accepting == d.states[s].accepting
    && (forall l :: l in state.transitions <==> l in to)
    && (forall l :: l in to ==> c[to[l]] in index && state.transitions[l] == index[c[to[l]]])
  }

  /** Whichever member a class is copied from, the copy is right for all its members. */
  lemma CopyFits(d: Dfa, c: Classes, index: Index, s: nat, t: nat)
    requires IsExact(d, c) && s < |d.states| && t < |d.states| && c[s] == c[t]
    requires forall u :: 0 <= u < |d.states| ==> c[u] in index
    ensures CopiesAt(d, c, index, NewState(d, c, index, s), t)
  {
    var state, to := NewState(d, c, index, s), d.states[t].transitions;
    SameTransitions(d, c, s, t, 0);
    forall l
      ensures l in state.transitions <==> l in to
      ensures l in to ==> c[to[l]] in index && state.transitions[l] == index[c[to[l]]]
    {
      SameTransitions(d, c, s, t, l);
    }
  }

  ghost predicate IsQuotient(d: Dfa, c: Classes, index: Index, members: seq<nat>, m: Dfa) {
    && IsExact(d, c) && Numbers(d, c, index, members) && |m.states| == |members| && m.start == 0 && d.start < |d.states|
    && forall s :: 0 <= s < |d.states| ==> c[s] in index && CopiesAt(d, c, index, m.states[index[c[s]]], s)
  }

  /** Classes whose new state was filled in have it right for all members. */
  ghost predicate FilledRight(d: Dfa, c: Classes, index: Index, states: seq<DfaState>, filled: seq<bool>)
    requires IsExact(d, c)
  {
    && |states| == |filled|
    && (forall t :: 0 <= t < |d.states| ==> c[t] in index && index[c[t]] < |filled|)
    && (forall t :: 0 <= t < |d.states| && filled[index[c[t]]] ==> CopiesAt(d, c, index, states[index[c[t]]], t))
  }

  lemma FillOne(d: Dfa, c: Classes, index: Index, members: seq<nat>, states: seq<DfaState>, filled: seq<bool>, s: nat)
    requires IsExact(d, c) && Numbers(d, c, index, members) && FilledRight(d, c, index, states, filled) && s < |d.states|
    ensures FilledRight(d, c, index, states[index[c[s]] := NewState(d, c, index, s)], filled[index[c[s]] := true])
  {
    forall t | 0 <= t < |d.states| && index[c[t]] == index[c[s]] ensures CopiesAt(d, c, index, NewState(d, c, index, s), t) {
      CopyFits(d, c, index, s, t);
    }
  }

  ghost predicate FilledTo(c: Classes, index: Index, filled: seq<bool>, s: nat) {
    s <= |c| && forall t :: 0 <= t < s ==> c[t] in index && index[c[t]] < |filled| && filled[index[c[t]]]
  }

  lemma FilledMore(c: Classes, index: Index, filled: seq<bool>, s: nat)
    requires FilledTo(c, index, filled, s) && s < |c| && c[s] in index && index[c[s]] < |filled|
    ensures FilledTo(c, index, filled[index[c[s]] := true], s + 1)
    ensures filled[index[c[s]]] ==> filled[index[c[s]] := true] == filled
  {
  }

  /** Each class's state is copied from its first member. */
  method FillStates(d: Dfa, c: Classes, index: Index, count: nat, ghost members: seq<nat>) returns (states: seq<DfaState>)
    requires IsExact(d, c) && Numbers(d, c, index, members) && count == |members|
    requires forall s :: 0 <= s < |d.states| ==> c[s] in index
    ensures |states| == count
    ensures forall s :: 0 <= s < |d.states| ==> CopiesAt(d, c, index, states[index[c[s]]], s)
  {
    states := seq(count, _ => DfaState(false, map[]));
    var filled := seq(count, _ => false);
    for s := 0 to |d.states|
      invariant |states| == count && FilledRight(d, c, index, states, filled) && FilledTo(c, index, filled, s)
    {
      var p := index[c[s]];
      FilledMore(c, index, filled, s);
      if !filled[p] {
        FillOne(d, c, index, members, states, filled, s);
        filled := filled[p := true];
        states := states[p := NewState(d, c, index, s)];
      }
    }
  }

  method Build(d: Dfa, c: Classes) returns (m: Dfa, ghost index: Index, ghost members: seq<nat>)
    requires IsExact(d, c) && d.start < |d.states|
    ensures IsQuotient(d, c, index, members, m) && c[d.start] in index && index[c[d.start]] == 0
  {
    var numbers, count;
    numbers, count, members := NumberClasses(d, c);
    var states := FillStates(d, c, numbers, count, members);
    m, index := Dfa(states, 0), numbers;
  }

  lemma {:induction false} QuotientAfter(d: Dfa, c: Classes, index: Index, members: seq<nat>, m: Dfa, s: nat, word: seq<int>)
    requires IsQuotient(d, c, index, members, m) && s < |d.states|
    ensures match After(d, s, word)
            case None => After(m, index[c[s]], word) == None
            case Some(t) => t < |d.states| && After(m, index[c[s]], word) == Some(index[c[t]])
    decreases |word|
  {
    assert CopiesAt(d, c, index, m.states[index[c[s]]], s);
    if word != [] {
      CopyMoves(d, c, index, m.states[index[c[s]]], s, word[0]);
      if word[0] in d.states[s].transitions {
        QuotientAfter(d, c, index, members, m, d.states[s].transitions[word[0]], word[1..]);
      }
    }
  }

  lemma CopyMoves(d: Dfa, c: Classes, index: Index, state: DfaState, s: nat, l: int)
    requires IsExact(d, c) && s < |d.states| && CopiesAt(d, c, index, state, s)
    ensures l in state.transitions <==> l in d.states[s].transitions
    ensures l in state.transitions ==>
              d.states[s].transitions[l] < |d.states| && c[d.states[s].transitions[l]] in index && state.transitions[l] == index[c[d.states[s].transitions[l]]]
  {
  }

  lemma QuotientVerdict(d: Dfa, c: Classes, index: Index, members: seq<nat>, m: Dfa, s: nat, word: seq<int>)
    requires IsQuotient(d, c, index, members, m) && s < |d.states|
    ensures Verdict(m, index[c[s]], word) == Verdict(d, s, word)
  {
    QuotientAfter(d, c, index, members, m, s, word);
    if After(d, s, word).Some? {
      var t := After(d, s, word).value;
      assert CopiesAt(d, c, index, m.states[index[c[t]]], t);
    }
  }

  lemma QuotientReached(d: Dfa, c: Classes, index: Index, members: seq<nat>, m: Dfa, p: nat)
    requires IsQuotient(d, c, index, members, m) && AllReached(d) && index[c[d.start]] == 0 && p < |m.states|
    ensures IsReached(m, p)
  {
    assert IsReached(d, members[p]);
    var word :| After(d, d.start, word) == Some(members[p]);
    QuotientAfter(d, c, index, members, m, d.start, word);
  }

  lemma QuotientDiffer(d: Dfa, c: Classes, index: Index, members: seq<nat>, m: Dfa, p: nat, q: nat)
    requires IsQuotient(d, c, index, members, m) && p < |m.states| && q < |m.states| && p != q
    ensures !Equivalent(m, p, q)
  {
    var s, t := members[p], members[q];
    assert !Equivalent(d, s, t);
    var word :| Verdict(d, s, word) != Verdict(d, t, word);
    QuotientVerdict(d, c, index, members, m, s, word);
    QuotientVerdict(d, c, index, members, m, t, word);
  }

  lemma QuotientReduced(d: Dfa, c: Classes, index: Index, members: seq<nat>, m: Dfa)
    requires IsQuotient(d, c, index, members, m) && AllReached(d) && index[c[d.start]] == 0
    ensures Reduced(m) && TargetsInRange(m) && m.start < |m.states|
  {
    forall p: nat | p < |m.states| ensures IsReached(m, p) {
      QuotientReached(d, c, index, members, m, p);
    }
    forall p, q | 0 <= p < |m.states| && 0 <= q < |m.states| && p != q ensures !Equivalent(m, p, q) {
      QuotientDiffer(d, c, index, members, m, p, q);
    }
    forall p, l | 0 <= p < |m.states| && l in m.states[p].transitions ensures m.states[p].transitions[l] < |m.states| {
      assert CopiesAt(d, c, index, m.states[p], members[p]);
      CopyMoves(d, c, index, m.states[p], members[p], l);
    }
  }

  // ----- Minimization -----

  /** The language is kept, every state is reached, and some word tells any two states apart. The result has the fewest
      states of all automata with its language exactly when every reachable state of the input accepts something. */
  method MinimizeCyclic(dfa: Dfa) returns (m: Dfa)
    ensures forall word :: Accepts(m, m.start, word) <==> Accepts(dfa, dfa.start, word)
    ensures Reduced(m)
    ensures Fewest(m) <==> AllLive(dfa)
  {
    if dfa.states == [] {
      return dfa;
    }
    var list := ReachableStates(dfa);
    if list == [] {
      NothingReachable(dfa);
      return Dfa([DfaState(false, map[])], 0);
    }
    assert Reachable(dfa, list[0]);
    var dense := Trim(dfa, list);
    TrimReached(dfa, list, dense);
    var c := Partition(dense);
    ghost var index, members;
    m, index, members := Build(dense, c);
    QuotientReduced(dense, c, index, members, m);
    forall word ensures Verdict(m, 0, word) == Verdict(dfa, dfa.start, word) {
      TrimAfter(dfa, list, dense, dense.start, word);
      QuotientVerdict(dense, c, index, members, m, dense.start, word);
      VerdictAccepts(dfa, dfa.start, word);
    }
    forall word ensures Accepts(m, m.start, word) <==> Accepts(dfa, dfa.start, word) {
      VerdictAccepts(m, 0, word);
      VerdictAccepts(dfa, dfa.start, word);
    }
    FewestIffLive(dfa, m);
  }

  /** A start that is no state leaves one state too many. */
  lemma NothingReachable(dfa: Dfa)
    requires dfa.states != [] && forall s :: !Reachable(dfa, s)
    ensures var m := Dfa([DfaState(false, map[])], 0);
            (forall word :: Accepts(m, m.start, word) <==> Accepts(dfa, dfa.start, word)) && Reduced(m) && !Fewest(m) && !AllLive(dfa)
  {
    var m := Dfa([DfaState(false, map[])], 0);
    StartReachable(dfa);
    assert After(m, 0, []) == Some(0);
    SmallerRefutes(m, Dfa([], 0));
  }
}
