/** Where words lead in an automaton, and its reachable part densely numbered. A missing transition leads to a sink,
    and so does one that leads out of the automaton. */
module Trimming {
  import opened Wrappers
  import opened Collections
  import opened Graphs
  import opened Reachability
  import opened Dfas

  // ----- Reachable states -----

  ghost function Steps(dfa: Dfa): nat -> set<nat> {
    (s: nat) =>
      if s < |dfa.states| then set l | l in dfa.states[s].transitions && dfa.states[s].transitions[l] < |dfa.states| :: dfa.states[s].transitions[l]
      else {}
  }

  ghost predicate Reachable(dfa: Dfa, s: nat) {
    s < |dfa.states| && dfa.start < |dfa.states| && exists n: nat :: Reach(Steps(dfa), dfa.start, s, n)
  }

  /** Visited states are reachable, and where their transitions lead was visited or waits. */
  ghost predicate Visiting(dfa: Dfa, visited: set<nat>, stack: seq<nat>) {
    && (forall s :: s in visited ==> Reachable(dfa, s))
    && (forall s :: s in stack && s < |dfa.states| ==> Reachable(dfa, s))
    && (dfa.start < |dfa.states| ==> dfa.start in visited || dfa.start in stack)
    && Covered(Steps(dfa), visited, stack)
  }

  method PushTargets(dfa: Dfa, s: nat, visited: set<nat>, rest: seq<nat>) returns (stack: seq<nat>)
    requires s < |dfa.states|
    ensures exists pushed :: stack == rest + pushed && (forall t :: t in pushed ==> t in Steps(dfa)(s))
              && forall t :: t in Steps(dfa)(s) ==> t in visited || t in pushed
  {
    stack := rest;
    ghost var pushed: seq<nat> := [];
    var transitions := dfa.states[s].transitions;
    var todo := transitions.Keys;
    while todo != {}
      invariant todo <= transitions.Keys && stack == rest + pushed
      invariant forall t :: t in pushed ==> t in Steps(dfa)(s)
      invariant forall l :: l in transitions && l !in todo && transitions[l] < |dfa.states| ==> transitions[l] in visited || transitions[l] in pushed
      decreases todo
    {
      Inhabited(todo);
      var l :| l in todo;
      var t := transitions[l];
      if t < |dfa.states| && t !in visited {
        assert t in Steps(dfa)(s);
        stack, pushed := stack + [t], pushed + [t];
      }
      todo := todo - {l};
    }
  }

  lemma VisitOne(dfa: Dfa, visited: set<nat>, rest: seq<nat>, s: nat, pushed: seq<nat>)
    requires s < |dfa.states| && Visiting(dfa, visited, rest + [s])
    requires forall t :: t in pushed ==> t in Steps(dfa)(s)
    requires forall t :: t in Steps(dfa)(s) ==> t in visited + {s} || t in pushed
    ensures Visiting(dfa, visited + {s}, rest + pushed)
  {
    assert s in rest + [s];
    forall t | t in pushed ensures Reachable(dfa, t) {
      ReachableStep(dfa, s, t);
    }
  }

  lemma VisitSkipped(dfa: Dfa, visited: set<nat>, rest: seq<nat>, s: nat)
    requires Visiting(dfa, visited, rest + [s]) && (s >= |dfa.states| || s in visited)
    ensures Visiting(dfa, visited, rest)
  {
    forall c, e | c in visited && e in Steps(dfa)(c) ensures e in visited || e in rest {
    }
  }

  lemma AllVisited(dfa: Dfa, visited: set<nat>)
    requires Visiting(dfa, visited, [])
    ensures forall s :: Reachable(dfa, s) <==> s in visited
  {
    forall s | Reachable(dfa, s) ensures s in visited {
      var n: nat :| Reach(Steps(dfa), dfa.start, s, n);
      CoveredHasRuns(Steps(dfa), visited, dfa.start, s, n);
    }
  }

  ghost predicate Increasing(list: seq<nat>) {
    forall i, j :: 0 <= i < j < |list| ==> list[i] < list[j]
  }

  /** The reachable states in order. */
  method ReachableStates(dfa: Dfa) returns (list: seq<nat>)
    ensures Increasing(list) && forall s :: s in list <==> Reachable(dfa, s)
  {
    var visited: set<nat> := {};
    var stack := [dfa.start];
    StartVisit(dfa);
    while stack != []
      invariant Visiting(dfa, visited, stack)
      decreases Below(|dfa.states|) - visited, |stack|
    {
      var s, rest := stack[|stack| - 1], stack[..|stack| - 1];
      LastApart(stack);
      if s >= |dfa.states| || s in visited {
        VisitSkipped(dfa, visited, rest, s);
        stack := rest;
      } else {
        stack := PushTargets(dfa, s, visited + {s}, rest);
        ghost var pushed :| stack == rest + pushed && (forall t :: t in pushed ==> t in Steps(dfa)(s))
          && forall t :: t in Steps(dfa)(s) ==> t in visited + {s} || t in pushed;
        VisitOne(dfa, visited, rest, s, pushed);
        assert s in Below(|dfa.states|) - visited;
        visited := visited + {s};
      }
    }
    AllVisited(dfa, visited);
    list := [];
    for s := 0 to |dfa.states|
      invariant Increasing(list) && forall x :: x in list <==> x in visited && x < s
    {
      if s in visited {
        assert forall i :: 0 <= i < |list| ==> list[i] in list;
        list := list + [s];
      }
    }
  }

  lemma StartVisit(dfa: Dfa)
    ensures Visiting(dfa, {}, [dfa.start])
  {
    assert Reach(Steps(dfa), dfa.start, dfa.start, 0);
  }

  // ----- Where words lead -----

  /** The state after a word, or nothing once a transition is missing or leads out of the automaton. */
  function After(dfa: Dfa, s: nat, word: seq<int>): Option<nat>
    decreases |word|
  {
    if s >= |dfa.states| then None
    else if word == [] then Some(s)
    else if word[0] !in dfa.states[s].transitions then None
    else After(dfa, dfa.states[s].transitions[word[0]], word[1..])
  }

  /** The sink says 0, a rejecting state 1, an accepting one 2. */
  function Verdict(dfa: Dfa, s: nat, word: seq<int>): nat {
    match After(dfa, s, word)
    case None => 0
    case Some(t) => if t < |dfa.states| && dfa.states[t].accepting then 2 else 1
  }

  lemma {:induction false} VerdictAccepts(dfa: Dfa, s: nat, word: seq<int>)
    ensures Accepts(dfa, s, word) <==> Verdict(dfa, s, word) == 2
    ensures After(dfa, s, word).Some? ==> After(dfa, s, word).value < |dfa.states|
    decreases |word|
  {
    if s < |dfa.states| && word != [] && word[0] in dfa.states[s].transitions {
      VerdictAccepts(dfa, dfa.states[s].transitions[word[0]], word[1..]);
    }
  }

  lemma {:induction false} AfterConcat(dfa: Dfa, s: nat, v: seq<int>, w: seq<int>)
    ensures After(dfa, s, v + w) == match After(dfa, s, v) case None => None case Some(t) => After(dfa, t, w)
    decreases |v|
  {
    if v == [] {
      assert v + w == w;
    } else {
      assert (v + w)[1..] == v[1..] + w;
      if s < |dfa.states| && v[0] in dfa.states[s].transitions {
        AfterConcat(dfa, dfa.states[s].transitions[v[0]], v[1..], w);
      }
    }
  }

  /** A reachable state is the one after some word. */
  lemma {:induction false} ReachWord(dfa: Dfa, s: nat, t: nat, n: nat) returns (word: seq<int>)
    requires s < |dfa.states| && Reach(Steps(dfa), s, t, n)
    ensures After(dfa, s, word) == Some(t)
    decreases n
  {
    if n == 0 {
      word := [];
    } else {
      var e: nat :| e in Steps(dfa)(s) && Reach(Steps(dfa), e, t, n - 1);
      var l :| l in dfa.states[s].transitions && dfa.states[s].transitions[l] == e;
      var rest := ReachWord(dfa, e, t, n - 1);
      word := [l] + rest;
      assert word[1..] == rest;
    }
  }

  // ----- The reachable part, densely numbered -----

  /** `dense` is the automaton on the listed states: transitions that lead out of the automaton are dropped. */
  ghost predicate IsTrim(dfa: Dfa, list: seq<nat>, dense: Dfa) {
    && |dense.states| == |list| && dense.start < |list| && list[dense.start] == dfa.start
    && (forall i :: 0 <= i < |list| ==> list[i] < |dfa.states| && dense.states[i].accepting == dfa.states[list[i]].accepting)
    && forall i, l :: 0 <= i < |list| ==> TrimsAt(dfa, list, dense, i, l)
  }

  ghost predicate TrimsAt(dfa: Dfa, list: seq<nat>, dense: Dfa, i: nat, l: int)
    requires i < |list| == |dense.states| && list[i] < |dfa.states|
  {
    var to := dfa.states[list[i]].transitions;
    && (l in dense.states[i].transitions <==> l in to && to[l] < |dfa.states|)
    && (l in dense.states[i].transitions ==> dense.states[i].transitions[l] < |list| && list[dense.states[i].transitions[l]] == to[l])
  }

  lemma {:induction false} TrimAfter(dfa: Dfa, list: seq<nat>, dense: Dfa, i: nat, word: seq<int>)
    requires IsTrim(dfa, list, dense) && i < |list|
    ensures match After(dense, i, word)
            case None => After(dfa, list[i], word) == None
            case Some(k) => k < |list| && After(dfa, list[i], word) == Some(list[k])
    decreases |word|
  {
    if word != [] {
      assert TrimsAt(dfa, list, dense, i, word[0]);
      if word[0] in dense.states[i].transitions {
        TrimAfter(dfa, list, dense, dense.states[i].transitions[word[0]], word[1..]);
      }
    }
  }

  function DenseState(state: DfaState, index: map<nat, nat>): DfaState {
    DfaState(state.accepting, map l | l in state.transitions && state.transitions[l] in index :: index[state.transitions[l]])
  }

  /** The dense number of each listed state. */
  method DenseIndex(list: seq<nat>) returns (index: map<nat, nat>)
    ensures forall s :: s in index <==> s in list
    ensures forall s :: s in index ==> index[s] < |list| && list[index[s]] == s
  {
    index := map[];
    for i := 0 to |list|
      invariant forall s :: s in index <==> s in list[..i]
      invariant forall s :: s in index ==> index[s] < i && list[index[s]] == s
    {
      OneLonger(list, i);
      index := index[list[i] := i];
    }
    assert list[..|list|] == list;
  }

  method Trim(dfa: Dfa, list: seq<nat>) returns (dense: Dfa)
    requires dfa.start < |dfa.states| && Increasing(list) && forall s :: s in list <==> Reachable(dfa, s)
    ensures IsTrim(dfa, list, dense)
  {
    var index := DenseIndex(list);
    var states: seq<DfaState> := [];
    for i := 0 to |list|
      invariant |states| == i && forall k :: 0 <= k < i ==> list[k] in list && states[k] == DenseState(dfa.states[list[k]], index)
    {
      assert list[i] in list;
      states := states + [DenseState(dfa.states[list[i]], index)];
    }
    assert Reach(Steps(dfa), dfa.start, dfa.start, 0);
    dense := Dfa(states, index[dfa.start]);
    forall i, l | 0 <= i < |list| ensures TrimsAt(dfa, list, dense, i, l) {
      TargetListed(dfa, list, i, l);
    }
  }

  lemma TransitionSteps(dfa: Dfa, s: nat, l: int)
    requires s < |dfa.states| && l in dfa.states[s].transitions && dfa.states[s].transitions[l] < |dfa.states|
    ensures dfa.states[s].transitions[l] in Steps(dfa)(s)
  {
  }

  lemma TransitionInRange(dfa: Dfa, s: nat, l: int)
    requires TargetsInRange(dfa) && s < |dfa.states| && l in dfa.states[s].transitions
    ensures dfa.states[s].transitions[l] < |dfa.states|
  {
  }

  lemma ReachableStep(dfa: Dfa, s: nat, t: nat)
    requires Reachable(dfa, s) && t in Steps(dfa)(s)
    ensures Reachable(dfa, t)
  {
    var n: nat :| Reach(Steps(dfa), dfa.start, s, n);
    ReachSnoc(Steps(dfa), dfa.start, s, t, n);
  }

  lemma ReachableByWord(dfa: Dfa, s: nat) returns (word: seq<int>)
    requires Reachable(dfa, s)
    ensures After(dfa, dfa.start, word) == Some(s)
  {
    var n: nat :| Reach(Steps(dfa), dfa.start, s, n);
    word := ReachWord(dfa, dfa.start, s, n);
  }

  /** A target of a listed state is listed when it is a state at all. */
  lemma TargetListed(dfa: Dfa, list: seq<nat>, i: nat, l: int)
    requires i < |list| && (forall s :: s in list <==> Reachable(dfa, s))
    ensures list[i] < |dfa.states|
    ensures var to := dfa.states[list[i]].transitions; l in to ==> (to[l] in list <==> to[l] < |dfa.states|)
  {
    assert list[i] in list;
    var to := dfa.states[list[i]].transitions;
    if l in to && to[l] < |dfa.states| {
      assert to[l] in Steps(dfa)(list[i]);
      ReachableStep(dfa, list[i], to[l]);
    }
  }

  /** Every state of the trimmed automaton is the one after some word. */
  ghost predicate AllReached(dfa: Dfa) {
    forall s: nat :: s < |dfa.states| ==> IsReached(dfa, s)
  }

  ghost predicate IsReached(dfa: Dfa, s: nat) {
    exists word :: After(dfa, dfa.start, word) == Some(s)
  }

  lemma TrimReached(dfa: Dfa, list: seq<nat>, dense: Dfa)
    requires Increasing(list) && (forall s :: s in list <==> Reachable(dfa, s)) && IsTrim(dfa, list, dense)
    ensures AllReached(dense) && TargetsInRange(dense)
  {
    forall i: nat | i < |list| ensures IsReached(dense, i) {
      assert list[i] in list;
      var word := ReachableByWord(dfa, list[i]);
      TrimAfter(dfa, list, dense, dense.start, word);
      var k := After(dense, dense.start, word).value;
      assert list[k] == list[i] && k == i;
      assert After(dense, dense.start, word) == Some(i);
    }
    forall i, l | 0 <= i < |dense.states| && l in dense.states[i].transitions ensures dense.states[i].transitions[l] < |dense.states| {
      assert TrimsAt(dfa, list, dense, i, l);
    }
  }
}
