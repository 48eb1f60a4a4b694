/** When a reduced automaton has the fewest states of all automata with its language. */
module FewestStates {
  import opened Wrappers
  import opened Graphs
  import opened Reachability
  import opened Dfas
  import opened Trimming
  import opened PartitionRefinement

  /** Every state is reached, and no two are equivalent. */
  ghost predicate Reduced(m: Dfa) {
    AllReached(m) && forall p, q :: 0 <= p < |m.states| && 0 <= q < |m.states| && p != q ==> !Equivalent(m, p, q)
  }

  ghost predicate SameLanguage(a: Dfa, b: Dfa) {
    forall word :: Accepts(a, a.start, word) <==> Accepts(b, b.start, word)
  }

  ghost predicate Fewest(m: Dfa) {
    forall x: Dfa :: SameLanguage(m, x) ==> |m.states| <= |x.states|
  }

  ghost predicate Live(dfa: Dfa, s: nat) {
    exists word :: Accepts(dfa, s, word)
  }

  /** Every reachable state accepts something; in an automaton with states the start is one of them. */
  ghost predicate AllLive(dfa: Dfa) {
    dfa.states == [] || (dfa.start < |dfa.states| && forall s: nat :: Reachable(dfa, s) ==> Live(dfa, s))
  }

  lemma SmallerRefutes(m: Dfa, x: Dfa)
    requires SameLanguage(m, x) && |x.states| < |m.states|
    ensures !Fewest(m)
  {
  }

  lemma StartReachable(dfa: Dfa)
    ensures dfa.start < |dfa.states| ==> Reachable(dfa, dfa.start)
  {
    assert Reach(Steps(dfa), dfa.start, dfa.start, 0);
  }

  // ----- Live states that differ, differ in language -----

  lemma AcceptsAfter(m: Dfa, s: nat, v: seq<int>, w: seq<int>)
    ensures Accepts(m, s, v + w) <==> After(m, s, v).Some? && Accepts(m, After(m, s, v).value, w)
  {
    AfterConcat(m, s, v, w);
    VerdictAccepts(m, s, v + w);
    if After(m, s, v).Some? {
      VerdictAccepts(m, After(m, s, v).value, w);
    }
  }

  ghost predicate SameWords(a: Dfa, s: nat, b: Dfa, t: nat) {
    forall word :: Accepts(a, s, word) <==> Accepts(b, t, word)
  }

  /** A word that only one of them survives goes on to a word that only that one accepts. */
  lemma LiveDiffer(m: Dfa, p: nat, q: nat)
    requires (forall s: nat :: s < |m.states| ==> Live(m, s)) && !Equivalent(m, p, q)
    ensures !SameWords(m, p, m, q)
  {
    var word :| Verdict(m, p, word) != Verdict(m, q, word);
    VerdictAccepts(m, p, word);
    VerdictAccepts(m, q, word);
    if Accepts(m, p, word) == Accepts(m, q, word) {
      var survivor := if After(m, p, word).Some? then p else q;
      var t := After(m, survivor, word).value;
      assert Live(m, t);
      var rest :| Accepts(m, t, rest);
      AcceptsAfter(m, p, word, rest);
      AcceptsAfter(m, q, word, rest);
    }
  }

  // ----- No automaton with the language is smaller -----

  /** Each state of `m` has a state of `x` that accepts the same words. */
  lemma Image(m: Dfa, x: Dfa, p: nat) returns (q: nat)
    requires SameLanguage(m, x) && p < |m.states| && IsReached(m, p) && Live(m, p)
    ensures q < |x.states| && SameWords(m, p, x, q)
  {
    var word :| After(m, m.start, word) == Some(p);
    var rest :| Accepts(m, p, rest);
    AcceptsAfter(m, m.start, word, rest);
    AcceptsAfter(x, x.start, word, rest);
    q := After(x, x.start, word).value;
    VerdictAccepts(x, x.start, word);
    forall w ensures Accepts(m, p, w) <==> Accepts(x, q, w) {
      AcceptsAfter(m, m.start, word, w);
      AcceptsAfter(x, x.start, word, w);
    }
  }

  lemma {:induction false} Images(m: Dfa, x: Dfa, count: nat) returns (images: seq<nat>)
    requires SameLanguage(m, x) && Reduced(m) && (forall s: nat :: s < |m.states| ==> Live(m, s)) && count <= |m.states|
    ensures |images| == count && forall p :: 0 <= p < count ==> images[p] < |x.states| && SameWords(m, p, x, images[p])
  {
    if count == 0 {
      images := [];
    } else {
      var fewer := Images(m, x, count - 1);
      assert IsReached(m, count - 1) && Live(m, count - 1);
      var q := Image(m, x, count - 1);
      images := fewer + [q];
    }
  }

  lemma LiveIsFewest(m: Dfa)
    requires Reduced(m) && forall s: nat :: s < |m.states| ==> Live(m, s)
    ensures Fewest(m)
  {
    forall x: Dfa | SameLanguage(m, x) ensures |m.states| <= |x.states| {
      var images := Images(m, x, |m.states|);
      forall p, q | 0 <= p < q < |images| ensures images[p] != images[q] {
        LiveDiffer(m, p, q);
      }
      if |images| > |x.states| {
        Pigeonhole(images, Below(|x.states|));
      }
    }
  }

  // ----- A dead state can be dropped -----

  /** The last state takes the place of `t`. */
  function Moved(t: nat, last: nat, s: nat): nat {
    if s == last then t else s
  }

  function Dropped(m: Dfa, t: nat): Dfa
    requires t < |m.states|
  {
    var last := |m.states| - 1;
    Dfa(seq(last, i requires 0 <= i < last => WithoutEdges(m.states[Moved(last, t, i)], t, last)), Moved(t, last, m.start))
  }

  function WithoutEdges(state: DfaState, t: nat, last: nat): DfaState {
    DfaState(state.accepting, map l | l in state.transitions && state.transitions[l] != t :: Moved(t, last, state.transitions[l]))
  }

  lemma {:induction false} DroppedAccepts(m: Dfa, t: nat, s: nat, word: seq<int>)
    requires TargetsInRange(m) && t < |m.states| && s < |m.states| && s != t && !Live(m, t)
    ensures Accepts(Dropped(m, t), Moved(t, |m.states| - 1, s), word) <==> Accepts(m, s, word)
    decreases |word|
  {
    var last, x := |m.states| - 1, Dropped(m, t);
    assert x.states[Moved(t, last, s)] == WithoutEdges(m.states[s], t, last);
    if word != [] && word[0] in m.states[s].transitions {
      var next := m.states[s].transitions[word[0]];
      TransitionInRange(m, s, word[0]);
      if next == t {
        assert !Accepts(m, t, word[1..]);
      } else {
        DroppedAccepts(m, t, next, word[1..]);
      }
    }
  }

  lemma DeadIsNotFewest(m: Dfa, t: nat)
    requires TargetsInRange(m) && m.start < |m.states| && t < |m.states| && !Live(m, t)
    ensures !Fewest(m)
  {
    if t == m.start {
      forall word ensures !Accepts(m, m.start, word) {
      }
      SmallerRefutes(m, Dfa([], 0));
    } else {
      forall word ensures Accepts(m, m.start, word) <==> Accepts(Dropped(m, t), Dropped(m, t).start, word) {
        DroppedAccepts(m, t, m.start, word);
      }
      SmallerRefutes(m, Dropped(m, t));
    }
  }

  // ----- Liveness in the input is liveness in the result -----

  lemma {:induction false} AfterIsReach(dfa: Dfa, s: nat, word: seq<int>) returns (n: nat)
    requires After(dfa, s, word).Some?
    ensures Reach(Steps(dfa), s, After(dfa, s, word).value, n) && After(dfa, s, word).value < |dfa.states|
    decreases |word|
  {
    if word == [] {
      n := 0;
    } else {
      var next := dfa.states[s].transitions[word[0]];
      var k := AfterIsReach(dfa, next, word[1..]);
      VerdictAccepts(dfa, next, word[1..]);
      TransitionSteps(dfa, s, word[0]);
      n := k + 1;
    }
  }

  /** The state a word reaches in one is live just when the state it reaches in the other is. */
  lemma LiveAlike(dfa: Dfa, m: Dfa, word: seq<int>, s: nat, p: nat)
    requires forall w :: Verdict(m, m.start, w) == Verdict(dfa, dfa.start, w)
    requires After(dfa, dfa.start, word) == Some(s) && After(m, m.start, word) == Some(p)
    ensures Live(dfa, s) <==> Live(m, p)
  {
    forall rest ensures Accepts(dfa, s, rest) <==> Accepts(m, p, rest) {
      AcceptsAfter(dfa, dfa.start, word, rest);
      AcceptsAfter(m, m.start, word, rest);
      VerdictAccepts(dfa, dfa.start, word + rest);
      VerdictAccepts(m, m.start, word + rest);
    }
  }

  lemma FewestIffLive(dfa: Dfa, m: Dfa)
    requires Reduced(m) && TargetsInRange(m) && m.start < |m.states| && dfa.start < |dfa.states|
    requires forall w :: Verdict(m, m.start, w) == Verdict(dfa, dfa.start, w)
    ensures Fewest(m) <==> AllLive(dfa)
  {
    if AllLive(dfa) {
      forall p: nat | p < |m.states| ensures Live(m, p) {
        assert IsReached(m, p);
        var word :| After(m, m.start, word) == Some(p);
        assert Verdict(m, m.start, word) == Verdict(dfa, dfa.start, word);
        var n := AfterIsReach(dfa, dfa.start, word);
        LiveAlike(dfa, m, word, After(dfa, dfa.start, word).value, p);
      }
      LiveIsFewest(m);
    } else {
      var s: nat :| Reachable(dfa, s) && !Live(dfa, s);
      var word := ReachableByWord(dfa, s);
      assert Verdict(m, m.start, word) == Verdict(dfa, dfa.start, word);
      VerdictAccepts(m, m.start, word);
      var p := After(m, m.start, word).value;
      LiveAlike(dfa, m, word, s, p);
      DeadIsNotFewest(m, p);
    }
  }

  /** Accepts only the empty word; one label leads to a state that accepts nothing. */
  const TRAP := Dfa([DfaState(true, map[0 := 1]), DfaState(false, map[])], 0)

  /** An input with a dead state: it is reduced as it stands, but its second state can go. */
  lemma TrapIsNotFewest()
    ensures Reduced(TRAP) && TargetsInRange(TRAP) && !AllLive(TRAP) && !Fewest(TRAP)
  {
    var one: seq<int> := [0];
    assert one[1..] == [] && After(TRAP, 0, []) == Some(0) && After(TRAP, 1, []) == Some(1);
    assert After(TRAP, 0, one) == Some(1);
    assert IsReached(TRAP, 0) && IsReached(TRAP, 1);
    assert Verdict(TRAP, 0, []) == 2 && Verdict(TRAP, 1, []) == 1;
    forall word ensures !Accepts(TRAP, 1, word) {
    }
    var n := AfterIsReach(TRAP, 0, one);
    assert Reachable(TRAP, 1);
    DeadIsNotFewest(TRAP, 1);
  }
}
