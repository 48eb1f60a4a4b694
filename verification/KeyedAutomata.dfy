/** Automata built by a worklist over keys, such as subsets or products of states. */
module KeyedAutomata {
  import opened Collections
  import opened Dfas

  type Edges<K> = map<int, K>
  type NextOf<!K> = K -> Edges<K>
  type Ids<K> = map<K, nat>

  const EMPTY_STATE := DfaState(false, map[])

  /** The language of the automaton whose states are the keys themselves. */
  ghost predicate AcceptsKey<K>(next: NextOf<K>, accepting: K -> bool, k: K, word: seq<int>)
    decreases |word|
  {
    if word == [] then accepting(k) else word[0] in next(k) && AcceptsKey(next, accepting, next(k)[word[0]], word[1..])
  }

  /** `ids` numbers the keys in the order of the list. */
  ghost predicate Indexed<K(!new)>(keys: seq<K>, ids: Ids<K>) {
    && (forall i :: 0 <= i < |keys| ==> keys[i] in ids && ids[keys[i]] == i)
    && (forall k :: k in ids ==> ids[k] < |keys| && keys[ids[k]] == k)
  }

  /** Two tables of transitions agree. */
  ghost predicate Same<K(!new)>(a: Edges<K>, b: Edges<K>) {
    (forall l :: l in a <==> l in b) && forall l :: l in a ==> a[l] == b[l]
  }

  ghost predicate Linked<K(!new)>(edges: Edges<K>, ids: Ids<K>, transitions: map<int, nat>) {
    && (forall l :: l in transitions <==> l in edges)
    && (forall l :: l in edges ==> edges[l] in ids && transitions[l] == ids[edges[l]])
  }

  lemma LinkAt<K(!new)>(edges: Edges<K>, ids: Ids<K>, transitions: map<int, nat>, l: int)
    requires Linked(edges, ids, transitions)
    ensures l in transitions <==> l in edges
    ensures l in edges ==> edges[l] in ids && transitions[l] == ids[edges[l]]
  {
  }

  ghost predicate Filled<K(!new)>(next: NextOf<K>, accepting: K -> bool, ids: Ids<K>, state: DfaState, k: K) {
    state.accepting == accepting(k) && Linked(next(k), ids, state.transitions)
  }

  /** Keys taken from the worklist have their state filled in; those that wait have an empty one. */
  ghost predicate Building<K(!new)>(next: NextOf<K>, accepting: K -> bool, universe: set<K>, taken: seq<K>, worklist: seq<K>, ids: Ids<K>, states: seq<DfaState>) {
    && Indexed(taken + worklist, ids) && |states| == |taken| + |worklist|
    && (forall i :: 0 <= i < |taken| ==> Filled(next, accepting, ids, states[i], taken[i]))
    && (forall i :: |taken| <= i < |states| ==> states[i] == EMPTY_STATE)
    && forall k :: k in ids ==> k in universe
  }

  ghost predicate Extended<K(!new)>(ids: Ids<K>, more: Ids<K>) {
    forall k :: k in ids ==> k in more && more[k] == ids[k]
  }

  lemma OneMoreKey<K(!new)>(keys: seq<K>, ids: Ids<K>, k: K)
    requires Indexed(keys, ids) && k !in ids
    ensures Indexed(keys + [k], ids[k := |keys|])
  {
  }

  /** The state of a key, which is created and queued when the key is new. */
  method GetOrCreate<K(==, !new)>(ids0: Ids<K>, states0: seq<DfaState>, worklist0: seq<K>, k: K, ghost keys: seq<K>)
    returns (ids: Ids<K>, states: seq<DfaState>, worklist: seq<K>, id: nat)
    requires Indexed(keys, ids0) && |states0| == |keys|
    ensures if k in ids0 then ids == ids0 && states == states0 && worklist == worklist0 && id == ids0[k]
            else ids == ids0[k := id] && states == states0 + [EMPTY_STATE] && worklist == worklist0 + [k] && id == |states0|
  {
    ids, states, worklist := ids0, states0, worklist0;
    if k in ids {
      id := ids[k];
    } else {
      id := |states|;
      states := states + [EMPTY_STATE];
      ids := ids[k := id];
      worklist := worklist + [k];
    }
  }

  /** Where linking a state stands: `linked` are the labels that already have their transition. */
  ghost predicate Linking<K(!new)>(edges: Edges<K>, linked: set<int>, state: nat, taken: seq<K>, ids0: Ids<K>, states0: seq<DfaState>, ids: Ids<K>, states: seq<DfaState>, worklist: seq<K>) {
    && state < |states0| <= |states|
    && Indexed(taken + worklist, ids) && |states| == |taken| + |worklist| && Extended(ids0, ids)
    && states[state].accepting == states0[state].accepting
    && (forall l :: l in states[state].transitions <==> l in linked)
    && (forall l :: l in linked ==> l in edges && edges[l] in ids && states[state].transitions[l] == ids[edges[l]])
    && (forall i :: 0 <= i < |states0| && i != state ==> states[i] == states0[i])
    && (forall i :: |states0| <= i < |states| ==> states[i] == EMPTY_STATE)
    && forall k :: k in ids ==> k in ids0 || LeadsTo(edges, k)
  }

  ghost predicate LeadsTo<K(!new)>(edges: Edges<K>, k: K) {
    exists l :: l in edges && edges[l] == k
  }

  lemma LinkOne<K(!new)>(
    edges: Edges<K>, linked: set<int>, label0: int, state: nat, taken: seq<K>, ids0: Ids<K>, states0: seq<DfaState>,
    ids: Ids<K>, states: seq<DfaState>, worklist: seq<K>, ids2: Ids<K>, states2: seq<DfaState>, worklist2: seq<K>, id: nat)
    requires Linking(edges, linked, state, taken, ids0, states0, ids, states, worklist) && label0 in edges
    requires if edges[label0] in ids then ids2 == ids && states2 == states && worklist2 == worklist && id == ids[edges[label0]]
             else ids2 == ids[edges[label0] := id] && states2 == states + [EMPTY_STATE] && worklist2 == worklist + [edges[label0]] && id == |states|
    ensures state < |states2|
    ensures Linking(edges, linked + {label0}, state, taken, ids0, states0, ids2,
                    states2[state := states2[state].(transitions := states2[state].transitions[label0 := id])], worklist2)
  {
    var k := edges[label0];
    assert LeadsTo(edges, k);
    if k !in ids {
      OneMoreKey(taken + worklist, ids, k);
      Regroup(taken, worklist, [k]);
    }
  }

  /** The transitions of one state, label by label. */
  method Connect<K(==, !new)>(edges: Edges<K>, state: nat, ids0: Ids<K>, states0: seq<DfaState>, worklist0: seq<K>, ghost taken: seq<K>)
    returns (ids: Ids<K>, states: seq<DfaState>, worklist: seq<K>)
    requires Indexed(taken + worklist0, ids0) && |states0| == |taken| + |worklist0|
    requires state < |states0| && states0[state].transitions == map[]
    ensures Linking(edges, edges.Keys, state, taken, ids0, states0, ids, states, worklist)
  {
    ids, states, worklist := ids0, states0, worklist0;
    var todo := edges.Keys;
    while todo != {}
      invariant todo <= edges.Keys
      invariant Linking(edges, edges.Keys - todo, state, taken, ids0, states0, ids, states, worklist)
      decreases todo
    {
      Inhabited(todo);
      var label0 :| label0 in todo;
      ghost var ids1, states1, worklist1 := ids, states, worklist;
      var id;
      ids, states, worklist, id := GetOrCreate(ids, states, worklist, edges[label0], taken + worklist);
      LinkOne(edges, edges.Keys - todo, label0, state, taken, ids0, states0, ids1, states1, worklist1, ids, states, worklist, id);
      states := states[state := states[state].(transitions := states[state].transitions[label0 := id])];
      assert edges.Keys - (todo - {label0}) == (edges.Keys - todo) + {label0};
      todo := todo - {label0};
    }
    assert edges.Keys - todo == edges.Keys;
  }

  // ----- One turn of the worklist -----

  lemma FilledStays<K(!new)>(next: NextOf<K>, accepting: K -> bool, ids: Ids<K>, more: Ids<K>, state: DfaState, k: K)
    requires Filled(next, accepting, ids, state, k) && Extended(ids, more)
    ensures Filled(next, accepting, more, state, k)
  {
  }

  /** The head of the worklist gets its acceptance and its transitions. */
  lemma Turned<K(!new)>(
    next: NextOf<K>, accepting: K -> bool, universe: set<K>, taken: seq<K>, worklist0: seq<K>, ids0: Ids<K>, states0: seq<DfaState>, edges: Edges<K>,
    marked: seq<DfaState>, ids: Ids<K>, states: seq<DfaState>, worklist: seq<K>)
    requires worklist0 != [] && Building(next, accepting, universe, taken, worklist0, ids0, states0)
    requires marked == states0[|taken| := DfaState(accepting(worklist0[0]), map[])]
    requires Same(edges, next(worklist0[0])) && forall l :: l in edges ==> edges[l] in universe
    requires Linking(edges, edges.Keys, |taken|, taken + [worklist0[0]], ids0, marked, ids, states, worklist)
    ensures Building(next, accepting, universe, taken + [worklist0[0]], worklist, ids, states)
  {
    var k, now := worklist0[0], taken + [worklist0[0]];
    forall i | 0 <= i < |now| ensures Filled(next, accepting, ids, states[i], now[i]) {
      if i < |taken| {
        assert states[i] == states0[i];
        FilledStays(next, accepting, ids0, ids, states0[i], taken[i]);
      }
    }
    forall i | |now| <= i < |states| ensures states[i] == EMPTY_STATE {
      if i < |states0| {
        assert states[i] == marked[i] == states0[i];
      }
    }
    forall x | x in ids && x !in ids0 ensures x in universe {
      assert LeadsTo(edges, x);
    }
  }

  method TakeNext<K(==, !new)>(
    ghost next: NextOf<K>, ghost accepting: K -> bool, ghost universe: set<K>, ghost taken: seq<K>,
    edges: Edges<K>, accepts: bool, ids0: Ids<K>, states0: seq<DfaState>, worklist0: seq<K>)
    returns (ids: Ids<K>, states: seq<DfaState>, worklist: seq<K>)
    requires worklist0 != [] && Building(next, accepting, universe, taken, worklist0, ids0, states0)
    requires Same(edges, next(worklist0[0])) && accepts == accepting(worklist0[0])
    requires forall l :: l in edges ==> edges[l] in universe
    ensures Building(next, accepting, universe, taken + [worklist0[0]], worklist, ids, states) && Extended(ids0, ids)
    ensures universe - Elements(taken + [worklist0[0]]) < universe - Elements(taken)
  {
    var k, rest := worklist0[0], worklist0[1..];
    assert taken + worklist0 == taken + [k] + rest;
    assert (taken + worklist0)[|taken|] == k;
    var state := ids0[k];
    var marked := states0[state := DfaState(accepts, map[])];
    ids, states, worklist := Connect(edges, state, ids0, marked, rest, taken + [k]);
    Turned(next, accepting, universe, taken, worklist0, ids0, states0, edges, marked, ids, states, worklist);
    KeyIsNew(taken, worklist0, ids0);
    assert k in universe - Elements(taken);
  }

  lemma KeyIsNew<K(!new)>(taken: seq<K>, worklist: seq<K>, ids: Ids<K>)
    requires worklist != [] && Indexed(taken + worklist, ids)
    ensures worklist[0] !in taken
  {
    var keys := taken + worklist;
    assert keys[|taken|] == worklist[0];
    forall i | 0 <= i < |taken| ensures taken[i] != worklist[0] {
      assert keys[i] == taken[i];
    }
  }

  lemma HeadInUniverse<K(!new)>(next: NextOf<K>, accepting: K -> bool, universe: set<K>, taken: seq<K>, worklist: seq<K>, ids: Ids<K>, states: seq<DfaState>)
    requires worklist != [] && Building(next, accepting, universe, taken, worklist, ids, states)
    ensures worklist[0] in universe
  {
    assert (taken + worklist)[|taken|] == worklist[0];
  }

  lemma Started<K(!new)>(next: NextOf<K>, accepting: K -> bool, universe: set<K>, start: K)
    requires start in universe
    ensures Building(next, accepting, universe, [], [start], map[start := 0], [EMPTY_STATE])
  {
  }

  /** With an empty worklist each key's state accepts the key's language. */
  lemma {:induction false} BuiltLanguage<K(!new)>(
    next: NextOf<K>, accepting: K -> bool, universe: set<K>, taken: seq<K>, ids: Ids<K>, states: seq<DfaState>, start: nat, k: K, word: seq<int>)
    requires Building(next, accepting, universe, taken, [], ids, states) && k in ids
    ensures Accepts(Dfa(states, start), ids[k], word) <==> AcceptsKey(next, accepting, k, word)
    decreases |word|
  {
    assert taken + [] == taken;
    assert Filled(next, accepting, ids, states[ids[k]], taken[ids[k]]) && taken[ids[k]] == k;
    if word != [] {
      LinkAt(next(k), ids, states[ids[k]].transitions, word[0]);
    }
    if word != [] && word[0] in next(k) {
      BuiltLanguage(next, accepting, universe, taken, ids, states, start, next(k)[word[0]], word[1..]);
    }
  }

  /** When the worklist is empty, every transition leads to a state. */
  lemma BuiltInRange<K(!new)>(next: NextOf<K>, accepting: K -> bool, universe: set<K>, taken: seq<K>, ids: Ids<K>, states: seq<DfaState>, start: K)
    requires Building(next, accepting, universe, taken, [], ids, states) && start in ids && ids[start] == 0
    ensures TargetsInRange(Dfa(states, 0)) && |states| > 0
  {
    assert taken + [] == taken;
    forall i, l | 0 <= i < |states| && l in states[i].transitions ensures states[i].transitions[l] < |states| {
      assert Filled(next, accepting, ids, states[i], taken[i]);
      LinkAt(next(taken[i]), ids, states[i].transitions, l);
    }
  }
}
