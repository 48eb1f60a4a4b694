/** The difference of two automata: a product in which the right side may have fallen off. */
module Subtraction {
  import opened Wrappers
  import opened Collections
  import opened Dfas
  import opened KeyedAutomata

  datatype ProductState = ProductState(left: nat, right: Option<nat>)

  ghost predicate WellFormed(dfa: Dfa) {
    TargetsInRange(dfa) && (dfa.states != [] ==> dfa.start < |dfa.states|)
  }

  predicate InProduct(left: Dfa, right: Dfa, p: ProductState) {
    p.left < |left.states| && (p.right.Some? ==> p.right.value < |right.states|)
  }

  ghost function Universe(left: Dfa, right: Dfa): set<ProductState> {
    (set l: nat | l < |left.states| :: ProductState(l, None))
    + set l: nat, r: nat | l < |left.states| && r < |right.states| :: ProductState(l, Some(r))
  }

  /** A transition missing on the right leads to a sink that rejects everything. */
  function RightNext(right: Dfa, state: Option<nat>, l: int): Option<nat>
    requires state.Some? ==> state.value < |right.states|
  {
    if state.Some? && l in right.states[state.value].transitions then Some(right.states[state.value].transitions[l]) else None
  }

  function NextProducts(left: Dfa, right: Dfa, p: ProductState): map<int, ProductState> {
    if !InProduct(left, right, p) then map[]
    else
      map l | l in left.states[p.left].transitions :: ProductState(left.states[p.left].transitions[l], RightNext(right, p.right, l))
  }

  function ProductAccepts(left: Dfa, right: Dfa, p: ProductState): bool {
    InProduct(left, right, p) && left.states[p.left].accepting && !(p.right.Some? && right.states[p.right.value].accepting)
  }

  ghost function NextOfProducts(left: Dfa, right: Dfa): ProductState -> map<int, ProductState> {
    p => NextProducts(left, right, p)
  }

  ghost function AcceptingProducts(left: Dfa, right: Dfa): ProductState -> bool {
    p => ProductAccepts(left, right, p)
  }

  ghost predicate RightAccepts(right: Dfa, state: Option<nat>, word: seq<int>) {
    state.Some? && Accepts(right, state.value, word)
  }

  /** A product accepts what its left side accepts and its right side does not. */
  lemma {:induction false} ProductLanguage(left: Dfa, right: Dfa, p: ProductState, word: seq<int>)
    requires WellFormed(left) && WellFormed(right) && InProduct(left, right, p)
    ensures AcceptsKey(NextOfProducts(left, right), AcceptingProducts(left, right), p, word)
            <==> Accepts(left, p.left, word) && !RightAccepts(right, p.right, word)
    decreases |word|
  {
    if word != [] && word[0] in left.states[p.left].transitions {
      var next := NextProducts(left, right, p)[word[0]];
      assert NextOfProducts(left, right)(p) == NextProducts(left, right, p);
      ProductLanguage(left, right, next, word[1..]);
    }
  }

  /** The words of `left` that `right` does not accept. */
  method Subtract(left: Dfa, right: Dfa) returns (result: Dfa)
    requires (left.states != [] ==> left.start < |left.states|) && (right.states != [] ==> right.start < |right.states|)
    requires forall i, l :: 0 <= i < |left.states| && l in left.states[i].transitions ==> left.states[i].transitions[l] < |left.states|
    requires forall i, l :: 0 <= i < |right.states| && l in right.states[i].transitions ==> right.states[i].transitions[l] < |right.states|
    ensures forall word :: Accepts(result, result.start, word) <==> Accepts(left, left.start, word) && !Accepts(right, right.start, word)
    ensures WellFormed(result)
  {
    assert WellFormed(left) && WellFormed(right);
    if left.states == [] {
      return left;
    }
    var start := ProductState(left.start, if right.states == [] then None else Some(right.start));
    ghost var next, accepting, universe := NextOfProducts(left, right), AcceptingProducts(left, right), Universe(left, right);
    var states, ids, worklist := [EMPTY_STATE], map[start := 0], [start];
    ghost var taken: seq<ProductState> := [];
    Started(next, accepting, universe, start);
    while worklist != []
      invariant Building(next, accepting, universe, taken, worklist, ids, states)
      invariant start in ids && ids[start] == 0
      decreases universe - Elements(taken)
    {
      var p := worklist[0];
      HeadInUniverse(next, accepting, universe, taken, worklist, ids, states);
      ProductsStay(left, right, p);
      ghost var now := taken + [p];
      ids, states, worklist := TakeNext(next, accepting, universe, taken, NextProducts(left, right, p), ProductAccepts(left, right, p), ids, states, worklist);
      taken := now;
    }
    result := Dfa(states, 0);
    BuiltInRange(next, accepting, universe, taken, ids, states, start);
    forall word ensures Accepts(result, 0, word) <==> Accepts(left, left.start, word) && !Accepts(right, right.start, word) {
      BuiltLanguage(next, accepting, universe, taken, ids, states, 0, start, word);
      ProductLanguage(left, right, start, word);
    }
  }

  lemma ProductsStay(left: Dfa, right: Dfa, p: ProductState)
    requires WellFormed(left) && WellFormed(right) && p in Universe(left, right)
    ensures forall l :: l in NextProducts(left, right, p) ==> NextProducts(left, right, p)[l] in Universe(left, right)
  {
    forall l | l in NextProducts(left, right, p) ensures NextProducts(left, right, p)[l] in Universe(left, right) {
      var q := NextProducts(left, right, p)[l];
      assert InProduct(left, right, q);
      assert q == ProductState(q.left, q.right);
    }
  }
}
