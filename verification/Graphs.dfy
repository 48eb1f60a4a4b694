/** Finite directed graphs as successor sets, and what it means to have no cycle. */
module Graphs {
  import opened Collections

  type Graph = seq<set<nat>>

  /** A walk visits states of the graph along its edges. */
  predicate Walk(g: Graph, path: seq<nat>) {
    && (forall i :: 0 <= i < |path| ==> path[i] < |g|)
    && (forall i :: 0 <= i < |path| - 1 ==> path[i + 1] in g[path[i]])
  }

  ghost predicate Acyclic(g: Graph) {
    forall path :: Walk(g, path) && |path| >= 2 ==> path[0] != path[|path| - 1]
  }

  lemma FirstEdge(g: Graph, path: seq<nat>)
    requires Walk(g, path) && |path| >= 2
    ensures path[0] < |g| && path[0 + 1] in g[path[0]]
  {
  }

  /** The last edge of a walk, and the walk up to it. */
  lemma LastEdge(g: Graph, path: seq<nat>)
    requires Walk(g, path) && |path| >= 2
    ensures path[|path| - 2] < |g| && path[|path| - 1] in g[path[|path| - 2]] && Walk(g, path[..|path| - 1])
  {
    assert path[|path| - 2 + 1] in g[path[|path| - 2]];
  }

  lemma EdgelessIsAcyclic(g: Graph)
    requires forall i :: 0 <= i < |g| ==> g[i] == {}
    ensures Acyclic(g)
  {
    forall path | Walk(g, path) && |path| >= 2 ensures path[0] != path[|path| - 1] {
      FirstEdge(g, path);
    }
  }

  // ----- Pigeonhole -----

  function Below(n: nat): (r: set<nat>)
    ensures forall i: nat :: i in r <==> i < n
    ensures |r| == n
  {
    if n == 0 then {} else Below(n - 1) + {n - 1}
  }

  lemma AllListed(order: seq<nat>, n: nat)
    requires Distinct(order) && |order| == n && forall s :: s in order ==> s < n
    ensures forall s: nat :: s in order <==> s < n
  {
    DistinctSize(order, Elements(order));
    assert Elements(order) <= Below(n);
    SubsetSize(Elements(order), Below(n));
    forall s: nat | s < n ensures s in order {
      assert s in Elements(order);
    }
  }

  lemma Pigeonhole(path: seq<nat>, holes: set<nat>)
    requires Elements(path) <= holes && |path| > |holes|
    ensures !Distinct(path)
  {
    if Distinct(path) {
      DistinctSize(path, Elements(path));
      SubsetSize(Elements(path), holes);
    }
  }

  // ----- Walks of an acyclic graph are short -----

  lemma RepeatIsCycle(g: Graph, path: seq<nat>)
    requires Walk(g, path) && !Distinct(path)
    ensures !Acyclic(g)
  {
    var i, j :| 0 <= i < j < |path| && path[i] == path[j];
    var cycle := path[i..j + 1];
    assert Walk(g, cycle) && cycle[0] == cycle[|cycle| - 1];
  }

  lemma AcyclicWalkBound(g: Graph, path: seq<nat>)
    requires Acyclic(g) && Walk(g, path)
    ensures |path| <= |g|
  {
    if |path| > |g| {
      Pigeonhole(path, Below(|g|));
      RepeatIsCycle(g, path);
    }
  }

  // ----- A topological order rules cycles out; its absence forces one -----

  /** Every edge into a listed state comes from a state listed earlier. */
  predicate PredecessorsFirst(g: Graph, order: seq<nat>) {
    forall j, s: nat :: 0 <= j < |order| && s < |g| && order[j] in g[s] ==> s in order[..j]
  }

  lemma {:induction false} WalkFollowsOrder(g: Graph, order: seq<nat>, path: seq<nat>, j: nat)
    requires PredecessorsFirst(g, order) && Walk(g, path)
    requires |path| >= 2 && j < |order| && order[j] == path[|path| - 1]
    ensures path[0] in order[..j]
    decreases |path|
  {
    var before := path[|path| - 2];
    assert order[j] in g[before];
    assert before in order[..j];
    if |path| > 2 {
      var k :| 0 <= k < j && order[k] == before;
      var shorter := path[..|path| - 1];
      WalkFollowsOrder(g, order, shorter, k);
      assert order[..k] <= order[..j];
    }
  }

  lemma OrderedIsAcyclic(g: Graph, order: seq<nat>)
    requires PredecessorsFirst(g, order) && Distinct(order)
    requires forall s: nat :: s < |g| ==> s in order
    ensures Acyclic(g)
  {
    forall path | Walk(g, path) && |path| >= 2
      ensures path[0] != path[|path| - 1]
    {
      var last := path[|path| - 1];
      assert last in order;
      var j :| 0 <= j < |order| && order[j] == last;
      WalkFollowsOrder(g, order, path, j);
      var k :| 0 <= k < j && order[k] == path[0];
    }
  }

  ghost predicate HasPredecessor(g: Graph, stuck: set<nat>, t: nat) {
    exists s :: s in stuck && s < |g| && t in g[s]
  }

  ghost predicate PredecessorsInside(g: Graph, stuck: set<nat>) {
    forall t :: t in stuck ==> t < |g| && HasPredecessor(g, stuck, t)
  }

  lemma ExtendWalk(g: Graph, path: seq<nat>, t: nat)
    requires path != [] && Walk(g, path) && t < |g| && t in g[path[|path| - 1]]
    ensures Walk(g, path + [t])
  {
  }

  lemma {:induction false} WalkBackwards(g: Graph, stuck: set<nat>, t: nat, length: nat) returns (path: seq<nat>)
    requires PredecessorsInside(g, stuck) && t in stuck
    ensures |path| == length + 1 && path[length] == t && Walk(g, path)
    ensures forall x :: x in path ==> x in stuck
    decreases length
  {
    if length == 0 {
      path := [t];
    } else {
      assert HasPredecessor(g, stuck, t);
      var s :| s in stuck && s < |g| && t in g[s];
      var prefix := WalkBackwards(g, stuck, s, length - 1);
      ExtendWalk(g, prefix, t);
      path := prefix + [t];
    }
  }

  /** When every state of a nonempty set has a predecessor in the set, the set contains a cycle. */
  lemma StuckMeansCycle(g: Graph, stuck: set<nat>)
    requires PredecessorsInside(g, stuck) && stuck != {}
    ensures !Acyclic(g)
  {
    var t :| t in stuck;
    var path := WalkBackwards(g, stuck, t, |stuck|);
    Pigeonhole(path, stuck);
    RepeatIsCycle(g, path);
  }
}
