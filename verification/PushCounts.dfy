/** Counting the words PUSH can append: one pass in reverse topological order gives every state the number and
    the greatest length of its words, both saturating just above the budgets. */
module PushCounts {
  import opened Wrappers
  import opened Collections
  import opened Graphs
  import opened StackMachine
  import opened FlatTemplates

  const MAX_PATHS: nat := 64
  const MAX_LENGTH: nat := 8

  ghost predicate Productive(push: Phase, state: nat) {
    exists word :: Appends(push, state, word)
  }

  ghost predicate InRange(push: Phase) {
    forall i, x :: 0 <= i < |push.rows| && x in push.rows[i].edges ==> push.rows[i].edges[x] < |push.rows|
  }

  /** An order of all states in which every edge goes forward. */
  ghost predicate Topological(push: Phase, order: seq<nat>) {
    && InRange(push) && PredecessorsFirst(PhaseGraph(push), order) && Distinct(order)
    && forall s: nat :: s in order <==> s < |push.rows|
  }

  // ----- Following a path -----

  /** The state after pushing `path` from `start`. */
  function FollowPath(push: Phase, start: nat, path: Stack): Option<nat> {
    if path == [] then Some(start)
    else
      match FollowPath(push, start, path[..|path| - 1])
      case None => None
      case Some(s) =>
        var x := path[|path| - 1];
        if s < |push.rows| && x in push.rows[s].edges then Some(push.rows[s].edges[x]) else None
  }

  ghost predicate AcceptedPath(push: Phase, start: nat, path: Stack) {
    var end := FollowPath(push, start, path);
    end.Some? && end.value < |push.rows| && push.rows[end.value].accepting
  }

  lemma {:induction false} FollowAppends(push: Phase, start: nat, done: Stack, state: nat, word: Stack)
    requires FollowPath(push, start, done) == Some(state)
    ensures AcceptedPath(push, start, done + word) <==> Appends(push, state, word)
    decreases |word|
  {
    if word == [] {
      assert done + word == done;
    } else {
      var next := done + [word[0]];
      assert next[..|done|] == done;
      assert next + word[1..] == done + word;
      if state < |push.rows| && word[0] in push.rows[state].edges {
        FollowAppends(push, start, next, push.rows[state].edges[word[0]], word[1..]);
      } else {
        NoFollow(push, start, next, word[1..]);
      }
    }
  }

  lemma {:induction false} NoFollow(push: Phase, start: nat, done: Stack, word: Stack)
    requires FollowPath(push, start, done) == None
    ensures FollowPath(push, start, done + word) == None
    decreases |word|
  {
    if word == [] {
      assert done + word == done;
    } else {
      var init := word[..|word| - 1];
      NoFollow(push, start, done, init);
      assert (done + word)[..|done + word| - 1] == done + init;
    }
  }

  // ----- Paths are finite in number -----

  ghost function Alphabet(push: Phase): set<nat> {
    set i, x | 0 <= i < |push.rows| && x in push.rows[i].edges :: x
  }

  ghost function Words(alphabet: set<nat>, length: nat): set<Stack> {
    if length == 0 then {[]}
    else Words(alphabet, length - 1) + set w, x | w in Words(alphabet, length - 1) && x in alphabet :: w + [x]
  }

  lemma {:induction false} WordsGrow(alphabet: set<nat>, length: nat, more: nat)
    requires length <= more
    ensures Words(alphabet, length) <= Words(alphabet, more)
    decreases more
  {
    if length < more {
      WordsGrow(alphabet, length, more - 1);
    }
  }

  /** Following `path` walks the graph, visiting one state more than the path is long. */
  lemma {:induction false} FollowWalks(push: Phase, start: nat, path: Stack) returns (walk: seq<nat>)
    requires InRange(push) && start < |push.rows| && FollowPath(push, start, path).Some?
    ensures |walk| == |path| + 1 && Walk(PhaseGraph(push), walk) && walk[|path|] == FollowPath(push, start, path).value
    ensures path in Words(Alphabet(push), |path|)
    decreases |path|
  {
    if path == [] {
      walk := [start];
    } else {
      var init, x := path[..|path| - 1], path[|path| - 1];
      var before := FollowWalks(push, start, init);
      var s := FollowPath(push, start, init).value;
      assert push.rows[s].edges[x] in Targets(push.rows[s]);
      ExtendWalk(PhaseGraph(push), before, push.rows[s].edges[x]);
      walk := before + [push.rows[s].edges[x]];
      assert x in Alphabet(push);
      assert path == init + [x];
    }
  }

  ghost function AllPaths(push: Phase): set<Stack> {
    Words(Alphabet(push), |push.rows|)
  }

  lemma PathIsBounded(push: Phase, start: nat, path: Stack)
    requires InRange(push) && Acyclic(PhaseGraph(push)) && start < |push.rows| && FollowPath(push, start, path).Some?
    ensures path in AllPaths(push)
  {
    var walk := FollowWalks(push, start, path);
    AcyclicWalkBound(PhaseGraph(push), walk);
    WordsGrow(Alphabet(push), |path|, |push.rows|);
  }

  // ----- The words of a state -----

  /** The words that PUSH can append from `state`. */
  ghost function Language(push: Phase, state: nat): set<Stack> {
    set w | w in AllPaths(push) && Appends(push, state, w)
  }

  lemma LanguageIsAll(push: Phase, state: nat, w: Stack)
    requires InRange(push) && Acyclic(PhaseGraph(push)) && state < |push.rows|
    ensures w in Language(push, state) <==> Appends(push, state, w)
  {
    if Appends(push, state, w) {
      FollowAppends(push, state, [], state, w);
      assert [] + w == w;
      PathIsBounded(push, state, w);
    }
  }

  lemma ProductiveHasWords(push: Phase, state: nat)
    requires InRange(push) && Acyclic(PhaseGraph(push)) && state < |push.rows|
    ensures Productive(push, state) <==> Language(push, state) != {}
  {
    if word :| Appends(push, state, word) {
      LanguageIsAll(push, state, word);
    }
  }

  // ----- Counts of a set of words -----

  datatype Count = Count(paths: nat, length: nat)

  function Capped(w: Stack): nat { Min(|w|, MAX_LENGTH + 1) }

  ghost predicate IsLongest(words: set<Stack>, length: nat) {
    && (forall w :: w in words ==> Capped(w) <= length)
    && (length > 0 ==> exists w :: w in words && Capped(w) == length)
  }

  /** The number of words and the greatest length, each exact up to its budget and saturating just above it. */
  ghost predicate IsCount(words: set<Stack>, c: Count) {
    c.paths == Min(|words|, MAX_PATHS + 1) && IsLongest(words, c.length) && c.length <= MAX_LENGTH + 1
  }

  ghost function Prefixed(x: nat, words: set<Stack>): set<Stack> {
    set w | w in words :: [x] + w
  }

  lemma InPrefixed(x: nat, words: set<Stack>, w: Stack)
    ensures w in Prefixed(x, words) <==> w != [] && w[0] == x && w[1..] in words
  {
    if w in Prefixed(x, words) {
      var rest :| rest in words && w == [x] + rest;
      assert w[1..] == rest;
    }
    if w != [] && w[0] == x && w[1..] in words {
      assert w == [x] + w[1..];
    }
  }

  lemma {:induction false} PrefixedSize(x: nat, words: set<Stack>)
    ensures |Prefixed(x, words)| == |words|
    decreases |words|
  {
    if words != {} {
      var w :| w in words;
      var fewer := words - {w};
      PrefixedSize(x, fewer);
      assert ([x] + w)[1..] == w;
      InPrefixed(x, fewer, [x] + w);
      assert Prefixed(x, words) == Prefixed(x, fewer) + {[x] + w};
    }
  }

  lemma PrefixedLongest(x: nat, words: set<Stack>, length: nat)
    requires IsLongest(words, length) && length <= MAX_LENGTH + 1
    ensures words != {} ==> IsLongest(Prefixed(x, words), Min(length + 1, MAX_LENGTH + 1))
  {
    forall w | w in Prefixed(x, words) ensures Capped(w) <= Min(length + 1, MAX_LENGTH + 1) {
      InPrefixed(x, words, w);
      assert Capped(w[1..]) <= length;
    }
    if words != {} {
      var longest :| longest in words && (length > 0 ==> Capped(longest) == length);
      var w := [x] + longest;
      assert w in Prefixed(x, words) && Capped(w) == Min(length + 1, MAX_LENGTH + 1);
    }
  }

  lemma UnionLongest(a: set<Stack>, b: set<Stack>, m: nat, n: nat)
    requires IsLongest(a, m) && IsLongest(b, n)
    ensures IsLongest(a + b, Max(m, n))
  {
    if Max(m, n) > 0 {
      if m < n {
        var w :| w in b && Capped(w) == n;
        assert w in a + b;
      } else {
        var w :| w in a && Capped(w) == m;
        assert w in a + b;
      }
    }
  }

  function Added(c: Count, child: Count): Count {
    Count(Min(c.paths + child.paths, MAX_PATHS + 1),
          if child.paths != 0 then Max(c.length, Min(child.length + 1, MAX_LENGTH + 1)) else c.length)
  }

  /** Adding an edge's target adds its words behind the edge's symbol. */
  lemma AddEdge(words: set<Stack>, c: Count, x: nat, below: set<Stack>, child: Count)
    requires IsCount(words, c) && IsCount(below, child)
    requires forall w :: w in words ==> w == [] || w[0] != x
    ensures IsCount(words + Prefixed(x, below), Added(c, child))
  {
    forall w | w in Prefixed(x, below) ensures w !in words {
      InPrefixed(x, below, w);
    }
    PrefixedSize(x, below);
    assert |words + Prefixed(x, below)| == |words| + |below|;
    if below == {} {
      assert Prefixed(x, below) == {};
      assert words + Prefixed(x, below) == words;
    } else {
      PrefixedLongest(x, below, child.length);
      UnionLongest(words, Prefixed(x, below), c.length, Min(child.length + 1, MAX_LENGTH + 1));
    }
  }

  // ----- Counting, in reverse topological order -----

  ghost predicate Counted(push: Phase, counts: seq<Count>, states: set<nat>) {
    |counts| == |push.rows| && forall s :: s in states && s < |push.rows| ==> IsCount(Language(push, s), counts[s])
  }

  ghost predicate AllCounted(push: Phase, counts: seq<Count>) {
    |counts| == |push.rows| && forall s :: 0 <= s < |counts| ==> IsCount(Language(push, s), counts[s])
  }

  /** The words of `state` that are empty or begin with one of `symbols`. */
  ghost function Over(push: Phase, state: nat, symbols: set<nat>): set<Stack> {
    set w | w in Language(push, state) && (w == [] || w[0] in symbols)
  }

  lemma OverNone(push: Phase, i: nat)
    requires InRange(push) && Acyclic(PhaseGraph(push)) && i < |push.rows|
    ensures IsCount(Over(push, i, {}), Count(if push.rows[i].accepting then 1 else 0, 0))
  {
    LanguageIsAll(push, i, []);
    var empty: Stack := [];
    assert Over(push, i, {}) == if push.rows[i].accepting then {empty} else {};
  }

  lemma OverOneMore(push: Phase, i: nat, symbols: set<nat>, x: nat)
    requires InRange(push) && Acyclic(PhaseGraph(push)) && i < |push.rows| && x in push.rows[i].edges && x !in symbols
    ensures Over(push, i, symbols + {x}) == Over(push, i, symbols) + Prefixed(x, Language(push, push.rows[i].edges[x]))
  {
    var target := push.rows[i].edges[x];
    forall w ensures w in Over(push, i, symbols + {x}) <==> w in Over(push, i, symbols) || w in Prefixed(x, Language(push, target)) {
      InPrefixed(x, Language(push, target), w);
      if w != [] && w[0] == x {
        LanguageIsAll(push, i, w);
        LanguageIsAll(push, target, w[1..]);
      }
    }
  }

  lemma OverAll(push: Phase, i: nat)
    requires i < |push.rows|
    ensures Over(push, i, push.rows[i].edges.Keys) == Language(push, i)
  {
  }

  lemma CountEdge(push: Phase, i: nat, symbols: set<nat>, x: nat, count: Count, child: Count)
    requires InRange(push) && Acyclic(PhaseGraph(push)) && i < |push.rows| && x in push.rows[i].edges && x !in symbols
    requires IsCount(Over(push, i, symbols), count) && IsCount(Language(push, push.rows[i].edges[x]), child)
    ensures IsCount(Over(push, i, symbols + {x}), Added(count, child))
  {
    OverOneMore(push, i, symbols, x);
    AddEdge(Over(push, i, symbols), count, x, Language(push, push.rows[i].edges[x]), child);
  }

  lemma MoveOne(all: set<nat>, todo: set<nat>, done: set<nat>, x: nat)
    requires todo <= all && done == all - todo && x in todo
    ensures done + {x} == all - (todo - {x})
  {
  }

  /** The saturating sum over a state's edges of the counts of their targets. */
  method CountState(push: Phase, counts: seq<Count>, i: nat, ghost done: set<nat>) returns (count: Count)
    requires InRange(push) && Acyclic(PhaseGraph(push)) && i < |push.rows| && Counted(push, counts, done)
    requires forall x :: x in push.rows[i].edges ==> push.rows[i].edges[x] in done
    ensures IsCount(Language(push, i), count)
  {
    var row := push.rows[i];
    count := Count(if row.accepting then 1 else 0, 0);
    OverNone(push, i);
    var todo := row.edges.Keys;
    ghost var symbols: set<nat> := {};
    while todo != {}
      invariant todo <= row.edges.Keys && symbols == row.edges.Keys - todo
      invariant IsCount(Over(push, i, symbols), count)
      decreases todo
    {
      Inhabited(todo);
      var x :| x in todo;
      CountEdge(push, i, symbols, x, count, counts[row.edges[x]]);
      count := Added(count, counts[row.edges[x]]);
      MoveOne(row.edges.Keys, todo, symbols, x);
      todo, symbols := todo - {x}, symbols + {x};
    }
    OverAll(push, i);
    assert symbols == row.edges.Keys;
  }

  method CountAll(push: Phase, order: seq<nat>) returns (counts: seq<Count>)
    requires Topological(push, order)
    ensures AllCounted(push, counts)
  {
    OrderedIsAcyclic(PhaseGraph(push), order);
    counts := seq(|push.rows|, _ => Count(0, 0));
    var k := |order|;
    while k > 0
      invariant 0 <= k <= |order|
      invariant Counted(push, counts, Elements(order[k..]))
    {
      k := k - 1;
      var i := order[k];
      assert i in order;
      forall x | x in push.rows[i].edges ensures push.rows[i].edges[x] in Elements(order[k + 1..]) {
        TargetLater(push, order, k, x);
      }
      var count := CountState(push, counts, i, Elements(order[k + 1..]));
      counts := counts[i := count];
      assert order[k..] == [i] + order[k + 1..];
    }
    assert order[0..] == order;
    forall s | 0 <= s < |counts| ensures IsCount(Language(push, s), counts[s]) {
      assert s in Elements(order);
    }
  }

  lemma TargetLater(push: Phase, order: seq<nat>, k: nat, x: nat)
    requires Topological(push, order) && k < |order| && order[k] < |push.rows| && x in push.rows[order[k]].edges
    ensures push.rows[order[k]].edges[x] in order[k + 1..]
  {
    var i, t := order[k], push.rows[order[k]].edges[x];
    assert t in order;
    var j :| 0 <= j < |order| && order[j] == t;
    assert order[j] in PhaseGraph(push)[i];
    assert i in order[..j];
    var p :| 0 <= p < j && order[p] == i;
    assert p == k;
  }
}
