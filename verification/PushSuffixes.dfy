/** Preparing the word lists of PUSH entry states by a pruned depth-first enumeration. */
module PushSuffixes {
  import opened Wrappers
  import opened Collections
  import opened Graphs
  import opened StackMachine
  import opened FlatTemplates
  import opened PushCounts
  import Dfas

  const MAX_TOTAL_SYMBOLS: nat := 4_096

  type Entries = seq<(nat, Stack)>

  ghost predicate Pending(pending: Entries, path: Stack) {
    exists i :: 0 <= i < |pending| && pending[i].1 == path
  }

  // ----- The depth-first enumeration -----

  /** Each waiting path, once, with the state it leads to; `seen` are the paths taken from the stack so far. */
  ghost predicate Waits(follow: Stack -> Option<nat>, seen: set<Stack>, pending: Entries) {
    && (forall i :: 0 <= i < |pending| ==> follow(pending[i].1) == Some(pending[i].0) && pending[i].1 !in seen)
    && (forall i, j :: 0 <= i < j < |pending| ==> pending[i].1 != pending[j].1)
  }

  /** Every path but the empty one waits or was taken only after its parent was taken. */
  ghost predicate Rooted(seen: set<Stack>, pending: Entries) {
    && (forall p :: (p in seen || Pending(pending, p)) && p != [] ==> p[..|p| - 1] in seen)
    && ([] in seen || Pending(pending, []))
  }

  /** The wanted extensions of a taken path wait or were taken. */
  ghost predicate Reaches(wanted: Stack -> bool, seen: set<Stack>, pending: Entries) {
    forall p, x :: p in seen && wanted(p + [x]) ==> p + [x] in seen || Pending(pending, p + [x])
  }

  ghost predicate Tree(follow: Stack -> Option<nat>, wanted: Stack -> bool, seen: set<Stack>, pending: Entries) {
    Waits(follow, seen, pending) && Rooted(seen, pending) && Reaches(wanted, seen, pending)
  }

  /** Distinct one-symbol extensions of a path. */
  ghost predicate AreChildren(follow: Stack -> Option<nat>, wanted: Stack -> bool, path: Stack, children: Entries) {
    && (forall i :: 0 <= i < |children| ==>
          children[i].1 != [] && children[i].1[..|children[i].1| - 1] == path && follow(children[i].1) == Some(children[i].0))
    && (forall i, j :: 0 <= i < j < |children| ==> children[i].1 != children[j].1)
    && (forall x :: wanted(path + [x]) ==> Pending(children, path + [x]))
  }

  lemma PendingSplit(a: Entries, b: Entries, p: Stack)
    ensures Pending(a + b, p) <==> Pending(a, p) || Pending(b, p)
  {
    if i :| 0 <= i < |a| && a[i].1 == p {
      assert (a + b)[i].1 == p;
    }
    if i :| 0 <= i < |b| && b[i].1 == p {
      assert (a + b)[|a| + i].1 == p;
    }
    if i :| 0 <= i < |a + b| && (a + b)[i].1 == p {
      assert if i < |a| then a[i].1 == p else b[i - |a|].1 == p;
    }
  }

  lemma PendingTop(rest: Entries, at: nat, path: Stack, p: Stack)
    ensures Pending(rest + [(at, path)], p) <==> Pending(rest, p) || p == path
  {
    PendingSplit(rest, [(at, path)], p);
    var one: Entries := [(at, path)];
    assert one[0].1 == path;
  }

  lemma TopIsNew(follow: Stack -> Option<nat>, seen: set<Stack>, rest: Entries, at: nat, path: Stack)
    requires Waits(follow, seen, rest + [(at, path)])
    ensures path !in seen && follow(path) == Some(at) && !Pending(rest, path)
    ensures Waits(follow, seen + {path}, rest)
  {
    var before := rest + [(at, path)];
    assert before[|rest|] == (at, path);
    forall i | 0 <= i < |rest| ensures before[i] == rest[i] && rest[i].1 != path {
      assert before[i].1 != before[|rest|].1;
    }
  }

  /** A child of the path just taken is new: its parent was not taken before. */
  lemma ChildIsNew(follow: Stack -> Option<nat>, seen: set<Stack>, rest: Entries, at: nat, path: Stack, child: Stack)
    requires Waits(follow, seen, rest + [(at, path)]) && Rooted(seen, rest + [(at, path)])
    requires child != [] && child[..|child| - 1] == path
    ensures child !in seen + {path} && !Pending(rest, child)
  {
    TopIsNew(follow, seen, rest, at, path);
    PendingTop(rest, at, path, child);
  }

  lemma WaitsGrow(follow: Stack -> Option<nat>, wanted: Stack -> bool, seen: set<Stack>, rest: Entries, at: nat, path: Stack, children: Entries)
    requires Waits(follow, seen, rest + [(at, path)]) && Rooted(seen, rest + [(at, path)])
    requires AreChildren(follow, wanted, path, children)
    ensures Waits(follow, seen + {path}, rest + children)
  {
    TopIsNew(follow, seen, rest, at, path);
    var after := rest + children;
    forall i | |rest| <= i < |after| ensures after[i] == children[i - |rest|] && after[i].1 !in seen + {path} && !Pending(rest, after[i].1) {
      ChildIsNew(follow, seen, rest, at, path, children[i - |rest|].1);
    }
    forall i, j | 0 <= i < j < |after| ensures after[i].1 != after[j].1 {
      if j < |rest| {
        assert after[i] == rest[i] && after[j] == rest[j];
      } else if i < |rest| {
        assert Pending(rest, after[i].1) by { assert rest[i].1 == after[i].1; }
      } else {
        assert after[i] == children[i - |rest|] && after[j] == children[j - |rest|];
      }
    }
  }

  lemma RootedGrow(follow: Stack -> Option<nat>, wanted: Stack -> bool, seen: set<Stack>, rest: Entries, at: nat, path: Stack, children: Entries)
    requires Rooted(seen, rest + [(at, path)]) && AreChildren(follow, wanted, path, children)
    ensures Rooted(seen + {path}, rest + children)
  {
    forall p ensures Pending(rest + children, p) ==> (Pending(rest, p) && Pending(rest + [(at, path)], p)) || (p != [] && p[..|p| - 1] == path) {
      PendingSplit(rest, children, p);
      PendingTop(rest, at, path, p);
    }
    PendingTop(rest, at, path, path);
    PendingTop(rest, at, path, []);
    PendingSplit(rest, children, []);
  }

  lemma ReachesGrow(follow: Stack -> Option<nat>, wanted: Stack -> bool, seen: set<Stack>, rest: Entries, at: nat, path: Stack, children: Entries)
    requires Reaches(wanted, seen, rest + [(at, path)]) && AreChildren(follow, wanted, path, children)
    ensures Reaches(wanted, seen + {path}, rest + children)
  {
    forall p, x | p in seen + {path} && wanted(p + [x])
      ensures p + [x] in seen + {path} || Pending(rest + children, p + [x])
    {
      PendingSplit(rest, children, p + [x]);
      PendingTop(rest, at, path, p + [x]);
    }
  }

  /** Taking the top path off the stack and putting its children on keeps the tree. */
  lemma Grow(follow: Stack -> Option<nat>, wanted: Stack -> bool, seen: set<Stack>, rest: Entries, at: nat, path: Stack, children: Entries)
    requires Tree(follow, wanted, seen, rest + [(at, path)]) && AreChildren(follow, wanted, path, children)
    ensures path !in seen && follow(path) == Some(at)
    ensures Tree(follow, wanted, seen + {path}, rest + children)
  {
    TopIsNew(follow, seen, rest, at, path);
    WaitsGrow(follow, wanted, seen, rest, at, path, children);
    RootedGrow(follow, wanted, seen, rest, at, path, children);
    ReachesGrow(follow, wanted, seen, rest, at, path, children);
  }

  // ----- The tree of one PUSH entry -----

  ghost function FollowOf(push: Phase, start: nat): Stack -> Option<nat> {
    path => FollowPath(push, start, path)
  }

  /** Paths to states from which something is accepted. */
  ghost predicate Wanted(push: Phase, start: nat, path: Stack) {
    FollowPath(push, start, path).Some? && Productive(push, FollowPath(push, start, path).value)
  }

  ghost function WantedOf(push: Phase, start: nat): Stack -> bool {
    path => Wanted(push, start, path)
  }

  lemma CountedProductive(push: Phase, counts: seq<Count>, state: nat)
    requires InRange(push) && Acyclic(PhaseGraph(push)) && AllCounted(push, counts) && state < |push.rows|
    ensures counts[state].paths != 0 <==> Productive(push, state)
  {
    ProductiveHasWords(push, state);
  }

  /** Labels of the edges to states with a nonzero count, in some order. */
  method LiveLabels(push: Phase, counts: seq<Count>, at: nat) returns (labels: seq<nat>)
    requires InRange(push) && Acyclic(PhaseGraph(push)) && AllCounted(push, counts) && at < |push.rows|
    ensures Distinct(labels)
    ensures forall x :: x in labels <==> x in push.rows[at].edges && Productive(push, push.rows[at].edges[x])
  {
    labels := [];
    var edges := push.rows[at].edges;
    var todo := edges.Keys;
    while todo != {}
      invariant todo <= edges.Keys && Distinct(labels)
      invariant forall x :: x in labels <==> x in edges && x !in todo && Productive(push, edges[x])
      decreases todo
    {
      Inhabited(todo);
      var x :| x in todo;
      CountedProductive(push, counts, edges[x]);
      if counts[edges[x]].paths != 0 {
        labels := labels + [x];
      }
      todo := todo - {x};
    }
  }

  function ChildEntries(push: Phase, at: nat, path: Stack, labels: seq<nat>): Entries
    requires at < |push.rows| && forall x :: x in labels ==> x in push.rows[at].edges
  {
    seq(|labels|, i requires 0 <= i < |labels| => (push.rows[at].edges[labels[i]], path + [labels[i]]))
  }

  lemma FollowChild(push: Phase, start: nat, path: Stack, x: nat)
    ensures FollowPath(push, start, path + [x]) ==
            match FollowPath(push, start, path)
            case None => None
            case Some(s) => if s < |push.rows| && x in push.rows[s].edges then Some(push.rows[s].edges[x]) else None
  {
    assert (path + [x])[..|path|] == path;
  }

  lemma ChildEntriesAreChildren(push: Phase, start: nat, at: nat, path: Stack, labels: seq<nat>)
    requires at < |push.rows| && FollowPath(push, start, path) == Some(at) && Distinct(labels)
    requires forall x :: x in labels <==> x in push.rows[at].edges && Productive(push, push.rows[at].edges[x])
    ensures AreChildren(FollowOf(push, start), WantedOf(push, start), path, ChildEntries(push, at, path, labels))
  {
    var children := ChildEntries(push, at, path, labels);
    forall i | 0 <= i < |children|
      ensures children[i].1[..|children[i].1| - 1] == path && FollowPath(push, start, children[i].1) == Some(children[i].0)
    {
      FollowChild(push, start, path, labels[i]);
    }
    forall i, j | 0 <= i < j < |children| ensures children[i].1 != children[j].1 {
      assert children[i].1[|path|] == labels[i] && children[j].1[|path|] == labels[j];
    }
    forall x | Wanted(push, start, path + [x]) ensures Pending(children, path + [x]) {
      FollowChild(push, start, path, x);
      assert x in labels;
      var i :| 0 <= i < |labels| && labels[i] == x;
      assert children[i].1 == path + [x];
    }
  }

  /** When nothing is pending, every accepted path was taken. */
  lemma {:induction false} AllTaken(push: Phase, start: nat, seen: set<Stack>, done: Stack, state: nat, word: Stack)
    requires Reaches(WantedOf(push, start), seen, []) && done in seen && FollowPath(push, start, done) == Some(state)
    requires Appends(push, state, word)
    ensures done + word in seen
    decreases |word|
  {
    if word == [] {
      assert done + word == done;
    } else {
      var next := done + [word[0]];
      var target := push.rows[state].edges[word[0]];
      FollowChild(push, start, done, word[0]);
      assert WantedOf(push, start)(next);
      AllTaken(push, start, seen, next, target, word[1..]);
      assert next + word[1..] == done + word;
    }
  }

  lemma TreeStart(push: Phase, start: nat)
    ensures Tree(FollowOf(push, start), WantedOf(push, start), {}, [(start, [])])
  {
    var pending: Entries := [(start, [])];
    assert pending[0].1 == [];
  }

  ghost predicate Collected(push: Phase, start: nat, seen: set<Stack>, words: seq<Stack>) {
    Distinct(words) && forall w :: w in words <==> w in seen && AcceptedPath(push, start, w)
  }

  lemma CollectOne(push: Phase, start: nat, seen: set<Stack>, words: seq<Stack>, at: nat, path: Stack)
    requires Collected(push, start, seen, words) && FollowPath(push, start, path) == Some(at) && at < |push.rows| && path !in seen
    ensures Collected(push, start, seen + {path}, if push.rows[at].accepting then words + [path] else words)
  {
  }

  lemma CollectedIsAll(push: Phase, start: nat, seen: set<Stack>, words: seq<Stack>)
    requires Tree(FollowOf(push, start), WantedOf(push, start), seen, []) && Collected(push, start, seen, words)
    ensures forall w :: w in words <==> Appends(push, start, w)
  {
    forall w ensures w in words <==> Appends(push, start, w) {
      FollowAppends(push, start, [], start, w);
      assert [] + w == w;
      if Appends(push, start, w) {
        AllTaken(push, start, seen, [], start, w);
      }
    }
  }

  lemma TopIsTaken(push: Phase, start: nat, seen: set<Stack>, rest: Entries, at: nat, path: Stack)
    requires InRange(push) && Acyclic(PhaseGraph(push)) && start < |push.rows|
    requires Tree(FollowOf(push, start), WantedOf(push, start), seen, rest + [(at, path)])
    ensures at < |push.rows| && FollowPath(push, start, path) == Some(at) && path !in seen && path in AllPaths(push)
  {
    TopIsNew(FollowOf(push, start), seen, rest, at, path);
    PathIsBounded(push, start, path);
    TakenInRange(push, start, path, at);
  }

  lemma ExpandTop(push: Phase, start: nat, seen: set<Stack>, rest: Entries, at: nat, path: Stack, labels: seq<nat>)
    requires at < |push.rows| && FollowPath(push, start, path) == Some(at) && Distinct(labels)
    requires forall x :: x in labels <==> x in push.rows[at].edges && Productive(push, push.rows[at].edges[x])
    requires Tree(FollowOf(push, start), WantedOf(push, start), seen, rest + [(at, path)])
    ensures Tree(FollowOf(push, start), WantedOf(push, start), seen + {path}, rest + ChildEntries(push, at, path, labels))
  {
    ChildEntriesAreChildren(push, start, at, path, labels);
    Grow(FollowOf(push, start), WantedOf(push, start), seen, rest, at, path, ChildEntries(push, at, path, labels));
  }

  /** What holds between two turns of the enumeration. */
  ghost predicate Enumerating(push: Phase, start: nat, seen: set<Stack>, pending: Entries, words: seq<Stack>) {
    Tree(FollowOf(push, start), WantedOf(push, start), seen, pending) && Collected(push, start, seen, words)
  }

  lemma TurnDone(push: Phase, start: nat, seen: set<Stack>, rest: Entries, at: nat, path: Stack, labels: seq<nat>, words: seq<Stack>)
    requires at < |push.rows| && FollowPath(push, start, path) == Some(at) && Distinct(labels)
    requires forall x :: x in labels <==> x in push.rows[at].edges && Productive(push, push.rows[at].edges[x])
    requires Enumerating(push, start, seen, rest + [(at, path)], words) && path !in seen
    ensures Enumerating(push, start, seen + {path}, rest + ChildEntries(push, at, path, labels),
                        if push.rows[at].accepting then words + [path] else words)
  {
    ExpandTop(push, start, seen, rest, at, path, labels);
    CollectOne(push, start, seen, words, at, path);
  }

  /** Take the top path: list it when it is accepted and put its live children on the stack. */
  method TakeTop(push: Phase, counts: seq<Count>, start: nat, ghost seen: set<Stack>, pending: Entries, words: seq<Stack>) returns (rest: Entries, more: seq<Stack>, ghost path: Stack)
    requires InRange(push) && Acyclic(PhaseGraph(push)) && AllCounted(push, counts) && start < |push.rows|
    requires pending != [] && Enumerating(push, start, seen, pending, words)
    ensures path in AllPaths(push) - seen && Enumerating(push, start, seen + {path}, rest, more)
  {
    var (at, top) := pending[|pending| - 1];
    rest, more, path := pending[..|pending| - 1], words, top;
    LastApart(pending);
    TopIsTaken(push, start, seen, rest, at, top);
    var labels := LiveLabels(push, counts, at);
    TurnDone(push, start, seen, rest, at, top, labels, words);
    if push.rows[at].accepting {
      more := more + [top];
    }
    rest := rest + ChildEntries(push, at, top, labels);
  }

  /** Every word that PUSH can append from `start`. */
  method Enumerate(push: Phase, counts: seq<Count>, start: nat) returns (words: seq<Stack>)
    requires InRange(push) && Acyclic(PhaseGraph(push)) && AllCounted(push, counts) && start < |push.rows|
    ensures forall w :: w in words <==> Appends(push, start, w)
    ensures |words| == |Language(push, start)|
  {
    words := [];
    var pending: Entries := [(start, [])];
    ghost var seen: set<Stack> := {};
    TreeStart(push, start);
    while pending != []
      invariant Enumerating(push, start, seen, pending, words)
      decreases AllPaths(push) - seen
    {
      ghost var path;
      pending, words, path := TakeTop(push, counts, start, seen, pending, words);
      seen := seen + {path};
    }
    CollectedIsAll(push, start, seen, words);
    forall w ensures w in words <==> w in Language(push, start) {
      LanguageIsAll(push, start, w);
    }
    DistinctSize(words, Language(push, start));
  }

  lemma TakenInRange(push: Phase, start: nat, path: Stack, at: nat)
    requires InRange(push) && start < |push.rows| && FollowPath(push, start, path) == Some(at)
    ensures at < |push.rows|
  {
  }

  // ----- Preparation -----

  /** Entry states are those that some link enters. */
  ghost predicate IsEntry(m: Machine, state: nat) {
    (exists s: nat :: Link(m.popToPush, s) == Some(state)) || exists s: nat :: Link(m.readToPush, s) == Some(state)
  }

  ghost predicate EntriesInRange(m: Machine) {
    forall state: nat :: IsEntry(m, state) ==> state < |m.push.rows|
  }

  /** Mark the states that links enter; nothing where a link leads to no state. */
  method MarkEntries(m: Machine) returns (entries: Option<seq<bool>>)
    ensures entries.Some? <==> EntriesInRange(m)
    ensures entries.Some? ==> |entries.value| == |m.push.rows| && forall s :: 0 <= s < |m.push.rows| ==> (entries.value[s] <==> IsEntry(m, s))
  {
    var links := m.popToPush + m.readToPush;
    forall state: nat ensures IsEntry(m, state) <==> exists i :: 0 <= i < |links| && links[i] == Some(state) {
      LinkedIsListed(m, state);
    }
    var marked := seq(|m.push.rows|, _ => false);
    for i := 0 to |links|
      invariant |marked| == |m.push.rows|
      invariant forall k :: 0 <= k < i && links[k].Some? ==> links[k].value < |marked|
      invariant forall s :: 0 <= s < |marked| ==> (marked[s] <==> exists k :: 0 <= k < i && links[k] == Some(s))
    {
      if links[i].Some? {
        if links[i].value >= |marked| {
          assert links[i] == Some(links[i].value);
          return None;
        }
        marked := marked[links[i].value := true];
      }
    }
    entries := Some(marked);
  }

  lemma LinkedIsListed(m: Machine, state: nat)
    ensures IsEntry(m, state) <==> exists i :: 0 <= i < |m.popToPush + m.readToPush| && (m.popToPush + m.readToPush)[i] == Some(state)
  {
    var links, n := m.popToPush + m.readToPush, |m.popToPush|;
    if s: nat :| Link(m.popToPush, s) == Some(state) {
      assert links[s] == Some(state);
    }
    if s: nat :| Link(m.readToPush, s) == Some(state) {
      assert links[n + s] == Some(state);
    }
    if i :| 0 <= i < |links| && links[i] == Some(state) {
      if i < n {
        assert Link(m.popToPush, i) == Some(state);
      } else {
        assert Link(m.readToPush, i - n) == Some(state);
      }
    }
  }

  /** Every label is a symbol to push and every target is a state. */
  ghost predicate LegalRows(push: Phase) {
    forall i :: 0 <= i < |push.rows| ==>
      push.rows[i].fallback.None? && forall x :: x in push.rows[i].edges ==> push.rows[i].edges[x] < |push.rows|
  }

  function LengthOf(): Stack -> nat {
    w => |w|
  }

  function SymbolsOf(): Option<seq<Stack>> -> nat {
    (plan: Option<seq<Stack>>) => match plan case None => 0 case Some(words) => Sum(LengthOf(), words)
  }

  /** Symbols stored in all lists. */
  function Used(plans: seq<Option<seq<Stack>>>): nat {
    Sum(SymbolsOf(), plans)
  }

  /** The budgets of one list, when `used` symbols are already stored: its words, their length, and all symbols. */
  ghost predicate WithinLimits(words: set<Stack>, used: nat) {
    4 <= |words| <= 64 && exists w :: LongestWord(words, w) && |w| <= 8 && used + |words| * |w| <= 4_096
  }

  ghost predicate LongestWord(words: set<Stack>, w: Stack) {
    w in words && forall v :: v in words ==> |v| <= |w|
  }

  /** A saturating count decides the budgets exactly. */
  lemma CountDecides(words: set<Stack>, c: Count, used: nat)
    requires IsCount(words, c)
    ensures WithinLimits(words, used) <==> 4 <= c.paths <= MAX_PATHS && c.length <= MAX_LENGTH && used + c.paths * c.length <= MAX_TOTAL_SYMBOLS
  {
    if w :| LongestWord(words, w) && |w| <= 8 {
      assert c.length == |w|;
    }
    if 4 <= c.paths && c.length <= MAX_LENGTH {
      var w :| w in words && (c.length > 0 ==> Capped(w) == c.length);
      assert Capped(w) == c.length;
      forall v | v in words ensures |v| <= |w| {
        assert Capped(v) <= c.length;
      }
      assert LongestWord(words, w);
    }
  }

  ghost predicate Planned(m: Machine, plans: seq<Option<seq<Stack>>>, s: nat)
    requires s < |plans|
  {
    && (plans[s].Some? <==> IsEntry(m, s) && WithinLimits(Language(m.push, s), Used(plans[..s])))
    && (plans[s].Some? ==> forall w :: w in plans[s].value <==> Appends(m.push, s, w))
  }

  /** Entry states in turn, each listed if its words are within what is left of the budgets. */
  method PrepareWithOrder(m: Machine, order: seq<nat>) returns (plans: seq<Option<seq<Stack>>>)
    requires Topological(m.push, order) && Acyclic(PhaseGraph(m.push))
    ensures |plans| == |m.push.rows|
    ensures if EntriesInRange(m) then forall s :: 0 <= s < |plans| ==> Planned(m, plans, s)
            else forall s :: 0 <= s < |plans| ==> plans[s].None?
  {
    plans := seq(|m.push.rows|, _ => None);
    var entries := MarkEntries(m);
    if entries.None? {
      return;
    }
    var counts := CountAll(m.push, order);
    var used := 0;
    for start := 0 to |m.push.rows|
      invariant |plans| == |m.push.rows| && used == Used(plans[..start])
      invariant forall s :: 0 <= s < start ==> Planned(m, plans, s)
      invariant forall s :: start <= s < |plans| ==> plans[s].None?
    {
      ghost var before := plans;
      plans, used := PrepareOne(m, counts, start, entries.value[start], plans, used);
      forall s | 0 <= s < start ensures Planned(m, plans, s) {
        StillPlanned(m, before, plans, start, s);
      }
    }
  }

  lemma StillPlanned(m: Machine, before: seq<Option<seq<Stack>>>, plans: seq<Option<seq<Stack>>>, start: nat, s: nat)
    requires s < start < |before| == |plans| && Planned(m, before, s)
    requires forall k :: 0 <= k < |plans| && k != start ==> plans[k] == before[k]
    ensures Planned(m, plans, s)
  {
    assert plans[..s] == before[..s];
  }

  method PrepareOne(m: Machine, counts: seq<Count>, start: nat, entry: bool, plans0: seq<Option<seq<Stack>>>, used0: nat) returns (plans: seq<Option<seq<Stack>>>, used: nat)
    requires InRange(m.push) && Acyclic(PhaseGraph(m.push)) && AllCounted(m.push, counts)
    requires start < |plans0| == |m.push.rows| && plans0[start].None? && used0 == Used(plans0[..start])
    requires entry <==> IsEntry(m, start)
    ensures |plans| == |plans0| && Planned(m, plans, start) && used == Used(plans[..start + 1])
    ensures forall s :: 0 <= s < |plans| && s != start ==> plans[s] == plans0[s]
  {
    plans, used := plans0, used0;
    var count := counts[start];
    CountDecides(Language(m.push, start), count, used);
    OneLonger(plans, start);
    SumOneMore(SymbolsOf(), plans[..start], plans[start]);
    if !entry || count.paths < 4 || count.paths > MAX_PATHS || count.length > MAX_LENGTH {
      return;
    }
    if used + count.paths * count.length > MAX_TOTAL_SYMBOLS {
      return;
    }
    var words := Enumerate(m.push, counts, start);
    var symbols := CountSymbols(words);
    used := used + symbols;
    plans := plans[start := Some(words)];
    assert plans[..start] == plans0[..start];
    OneLonger(plans, start);
    SumOneMore(SymbolsOf(), plans[..start], plans[start]);
  }

  method CountSymbols(words: seq<Stack>) returns (used: nat)
    ensures used == Sum(LengthOf(), words)
  {
    used := 0;
    assert words[..0] == [];
    for i := 0 to |words|
      invariant used == Sum(LengthOf(), words[..i])
    {
      OneLonger(words, i);
      SumOneMore(LengthOf(), words[..i], words[i]);
      used := used + |words[i]|;
    }
    assert words[..|words|] == words;
  }

  // ----- The topological order -----

  function PushDfa(push: Phase): Dfas.Dfa {
    Dfas.Dfa(seq(|push.rows|, i requires 0 <= i < |push.rows| => RowState(push.rows[i])), push.start)
  }

  function RowState(row: Row): Dfas.DfaState {
    Dfas.DfaState(row.accepting, map x: int | x in row.edges :: row.edges[x])
  }

  lemma SameTargets(edges: map<nat, nat>, transitions: map<int, nat>)
    requires transitions == map x: int | x in edges :: edges[x]
    ensures (set l | l in transitions :: transitions[l]) == set x | x in edges :: edges[x]
  {
    forall x | x in edges ensures x in transitions && transitions[x] == edges[x] {
    }
    forall l | l in transitions ensures l in edges && transitions[l] == edges[l] {
    }
  }

  lemma SameGraph(push: Phase)
    requires LegalRows(push)
    ensures Dfas.SuccessorGraph(PushDfa(push)) == PhaseGraph(push)
  {
    forall i | 0 <= i < |push.rows| ensures Dfas.SuccessorGraph(PushDfa(push))[i] == PhaseGraph(push)[i] {
      var edges, transitions := push.rows[i].edges, RowState(push.rows[i]).transitions;
      assert Dfas.SuccessorGraph(PushDfa(push))[i] == set l | l in transitions :: transitions[l];
      SameTargets(edges, transitions);
    }
  }

  /** What the program has to be for any list to be prepared. */
  ghost predicate Preparable(m: Machine) {
    LegalRows(m.push) && Acyclic(PhaseGraph(m.push)) && EntriesInRange(m)
  }

  predicate IllegalRow(row: Row, states: nat) {
    row.fallback.Some? || exists x :: x in row.edges && row.edges[x] >= states
  }

  /** Word lists for the entry states of a program, or none at all where its PUSH graph or links are not in order. */
  method Prepare(m: Machine) returns (plans: seq<Option<seq<Stack>>>)
    ensures |plans| == |m.push.rows| && Exact(FastTemplate(m, plans))
    ensures if Preparable(m) then forall s :: 0 <= s < |plans| ==> Planned(m, plans, s)
            else forall s :: 0 <= s < |plans| ==> plans[s].None?
  {
    plans := seq(|m.push.rows|, _ => None);
    if exists i :: 0 <= i < |m.push.rows| && IllegalRow(m.push.rows[i], |m.push.rows|) {
      return;
    }
    assert LegalRows(m.push) by {
      forall i | 0 <= i < |m.push.rows| ensures !IllegalRow(m.push.rows[i], |m.push.rows|) {
      }
    }
    var order := Dfas.VisitOrder(PushDfa(m.push));
    SameGraph(m.push);
    if |order| != |m.push.rows| {
      return;
    }
    AllListed(order, |m.push.rows|);
    plans := PrepareWithOrder(m, order);
    if EntriesInRange(m) {
      forall s | 0 <= s < |plans| ensures plans[s].Some? ==> forall w :: w in plans[s].value <==> Appends(m.push, s, w) {
        assert Planned(m, plans, s);
      }
    }
  }
}
