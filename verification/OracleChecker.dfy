/** The breadth-first check of a machine against the exact oracle, keyed by the bytes read. */
module OracleChecker {
  import opened Wrappers
  import opened Cfg
  import opened Cases
  import opened ExactOracle
  import opened Words
  import opened MaskMachines
  import opened TokenOrder
  import opened BoundedWords

  /** The mask and acceptance of `s` are right for the bytes `prefix`. */
  ghost predicate ExactAt<S(!new)>(m: MaskMachine<S>, c: Case, tokens: seq<seq<Byte>>, s: S, prefix: seq<Byte>) {
    && (forall t: nat :: t < |tokens| ==> (Allowed(m.mask(s), t) <==> CaseViable(c, prefix + tokens[t])))
    && (forall t: nat :: t >= |tokens| ==> !Allowed(m.mask(s), t))
    && (m.accepting(s) <==> CaseWord(c, prefix))
  }

  /** The assertions about one dequeued state. */
  method CheckState<S(!new)>(m: MaskMachine<S>, c: Case, tokens: seq<seq<Byte>>, s: S, prefix: seq<Byte>) returns (ok: bool)
    requires StartHasRow(c)
    ensures ok <==> ExactAt(m, c, tokens, s, prefix)
  {
    var mask := m.mask(s);
    for token := 0 to |tokens|
      invariant forall t: nat :: t < token ==> (Allowed(mask, t) <==> CaseViable(c, prefix + tokens[t]))
    {
      var expected := ViableByte(c, prefix + tokens[token]);
      if Allowed(mask, token) != expected {
        return false;
      }
    }
    var id := |tokens|;
    while id < 32 * |mask|
      invariant |tokens| <= id
      invariant forall t: nat :: |tokens| <= t < id ==> !Allowed(mask, t)
    {
      if Allowed(mask, id) {
        return false;
      }
      id := id + 1;
    }
    var expectedAccept := AcceptsByte(c, prefix);
    ok := m.accepting(s) == expectedAccept;
  }

  // ----- What a run decides -----

  /** A token path within the bound whose bytes the grammar can extend; the start needs no extension. */
  ghost predicate Wanted(c: Case, tokens: seq<seq<Byte>>, path: Path) {
    && Legal(tokens, path) && |Spelling(tokens, path)| <= c.bound
    && (path != [] ==> CaseViable(c, Spelling(tokens, path)))
  }

  /** No wanted path with the same spelling comes before this one. */
  ghost predicate First(c: Case, tokens: seq<seq<Byte>>, path: Path) {
    Wanted(c, tokens, path) &&
    forall q :: Wanted(c, tokens, q) && Spelling(tokens, q) == Spelling(tokens, path) ==> !Before(q, path)
  }

  /** The machine follows the path, its state there is right, and it commits every wanted token. */
  ghost predicate PassesAt<S(!new)>(m: MaskMachine<S>, c: Case, tokens: seq<seq<Byte>>, path: Path)
    requires Legal(tokens, path)
  {
    && Run(m, path).Some? && ExactAt(m, c, tokens, Run(m, path).value, Spelling(tokens, path))
    && CommitsAll(m, WantedOf(c, tokens), path, Run(m, path).value, |tokens|)
  }

  ghost predicate CommitsAll<S(!new)>(m: MaskMachine<S>, wanted: Path -> bool, path: Path, s: S, n: nat) {
    forall t: nat :: t < n && wanted(path + [t]) ==> m.commit(s, t).Some?
  }

  ghost function WantedOf(c: Case, tokens: seq<seq<Byte>>): Path -> bool {
    path => Wanted(c, tokens, path)
  }

  /** The verdict: each spelling is judged at the first path that has it. */
  ghost predicate Passed<S(!new)>(m: MaskMachine<S>, c: Case, tokens: seq<seq<Byte>>) {
    forall path :: First(c, tokens, path) ==> PassesAt(m, c, tokens, path)
  }

  // ----- The search, as a search for first paths -----

  /** The bytes of a path; paths with foreign tokens have none. */
  ghost function SpellOf(tokens: seq<seq<Byte>>): Path -> seq<Byte> {
    path => if Legal(tokens, path) then Spelling(tokens, path) else []
  }

  type Spell = Path -> seq<Byte>
  type Test = Path -> bool

  /** What the search needs to know of spellings: prefixes of wanted paths are wanted, and whether an extension is
      wanted and how it is spelled depends only on how the path is spelled. */
  ghost predicate Spelled(spell: Spell, wanted: Test) {
    && spell([]) == [] && wanted([])
    && (forall p: Path, t: nat :: wanted(p + [t]) ==> wanted(p))
    && (forall p: Path, q: Path, t: nat :: wanted(p + [t]) && wanted(q) && spell(p) == spell(q) ==>
          wanted(q + [t]) && spell(q + [t]) == spell(p + [t]))
  }

  ghost predicate IsFirst(spell: Spell, wanted: Test, path: Path) {
    wanted(path) && forall q :: wanted(q) && spell(q) == spell(path) ==> !Before(q, path)
  }

  type Reps = map<seq<Byte>, Path>

  /** Each judged spelling with the path it was judged at. */
  ghost predicate RepsOk(spell: Spell, wanted: Test, reps: Reps) {
    forall w :: w in reps ==> spell(reps[w]) == w && IsFirst(spell, wanted, reps[w])
  }

  /** The queue is in order, after everything judged, and holds extensions of judged paths. */
  ghost predicate QueueOk(spell: Spell, wanted: Test, reps: Reps, paths: seq<Path>) {
    && Ascending(paths)
    && (forall i :: 0 <= i < |paths| ==> wanted(paths[i]))
    && (forall i, w :: 0 <= i < |paths| && w in reps ==> Before(reps[w], paths[i]))
    && (forall i :: 0 <= i < |paths| && paths[i] != [] ==>
          spell(Init(paths[i])) in reps && reps[spell(Init(paths[i]))] == Init(paths[i]))
  }

  /** Wanted extensions of judged paths wait, or their spelling was judged. */
  ghost predicate NothingLost(spell: Spell, wanted: Test, reps: Reps, paths: seq<Path>) {
    && ([] in reps || paths == [[]])
    && forall w, t: nat :: w in reps && wanted(reps[w] + [t]) ==> reps[w] + [t] in paths || spell(reps[w] + [t]) in reps
  }

  ghost predicate SearchOk(spell: Spell, wanted: Test, reps: Reps, paths: seq<Path>) {
    RepsOk(spell, wanted, reps) && QueueOk(spell, wanted, reps, paths) && NothingLost(spell, wanted, reps, paths)
  }

  /** Everything before the head of the queue was judged; with an empty queue, everything. */
  lemma {:induction false} EarlierIsJudged(spell: Spell, wanted: Test, reps: Reps, paths: seq<Path>, q: Path)
    requires Spelled(spell, wanted) && SearchOk(spell, wanted, reps, paths)
    requires wanted(q) && (paths != [] ==> Before(q, paths[0]))
    ensures spell(q) in reps
    decreases |q|
  {
    if q == [] {
      NotBeforeItself([]);
    } else {
      var init, t := Init(q), Last(q);
      InitLast(q);
      BeforeExtends(init, init, t, t);
      if paths != [] {
        BeforeTransitive(init, q, paths[0]);
      }
      EarlierIsJudged(spell, wanted, reps, paths, init);
      var r := reps[spell(init)];
      assert wanted(r + [t]) && spell(r + [t]) == spell(q);
      if r + [t] in paths {
        HeadIsNotAfter(paths, q, r, init, t);
      }
    }
  }

  lemma HeadIsNotAfter(paths: seq<Path>, q: Path, r: Path, init: Path, t: nat)
    requires paths != [] && Ascending(paths) && Before(q, paths[0]) && q == init + [t] && !Before(init, r)
    ensures r + [t] !in paths
  {
    BeforeTotal(init, r);
    BeforeExtends(r, init, t, t);
    forall i | 0 <= i < |paths| ensures paths[i] != r + [t] {
      if i > 0 {
        BeforeTransitive(q, paths[0], paths[i]);
      }
      BeforeOneWay(q, paths[i]);
    }
  }

  lemma HeadIsFirst(spell: Spell, wanted: Test, reps: Reps, paths: seq<Path>)
    requires Spelled(spell, wanted) && SearchOk(spell, wanted, reps, paths)
    requires paths != [] && spell(paths[0]) !in reps
    ensures IsFirst(spell, wanted, paths[0])
  {
    forall q | wanted(q) && spell(q) == spell(paths[0]) ensures !Before(q, paths[0]) {
      if Before(q, paths[0]) {
        EarlierIsJudged(spell, wanted, reps, paths, q);
      }
    }
  }

  lemma SkipJudged(spell: Spell, wanted: Test, reps: Reps, paths: seq<Path>)
    requires SearchOk(spell, wanted, reps, paths) && paths != [] && spell(paths[0]) in reps
    requires spell([]) == []
    ensures SearchOk(spell, wanted, reps, paths[1..])
  {
    var rest := paths[1..];
    forall w, t: nat | w in reps && wanted(reps[w] + [t]) ensures reps[w] + [t] in rest || spell(reps[w] + [t]) in reps {
      assert reps[w] + [t] in paths && reps[w] + [t] != paths[0] ==> reps[w] + [t] in rest;
    }
  }

  lemma JudgeHead(spell: Spell, wanted: Test, reps: Reps, paths: seq<Path>, n: nat)
    requires Spelled(spell, wanted) && SearchOk(spell, wanted, reps, paths) && paths != [] && spell(paths[0]) !in reps
    requires forall t: nat :: wanted(paths[0] + [t]) ==> t < n
    ensures SearchOk(spell, wanted, reps[spell(paths[0]) := paths[0]], paths[1..] + Extensions(wanted, paths[0], n))
  {
    var children := Extensions(wanted, paths[0], n);
    HeadIsFirst(spell, wanted, reps, paths);
    ExtensionsInOrder(wanted, paths[0], n);
    QueueStays(spell, wanted, reps, paths, children, n);
    NothingIsLost(spell, wanted, reps, paths, children, n);
  }

  lemma NothingIsLost(spell: Spell, wanted: Test, reps: Reps, paths: seq<Path>, children: seq<Path>, n: nat)
    requires spell([]) == [] && paths != [] && NothingLost(spell, wanted, reps, paths)
    requires forall q :: Extends(paths[0], q, n) && wanted(q) ==> q in children
    requires forall t: nat :: wanted(paths[0] + [t]) ==> t < n
    ensures NothingLost(spell, wanted, reps[spell(paths[0]) := paths[0]], paths[1..] + children)
  {
    var head, rest := paths[0], paths[1..];
    var more, after := reps[spell(head) := head], rest + children;
    forall w, t: nat | w in more && wanted(more[w] + [t]) ensures more[w] + [t] in after || spell(more[w] + [t]) in more {
      if w == spell(head) {
        assert Extends(head, head + [t], n);
      } else {
        assert reps[w] + [t] in paths && reps[w] + [t] != head ==> reps[w] + [t] in rest;
      }
    }
  }

  lemma QueueStays(spell: Spell, wanted: Test, reps: Reps, paths: seq<Path>, children: seq<Path>, n: nat)
    requires paths != [] && QueueOk(spell, wanted, reps, paths) && spell(paths[0]) !in reps
    requires Ascending(children) && forall q :: q in children <==> Extends(paths[0], q, n) && wanted(q)
    ensures QueueOk(spell, wanted, reps[spell(paths[0]) := paths[0]], paths[1..] + children)
  {
    var head, rest := paths[0], paths[1..];
    var more, after := reps[spell(head) := head], rest + children;
    forall j | 0 <= j < |children| ensures Extends(head, children[j], n) && wanted(children[j]) && Before(head, children[j]) {
      assert children[j] in children && children[j] == head + [Last(children[j])];
      BeforeExtends(head, head, 0, Last(children[j]));
    }
    forall i | 0 <= i < |rest| ensures Before(head, rest[i]) && rest[i] != [] {
      assert rest[i] == paths[i + 1];
    }
    forall i, j | 0 <= i < |rest| && 0 <= j < |children| ensures Before(rest[i], children[j]) {
      assert rest[i] == paths[i + 1] == Init(rest[i]) + [Last(rest[i])] && children[j] == head + [Last(children[j])];
      assert Before(Init(rest[i]), head);
      BeforeExtends(Init(rest[i]), head, Last(rest[i]), Last(children[j]));
    }
    forall i, w | 0 <= i < |after| && w in more ensures Before(more[w], after[i]) {
      if i >= |rest| && w != spell(head) {
        BeforeTransitive(reps[w], head, after[i]);
      }
    }
    forall i | 0 <= i < |after| ensures wanted(after[i]) && after[i] != [] && spell(Init(after[i])) in more && more[spell(Init(after[i]))] == Init(after[i]) {
      if i < |rest| {
        assert after[i] == paths[i + 1];
      } else {
        assert after[i] == children[i - |rest|];
      }
    }
  }

  // ----- Spellings of token paths -----

  lemma WantedExtends(c: Case, tokens: seq<seq<Byte>>, p: Path, t: nat)
    requires Legal(tokens, p)
    ensures Legal(tokens, p + [t]) <==> t < |tokens|
    ensures t < |tokens| ==> Spelling(tokens, p + [t]) == Spelling(tokens, p) + tokens[t]
    ensures Wanted(c, tokens, p + [t]) <==>
              t < |tokens| && |Spelling(tokens, p) + tokens[t]| <= c.bound && CaseViable(c, Spelling(tokens, p) + tokens[t])
  {
    var q := p + [t];
    assert q[..|q| - 1] == p && q[|q| - 1] == t;
    if t < |tokens| {
      assert Legal(tokens, q);
    }
  }

  lemma WantedInit(c: Case, tokens: seq<seq<Byte>>, p: Path, t: nat)
    requires Wanted(c, tokens, p + [t])
    ensures Wanted(c, tokens, p) && t < |tokens|
  {
    var q := p + [t];
    forall i | 0 <= i < |p| ensures p[i] < |tokens| {
      assert q[i] == p[i];
    }
    assert q[|p|] == t;
    WantedExtends(c, tokens, p, t);
    assert Spelling(tokens, p) <= Spelling(tokens, q);
  }

  lemma TokensAreSpelled(c: Case, tokens: seq<seq<Byte>>)
    ensures Spelled(SpellOf(tokens), WantedOf(c, tokens))
  {
    var spell, wanted := SpellOf(tokens), WantedOf(c, tokens);
    forall p: Path, t: nat | wanted(p + [t]) ensures wanted(p) {
      WantedInit(c, tokens, p, t);
    }
    forall p: Path, q: Path, t: nat | wanted(p + [t]) && wanted(q) && spell(p) == spell(q)
      ensures wanted(q + [t]) && spell(q + [t]) == spell(p + [t])
    {
      WantedInit(c, tokens, p, t);
      WantedExtends(c, tokens, p, t);
      WantedExtends(c, tokens, q, t);
    }
  }

  lemma FirstIsFirst(c: Case, tokens: seq<seq<Byte>>, path: Path)
    ensures First(c, tokens, path) <==> IsFirst(SpellOf(tokens), WantedOf(c, tokens), path)
  {
  }

  // ----- The queue of states -----

  type Entry<S> = (S, seq<Byte>)

  /** The queued entries are the states and spellings at the queued paths. */
  ghost predicate Follows<S(!new)>(m: MaskMachine<S>, spell: Spell, queue: seq<Entry<S>>, paths: seq<Path>) {
    |queue| == |paths| && forall i :: 0 <= i < |queue| ==> Run(m, paths[i]) == Some(queue[i].0) && spell(paths[i]) == queue[i].1
  }

  ghost predicate AllPass<S(!new)>(m: MaskMachine<S>, c: Case, tokens: seq<seq<Byte>>, reps: Reps) {
    forall w :: w in reps ==> Legal(tokens, reps[w]) && PassesAt(m, c, tokens, reps[w])
  }

  /** A wanted child's entry: its state and its spelling. */
  lemma ChildFollows<S(!new)>(m: MaskMachine<S>, tokens: seq<seq<Byte>>, path: Path, s: S, token: nat, next: S)
    requires Legal(tokens, path) && Run(m, path) == Some(s) && token < |tokens| && m.commit(s, token) == Some(next)
    ensures Follows(m, SpellOf(tokens), [(next, Spelling(tokens, path) + tokens[token])], [path + [token]])
  {
    var longer := path + [token];
    assert longer[..|path|] == path && longer[|path|] == token;
  }

  lemma ChildrenFollow<S(!new)>(m: MaskMachine<S>, spell: Spell, wanted: Test, path: Path, token: nat, children: seq<Entry<S>>, more: seq<Entry<S>>)
    requires Follows(m, spell, children, Extensions(wanted, path, token))
    requires if wanted(path + [token]) then Follows(m, spell, more, [path + [token]]) else more == []
    ensures Follows(m, spell, children + more, Extensions(wanted, path, token + 1))
  {
  }

  lemma CommitsOneMore<S(!new)>(m: MaskMachine<S>, wanted: Test, path: Path, s: S, token: nat, n: nat)
    requires CommitsAll(m, wanted, path, s, token) && token < n
    ensures wanted(path + [token]) && m.commit(s, token).Some? ==> CommitsAll(m, wanted, path, s, token + 1)
    ensures !wanted(path + [token]) ==> CommitsAll(m, wanted, path, s, token + 1)
    ensures wanted(path + [token]) && m.commit(s, token).None? ==> !CommitsAll(m, wanted, path, s, n)
  {
  }

  /** The loop's guard. */
  predicate Taken(c: Case, tokens: seq<seq<Byte>>, mask: seq<u32>, prefix: seq<Byte>, t: nat)
    requires t < |tokens|
  {
    |prefix| + |tokens[t]| <= c.bound && Allowed(mask, t)
  }

  ghost predicate TakesWanted(c: Case, tokens: seq<seq<Byte>>, mask: seq<u32>, prefix: seq<Byte>, path: Path) {
    forall t: nat :: t < |tokens| ==> (Taken(c, tokens, mask, prefix, t) <==> WantedOf(c, tokens)(path + [t]))
  }

  lemma ExactTakesWanted<S(!new)>(m: MaskMachine<S>, c: Case, tokens: seq<seq<Byte>>, s: S, path: Path)
    requires Legal(tokens, path) && ExactAt(m, c, tokens, s, Spelling(tokens, path))
    ensures TakesWanted(c, tokens, m.mask(s), Spelling(tokens, path), path)
  {
    forall t: nat | t < |tokens| ensures Taken(c, tokens, m.mask(s), Spelling(tokens, path), t) <==> WantedOf(c, tokens)(path + [t]) {
      WantedExtends(c, tokens, path, t);
    }
  }

  /** The allowed tokens within the bound, committed in turn; a failed commit is a failed assertion. */
  method Successors<S(!new)>(m: MaskMachine<S>, c: Case, tokens: seq<seq<Byte>>, s: S, prefix: seq<Byte>, ghost path: Path)
    returns (ok: bool, children: seq<Entry<S>>)
    requires Legal(tokens, path) && Run(m, path) == Some(s) && prefix == Spelling(tokens, path)
    requires TakesWanted(c, tokens, m.mask(s), prefix, path)
    ensures ok <==> CommitsAll(m, WantedOf(c, tokens), path, s, |tokens|)
    ensures ok ==> Follows(m, SpellOf(tokens), children, Extensions(WantedOf(c, tokens), path, |tokens|))
  {
    children := [];
    ghost var spell, wanted := SpellOf(tokens), WantedOf(c, tokens);
    var mask := m.mask(s);
    for token := 0 to |tokens|
      invariant CommitsAll(m, wanted, path, s, token)
      invariant Follows(m, spell, children, Extensions(wanted, path, token))
    {
      CommitsOneMore(m, wanted, path, s, token, |tokens|);
      var child: seq<Entry<S>> := [];
      if Taken(c, tokens, mask, prefix, token) {
        var committed := m.commit(s, token);
        if committed.None? {
          return false, [];
        }
        ChildFollows(m, tokens, path, s, token, committed.value);
        child := [(committed.value, prefix + tokens[token])];
      }
      ChildrenFollow(m, spell, wanted, path, token, children, child);
      children := children + child;
    }
    ok := true;
  }

  /** The assertions about a dequeued state, then its children. */
  method Visit<S(!new)>(m: MaskMachine<S>, c: Case, tokens: seq<seq<Byte>>, s: S, prefix: seq<Byte>, ghost path: Path)
    returns (ok: bool, children: seq<Entry<S>>)
    requires StartHasRow(c)
    requires Legal(tokens, path) && Run(m, path) == Some(s) && prefix == Spelling(tokens, path)
    ensures ok <==> PassesAt(m, c, tokens, path)
    ensures ok ==> Follows(m, SpellOf(tokens), children, Extensions(WantedOf(c, tokens), path, |tokens|))
  {
    children := [];
    ok := CheckState(m, c, tokens, s, prefix);
    if ok {
      ExactTakesWanted(m, c, tokens, s, path);
      ok, children := Successors(m, c, tokens, s, prefix, path);
    }
  }

  /** What holds between two turns of the search. */
  ghost predicate Searching<S(!new)>(m: MaskMachine<S>, c: Case, tokens: seq<seq<Byte>>, reps: Reps, queue: seq<Entry<S>>, paths: seq<Path>) {
    && SearchOk(SpellOf(tokens), WantedOf(c, tokens), reps, paths)
    && Follows(m, SpellOf(tokens), queue, paths) && AllPass(m, c, tokens, reps)
  }

  lemma Begin<S(!new)>(m: MaskMachine<S>, c: Case, tokens: seq<seq<Byte>>)
    ensures Searching(m, c, tokens, map[], [(m.start, [])], [[]])
  {
  }

  /** With an empty queue every first path was judged. */
  lemma SearchEnds<S(!new)>(m: MaskMachine<S>, c: Case, tokens: seq<seq<Byte>>, reps: Reps)
    requires Searching(m, c, tokens, reps, [], [])
    ensures Passed(m, c, tokens)
  {
    TokensAreSpelled(c, tokens);
    forall path | First(c, tokens, path) ensures PassesAt(m, c, tokens, path) {
      EarlierIsJudged(SpellOf(tokens), WantedOf(c, tokens), reps, [], path);
      var w := Spelling(tokens, path);
      assert SpellOf(tokens)(path) == w && WantedOf(c, tokens)(reps[w]);
      assert SpellOf(tokens)(reps[w]) == w;
      BeforeTotal(path, reps[w]);
      assert WantedOf(c, tokens)(path);
    }
  }

  /** What the search knows of the head of its queue. */
  lemma HeadFacts<S(!new)>(m: MaskMachine<S>, c: Case, tokens: seq<seq<Byte>>, reps: Reps, queue: seq<Entry<S>>, paths: seq<Path>)
    requires queue != [] && Searching(m, c, tokens, reps, queue, paths)
    ensures paths != [] && Wanted(c, tokens, paths[0]) && Run(m, paths[0]) == Some(queue[0].0)
    ensures queue[0].1 == Spelling(tokens, paths[0]) == SpellOf(tokens)(paths[0])
    ensures queue[0].1 !in reps ==> First(c, tokens, paths[0])
    ensures queue[0].1 !in reps ==> ShortWords(c.bound) - (reps.Keys + {queue[0].1}) < ShortWords(c.bound) - reps.Keys
  {
    assert WantedOf(c, tokens)(paths[0]);
    if queue[0].1 !in reps {
      TokensAreSpelled(c, tokens);
      HeadIsFirst(SpellOf(tokens), WantedOf(c, tokens), reps, paths);
      FirstIsFirst(c, tokens, paths[0]);
      ShortWordsComplete(c.bound, queue[0].1);
      assert queue[0].1 in ShortWords(c.bound) - reps.Keys;
    }
  }

  lemma FollowsOn<S(!new)>(m: MaskMachine<S>, spell: Spell, queue: seq<Entry<S>>, paths: seq<Path>, children: seq<Entry<S>>, more: seq<Path>)
    requires queue != [] && Follows(m, spell, queue, paths) && Follows(m, spell, children, more)
    ensures Follows(m, spell, queue[1..] + children, paths[1..] + more)
  {
  }

  lemma FollowsRest<S(!new)>(m: MaskMachine<S>, spell: Spell, queue: seq<Entry<S>>, paths: seq<Path>)
    requires queue != [] && Follows(m, spell, queue, paths)
    ensures paths != [] && spell(paths[0]) == queue[0].1 && Follows(m, spell, queue[1..], paths[1..])
  {
  }

  lemma Judged(c: Case, tokens: seq<seq<Byte>>, reps: Reps, paths: seq<Path>, prefix: seq<Byte>)
    requires paths != [] && SearchOk(SpellOf(tokens), WantedOf(c, tokens), reps, paths)
    requires prefix == SpellOf(tokens)(paths[0]) && prefix !in reps
    ensures SearchOk(SpellOf(tokens), WantedOf(c, tokens), reps[prefix := paths[0]], paths[1..] + Extensions(WantedOf(c, tokens), paths[0], |tokens|))
  {
    var wanted := WantedOf(c, tokens);
    TokensAreSpelled(c, tokens);
    forall t: nat | wanted(paths[0] + [t]) ensures t < |tokens| {
      WantedInit(c, tokens, paths[0], t);
    }
    JudgeHead(SpellOf(tokens), wanted, reps, paths, |tokens|);
  }

  lemma SkipTurn<S(!new)>(m: MaskMachine<S>, c: Case, tokens: seq<seq<Byte>>, reps: Reps, queue: seq<Entry<S>>, paths: seq<Path>)
    requires queue != [] && Searching(m, c, tokens, reps, queue, paths) && queue[0].1 in reps
    ensures Searching(m, c, tokens, reps, queue[1..], paths[1..])
  {
    FollowsRest(m, SpellOf(tokens), queue, paths);
    SkipJudged(SpellOf(tokens), WantedOf(c, tokens), reps, paths);
  }

  lemma OneMorePasses<S(!new)>(m: MaskMachine<S>, c: Case, tokens: seq<seq<Byte>>, reps: Reps, prefix: seq<Byte>, path: Path)
    requires AllPass(m, c, tokens, reps) && Legal(tokens, path) && PassesAt(m, c, tokens, path)
    ensures AllPass(m, c, tokens, reps[prefix := path])
  {
  }

  lemma JudgeTurn<S(!new)>(m: MaskMachine<S>, c: Case, tokens: seq<seq<Byte>>, reps: Reps, queue: seq<Entry<S>>, paths: seq<Path>, children: seq<Entry<S>>)
    requires queue != [] && paths != [] && Searching(m, c, tokens, reps, queue, paths) && queue[0].1 !in reps
    requires Legal(tokens, paths[0]) && PassesAt(m, c, tokens, paths[0])
    requires Follows(m, SpellOf(tokens), children, Extensions(WantedOf(c, tokens), paths[0], |tokens|))
    ensures Searching(m, c, tokens, reps[queue[0].1 := paths[0]], queue[1..] + children, paths[1..] + Extensions(WantedOf(c, tokens), paths[0], |tokens|))
  {
    Judged(c, tokens, reps, paths, queue[0].1);
    FollowsOn(m, SpellOf(tokens), queue, paths, children, Extensions(WantedOf(c, tokens), paths[0], |tokens|));
    OneMorePasses(m, c, tokens, reps, queue[0].1, paths[0]);
  }

  /** Judge the head of the queue, whose spelling is new, and queue its children. */
  method JudgeNext<S(!new)>(m: MaskMachine<S>, c: Case, tokens: seq<seq<Byte>>, queue: seq<Entry<S>>, ghost reps: Reps, ghost paths: seq<Path>)
    returns (ok: bool, later: seq<Entry<S>>, ghost more: Reps, ghost onward: seq<Path>)
    requires StartHasRow(c) && queue != [] && Searching(m, c, tokens, reps, queue, paths) && queue[0].1 !in reps
    ensures !ok ==> !Passed(m, c, tokens)
    ensures ok ==> Searching(m, c, tokens, more, later, onward) && more.Keys == reps.Keys + {queue[0].1}
    ensures ok ==> ShortWords(c.bound) - more.Keys < ShortWords(c.bound) - reps.Keys
  {
    var (s, prefix) := queue[0];
    HeadFacts(m, c, tokens, reps, queue, paths);
    var children;
    ok, children := Visit(m, c, tokens, s, prefix, paths[0]);
    later, more, onward := queue, reps, paths;
    if ok {
      JudgeTurn(m, c, tokens, reps, queue, paths, children);
      more := reps[prefix := paths[0]];
      later, onward := queue[1..] + children, paths[1..] + Extensions(WantedOf(c, tokens), paths[0], |tokens|);
    }
  }

  /** Passes exactly when the machine is right at the first path of every spelling: the queue meets paths in their
      order, so that is where each spelling is judged. */
  method CheckExactOracle<S(!new)>(m: MaskMachine<S>, c: Case, tokens: seq<seq<Byte>>) returns (ok: bool)
    requires StartHasRow(c)
    ensures ok <==> Passed(m, c, tokens)
  {
    var queue: seq<Entry<S>> := [(m.start, [])];
    var seen: set<seq<Byte>> := {};
    ghost var paths: seq<Path>, reps: Reps := [[]], map[];
    Begin(m, c, tokens);
    while queue != []
      invariant Searching(m, c, tokens, reps, queue, paths) && seen == reps.Keys
      decreases ShortWords(c.bound) - seen, |queue|
    {
      var prefix := queue[0].1;
      if prefix in seen {
        SkipTurn(m, c, tokens, reps, queue, paths);
        queue, paths := queue[1..], paths[1..];
      } else {
        ok, queue, reps, paths := JudgeNext(m, c, tokens, queue, reps, paths);
        if !ok {
          return;
        }
        seen := seen + {prefix};
      }
    }
    SearchEnds(m, c, tokens, reps);
    ok := true;
  }
}
