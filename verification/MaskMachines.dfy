/** Checkers that compare deterministic mask machines. */
module MaskMachines {
  // A machine stands for a compiled constraint: a state, a token mask for it, whether it accepts, and how a token
  // advances it. A checker's `false` stands for a failed assertion.

  import opened Wrappers
  import opened Cfg
  import opened Words
  import opened VocabPartitions

  datatype MaskMachine<!S> = MaskMachine(start: S, commit: (S, nat) -> Option<S>, mask: S -> seq<u32>, accepting: S -> bool)

  type Path = seq<nat>

  function Run<S>(m: MaskMachine<S>, path: Path): Option<S> {
    if path == [] then Some(m.start)
    else
      match Run(m, path[..|path| - 1])
      case None => None
      case Some(s) => m.commit(s, path[|path| - 1])
  }

  predicate Allowed(mask: seq<u32>, token: nat) {
    TokenBit(mask, token)
  }

  function Spelling(tokens: seq<seq<Byte>>, path: Path): seq<Byte>
    requires forall i :: 0 <= i < |path| ==> path[i] < |tokens|
  {
    if path == [] then [] else Spelling(tokens, path[..|path| - 1]) + tokens[path[|path| - 1]]
  }

  // ----- Paths that a mask allows -----

  ghost predicate Legal(tokens: seq<seq<Byte>>, path: Path) {
    forall i :: 0 <= i < |path| ==> path[i] < |tokens|
  }

  /** Each token of the path is in the mask where it is committed, and the spelling never exceeds the bound. */
  ghost predicate AllowedPath<S>(m: MaskMachine<S>, tokens: seq<seq<Byte>>, bound: nat, path: Path)
    decreases |path|
  {
    path == [] ||
    (var last := |path| - 1;
     && AllowedPath(m, tokens, bound, path[..last])
     && Legal(tokens, path) && |Spelling(tokens, path)| <= bound
     && Run(m, path[..last]).Some? && Allowed(m.mask(Run(m, path[..last]).value), path[last]))
  }

  /** Both machines follow the path and look the same at its end. */
  ghost predicate Agree<S, T>(a: MaskMachine<S>, b: MaskMachine<T>, path: Path) {
    && Run(a, path).Some? && Run(b, path).Some?
    && a.mask(Run(a, path).value) == b.mask(Run(b, path).value)
    && a.accepting(Run(a, path).value) == b.accepting(Run(b, path).value)
  }

  // ----- Finitely many bounded paths -----

  ghost function PathsUpTo(count: nat, length: nat): set<Path> {
    if length == 0 then {[]}
    else PathsUpTo(count, length - 1) + set p, t: nat | p in PathsUpTo(count, length - 1) && t < count :: p + [t]
  }

  lemma {:induction false} PathsComplete(count: nat, length: nat, path: Path)
    requires |path| <= length && forall i :: 0 <= i < |path| ==> path[i] < count
    ensures path in PathsUpTo(count, length)
    decreases length
  {
    if |path| < length {
      PathsComplete(count, length - 1, path);
    } else if length > 0 {
      PathsComplete(count, length - 1, path[..length - 1]);
      assert path == path[..length - 1] + [path[length - 1]];
    }
  }

  lemma {:induction false} SpellingLength(tokens: seq<seq<Byte>>, path: Path)
    requires Legal(tokens, path) && forall t :: t in tokens ==> t != []
    ensures |path| <= |Spelling(tokens, path)|
  {
    if path != [] {
      SpellingLength(tokens, path[..|path| - 1]);
      assert tokens[path[|path| - 1]] in tokens;
    }
  }

  lemma {:induction false} AllowedPathIsShort<S>(m: MaskMachine<S>, tokens: seq<seq<Byte>>, bound: nat, path: Path)
    requires AllowedPath(m, tokens, bound, path) && forall t :: t in tokens ==> t != []
    ensures Legal(tokens, path) && |path| <= bound && path in PathsUpTo(|tokens|, bound)
  {
    if path != [] {
      SpellingLength(tokens, path);
    }
    PathsComplete(|tokens|, bound, path);
  }

  // ----- Breadth-first comparison, keyed by token path -----

  type Item = (Path, seq<Byte>)

  ghost function AllowedOf<S>(m: MaskMachine<S>, tokens: seq<seq<Byte>>, bound: nat): Path -> bool {
    path => AllowedPath(m, tokens, bound, path)
  }

  ghost predicate Queued(queue: seq<Item>, path: Path) {
    exists i :: 0 <= i < |queue| && queue[i].0 == path
  }

  ghost predicate Listed(allowed: Path -> bool, tokens: seq<seq<Byte>>, queue: seq<Item>) {
    forall i :: 0 <= i < |queue| ==> allowed(queue[i].0) && Legal(tokens, queue[i].0) && queue[i].1 == Spelling(tokens, queue[i].0)
  }

  ghost predicate ChildrenQueued(allowed: Path -> bool, seen: set<Path>, queue: seq<Item>, path: Path) {
    forall t: nat :: allowed(path + [t]) ==> path + [t] in seen || Queued(queue, path + [t])
  }

  ghost predicate Frontier(allowed: Path -> bool, tokens: seq<seq<Byte>>, seen: set<Path>, queue: seq<Item>) {
    && ([] in seen || Queued(queue, []))
    && (forall p :: p in seen ==> allowed(p))
    && Listed(allowed, tokens, queue)
    && forall p :: p in seen ==> ChildrenQueued(allowed, seen, queue, p)
  }

  /** When one more token keeps the path allowed. */
  lemma ExtendAllowed<S>(m: MaskMachine<S>, tokens: seq<seq<Byte>>, bound: nat, path: Path, token: nat)
    requires AllowedPath(m, tokens, bound, path) && Legal(tokens, path) && Run(m, path).Some?
    ensures AllowedPath(m, tokens, bound, path + [token]) <==>
              token < |tokens| && |Spelling(tokens, path)| + |tokens[token]| <= bound && Allowed(m.mask(Run(m, path).value), token)
    ensures token < |tokens| ==> Legal(tokens, path + [token]) && Spelling(tokens, path + [token]) == Spelling(tokens, path) + tokens[token]
  {
    var next := path + [token];
    assert next[..|next| - 1] == path && next[|next| - 1] == token;
    if token < |tokens| {
      assert Legal(tokens, next);
    }
  }

  lemma QueuedLast(children: seq<Item>, item: Item)
    ensures Queued(children + [item], item.0)
    ensures forall q :: Queued(children, q) ==> Queued(children + [item], q)
  {
    var more := children + [item];
    assert more[|children|].0 == item.0;
    forall q | Queued(children, q) ensures Queued(more, q) {
      var i :| 0 <= i < |children| && children[i].0 == q;
      assert more[i].0 == q;
    }
  }

  /** The token paths one longer that the mask allows within the bound, with their spellings. */
  method Children<S>(m: MaskMachine<S>, tokens: seq<seq<Byte>>, bound: nat, path: Path, prefix: seq<Byte>, mask: seq<u32>) returns (children: seq<Item>)
    requires AllowedPath(m, tokens, bound, path) && Legal(tokens, path) && prefix == Spelling(tokens, path)
    requires Run(m, path).Some? && mask == m.mask(Run(m, path).value)
    ensures Listed(AllowedOf(m, tokens, bound), tokens, children)
    ensures forall t: nat :: AllowedPath(m, tokens, bound, path + [t]) ==> Queued(children, path + [t])
  {
    children := [];
    for token := 0 to |tokens|
      invariant Listed(AllowedOf(m, tokens, bound), tokens, children)
      invariant forall t: nat :: t < token && AllowedPath(m, tokens, bound, path + [t]) ==> Queued(children, path + [t])
    {
      ExtendAllowed(m, tokens, bound, path, token);
      if |prefix| + |tokens[token]| <= bound && Allowed(mask, token) {
        QueuedLast(children, (path + [token], prefix + tokens[token]));
        children := children + [(path + [token], prefix + tokens[token])];
      }
    }
    forall t: nat | AllowedPath(m, tokens, bound, path + [t]) ensures Queued(children, path + [t]) {
      ExtendAllowed(m, tokens, bound, path, t);
    }
  }

  lemma QueuedAfter(queue: seq<Item>, children: seq<Item>, q: Path)
    requires queue != []
    ensures Queued(queue, q) && q != queue[0].0 ==> Queued(queue[1..] + children, q)
    ensures Queued(children, q) ==> Queued(queue[1..] + children, q)
  {
    var rest := queue[1..] + children;
    if Queued(queue, q) && q != queue[0].0 {
      var i :| 0 <= i < |queue| && queue[i].0 == q;
      assert rest[i - 1].0 == q;
    }
    if Queued(children, q) {
      var i :| 0 <= i < |children| && children[i].0 == q;
      assert rest[|queue| - 1 + i].0 == q;
    }
  }

  /** Processing the head: its allowed extensions join the queue. */
  lemma Expand(allowed: Path -> bool, tokens: seq<seq<Byte>>, seen: set<Path>, queue: seq<Item>, children: seq<Item>)
    requires queue != [] && Frontier(allowed, tokens, seen, queue)
    requires Listed(allowed, tokens, children)
    requires forall t: nat :: allowed(queue[0].0 + [t]) ==> Queued(children, queue[0].0 + [t])
    ensures Frontier(allowed, tokens, seen + {queue[0].0}, queue[1..] + children)
  {
    var rest, more := queue[1..] + children, seen + {queue[0].0};
    QueuedAfter(queue, children, []);
    forall p | p in more ensures ChildrenQueued(allowed, more, rest, p) {
      forall t: nat | allowed(p + [t]) ensures p + [t] in more || Queued(rest, p + [t]) {
        QueuedAfter(queue, children, p + [t]);
        assert p in seen ==> ChildrenQueued(allowed, seen, queue, p);
      }
    }
  }

  lemma SkipSeen(allowed: Path -> bool, tokens: seq<seq<Byte>>, seen: set<Path>, queue: seq<Item>)
    requires queue != [] && Frontier(allowed, tokens, seen, queue) && queue[0].0 in seen
    ensures Frontier(allowed, tokens, seen, queue[1..])
  {
    var rest := queue[1..];
    assert rest + [] == rest;
    QueuedAfter(queue, [], []);
    forall p | p in seen ensures ChildrenQueued(allowed, seen, rest, p) {
      forall t: nat | allowed(p + [t]) ensures p + [t] in seen || Queued(rest, p + [t]) {
        QueuedAfter(queue, [], p + [t]);
        assert ChildrenQueued(allowed, seen, queue, p);
      }
    }
  }

  /** When the queue is empty every allowed path has been seen. */
  lemma {:induction false} AllSeen(allowed: Path -> bool, tokens: seq<seq<Byte>>, seen: set<Path>, path: Path)
    requires Frontier(allowed, tokens, seen, []) && allowed(path)
    requires forall p: Path, t: nat :: allowed(p + [t]) ==> allowed(p)
    ensures path in seen
    decreases |path|
  {
    if path != [] {
      var init, last := path[..|path| - 1], path[|path| - 1];
      assert path == init + [last];
      AllSeen(allowed, tokens, seen, init);
      assert ChildrenQueued(allowed, seen, [], init);
    }
  }

  lemma AllowedInit<S>(m: MaskMachine<S>, tokens: seq<seq<Byte>>, bound: nat, path: Path, token: nat)
    requires AllowedPath(m, tokens, bound, path + [token])
    ensures AllowedPath(m, tokens, bound, path)
  {
    var next := path + [token];
    assert next[..|next| - 1] == path;
  }

  lemma SeenProgress<S>(m: MaskMachine<S>, tokens: seq<seq<Byte>>, bound: nat, seen: set<Path>, path: Path)
    requires AllowedPath(m, tokens, bound, path) && path !in seen && forall t :: t in tokens ==> t != []
    ensures PathsUpTo(|tokens|, bound) - (seen + {path}) < PathsUpTo(|tokens|, bound) - seen
  {
    AllowedPathIsShort(m, tokens, bound, path);
    assert path in PathsUpTo(|tokens|, bound) - seen;
  }

  /** One queue step: compare both machines at the path, then list its allowed extensions. */
  method CheckPath<S, T>(rescued: MaskMachine<S>, reference: MaskMachine<T>, tokens: seq<seq<Byte>>, bound: nat, path: Path, prefix: seq<Byte>)
    returns (ok: bool, children: seq<Item>)
    requires AllowedPath(rescued, tokens, bound, path) && Legal(tokens, path) && prefix == Spelling(tokens, path)
    ensures ok <==> Agree(rescued, reference, path)
    ensures ok ==> Listed(AllowedOf(rescued, tokens, bound), tokens, children)
    ensures ok ==> forall t: nat :: AllowedPath(rescued, tokens, bound, path + [t]) ==> Queued(children, path + [t])
  {
    children := [];
    var left, right := Run(rescued, path), Run(reference, path);
    ok := left.Some? && right.Some?
      && rescued.mask(left.value) == reference.mask(right.value)
      && rescued.accepting(left.value) == reference.accepting(right.value);
    if ok {
      children := Children(rescued, tokens, bound, path, prefix, rescued.mask(left.value));
    }
  }

  ghost predicate AllAgree<S, T>(a: MaskMachine<S>, b: MaskMachine<T>, seen: set<Path>) {
    forall p :: p in seen ==> Agree(a, b, p)
  }

  lemma OneMoreAgrees<S, T>(a: MaskMachine<S>, b: MaskMachine<T>, seen: set<Path>, path: Path)
    requires AllAgree(a, b, seen) && Agree(a, b, path)
    ensures AllAgree(a, b, seen + {path})
  {
  }

  lemma FrontierStart<S>(m: MaskMachine<S>, tokens: seq<seq<Byte>>, bound: nat)
    ensures Frontier(AllowedOf(m, tokens, bound), tokens, {}, [([], [])])
  {
    var queue: seq<Item> := [([], [])];
    assert queue[0].0 == [];
  }

  lemma FrontierHead<S>(m: MaskMachine<S>, tokens: seq<seq<Byte>>, bound: nat, seen: set<Path>, queue: seq<Item>)
    requires queue != [] && Frontier(AllowedOf(m, tokens, bound), tokens, seen, queue)
    ensures AllowedPath(m, tokens, bound, queue[0].0) && Legal(tokens, queue[0].0) && queue[0].1 == Spelling(tokens, queue[0].0)
  {
  }

  lemma AllSeenAgree<S, T>(a: MaskMachine<S>, b: MaskMachine<T>, tokens: seq<seq<Byte>>, bound: nat, seen: set<Path>)
    requires Frontier(AllowedOf(a, tokens, bound), tokens, seen, []) && AllAgree(a, b, seen)
    ensures AgreeWithin(a, b, tokens, bound)
  {
    forall p: Path, t: nat | AllowedOf(a, tokens, bound)(p + [t]) ensures AllowedOf(a, tokens, bound)(p) {
      AllowedInit(a, tokens, bound, p, t);
    }
    forall path | AllowedPath(a, tokens, bound, path) ensures Agree(a, b, path) {
      AllSeen(AllowedOf(a, tokens, bound), tokens, seen, path);
    }
  }

  ghost predicate AgreeWithin<S, T>(a: MaskMachine<S>, b: MaskMachine<T>, tokens: seq<seq<Byte>>, bound: nat) {
    forall path :: AllowedPath(a, tokens, bound, path) ==> Agree(a, b, path)
  }

  /** Passes exactly when both machines agree after every path that the first machine's masks allow within the bound. */
  method CheckMatchesReference<S, T>(rescued: MaskMachine<S>, reference: MaskMachine<T>, tokens: seq<seq<Byte>>, bound: nat) returns (ok: bool)
    requires forall t :: t in tokens ==> t != []
    ensures ok <==> AgreeWithin(rescued, reference, tokens, bound)
  {
    var queue: seq<Item> := [([], [])];
    var seen: set<Path> := {};
    FrontierStart(rescued, tokens, bound);
    while queue != []
      invariant Frontier(AllowedOf(rescued, tokens, bound), tokens, seen, queue)
      invariant AllAgree(rescued, reference, seen)
      decreases PathsUpTo(|tokens|, bound) - seen, |queue|
    {
      var (path, prefix) := queue[0];
      FrontierHead(rescued, tokens, bound, seen, queue);
      if path in seen {
        SkipSeen(AllowedOf(rescued, tokens, bound), tokens, seen, queue);
        queue := queue[1..];
      } else {
        SeenProgress(rescued, tokens, bound, seen, path);
        var children;
        ok, children := CheckPath(rescued, reference, tokens, bound, path, prefix);
        if !ok {
          return;
        }
        Expand(AllowedOf(rescued, tokens, bound), tokens, seen, queue, children);
        OneMoreAgrees(rescued, reference, seen, path);
        seen, queue := seen + {path}, queue[1..] + children;
      }
    }
    AllSeenAgree(rescued, reference, tokens, bound, seen);
    ok := true;
  }

  // ----- Recursive comparison to a depth -----

  /** A path of at most `depth` tokens from `s`, each in the mask where it is committed. It may end on a token that cannot be committed. */
  ghost predicate AllowedFrom<S>(m: MaskMachine<S>, s: S, depth: nat, path: Path)
    decreases |path|
  {
    |path| <= depth &&
    (path == [] ||
     (Allowed(m.mask(s), path[0]) &&
      match m.commit(s, path[0])
      case None => |path| == 1
      case Some(next) => AllowedFrom(m, next, depth - 1, path[1..])))
  }

  ghost predicate AgreeFrom<S, T>(a: MaskMachine<S>, b: MaskMachine<T>, s: S, t: T, path: Path)
    decreases |path|
  {
    if path == [] then a.mask(s) == b.mask(t) && a.accepting(s) == b.accepting(t)
    else
      && a.commit(s, path[0]).Some? && b.commit(t, path[0]).Some?
      && AgreeFrom(a, b, a.commit(s, path[0]).value, b.commit(t, path[0]).value, path[1..])
  }

  ghost predicate SameTo<S, T>(a: MaskMachine<S>, b: MaskMachine<T>, s: S, t: T, depth: nat) {
    forall path :: AllowedFrom(a, s, depth, path) ==> AgreeFrom(a, b, s, t, path)
  }

  /** As `SameTo`, for the nonempty paths that begin with `token`. */
  ghost predicate SameAfter<S, T>(a: MaskMachine<S>, b: MaskMachine<T>, s: S, t: T, depth: nat, token: nat) {
    forall path :: path != [] && path[0] == token && AllowedFrom(a, s, depth, path) ==> AgreeFrom(a, b, s, t, path)
  }

  ghost predicate SameNext<S, T>(a: MaskMachine<S>, b: MaskMachine<T>, s: S, t: T, depth: nat, token: nat)
    requires depth > 0
  {
    Allowed(a.mask(s), token) ==>
      a.commit(s, token).Some? && b.commit(t, token).Some? && SameTo(a, b, a.commit(s, token).value, b.commit(t, token).value, depth - 1)
  }

  lemma NextIsSameAfter<S, T>(a: MaskMachine<S>, b: MaskMachine<T>, s: S, t: T, depth: nat, token: nat)
    requires depth > 0 && SameNext(a, b, s, t, depth, token)
    ensures SameAfter(a, b, s, t, depth, token)
  {
    forall path | path != [] && path[0] == token && AllowedFrom(a, s, depth, path)
      ensures AgreeFrom(a, b, s, t, path)
    {
      assert AllowedFrom(a, a.commit(s, token).value, depth - 1, path[1..]);
    }
  }

  lemma SameAfterIsNext<S, T>(a: MaskMachine<S>, b: MaskMachine<T>, s: S, t: T, depth: nat, token: nat)
    requires depth > 0 && SameAfter(a, b, s, t, depth, token)
    ensures SameNext(a, b, s, t, depth, token)
  {
    if Allowed(a.mask(s), token) {
      var one := [token];
      assert one[1..] == [];
      assert a.commit(s, token).Some? ==> AllowedFrom(a, a.commit(s, token).value, depth - 1, one[1..]);
      assert AllowedFrom(a, s, depth, one);
      var next := a.commit(s, token).value;
      forall rest | AllowedFrom(a, next, depth - 1, rest)
        ensures AgreeFrom(a, b, next, b.commit(t, token).value, rest)
      {
        var path := [token] + rest;
        assert path[1..] == rest;
        assert AllowedFrom(a, s, depth, path);
      }
    }
  }

  lemma SameAll<S, T>(a: MaskMachine<S>, b: MaskMachine<T>, s: S, t: T, depth: nat)
    requires a.mask(s) == b.mask(t) && a.accepting(s) == b.accepting(t)
    requires depth > 0 ==> forall token: nat :: token < 32 * |a.mask(s)| ==> SameAfter(a, b, s, t, depth, token)
    ensures SameTo(a, b, s, t, depth)
  {
    forall path | AllowedFrom(a, s, depth, path)
      ensures AgreeFrom(a, b, s, t, path)
    {
      if path != [] {
        assert Allowed(a.mask(s), path[0]);
        assert SameAfter(a, b, s, t, depth, path[0]);
      }
    }
  }

  lemma SameParts<S, T>(a: MaskMachine<S>, b: MaskMachine<T>, s: S, t: T, depth: nat)
    requires SameTo(a, b, s, t, depth)
    ensures a.mask(s) == b.mask(t) && a.accepting(s) == b.accepting(t)
    ensures forall token: nat :: SameAfter(a, b, s, t, depth, token)
  {
    assert AllowedFrom(a, s, depth, []);
  }

  /** What the recursion checks below one token; a failed commit is a failed assertion. */
  method SameBelow<S, T>(a: MaskMachine<S>, b: MaskMachine<T>, s: S, t: T, depth: nat, token: nat) returns (ok: bool)
    requires depth > 0
    ensures ok <==> SameAfter(a, b, s, t, depth, token)
    decreases depth, 0
  {
    if SameAfter(a, b, s, t, depth, token) {
      SameAfterIsNext(a, b, s, t, depth, token);
    }
    if SameNext(a, b, s, t, depth, token) {
      NextIsSameAfter(a, b, s, t, depth, token);
    }
    if !Allowed(a.mask(s), token) {
      return true;
    }
    var nextA, nextB := a.commit(s, token), b.commit(t, token);
    if nextA.None? || nextB.None? {
      return false;
    }
    ok := SameLanguage(a, b, nextA.value, nextB.value, depth - 1);
  }

  /** Passes exactly when the machines agree after every allowed path of at most `depth` tokens. */
  method SameLanguage<S, T>(a: MaskMachine<S>, b: MaskMachine<T>, s: S, t: T, depth: nat) returns (ok: bool)
    ensures ok <==> SameTo(a, b, s, t, depth)
    decreases depth, 1
  {
    var mask := a.mask(s);
    if SameTo(a, b, s, t, depth) {
      SameParts(a, b, s, t, depth);
    }
    if mask != b.mask(t) || a.accepting(s) != b.accepting(t) {
      return false;
    }
    if depth > 0 {
      for token := 0 to 32 * |mask|
        invariant forall k: nat :: k < token ==> SameAfter(a, b, s, t, depth, k)
      {
        ok := SameBelow(a, b, s, t, depth, token);
        if !ok {
          return;
        }
      }
    }
    SameAll(a, b, s, t, depth);
    ok := true;
  }
}
