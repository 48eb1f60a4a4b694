/** The order in which a breadth-first search meets token paths: shorter ones first, then by token. */
module TokenOrder {
  import opened MaskMachines

  function Init(p: Path): Path
    requires p != []
  {
    p[..|p| - 1]
  }

  function Last(p: Path): nat
    requires p != []
  {
    p[|p| - 1]
  }

  lemma InitLast(p: Path)
    requires p != []
    ensures p == Init(p) + [Last(p)]
  {
  }

  predicate Before(p: Path, q: Path)
    decreases |p|
  {
    |p| < |q| ||
    (|p| == |q| && p != [] && (Before(Init(p), Init(q)) || (Init(p) == Init(q) && Last(p) < Last(q))))
  }

  lemma {:induction false} NotBeforeItself(p: Path)
    ensures !Before(p, p)
  {
    if p != [] {
      NotBeforeItself(Init(p));
    }
  }

  lemma {:induction false} BeforeTransitive(p: Path, q: Path, r: Path)
    requires Before(p, q) && Before(q, r)
    ensures Before(p, r)
    decreases |p|
  {
    if |p| == |q| == |r| && Before(Init(p), Init(q)) && Before(Init(q), Init(r)) {
      BeforeTransitive(Init(p), Init(q), Init(r));
    }
  }

  lemma BeforeOneWay(p: Path, q: Path)
    ensures Before(p, q) ==> p != q && !Before(q, p)
  {
    NotBeforeItself(p);
    if Before(p, q) && Before(q, p) {
      BeforeTransitive(p, q, p);
    }
  }

  lemma {:induction false} BeforeTotal(p: Path, q: Path)
    ensures p == q || Before(p, q) || Before(q, p)
    decreases |p|
  {
    if |p| == |q| && p != [] {
      BeforeTotal(Init(p), Init(q));
      assert p == Init(p) + [Last(p)] && q == Init(q) + [Last(q)];
    }
  }

  /** One more token keeps the order of two paths, and extends one path in the order of the tokens. */
  lemma BeforeExtends(p: Path, q: Path, s: nat, t: nat)
    ensures Before(p, q) ==> Before(p + [s], q + [t])
    ensures s < t ==> Before(p + [s], p + [t])
    ensures Before(p, p + [t])
  {
    assert Init(p + [s]) == p && Init(q + [t]) == q && Init(p + [t]) == p;
  }

  /** The extensions of `p` by tokens below `n` that are wanted, in order. */
  ghost function Extensions(wanted: Path -> bool, p: Path, n: nat): seq<Path> {
    if n == 0 then []
    else Extensions(wanted, p, n - 1) + if wanted(p + [n - 1]) then [p + [n - 1]] else []
  }

  ghost predicate Ascending(paths: seq<Path>) {
    forall i, j :: 0 <= i < j < |paths| ==> Before(paths[i], paths[j])
  }

  ghost predicate Extends(p: Path, q: Path, n: nat) {
    q != [] && Init(q) == p && Last(q) < n
  }

  lemma {:induction false} ExtensionsInOrder(wanted: Path -> bool, p: Path, n: nat)
    ensures Ascending(Extensions(wanted, p, n))
    ensures forall q :: q in Extensions(wanted, p, n) <==> Extends(p, q, n) && wanted(q)
  {
    if n > 0 {
      var fewer := Extensions(wanted, p, n - 1);
      ExtensionsInOrder(wanted, p, n - 1);
      forall i | 0 <= i < |fewer| ensures Before(fewer[i], p + [n - 1]) {
        assert fewer[i] in fewer && fewer[i] == p + [Last(fewer[i])];
        BeforeExtends(p, p, Last(fewer[i]), n - 1);
      }
      forall q ensures q in Extensions(wanted, p, n) <==> Extends(p, q, n) && wanted(q) {
        assert Extends(p, q, n) && Last(q) == n - 1 ==> q == p + [n - 1];
        assert Extends(p, p + [n - 1], n);
      }
    }
  }
}
