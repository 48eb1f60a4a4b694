/** Runs of a finitely branching step function, and the finite set they stay in when runs are bounded. The step
    function is a parameter: a worklist over any kind of configuration ends because it only ever meets members of
    that set, and it is complete because what it has processed is closed under steps once nothing waits. */
module Reachability {

  ghost predicate Reach<T(!new)>(next: T -> set<T>, c: T, d: T, n: nat)
    decreases n
  {
    if n == 0 then c == d else exists e :: e in next(c) && Reach(next, e, d, n - 1)
  }

  lemma {:induction false} ReachSnoc<T(!new)>(next: T -> set<T>, c: T, d: T, e: T, n: nat)
    requires Reach(next, c, d, n) && e in next(d)
    ensures Reach(next, c, e, n + 1)
    decreases n
  {
    if n == 0 {
      assert Reach(next, e, e, 0);
    } else {
      var m :| m in next(c) && Reach(next, m, d, n - 1);
      ReachSnoc(next, m, d, e, n - 1);
    }
  }

  ghost function Layer<T(!new)>(next: T -> set<T>, c: T, n: nat): set<T> {
    if n == 0 then {c} else set d, e | d in Layer(next, c, n - 1) && e in next(d) :: e
  }

  ghost function UpTo<T(!new)>(next: T -> set<T>, c: T, n: nat): set<T> {
    if n == 0 then {c} else UpTo(next, c, n - 1) + Layer(next, c, n)
  }

  lemma {:induction false} LayerIsReached<T(!new)>(next: T -> set<T>, c: T, d: T, n: nat)
    requires d in Layer(next, c, n)
    ensures Reach(next, c, d, n)
    decreases n
  {
    if n > 0 {
      var before :| before in Layer(next, c, n - 1) && d in next(before);
      LayerIsReached(next, c, before, n - 1);
      ReachSnoc(next, c, before, d, n - 1);
    }
  }

  lemma {:induction false} UpToIsReached<T(!new)>(next: T -> set<T>, c: T, d: T, n: nat) returns (k: nat)
    requires d in UpTo(next, c, n)
    ensures k <= n && d in Layer(next, c, k) && Reach(next, c, d, k)
    decreases n
  {
    if n == 0 || d in Layer(next, c, n) {
      k := n;
      LayerIsReached(next, c, d, n);
    } else {
      k := UpToIsReached(next, c, d, n - 1);
    }
  }

  lemma {:induction false} LayerInUpTo<T(!new)>(next: T -> set<T>, c: T, d: T, k: nat, n: nat)
    requires k <= n && d in Layer(next, c, k)
    ensures d in UpTo(next, c, n)
    decreases n
  {
    if k < n {
      LayerInUpTo(next, c, d, k, n - 1);
    }
  }

  /** When no run from `c` is longer than `limit`, what `limit` steps reach is closed under steps. */
  lemma UpToClosed<T(!new)>(next: T -> set<T>, c: T, limit: nat, d: T, e: T)
    requires forall x, n: nat :: Reach(next, c, x, n) ==> n <= limit
    requires d in UpTo(next, c, limit) && e in next(d)
    ensures e in UpTo(next, c, limit)
  {
    var k := UpToIsReached(next, c, d, limit);
    ReachSnoc(next, c, d, e, k);
    assert e in Layer(next, c, k + 1);
    LayerInUpTo(next, c, e, k + 1, limit);
  }

  lemma StartInUpTo<T(!new)>(next: T -> set<T>, c: T, n: nat)
    ensures c in UpTo(next, c, n)
  {
    LayerInUpTo(next, c, c, 0, n);
  }

  // ----- Worklists -----

  /** Everything a processed configuration steps to is processed or waiting. */
  ghost predicate Covered<T(!new)>(next: T -> set<T>, seen: set<T>, todo: seq<T>) {
    forall c, e :: c in seen && e in next(c) ==> e in seen || e in todo
  }

  lemma ProcessOne<T(!new)>(next: T -> set<T>, seen: set<T>, todo: seq<T>, c: T, successors: seq<T>)
    requires Covered(next, seen, todo + [c])
    requires forall e :: e in next(c) ==> e in successors
    ensures Covered(next, seen + {c}, todo + successors)
  {
  }

  lemma SkipSeen<T(!new)>(next: T -> set<T>, seen: set<T>, todo: seq<T>, c: T)
    requires Covered(next, seen, todo + [c]) && c in seen
    ensures Covered(next, seen, todo)
  {
  }

  lemma {:induction false} CoveredHasRuns<T(!new)>(next: T -> set<T>, seen: set<T>, c: T, d: T, n: nat)
    requires Covered(next, seen, []) && c in seen && Reach(next, c, d, n)
    ensures d in seen
    decreases n
  {
    if n > 0 {
      var e :| e in next(c) && Reach(next, e, d, n - 1);
      CoveredHasRuns(next, seen, e, d, n - 1);
    }
  }

  /** The elements of a finite set, as a list in some order. */
  method Listing<T(==)>(elements: set<T>) returns (list: seq<T>)
    ensures forall c :: c in list <==> c in elements
  {
    list := [];
    var todo := elements;
    while todo != {}
      invariant forall c :: c in elements <==> c in list || c in todo
      decreases todo
    {
      var c :| c in todo;
      list, todo := list + [c], todo - {c};
    }
  }
}
