/** Facts about slices and sets, sums, and tests that hold for every item of a list. They are stated once over any
    element type, so that proofs about lists of large values never compare those values field by field: a list of templates or
    of pending paths is cut and joined here as a list of anything. `All` unfolds from the end, the way the lists
    are built. */
module Collections {

  lemma OneLonger<T>(s: seq<T>, i: nat)
    requires i < |s|
    ensures s[..i + 1] == s[..i] + [s[i]]
  {
  }

  lemma Regroup<T>(a: seq<T>, b: seq<T>, c: seq<T>)
    ensures a + (b + c) == a + b + c
  {
  }

  lemma LastApart<T>(s: seq<T>)
    requires s != []
    ensures s == s[..|s| - 1] + [s[|s| - 1]]
  {
  }

  ghost predicate All<T(!new)>(holds: T -> bool, items: seq<T>) {
    items == [] || (All(holds, items[..|items| - 1]) && holds(items[|items| - 1]))
  }

  lemma {:induction false} AllAt<T(!new)>(holds: T -> bool, items: seq<T>, i: nat)
    requires i < |items| && All(holds, items)
    ensures holds(items[i])
  {
    if i < |items| - 1 {
      AllAt(holds, items[..|items| - 1], i);
    }
  }

  lemma {:induction false} AllOf<T(!new)>(holds: T -> bool, items: seq<T>)
    requires forall i :: 0 <= i < |items| ==> holds(items[i])
    ensures All(holds, items)
  {
    if items != [] {
      AllOf(holds, items[..|items| - 1]);
    }
  }

  function Sum<T>(size: T -> nat, items: seq<T>): nat {
    if items == [] then 0 else Sum(size, items[..|items| - 1]) + size(items[|items| - 1])
  }

  lemma SumOneMore<T>(size: T -> nat, items: seq<T>, last: T)
    ensures Sum(size, items + [last]) == Sum(size, items) + size(last)
  {
    assert (items + [last])[..|items|] == items;
  }

  lemma {:induction false} SumAt<T>(size: T -> nat, items: seq<T>, i: nat)
    requires i < |items|
    ensures Sum(size, items[..i]) + size(items[i]) <= Sum(size, items)
  {
    var init := items[..|items| - 1];
    if i < |items| - 1 {
      assert init[..i] == items[..i];
      SumAt(size, init, i);
    }
  }

  lemma SubsetSize<T>(a: set<T>, b: set<T>)
    requires a <= b
    ensures |a| <= |b| && (|a| == |b| ==> a == b)
  {
    assert b == a + (b - a);
  }

  lemma Inhabited(s: set<int>)
    ensures s == {} || exists x :: x in s
  {
    if !exists x :: x in s {
      assert s == {};
    }
  }

  function Min(a: nat, b: nat): nat { if a < b then a else b }

  function Max(a: nat, b: nat): nat { if a < b then b else a }

  // ----- Lists without repetition -----

  ghost predicate Distinct<T>(items: seq<T>) {
    forall i, j :: 0 <= i < j < |items| ==> items[i] != items[j]
  }

  ghost function Elements<T(!new)>(items: seq<T>): set<T> {
    set x | x in items
  }

  lemma AppendDistinct<T>(items: seq<T>, x: T)
    requires Distinct(items) && x !in items
    ensures Distinct(items + [x])
  {
  }

  lemma {:induction false} DistinctSize<T>(items: seq<T>, all: set<T>)
    requires Distinct(items) && forall x :: x in items <==> x in all
    ensures |items| == |all|
    decreases |items|
  {
    if items == [] {
      assert all == {};
    } else {
      var last := |items| - 1;
      DistinctSize(items[..last], all - {items[last]});
    }
  }
}
