/** What the bounded evaluator does on a stack, as a list of units of work, and when its budgets cover the list.
    The evaluator charges as it goes; whether it gets through does not depend on the order of its work. */
module WorkBudgets {
  import opened StackMachine
  import opened Collections

  const MAX_STEPS: nat := 256
  const STACK_RESERVE: nat := 64
  const MAX_BRANCHES: nat := 16

  /** A visit to a state, an output, or a place where the evaluator has to give up. */
  datatype Work = Visit | Output(stack: Stack) | Stuck

  function Price(w: Work): nat {
    match w case Visit => 1 case Output(stack) => 1 + |stack| case Stuck => 0
  }

  function Cost(work: seq<Work>): nat {
    if work == [] then 0 else Price(work[0]) + Cost(work[1..])
  }

  /** The deduplicated outputs after one unit of work, and after all of it. */
  function Kept(w: Work, complete: seq<Stack>): seq<Stack> {
    if w.Output? && w.stack !in complete then complete + [w.stack] else complete
  }

  function After(work: seq<Work>, complete: seq<Stack>): seq<Stack> {
    if work == [] then complete else After(work[1..], Kept(work[0], complete))
  }

  predicate AffordsOne(w: Work, complete: seq<Stack>, left: int) {
    match w
    case Visit => left >= 1
    case Output(stack) => |stack| <= STACK_RESERVE && left >= 1 + |stack| && (stack in complete || |complete| != MAX_BRANCHES)
    case Stuck => false
  }

  predicate Affords(work: seq<Work>, complete: seq<Stack>, left: int) {
    work == [] || (AffordsOne(work[0], complete, left) && Affords(work[1..], Kept(work[0], complete), left - Price(work[0])))
  }

  /** The outcome of working through `work`: it went through just when the budgets cover it. */
  ghost predicate Ran(work: seq<Work>, before: seq<Stack>, left0: nat, ok: bool, after: seq<Stack>, left: nat) {
    (ok <==> Affords(work, before, left0)) && (ok ==> left == left0 - Cost(work) && after == After(work, before))
  }

  lemma RanNothing(complete: seq<Stack>, left: nat)
    ensures Ran([], complete, left, true, complete, left)
  {
  }

  lemma RanOne(w: Work, before: seq<Stack>, left0: nat, ok: bool, after: seq<Stack>, left: nat)
    requires ok <==> AffordsOne(w, before, left0)
    requires ok ==> left == left0 - Price(w) && after == Kept(w, before)
    ensures Ran([w], before, left0, ok, after, left)
  {
    var one := [w];
    assert one[1..] == [];
  }

  /** Affordable work keeps each output once, and at most as many as there are branches. */
  lemma {:induction false} AfterDistinct(work: seq<Work>, complete: seq<Stack>, left: int)
    requires Affords(work, complete, left) && Distinct(complete) && |complete| <= MAX_BRANCHES
    ensures Distinct(After(work, complete)) && |After(work, complete)| <= MAX_BRANCHES
    decreases |work|
  {
    if work != [] {
      AfterDistinct(work[1..], Kept(work[0], complete), left - Price(work[0]));
    }
  }

  lemma {:induction false} AffordsConcat(a: seq<Work>, b: seq<Work>, complete: seq<Stack>, left: int)
    ensures Cost(a + b) == Cost(a) + Cost(b)
    ensures After(a + b, complete) == After(b, After(a, complete))
    ensures Affords(a + b, complete, left) <==> Affords(a, complete, left) && Affords(b, After(a, complete), left - Cost(a))
    decreases |a|
  {
    if a == [] {
      assert a + b == b;
    } else {
      AffordsConcat(a[1..], b, Kept(a[0], complete), left - Price(a[0]));
      assert (a + b)[1..] == a[1..] + b;
    }
  }

  lemma RanThen(a: seq<Work>, b: seq<Work>, c0: seq<Stack>, l0: nat, c1: seq<Stack>, l1: nat, ok: bool, c2: seq<Stack>, l2: nat)
    requires Ran(a, c0, l0, true, c1, l1) && Ran(b, c1, l1, ok, c2, l2)
    ensures Ran(a + b, c0, l0, ok, c2, l2)
  {
    AffordsConcat(a, b, c0, l0);
  }

  lemma DeclinedEarly(a: seq<Work>, b: seq<Work>, before: seq<Stack>, left0: nat, after: seq<Stack>, left: nat)
    requires Ran(a, before, left0, false, after, left)
    ensures Ran(a + b, before, left0, false, after, left)
  {
    AffordsConcat(a, b, before, left0);
  }

  /** One more part of the work: it goes on, or it stops there, or it was the last part. */
  lemma Onward(done: seq<Work>, here: seq<Work>, rest: seq<Work>, c0: seq<Stack>, l0: nat, c1: seq<Stack>, l1: nat, ok: bool, c2: seq<Stack>, l2: nat)
    requires Ran(done, c0, l0, true, c1, l1) && Ran(here, c1, l1, ok, c2, l2)
    ensures done + here + rest == done + (here + rest)
    ensures ok ==> Ran(done + here, c0, l0, true, c2, l2)
    ensures !ok || rest == [] ==> Ran(done + (here + rest), c0, l0, ok, c2, l2)
  {
    Regroup(done, here, rest);
    RanThen(done, here, c0, l0, c1, l1, ok, c2, l2);
    if !ok {
      DeclinedEarly(done + here, rest, c0, l0, c2, l2);
    } else if rest == [] {
      assert here + rest == here;
    }
  }

  // ----- The order of the work does not matter -----

  ghost function Outputs(work: seq<Work>): set<Stack> {
    set w | w in work && w.Output? :: w.stack
  }

  /** Nothing stops the evaluator, every output is short enough, and the totals are within the budgets. */
  ghost predicate WithinBudgets(work: seq<Work>, left: int) {
    && Stuck !in work
    && (forall stack :: stack in Outputs(work) ==> |stack| <= 64)
    && Cost(work) <= left && |Outputs(work)| <= 16
  }

  lemma KeptDistinct(w: Work, complete: seq<Stack>)
    requires Distinct(complete)
    ensures Distinct(Kept(w, complete)) && Elements(Kept(w, complete)) == Elements(complete) + Outputs([w])
  {
    if w.Output? {
      assert Outputs([w]) == {w.stack};
      assert w.stack !in complete ==> Elements(complete + [w.stack]) == Elements(complete) + {w.stack};
      assert w.stack in complete ==> Elements(complete) + {w.stack} == Elements(complete);
    } else {
      assert Outputs([w]) == {};
    }
  }

  lemma OutputsFirst(work: seq<Work>)
    requires work != []
    ensures Outputs(work) == Outputs([work[0]]) + Outputs(work[1..])
  {
    forall stack ensures stack in Outputs(work) <==> stack in Outputs([work[0]]) + Outputs(work[1..]) {
      assert stack in Outputs(work) <==> Output(stack) in work;
      assert Output(stack) in work <==> Output(stack) == work[0] || Output(stack) in work[1..];
    }
  }

  ghost predicate Covered(work: seq<Work>, complete: seq<Stack>, left: int) {
    && Stuck !in work
    && (forall stack :: stack in Outputs(work) ==> |stack| <= STACK_RESERVE)
    && Cost(work) <= left && |Elements(complete) + Outputs(work)| <= MAX_BRANCHES
  }

  /** The first unit is affordable when all of the work is covered, and then the rest is covered too. */
  lemma FirstCovered(work: seq<Work>, complete: seq<Stack>, left: nat)
    requires work != [] && Distinct(complete) && |complete| <= MAX_BRANCHES
    ensures Covered(work, complete, left) <==>
              AffordsOne(work[0], complete, left) && Covered(work[1..], Kept(work[0], complete), left - Price(work[0]))
  {
    var w, rest, kept := work[0], work[1..], Kept(work[0], complete);
    KeptDistinct(w, complete);
    DistinctSize(complete, Elements(complete));
    DistinctSize(kept, Elements(kept));
    OutputsFirst(work);
    assert Elements(kept) + Outputs(rest) == Elements(complete) + Outputs(work);
    SubsetSize(Elements(kept), Elements(kept) + Outputs(rest));
    assert Stuck in work <==> w == Stuck || Stuck in rest;
  }

  lemma KeptFits(w: Work, complete: seq<Stack>, left: nat)
    requires Distinct(complete) && |complete| <= MAX_BRANCHES && AffordsOne(w, complete, left)
    ensures Distinct(Kept(w, complete)) && |Kept(w, complete)| <= MAX_BRANCHES && Price(w) <= left
  {
  }

  lemma {:induction false} AffordsExactly(work: seq<Work>, complete: seq<Stack>, left: nat)
    requires Distinct(complete) && |complete| <= MAX_BRANCHES
    ensures Affords(work, complete, left) <==> Covered(work, complete, left)
    decreases |work|
  {
    if work == [] {
      NothingToDo(complete, left);
    } else {
      FirstCovered(work, complete, left);
      if AffordsOne(work[0], complete, left) {
        KeptFits(work[0], complete, left);
        AffordsExactly(work[1..], Kept(work[0], complete), left - Price(work[0]));
      }
    }
  }

  lemma NothingToDo(complete: seq<Stack>, left: nat)
    requires Distinct(complete) && |complete| <= MAX_BRANCHES
    ensures Covered([], complete, left)
  {
    DistinctSize(complete, Elements(complete));
    assert Elements(complete) + Outputs([]) == Elements(complete);
  }

  /** Starting with nothing, the evaluator gets through just when the whole work is within the budgets. */
  lemma AffordsWithinBudgets(work: seq<Work>, left: nat)
    ensures Affords(work, [], left) <==> WithinBudgets(work, left)
  {
    var none: seq<Stack> := [];
    assert Elements(none) == {};
    assert Elements(none) + Outputs(work) == Outputs(work);
    AffordsExactly(work, [], left);
  }
}
