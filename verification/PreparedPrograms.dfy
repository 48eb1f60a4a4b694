/** From a provider's template to the fast evaluator: conversion, preparation, and evaluation on a stack. */
module PreparedPrograms {
  import opened Wrappers
  import opened Collections
  import opened StackMachine
  import opened StackTemplates
  import opened TemplateConversion
  import opened WorkBudgets
  import opened FlatTemplates
  import opened PushSuffixes

  /** Every template that conversion accepts is one whose PUSH words can be prepared. */
  lemma AcceptedIsPreparable(t: StackTemplate, symbols: nat)
    requires symbols < DEFAULT_LABEL && WellFormedTemplate(t, symbols)
    ensures Preparable(View(t))
  {
    var m := View(t);
    PhaseIsValid(t.push, Push, symbols);
    forall i | 0 <= i < |m.push.rows|
      ensures m.push.rows[i].fallback.None? && forall x :: x in m.push.rows[i].edges ==> m.push.rows[i].edges[x] < |m.push.rows|
    {
      PushRowIsLegal(t.push, symbols, i);
    }
    forall state: nat | IsEntry(m, state) ensures state < |m.push.rows| {
      if s: nat :| Link(m.popToPush, s) == Some(state) {
        assert t.popToPush[s].value < |t.push.states|;
      } else {
        var s: nat :| Link(m.readToPush, s) == Some(state);
        assert t.readToPush[s].value < |t.push.states|;
      }
    }
  }

  lemma PushRowIsLegal(push: StackDfa, symbols: nat, i: nat)
    requires WellFormed(push, Push, symbols) && i < |push.states|
    ensures var row := RowOf(push.states[i]);
            row.fallback.None? && forall x :: x in row.edges ==> row.edges[x] < |push.states|
  {
    var ts := push.states[i].transitions;
    WellFormedStates(push, Push, symbols);
    assert LegalState(push.states[i], |push.states|, Push, symbols);
    EdgesOfLabels(ts);
    forall x | x in EdgesOf(ts) ensures EdgesOf(ts)[x] < |push.states| {
      var k :| 0 <= k < |ts| && ts[k].on == Sym(x);
    }
  }

  /** Prepare a program's word lists and evaluate it on a stack. */
  method PrepareAndApply(m: Machine, source: Stack, scratch: Scratch) returns (r: Option<bool>)
    modifies scratch
    ensures r.Some? ==> forall out :: out in scratch.complete <==> Emits(m, source, out)
    ensures r.Some? ==> (r.value <==> exists out :: Emits(m, source, out))
    ensures r.Some? ==> Distinct(scratch.complete) && |source| <= 64 && |scratch.complete| <= 16
    ensures r.None? ==> scratch.complete == []
  {
    var plans := Prepare(m);
    r := ApplyFlat(FastTemplate(m, plans), source, scratch);
  }

  /** What the fast evaluator answers for a template that converted is the template's relation on that stack. */
  method ConvertAndApply(t: StackTemplate, symbols: nat, budget: Budget, source: Stack, scratch: Scratch) returns (r: Option<bool>)
    requires symbols < DEFAULT_LABEL
    modifies budget, scratch
    ensures r.Some? ==> WellFormedTemplate(t, symbols) && Distinct(scratch.complete) && |source| <= 64 && |scratch.complete| <= 16
    ensures r.Some? ==> forall out :: out in scratch.complete <==> Emits(View(t), source, out)
    ensures r.Some? ==> (r.value <==> exists out :: Emits(View(t), source, out))
  {
    var converted := Convert(t, symbols, budget);
    if converted.Failure? {
      return None;
    }
    r := PrepareAndApply(FastMachine(converted.value, symbols), source, scratch);
  }

  // ----- The identity terminal is always answered -----

  lemma IdentityWork(t: FastTemplate, source: Stack)
    requires t.machine == View(IdentityTemplate())
    ensures PopWork(t, t.machine.pop.start, source) == [Visit, Output(source)]
  {
    var m := t.machine;
    assert m.pop.rows[0] == Row(true, map[], None);
    assert PopRest(t, 0, source) == [];
    assert LinkedPushWork(t, m.popToPush, 0, source) == [] && LinkedReadWork(t, 0, source) == [];
    assert PopVisitWork(t, 0, source) == [Visit] + [Output(source)] + [] + [];
  }

  /** On every stack of at most 64 symbols, and on no longer one, the identity terminal is answered: with that stack. */
  method ApplyIdentity(source: Stack, scratch: Scratch) returns (r: Option<bool>)
    modifies scratch
    ensures r == if |source| <= 64 then Some(true) else None
    ensures scratch.complete == if |source| <= 64 then [source] else []
  {
    var m := View(IdentityTemplate());
    var plans := Prepare(m);
    var fast := FastTemplate(m, plans);
    r := ApplyFlat(fast, source, scratch);
    IdentityWork(fast, source);
    IdentityReach(source);
    forall out ensures Emits(m, source, out) <==> out == source {
      IdentityEmitsItself(source, out);
    }
    assert Emits(m, source, source);
    if r.Some? {
      OneElement(scratch.complete, source);
    }
  }

  lemma OneElement(list: seq<Stack>, x: Stack)
    requires Distinct(list) && forall y :: y in list <==> y == x
    ensures list == [x]
  {
    DistinctSize(list, {x});
    assert list[0] in list;
  }

  lemma IdentityReach(source: Stack)
    ensures WithinBudgets([Visit, Output(source)], 256) <==> |source| <= 64
  {
    var work := [Visit, Output(source)];
    assert work[1..] == [Output(source)] && work[1..][1..] == [];
    assert Cost(work[1..]) == Price(work[1..][0]) + Cost(work[1..][1..]);
    assert Cost(work) == Price(work[0]) + Cost(work[1..]);
    assert Output(source) in work && source in Outputs(work);
    assert Outputs(work) == {source};
  }
}
