/** The bounded evaluator on one concrete stack: the whole relation, or it declines and leaves nothing behind. */
module FlatTemplates {
  import opened Wrappers
  import opened Collections
  import opened Reachability
  import opened StackMachine
  import opened WorkBudgets

  /** A program with, for some PUSH entry states, the list of words that PUSH can append from there. */
  datatype FastTemplate = FastTemplate(machine: Machine, pushSuffixes: seq<Option<seq<Stack>>>)

  /** PUSH can append `word` from `state` and accept. */
  ghost predicate Appends(push: Phase, state: nat, word: Stack)
    decreases |word|
  {
    state < |push.rows| &&
    if word == [] then push.rows[state].accepting
    else word[0] in push.rows[state].edges && Appends(push, push.rows[state].edges[word[0]], word[1..])
  }

  ghost predicate Exact(t: FastTemplate) {
    forall entry :: 0 <= entry < |t.pushSuffixes| && t.pushSuffixes[entry].Some? ==>
      forall word :: word in t.pushSuffixes[entry].value <==> Appends(t.machine.push, entry, word)
  }

  // ----- What PUSH emits -----

  lemma {:induction false} AppendsEmits(m: Machine, state: nat, base: Stack, word: Stack)
    requires Appends(m.push, state, word)
    ensures EmitsFrom(m, Config(Push, state, base), base + word)
    decreases |word|
  {
    var c := Config(Push, state, base);
    EmitsUnfold(m, c, base + word);
    if word == [] {
      assert base + word == base;
    } else {
      var next := m.push.rows[state].edges[word[0]];
      AppendsEmits(m, next, base + [word[0]], word[1..]);
      assert base + [word[0]] + word[1..] == base + word;
      assert Config(Push, next, base + [word[0]]) in Steps(m, c);
    }
  }

  lemma PushStep(m: Machine, state: nat, base: Stack, e: Config) returns (x: nat)
    requires e in StepsOf(m)(Config(Push, state, base))
    ensures state < |m.push.rows| && x in m.push.rows[state].edges
    ensures e == Config(Push, m.push.rows[state].edges[x], base + [x])
  {
    x :| x in m.push.rows[state].edges && e == Config(Push, m.push.rows[state].edges[x], base + [x]);
  }

  lemma AppendsCons(push: Phase, state: nat, x: nat, rest: Stack)
    requires state < |push.rows| && x in push.rows[state].edges && Appends(push, push.rows[state].edges[x], rest)
    ensures Appends(push, state, [x] + rest)
  {
    assert ([x] + rest)[1..] == rest;
  }

  lemma FirstPushStep(m: Machine, state: nat, base: Stack, d: Config, n: nat) returns (x: nat)
    requires n > 0 && Reaches(m, Config(Push, state, base), d, n)
    ensures state < |m.push.rows| && x in m.push.rows[state].edges
    ensures Reaches(m, Config(Push, m.push.rows[state].edges[x], base + [x]), d, n - 1)
  {
    var e :| e in StepsOf(m)(Config(Push, state, base)) && Reach(StepsOf(m), e, d, n - 1);
    x := PushStep(m, state, base, e);
  }

  lemma {:induction false} EmitsAppends(m: Machine, state: nat, base: Stack, d: Config, n: nat) returns (word: Stack)
    requires Reaches(m, Config(Push, state, base), d, n) && Accepting(m, d)
    ensures Appends(m.push, state, word) && d.stack == base + word
    decreases n
  {
    if n == 0 {
      word := [];
    } else {
      var x := FirstPushStep(m, state, base, d, n);
      var rest := EmitsAppends(m, m.push.rows[state].edges[x], base + [x], d, n - 1);
      word := [x] + rest;
      AppendsCons(m.push, state, x, rest);
      assert d.stack == base + [x] + rest == base + word;
    }
  }

  lemma PushEmits(m: Machine, state: nat, base: Stack, out: Stack)
    ensures EmitsFrom(m, Config(Push, state, base), out) <==> exists word :: Appends(m.push, state, word) && out == base + word
  {
    if EmitsFrom(m, Config(Push, state, base), out) {
      var n: nat, d :| Reaches(m, Config(Push, state, base), d, n) && Accepting(m, d) && d.stack == out;
      var word := EmitsAppends(m, state, base, d, n);
    }
    if word :| Appends(m.push, state, word) && out == base + word {
      AppendsEmits(m, state, base, word);
    }
  }

  // ----- Scratch output -----

  class Scratch {
    var complete: seq<Stack>

    constructor ()
      ensures complete == []
    {
      complete := [];
    }

    method Clear()
      modifies this
      ensures complete == []
    {
      complete := [];
    }

    /** Deduplicating push into a buffer that never spills. */
    method PushComplete(stack: Stack) returns (ok: bool)
      modifies this
      ensures ok <==> stack in old(complete) || |old(complete)| != 16
      ensures complete == if ok && stack !in old(complete) then old(complete) + [stack] else old(complete)
    {
      if stack in complete {
        return true;
      }
      if |complete| == MAX_BRANCHES {
        return false;
      }
      complete := complete + [stack];
      ok := true;
    }
  }

  // ----- The work along the route -----

  predicate PopContinues(m: Machine, state: nat, base: Stack) {
    state < |m.pop.rows| && base != [] && PopTarget(m.pop.rows[state], Top(base)).Some?
  }

  predicate ReadContinues(m: Machine, state: nat, base: Stack) {
    state < |m.read.rows| && base != [] && Top(base) in m.read.rows[state].edges
  }

  function WordOutputs(base: Stack, words: seq<Stack>): seq<Work> {
    if words == [] then [] else WordOutputs(base, words[..|words| - 1]) + [Output(base + words[|words| - 1])]
  }

  /** An unprepared list is not an empty one: the evaluator gives up. */
  function PushWork(t: FastTemplate, entry: nat, base: Stack): seq<Work> {
    if entry >= |t.pushSuffixes| || t.pushSuffixes[entry].None? then [Stuck]
    else WordOutputs(base, t.pushSuffixes[entry].value)
  }

  function LinkedPushWork(t: FastTemplate, links: seq<Option<nat>>, state: nat, base: Stack): seq<Work> {
    match Link(links, state) case None => [] case Some(push) => PushWork(t, push, base)
  }

  function AcceptWork(row: Row, base: Stack): seq<Work> {
    if row.accepting then [Output(base)] else []
  }

  function ReadVisitWork(t: FastTemplate, state: nat, base: Stack): seq<Work> {
    var rows := t.machine.read.rows;
    if state >= |rows| || rows[state].fallback.Some? then [Visit, Stuck]
    else [Visit] + AcceptWork(rows[state], base) + LinkedPushWork(t, t.machine.readToPush, state, base)
  }

  /** READ work over at most `visits` states; a route that is longer exceeds every budget. */
  function ReadWork(t: FastTemplate, state: nat, base: Stack, visits: nat): seq<Work>
    decreases visits, 1
  {
    if visits == 0 then [Stuck] else ReadVisitWork(t, state, base) + ReadRest(t, state, base, visits - 1)
  }

  function ReadRest(t: FastTemplate, state: nat, base: Stack, visits: nat): seq<Work>
    decreases visits, 2
  {
    if ReadContinues(t.machine, state, base) then ReadWork(t, t.machine.read.rows[state].edges[Top(base)], base, visits) else []
  }

  function LinkedReadWork(t: FastTemplate, state: nat, base: Stack): seq<Work> {
    match Link(t.machine.popToRead, state) case None => [] case Some(read) => ReadWork(t, read, base, MAX_STEPS)
  }

  function PopVisitWork(t: FastTemplate, state: nat, base: Stack): seq<Work> {
    var rows := t.machine.pop.rows;
    if state >= |rows| then [Visit, Stuck]
    else
      [Visit] + AcceptWork(rows[state], base) + LinkedPushWork(t, t.machine.popToPush, state, base)
      + LinkedReadWork(t, state, base)
  }

  /** All work on a stack: visits, outputs and dead ends, in the order of the route. */
  function PopWork(t: FastTemplate, state: nat, base: Stack): seq<Work>
    decreases |base|, 1
  {
    PopVisitWork(t, state, base) + PopRest(t, state, base)
  }

  function PopRest(t: FastTemplate, state: nat, base: Stack): seq<Work>
    decreases |base|, 0
  {
    if PopContinues(t.machine, state, base) then PopWork(t, PopTarget(t.machine.pop.rows[state], Top(base)).value, Rest(base)) else []
  }

  lemma NoVisitLeft(rest: seq<Work>, complete: seq<Stack>)
    ensures !Affords([Visit] + rest, complete, 0)
  {
  }

  method Emit(base: Stack, suffix: Stack, scratch: Scratch, left0: nat) returns (ok: bool, left: nat)
    modifies scratch
    ensures left <= left0
    ensures Ran([Output(base + suffix)], old(scratch.complete), left0, ok, scratch.complete, left)
    ensures ok ==> forall out :: out in scratch.complete <==> out in old(scratch.complete) || out == base + suffix
  {
    left := left0;
    ok := false;
    var len := |base| + |suffix|;
    if len <= STACK_RESERVE && left >= 1 + len {
      left := left - (1 + len);
      ok := scratch.PushComplete(base + suffix);
    }
    RanOne(Output(base + suffix), old(scratch.complete), left0, ok, scratch.complete, left);
  }

  /** A base is an output where its state accepts. */
  method EmitAccepted(row: Row, base: Stack, scratch: Scratch, left0: nat) returns (ok: bool, left: nat)
    modifies scratch
    ensures left <= left0
    ensures Ran(AcceptWork(row, base), old(scratch.complete), left0, ok, scratch.complete, left)
    ensures ok ==> forall out :: out in scratch.complete <==> out in old(scratch.complete) || (row.accepting && out == base)
  {
    ok, left := true, left0;
    RanNothing(scratch.complete, left);
    if row.accepting {
      assert base + [] == base;
      ok, left := Emit(base, [], scratch, left);
    }
  }

  method PushOutputs(t: FastTemplate, entry: nat, base: Stack, scratch: Scratch, left0: nat) returns (ok: bool, left: nat)
    requires Exact(t)
    modifies scratch
    ensures left <= left0
    ensures Ran(PushWork(t, entry, base), old(scratch.complete), left0, ok, scratch.complete, left)
    ensures ok ==> forall out :: out in scratch.complete <==> out in old(scratch.complete) || EmitsFrom(t.machine, Config(Push, entry, base), out)
  {
    left := left0;
    if entry >= |t.pushSuffixes| || t.pushSuffixes[entry].None? {
      return false, left;
    }
    var words := t.pushSuffixes[entry].value;
    ok, left := EmitWords(base, words, scratch, left);
    forall out
      ensures EmitsFrom(t.machine, Config(Push, entry, base), out) <==> exists k :: 0 <= k < |words| && out == base + words[k]
    {
      PushEmits(t.machine, entry, base, out);
      if word :| Appends(t.machine.push, entry, word) && out == base + word {
        assert word in words;
      }
    }
  }

  method EmitWords(base: Stack, words: seq<Stack>, scratch: Scratch, left0: nat) returns (ok: bool, left: nat)
    modifies scratch
    ensures left <= left0
    ensures Ran(WordOutputs(base, words), old(scratch.complete), left0, ok, scratch.complete, left)
    ensures ok ==> forall out :: out in scratch.complete <==> out in old(scratch.complete) || exists k :: 0 <= k < |words| && out == base + words[k]
  {
    left := left0;
    ghost var before := scratch.complete;
    assert words[..0] == [];
    for i := 0 to |words|
      invariant left <= left0
      invariant Ran(WordOutputs(base, words[..i]), before, left0, true, scratch.complete, left)
      invariant forall out :: out in scratch.complete <==> out in before || exists k :: 0 <= k < i && out == base + words[k]
    {
      ghost var complete1, left1 := scratch.complete, left;
      ok, left := Emit(base, words[i], scratch, left);
      OneMoreWord(base, words, i, before, left0, complete1, left1, ok, scratch.complete, left);
      if !ok {
        return;
      }
    }
    ok := true;
    assert words[..|words|] == words;
  }

  lemma {:induction false} WordsConcat(base: Stack, a: seq<Stack>, b: seq<Stack>)
    ensures WordOutputs(base, a + b) == WordOutputs(base, a) + WordOutputs(base, b)
    decreases |b|
  {
    if b == [] {
      assert a + b == a;
    } else {
      WordsConcat(base, a, b[..|b| - 1]);
      assert (a + b)[..|a + b| - 1] == a + b[..|b| - 1];
    }
  }

  lemma OneMoreWord(base: Stack, words: seq<Stack>, i: nat, before: seq<Stack>, left0: nat, c1: seq<Stack>, l1: nat, ok: bool, c2: seq<Stack>, l2: nat)
    requires i < |words| && Ran(WordOutputs(base, words[..i]), before, left0, true, c1, l1)
    requires Ran([Output(base + words[i])], c1, l1, ok, c2, l2)
    ensures Ran(WordOutputs(base, words[..i + 1]), before, left0, ok, c2, l2)
    ensures !ok ==> Ran(WordOutputs(base, words), before, left0, false, c2, l2)
  {
    var next := words[..i + 1];
    assert next[..i] == words[..i] && next[i] == words[i];
    RanThen(WordOutputs(base, words[..i]), [Output(base + words[i])], before, left0, c1, l1, ok, c2, l2);
    if !ok {
      WordsConcat(base, next, words[i + 1..]);
      assert next + words[i + 1..] == words;
      DeclinedEarly(WordOutputs(base, next), WordOutputs(base, words[i + 1..]), before, left0, c2, l2);
    }
  }

  /** A link's PUSH outputs, where there is a link. */
  method LinkedPush(t: FastTemplate, links: seq<Option<nat>>, state: nat, base: Stack, scratch: Scratch, left0: nat) returns (ok: bool, left: nat)
    requires Exact(t)
    modifies scratch
    ensures left <= left0
    ensures Ran(LinkedPushWork(t, links, state, base), old(scratch.complete), left0, ok, scratch.complete, left)
    ensures ok ==> forall out :: out in scratch.complete <==> out in old(scratch.complete) || EmitsLinked(t.machine, links, state, base, out)
  {
    ok, left := true, left0;
    RanNothing(scratch.complete, left);
    var link := Link(links, state);
    if link.Some? {
      ok, left := PushOutputs(t, link.value, base, scratch, left);
    }
  }

  ghost predicate EmitsLinked(m: Machine, links: seq<Option<nat>>, state: nat, base: Stack, out: Stack) {
    Link(links, state).Some? && EmitsFrom(m, Config(Push, Link(links, state).value, base), out)
  }

  /** Charge one visit. */
  method Charge(complete: seq<Stack>, left0: nat) returns (ok: bool, left: nat)
    ensures left <= left0 && Ran([Visit], complete, left0, ok, complete, left)
    ensures ok <==> left0 >= 1
  {
    ok := left0 >= 1;
    left := if ok then left0 - 1 else left0;
    RanOne(Visit, complete, left0, ok, complete, left);
  }

  // ----- The READ route -----

  /** What a READ state contributes besides its continuation along the route. */
  ghost predicate EmitsAtRead(m: Machine, state: nat, base: Stack, out: Stack) {
    (Accepting(m, Config(Read, state, base)) && out == base) || EmitsLinked(m, m.readToPush, state, base, out)
  }

  lemma ReadRoute(m: Machine, state: nat, base: Stack)
    requires state < |m.read.rows|
    ensures forall out :: EmitsFrom(m, Config(Read, state, base), out) <==>
              EmitsAtRead(m, state, base, out)
              || (ReadContinues(m, state, base) && EmitsFrom(m, Config(Read, m.read.rows[state].edges[Top(base)], base), out))
  {
    forall out
      ensures EmitsFrom(m, Config(Read, state, base), out) <==>
              EmitsAtRead(m, state, base, out)
              || (ReadContinues(m, state, base) && EmitsFrom(m, Config(Read, m.read.rows[state].edges[Top(base)], base), out))
    {
      EmitsUnfold(m, Config(Read, state, base), out);
    }
  }

  /** One turn of the READ loop, up to the choice of the next state. */
  method ReadVisit(t: FastTemplate, state: nat, base: Stack, scratch: Scratch, left0: nat) returns (ok: bool, left: nat)
    requires Exact(t)
    modifies scratch
    ensures Ran(ReadVisitWork(t, state, base), old(scratch.complete), left0, ok, scratch.complete, left)
    ensures left <= left0 && (ok ==> left < left0 && state < |t.machine.read.rows|)
    ensures ok ==> forall out :: out in scratch.complete <==> out in old(scratch.complete) || EmitsAtRead(t.machine, state, base, out)
  {
    ghost var c0 := scratch.complete;
    ok, left := Charge(scratch.complete, left0);
    if !ok || state >= |t.machine.read.rows| || t.machine.read.rows[state].fallback.Some? {
      StopsAtVisit(t, ReadVisitWork(t, state, base), c0, left0, scratch.complete, left, ok);
      return false, left;
    }
    var row := t.machine.read.rows[state];
    ghost var l1 := left;
    ok, left := EmitAccepted(row, base, scratch, left);
    ghost var c2, l2 := scratch.complete, left;
    if ok {
      ok, left := LinkedPush(t, t.machine.readToPush, state, base, scratch, left);
      ThreeParts(AcceptWork(row, base), LinkedPushWork(t, t.machine.readToPush, state, base), c0, left0, l1, true, c2, l2, ok, scratch.complete, left);
    } else {
      ThreeParts(AcceptWork(row, base), LinkedPushWork(t, t.machine.readToPush, state, base), c0, left0, l1, false, c2, l2, false, scratch.complete, left);
    }
  }

  lemma StopsAtVisit(t: FastTemplate, work: seq<Work>, c0: seq<Stack>, left0: nat, c: seq<Stack>, left: nat, charged: bool)
    requires work != [] && work[0] == Visit && (charged ==> work == [Visit, Stuck])
    requires charged <==> left0 >= 1
    ensures Ran(work, c0, left0, false, c, left)
  {
    assert charged ==> work[1..] == [Stuck];
  }

  /** A visit, then what is accepted there, then what its link pushes. */
  lemma ThreeParts(accepts: seq<Work>, pushes: seq<Work>, c0: seq<Stack>, l0: nat, l1: nat, ok2: bool, c2: seq<Stack>, l2: nat, ok: bool, c3: seq<Stack>, l3: nat)
    requires Ran([Visit], c0, l0, true, c0, l1) && Ran(accepts, c0, l1, ok2, c2, l2)
    requires if ok2 then Ran(pushes, c2, l2, ok, c3, l3) else !ok
    ensures Ran([Visit] + accepts + pushes, c0, l0, ok, c3, l3)
  {
    RanThen([Visit], accepts, c0, l0, c0, l1, ok2, c2, l2);
    if ok2 {
      RanThen([Visit] + accepts, pushes, c0, l0, c2, l2, ok, c3, l3);
    } else {
      DeclinedEarly([Visit] + accepts, pushes, c0, l0, c3, l3);
    }
  }

  /** Where the READ loop is: some work was done, and what is left of it continues at `state`. */
  datatype Turn = Turn(state: nat, complete: seq<Stack>, left: nat)

  ghost predicate ReadDone(t: FastTemplate, entry: nat, base: Stack, start: Turn, now: Turn, done: seq<Work>, visits: nat) {
    && done + ReadWork(t, now.state, base, visits) == ReadWork(t, entry, base, MAX_STEPS)
    && Ran(done, start.complete, start.left, true, now.complete, now.left) && now.left <= visits
  }

  ghost predicate ReadProgress(t: FastTemplate, base: Stack, start: Turn, now: Turn) {
    exists done, visits: nat :: ReadDone(t, start.state, base, start, now, done, visits)
  }

  lemma ReadStart(t: FastTemplate, base: Stack, start: Turn)
    requires start.left <= MAX_STEPS
    ensures ReadProgress(t, base, start, start)
  {
    RanNothing(start.complete, start.left);
    assert [] + ReadWork(t, start.state, base, MAX_STEPS) == ReadWork(t, start.state, base, MAX_STEPS);
    assert ReadDone(t, start.state, base, start, start, [], MAX_STEPS);
  }

  /** A turn that went through makes progress or finishes; a turn that did not declines the whole READ work. */
  lemma ReadTurn(t: FastTemplate, base: Stack, start: Turn, now: Turn, ok: bool, complete: seq<Stack>, left: nat)
    requires ReadProgress(t, base, start, now)
    requires Ran(ReadVisitWork(t, now.state, base), now.complete, now.left, ok, complete, left) && (ok ==> left < now.left)
    ensures if ok && ReadContinues(t.machine, now.state, base) then
              ReadProgress(t, base, start, Turn(t.machine.read.rows[now.state].edges[Top(base)], complete, left))
            else Ran(ReadWork(t, start.state, base, MAX_STEPS), start.complete, start.left, ok, complete, left)
  {
    var done, visits: nat :| ReadDone(t, start.state, base, start, now, done, visits);
    var here := ReadVisitWork(t, now.state, base);
    if visits == 0 {
      assert here == [Visit] + here[1..];
      NoVisitLeft(here[1..], now.complete);
      RanOne(Stuck, now.complete, now.left, false, complete, left);
      RanThen(done, [Stuck], start.complete, start.left, now.complete, now.left, false, complete, left);
    } else {
      var rest := ReadRest(t, now.state, base, visits - 1);
      Onward(done, here, rest, start.complete, start.left, now.complete, now.left, ok, complete, left);
      if ok && ReadContinues(t.machine, now.state, base) {
        var next := Turn(t.machine.read.rows[now.state].edges[Top(base)], complete, left);
        assert ReadDone(t, start.state, base, start, next, done + here, visits - 1);
      }
    }
  }

  /** `before` and what `from` emits are in all what `complete` holds and what `now` emits. */
  ghost predicate Conserved(m: Machine, before: seq<Stack>, from: Config, complete: seq<Stack>, now: Config) {
    forall out :: out in before || EmitsFrom(m, from, out) <==> out in complete || EmitsFrom(m, now, out)
  }

  ghost predicate Holds(m: Machine, before: seq<Stack>, from: Config, complete: seq<Stack>) {
    forall out :: out in complete <==> out in before || EmitsFrom(m, from, out)
  }

  lemma ReadEmits(m: Machine, before: seq<Stack>, from: Config, c1: seq<Stack>, state: nat, base: Stack, c2: seq<Stack>)
    requires state < |m.read.rows| && Conserved(m, before, from, c1, Config(Read, state, base))
    requires forall out :: out in c2 <==> out in c1 || EmitsAtRead(m, state, base, out)
    ensures if ReadContinues(m, state, base) then Conserved(m, before, from, c2, Config(Read, m.read.rows[state].edges[Top(base)], base))
            else Holds(m, before, from, c2)
  {
    ReadRoute(m, state, base);
  }

  lemma NonemptyEmits(m: Machine, from: Config, complete: seq<Stack>)
    requires Holds(m, [], from, complete)
    ensures complete != [] <==> exists out :: EmitsFrom(m, from, out)
  {
    if complete != [] {
      assert complete[0] in complete;
    }
  }

  method ReadOutputs(t: FastTemplate, entry: nat, base: Stack, scratch: Scratch, left0: nat) returns (ok: bool, left: nat)
    requires Exact(t) && left0 <= MAX_STEPS
    modifies scratch
    ensures left <= left0
    ensures Ran(ReadWork(t, entry, base, MAX_STEPS), old(scratch.complete), left0, ok, scratch.complete, left)
    ensures ok ==> Holds(t.machine, old(scratch.complete), Config(Read, entry, base), scratch.complete)
  {
    var m := t.machine;
    var state: nat := entry;
    left := left0;
    ghost var start := Turn(entry, scratch.complete, left0);
    ReadStart(t, base, start);
    while true
      invariant left <= left0 && ReadProgress(t, base, start, Turn(state, scratch.complete, left))
      invariant Conserved(m, start.complete, Config(Read, entry, base), scratch.complete, Config(Read, state, base))
      decreases left
    {
      ghost var now := Turn(state, scratch.complete, left);
      ok, left := ReadVisit(t, state, base, scratch, left);
      ReadTurn(t, base, start, now, ok, scratch.complete, left);
      if !ok {
        return;
      }
      ReadEmits(m, start.complete, Config(Read, entry, base), now.complete, state, base, scratch.complete);
      if base == [] || Top(base) !in m.read.rows[state].edges {
        break;
      }
      state := m.read.rows[state].edges[Top(base)];
    }
    ok := true;
  }

  // ----- The POP route -----

  ghost predicate EmitsLinkedRead(m: Machine, state: nat, base: Stack, out: Stack) {
    Link(m.popToRead, state).Some? && EmitsFrom(m, Config(Read, Link(m.popToRead, state).value, base), out)
  }

  /** What a POP state contributes besides its continuation along the route. */
  ghost predicate EmitsAtPop(m: Machine, state: nat, base: Stack, out: Stack) {
    (Accepting(m, Config(Pop, state, base)) && out == base)
    || EmitsLinked(m, m.popToPush, state, base, out) || EmitsLinkedRead(m, state, base, out)
  }

  lemma PopRoute(m: Machine, state: nat, base: Stack)
    requires state < |m.pop.rows|
    ensures forall out :: EmitsFrom(m, Config(Pop, state, base), out) <==>
              EmitsAtPop(m, state, base, out)
              || (PopContinues(m, state, base) && EmitsFrom(m, Config(Pop, PopTarget(m.pop.rows[state], Top(base)).value, Rest(base)), out))
  {
    forall out
      ensures EmitsFrom(m, Config(Pop, state, base), out) <==>
              EmitsAtPop(m, state, base, out)
              || (PopContinues(m, state, base) && EmitsFrom(m, Config(Pop, PopTarget(m.pop.rows[state], Top(base)).value, Rest(base)), out))
    {
      EmitsUnfold(m, Config(Pop, state, base), out);
    }
  }

  method LinkedRead(t: FastTemplate, state: nat, base: Stack, scratch: Scratch, left0: nat) returns (ok: bool, left: nat)
    requires Exact(t) && left0 <= MAX_STEPS
    modifies scratch
    ensures left <= left0
    ensures Ran(LinkedReadWork(t, state, base), old(scratch.complete), left0, ok, scratch.complete, left)
    ensures ok ==> forall out :: out in scratch.complete <==> out in old(scratch.complete) || EmitsLinkedRead(t.machine, state, base, out)
  {
    ok, left := true, left0;
    RanNothing(scratch.complete, left);
    var read := Link(t.machine.popToRead, state);
    if read.Some? {
      ok, left := ReadOutputs(t, read.value, base, scratch, left);
    }
  }

  /** One turn of the POP loop, up to the choice of the next state. */
  method PopVisit(t: FastTemplate, state: nat, base: Stack, scratch: Scratch, left0: nat) returns (ok: bool, left: nat)
    requires Exact(t) && left0 <= MAX_STEPS
    modifies scratch
    ensures Ran(PopVisitWork(t, state, base), old(scratch.complete), left0, ok, scratch.complete, left)
    ensures left <= left0 && (ok ==> state < |t.machine.pop.rows|)
    ensures ok ==> forall out :: out in scratch.complete <==> out in old(scratch.complete) || EmitsAtPop(t.machine, state, base, out)
  {
    ghost var c0 := scratch.complete;
    ok, left := Charge(scratch.complete, left0);
    if !ok || state >= |t.machine.pop.rows| {
      StopsAtVisit(t, PopVisitWork(t, state, base), c0, left0, scratch.complete, left, ok);
      return false, left;
    }
    var row := t.machine.pop.rows[state];
    ghost var accepts, pushes, l1 := AcceptWork(row, base), LinkedPushWork(t, t.machine.popToPush, state, base), left;
    ok, left := EmitAccepted(row, base, scratch, left);
    ghost var ok2, c2, l2 := ok, scratch.complete, left;
    if ok {
      ok, left := LinkedPush(t, t.machine.popToPush, state, base, scratch, left);
    }
    ThreeParts(accepts, pushes, c0, left0, l1, ok2, c2, l2, ok, scratch.complete, left);
    ghost var c3, l3 := scratch.complete, left;
    if ok {
      ok, left := LinkedRead(t, state, base, scratch, left);
      RanThen([Visit] + accepts + pushes, LinkedReadWork(t, state, base), c0, left0, c3, l3, ok, scratch.complete, left);
    } else {
      DeclinedEarly([Visit] + accepts + pushes, LinkedReadWork(t, state, base), c0, left0, c3, l3);
    }
  }

  ghost predicate PopDone(t: FastTemplate, source: Stack, now: Turn, base: Stack, done: seq<Work>) {
    && done + PopWork(t, now.state, base) == PopWork(t, t.machine.pop.start, source)
    && Ran(done, [], MAX_STEPS, true, now.complete, now.left)
  }

  ghost predicate PopProgress(t: FastTemplate, source: Stack, now: Turn, base: Stack) {
    exists done :: PopDone(t, source, now, base, done)
  }

  lemma PopStart(t: FastTemplate, source: Stack)
    ensures PopProgress(t, source, Turn(t.machine.pop.start, [], MAX_STEPS), source)
  {
    RanNothing([], MAX_STEPS);
    assert [] + PopWork(t, t.machine.pop.start, source) == PopWork(t, t.machine.pop.start, source);
    assert PopDone(t, source, Turn(t.machine.pop.start, [], MAX_STEPS), source, []);
  }

  lemma PopTurn(t: FastTemplate, source: Stack, now: Turn, base: Stack, ok: bool, complete: seq<Stack>, left: nat)
    requires PopProgress(t, source, now, base)
    requires Ran(PopVisitWork(t, now.state, base), now.complete, now.left, ok, complete, left)
    ensures if ok && PopContinues(t.machine, now.state, base) then
              PopProgress(t, source, Turn(PopTarget(t.machine.pop.rows[now.state], Top(base)).value, complete, left), Rest(base))
            else
              && (ok <==> Affords(PopWork(t, t.machine.pop.start, source), [], MAX_STEPS))
              && (ok ==> Distinct(complete) && |complete| <= MAX_BRANCHES)
  {
    var done :| PopDone(t, source, now, base, done);
    var here := PopVisitWork(t, now.state, base);
    var rest := PopRest(t, now.state, base);
    Onward(done, here, rest, [], MAX_STEPS, now.complete, now.left, ok, complete, left);
    if ok && PopContinues(t.machine, now.state, base) {
      var next := Turn(PopTarget(t.machine.pop.rows[now.state], Top(base)).value, complete, left);
      assert PopDone(t, source, next, Rest(base), done + here);
    } else if ok {
      AfterDistinct(PopWork(t, t.machine.pop.start, source), [], MAX_STEPS);
    }
  }

  lemma PopEmits(m: Machine, before: seq<Stack>, from: Config, c1: seq<Stack>, state: nat, base: Stack, c2: seq<Stack>)
    requires state < |m.pop.rows| && Conserved(m, before, from, c1, Config(Pop, state, base))
    requires forall out :: out in c2 <==> out in c1 || EmitsAtPop(m, state, base, out)
    ensures if PopContinues(m, state, base) then Conserved(m, before, from, c2, Config(Pop, PopTarget(m.pop.rows[state], Top(base)).value, Rest(base)))
            else Holds(m, before, from, c2)
  {
    PopRoute(m, state, base);
  }

  lemma RestOfPrefix(source: Stack, keep: nat)
    requires 0 < keep <= |source|
    ensures Rest(source[..keep]) == source[..keep - 1]
  {
  }

  /** What the fast evaluator can answer: the stack is short enough and the work on it is within the budgets. */
  ghost predicate WithinReach(t: FastTemplate, source: Stack) {
    |source| <= 64 && WithinBudgets(PopWork(t, t.machine.pop.start, source), 256)
  }

  /** `Some(b)` means that the scratch holds exactly the relation's stacks, and `b` that there is one. */
  method Evaluate(t: FastTemplate, source: Stack, scratch: Scratch) returns (r: Option<bool>)
    requires Exact(t) && scratch.complete == []
    modifies scratch
    ensures r.Some? <==> WithinReach(t, source)
    ensures r.Some? ==> forall out :: out in scratch.complete <==> Emits(t.machine, source, out)
    ensures r.Some? ==> (r.value <==> exists out :: Emits(t.machine, source, out))
    ensures r.Some? ==> Distinct(scratch.complete) && |scratch.complete| <= 16
  {
    if |source| > STACK_RESERVE {
      return None;
    }
    var m := t.machine;
    var left: nat := MAX_STEPS;
    var keep := |source|;
    var state: nat := m.pop.start;
    AffordsWithinBudgets(PopWork(t, m.pop.start, source), MAX_STEPS);
    PopStart(t, source);
    assert source[..keep] == source;
    while true
      invariant 0 <= keep <= |source| && left <= MAX_STEPS
      invariant PopProgress(t, source, Turn(state, scratch.complete, left), source[..keep])
      invariant Conserved(m, [], Start(m, source), scratch.complete, Config(Pop, state, source[..keep]))
      decreases keep
    {
      var base := source[..keep];
      ghost var now := Turn(state, scratch.complete, left);
      var ok;
      ok, left := PopVisit(t, state, base, scratch, left);
      PopTurn(t, source, now, base, ok, scratch.complete, left);
      if !ok {
        return None;
      }
      PopEmits(m, [], Start(m, source), now.complete, state, base, scratch.complete);
      if base == [] {
        break;
      }
      var next := PopTarget(m.pop.rows[state], Top(base));
      if next.None? {
        break;
      }
      RestOfPrefix(source, keep);
      state := next.value;
      keep := keep - 1;
    }
    NonemptyEmits(m, Start(m, source), scratch.complete);
    r := Some(scratch.complete != []);
  }

  /** A decline leaves the scratch empty, for the general evaluator to run the complete relation. */
  method ApplyFlat(t: FastTemplate, source: Stack, scratch: Scratch) returns (r: Option<bool>)
    requires Exact(t)
    modifies scratch
    ensures r.Some? <==> WithinReach(t, source)
    ensures r.Some? ==> forall out :: out in scratch.complete <==> Emits(t.machine, source, out)
    ensures r.Some? ==> (r.value <==> exists out :: Emits(t.machine, source, out))
    ensures r.Some? ==> Distinct(scratch.complete) && |scratch.complete| <= 16
    ensures r.None? ==> scratch.complete == []
  {
    scratch.Clear();
    r := Evaluate(t, source, scratch);
    if r.None? {
      scratch.Clear();
    }
  }
}
