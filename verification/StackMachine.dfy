/** Executing a POP/READ/PUSH program on a concrete stack, bottom first. */
module StackMachine {
  import opened Wrappers
  import opened Graphs
  import opened Reachability

  datatype Row = Row(accepting: bool, edges: map<nat, nat>, fallback: Option<nat>)

  datatype Phase = Phase(start: nat, rows: seq<Row>)

  datatype Machine = Machine(
    pop: Phase, read: Phase, push: Phase,
    popToRead: seq<Option<nat>>, popToPush: seq<Option<nat>>, readToPush: seq<Option<nat>>)

  type Stack = seq<nat>

  datatype Mode = Pop | Read | Push

  datatype Config = Config(mode: Mode, state: nat, stack: Stack)

  function PhaseOf(m: Machine, mode: Mode): Phase {
    match mode case Pop => m.pop case Read => m.read case Push => m.push
  }

  function Link(links: seq<Option<nat>>, state: nat): Option<nat> {
    if state < |links| then links[state] else None
  }

  /** The POP edge for `top`: an explicit edge shadows DEFAULT. */
  function PopTarget(row: Row, top: nat): Option<nat> {
    if top in row.edges then Some(row.edges[top]) else row.fallback
  }

  function Follow(links: seq<Option<nat>>, mode: Mode, c: Config): set<Config> {
    match Link(links, c.state) case None => {} case Some(target) => {Config(mode, target, c.stack)}
  }

  function Top(stack: Stack): nat
    requires stack != []
  {
    stack[|stack| - 1]
  }

  function Rest(stack: Stack): Stack
    requires stack != []
  {
    stack[..|stack| - 1]
  }

  /** The phase's own edges from a configuration: POP consumes, READ only looks, PUSH appends. */
  function PhaseSteps(m: Machine, c: Config): set<Config> {
    var rows := PhaseOf(m, c.mode).rows;
    if c.state >= |rows| then {}
    else
      var row := rows[c.state];
      match c.mode
      case Pop =>
        if c.stack == [] then {}
        else (match PopTarget(row, Top(c.stack)) case None => {} case Some(t) => {Config(Pop, t, Rest(c.stack))})
      case Read =>
        if c.stack != [] && Top(c.stack) in row.edges then {Config(Read, row.edges[Top(c.stack)], c.stack)} else {}
      case Push =>
        set x | x in row.edges :: Config(Push, row.edges[x], c.stack + [x])
  }

  /** Phase links are epsilon edges; they need no visible symbol. */
  function LinkSteps(m: Machine, c: Config): set<Config> {
    match c.mode
    case Pop => Follow(m.popToRead, Read, c) + Follow(m.popToPush, Push, c)
    case Read => Follow(m.readToPush, Push, c)
    case Push => {}
  }

  function Steps(m: Machine, c: Config): set<Config> {
    PhaseSteps(m, c) + LinkSteps(m, c)
  }

  predicate Accepting(m: Machine, c: Config) {
    var rows := PhaseOf(m, c.mode).rows;
    c.state < |rows| && rows[c.state].accepting
  }

  ghost function StepsOf(m: Machine): Config -> set<Config> {
    c => Steps(m, c)
  }

  ghost predicate Reaches(m: Machine, c: Config, d: Config, n: nat) {
    Reach(StepsOf(m), c, d, n)
  }

  /** An accepting state emits its stack; emitting does not stop the traversal. */
  ghost predicate EmitsFrom(m: Machine, c: Config, out: Stack) {
    exists n: nat, d :: Reaches(m, c, d, n) && Accepting(m, d) && d.stack == out
  }

  function Start(m: Machine, stack: Stack): Config {
    Config(Pop, m.pop.start, stack)
  }

  /** The relation of the program: `out` is one of the stacks it produces from `stack`. */
  ghost predicate Emits(m: Machine, stack: Stack, out: Stack) {
    EmitsFrom(m, Start(m, stack), out)
  }

  lemma EmitsUnfold(m: Machine, c: Config, out: Stack)
    ensures EmitsFrom(m, c, out) <==> (Accepting(m, c) && c.stack == out) || exists e :: e in Steps(m, c) && EmitsFrom(m, e, out)
  {
    var next := StepsOf(m);
    if EmitsFrom(m, c, out) {
      var n: nat, d :| Reaches(m, c, d, n) && Accepting(m, d) && d.stack == out;
      if n > 0 {
        var e :| e in next(c) && Reach(next, e, d, n - 1);
        assert Reaches(m, e, d, n - 1);
        assert EmitsFrom(m, e, out);
      }
    }
    if Accepting(m, c) && c.stack == out {
      assert Reaches(m, c, c, 0);
    }
    if e :| e in Steps(m, c) && EmitsFrom(m, e, out) {
      var n: nat, d :| Reaches(m, e, d, n) && Accepting(m, d) && d.stack == out;
      assert e in next(c) && Reach(next, e, d, n);
      assert Reaches(m, c, d, n + 1);
    }
  }

  // ----- The relation of each phase, on the program's own tables -----

  /** The link of a state, if there is one. */
  ghost predicate Linked(links: seq<Option<nat>>, state: nat, target: nat) {
    state < |links| && links[state] == Some(target)
  }

  /** From a POP state: the stack itself where the state accepts, what its links give, whether or not there is a symbol
      to see, and what the edge for the top gives below the top; DEFAULT counts only without an explicit edge. */
  lemma PopEquation(m: Machine, state: nat, stack: Stack, out: Stack)
    requires state < |m.pop.rows|
    ensures var row := m.pop.rows[state];
            EmitsFrom(m, Config(Pop, state, stack), out) <==>
              || (row.accepting && out == stack)
              || (exists t: nat :: Linked(m.popToRead, state, t) && EmitsFrom(m, Config(Read, t, stack), out))
              || (exists t: nat :: Linked(m.popToPush, state, t) && EmitsFrom(m, Config(Push, t, stack), out))
              || (stack != [] &&
                  var top, below := stack[|stack| - 1], stack[..|stack| - 1];
                  if top in row.edges then EmitsFrom(m, Config(Pop, row.edges[top], below), out)
                  else row.fallback.Some? && EmitsFrom(m, Config(Pop, row.fallback.value, below), out))
  {
    EmitsUnfold(m, Config(Pop, state, stack), out);
  }

  /** From a READ state: likewise, but an edge tests the top and leaves it. */
  lemma ReadEquation(m: Machine, state: nat, stack: Stack, out: Stack)
    requires state < |m.read.rows|
    ensures var row := m.read.rows[state];
            EmitsFrom(m, Config(Read, state, stack), out) <==>
              || (row.accepting && out == stack)
              || (exists t: nat :: Linked(m.readToPush, state, t) && EmitsFrom(m, Config(Push, t, stack), out))
              || (stack != [] && stack[|stack| - 1] in row.edges && EmitsFrom(m, Config(Read, row.edges[stack[|stack| - 1]], stack), out))
  {
    EmitsUnfold(m, Config(Read, state, stack), out);
  }

  /** From a PUSH state: every edge appends its symbol. */
  lemma PushEquation(m: Machine, state: nat, stack: Stack, out: Stack)
    requires state < |m.push.rows|
    ensures var row := m.push.rows[state];
            EmitsFrom(m, Config(Push, state, stack), out) <==>
              || (row.accepting && out == stack)
              || (exists x :: x in row.edges && EmitsFrom(m, Config(Push, row.edges[x], stack + [x]), out))
  {
    var row := m.push.rows[state];
    EmitsUnfold(m, Config(Push, state, stack), out);
    if x :| x in row.edges && EmitsFrom(m, Config(Push, row.edges[x], stack + [x]), out) {
      assert Config(Push, row.edges[x], stack + [x]) in Steps(m, Config(Push, state, stack));
    }
  }

  // ----- Valid programs: everything in range and every phase acyclic -----

  function Targets(row: Row): set<nat> {
    (set x | x in row.edges :: row.edges[x]) + (match row.fallback case None => {} case Some(t) => {t})
  }

  function PhaseGraph(p: Phase): Graph {
    seq(|p.rows|, i requires 0 <= i < |p.rows| => Targets(p.rows[i]))
  }

  ghost predicate ValidPhase(p: Phase) {
    && p.start < |p.rows|
    && (forall i, t :: 0 <= i < |p.rows| && t in Targets(p.rows[i]) ==> t < |p.rows|)
    && Acyclic(PhaseGraph(p))
  }

  ghost predicate LinksInRange(links: seq<Option<nat>>, sources: nat, targets: nat) {
    |links| <= sources && forall i :: 0 <= i < |links| && links[i].Some? ==> links[i].value < targets
  }

  ghost predicate Valid(m: Machine) {
    && (forall mode :: ValidPhase(PhaseOf(m, mode)))
    && LinksInRange(m.popToRead, |m.pop.rows|, |m.read.rows|)
    && LinksInRange(m.popToPush, |m.pop.rows|, |m.push.rows|)
    && LinksInRange(m.readToPush, |m.read.rows|, |m.push.rows|)
  }

  // ----- Every run is short, and moves the height by a bounded amount -----

  /** Steps that a run can still make when its walk in the current phase has visited `seen` states. */
  function StepsLeft(m: Machine, mode: Mode, seen: nat): int {
    match mode
    case Pop => |m.pop.rows| - seen + |m.read.rows| + |m.push.rows|
    case Read => |m.read.rows| - seen + |m.push.rows|
    case Push => |m.push.rows| - seen
  }

  /** Symbols that the run can still pop, and push. */
  function PopsLeft(m: Machine, mode: Mode, seen: nat): int {
    if mode == Pop then |m.pop.rows| - seen else 0
  }

  function PushesLeft(m: Machine, mode: Mode, seen: nat): int {
    if mode == Push then |m.push.rows| - seen else |m.push.rows| - 1
  }

  ghost predicate WalkTo(m: Machine, c: Config, walk: seq<nat>) {
    && walk != [] && walk[|walk| - 1] == c.state
    && Walk(PhaseGraph(PhaseOf(m, c.mode)), walk)
  }

  /** Every step continues the walk in its phase or begins a new one in a later phase. */
  lemma StepWalk(m: Machine, c: Config, e: Config, walk: seq<nat>) returns (next: seq<nat>)
    requires Valid(m) && WalkTo(m, c, walk) && e in Steps(m, c)
    ensures WalkTo(m, e, next)
    ensures StepsLeft(m, e.mode, |next|) < StepsLeft(m, c.mode, |walk|)
    ensures |c.stack| - PopsLeft(m, c.mode, |walk|) <= |e.stack| - PopsLeft(m, e.mode, |next|)
    ensures |e.stack| + PushesLeft(m, e.mode, |next|) <= |c.stack| + PushesLeft(m, c.mode, |walk|)
  {
    AcyclicWalkBound(PhaseGraph(PhaseOf(m, c.mode)), walk);
    if e.mode == c.mode {
      next := walk + [e.state];
      assert e.state in Targets(PhaseOf(m, c.mode).rows[c.state]);
      ExtendWalk(PhaseGraph(PhaseOf(m, c.mode)), walk, e.state);
      AcyclicWalkBound(PhaseGraph(PhaseOf(m, c.mode)), next);
    } else {
      next := [e.state];
    }
  }

  lemma WalkFits(m: Machine, c: Config, walk: seq<nat>)
    requires Valid(m) && WalkTo(m, c, walk)
    ensures |walk| <= |PhaseOf(m, c.mode).rows| && |m.push.rows| > 0
  {
    AcyclicWalkBound(PhaseGraph(PhaseOf(m, c.mode)), walk);
    assert ValidPhase(PhaseOf(m, Push));
  }

  lemma FirstStep(m: Machine, c: Config, d: Config, n: nat) returns (e: Config)
    requires n > 0 && Reaches(m, c, d, n)
    ensures e in Steps(m, c) && Reaches(m, e, d, n - 1)
  {
    e :| e in StepsOf(m)(c) && Reach(StepsOf(m), e, d, n - 1);
  }

  lemma {:induction false} RunBounds(m: Machine, c: Config, d: Config, n: nat, walk: seq<nat>)
    requires Valid(m) && WalkTo(m, c, walk) && Reaches(m, c, d, n)
    ensures n <= StepsLeft(m, c.mode, |walk|)
    ensures |c.stack| - PopsLeft(m, c.mode, |walk|) <= |d.stack| <= |c.stack| + PushesLeft(m, c.mode, |walk|)
    decreases n
  {
    WalkFits(m, c, walk);
    if n > 0 {
      var e := FirstStep(m, c, d, n);
      var next := StepWalk(m, c, e, walk);
      RunBounds(m, e, d, n - 1, next);
    }
  }

  /** One terminal moves the height down by at most the POP states less one, up by at most the PUSH states less one. */
  lemma HeightBounds(m: Machine, stack: Stack, out: Stack)
    requires Valid(m) && Emits(m, stack, out)
    ensures |stack| - (|m.pop.rows| - 1) <= |out| <= |stack| + (|m.push.rows| - 1)
  {
    var c := Start(m, stack);
    var n: nat, d :| Reaches(m, c, d, n) && Accepting(m, d) && d.stack == out;
    RunBounds(m, c, d, n, [m.pop.start]);
  }

  // ----- The literal evaluator: a worklist over configurations -----

  ghost function MaxSteps(m: Machine): nat {
    |m.pop.rows| + |m.read.rows| + |m.push.rows|
  }

  lemma RunsAreShort(m: Machine, stack: Stack)
    requires Valid(m)
    ensures forall d, n: nat :: Reach(StepsOf(m), Start(m, stack), d, n) ==> n <= MaxSteps(m)
  {
    forall d, n: nat | Reach(StepsOf(m), Start(m, stack), d, n)
      ensures n <= MaxSteps(m)
    {
      RunBounds(m, Start(m, stack), d, n, [m.pop.start]);
    }
  }

  ghost predicate Emitted(m: Machine, seen: set<Config>, out: Stack) {
    exists c :: c in seen && Accepting(m, c) && c.stack == out
  }

  lemma EmittedOne(m: Machine, seen: set<Config>, c: Config)
    ensures forall out :: Emitted(m, seen + {c}, out) <==> Emitted(m, seen, out) || (Accepting(m, c) && c.stack == out)
  {
  }

  method Successors(m: Machine, c: Config) returns (successors: seq<Config>)
    ensures forall e :: e in successors <==> e in StepsOf(m)(c)
  {
    successors := Listing(Steps(m, c));
  }

  /** The worklist's answer is the relation's once everything reachable was processed. */
  lemma WorklistIsExact(m: Machine, stack: Stack, seen: set<Config>, out: Stack)
    requires Start(m, stack) in seen && seen <= UpTo(StepsOf(m), Start(m, stack), MaxSteps(m))
    requires Covered(StepsOf(m), seen, [])
    ensures Emitted(m, seen, out) <==> Emits(m, stack, out)
  {
    var next, start := StepsOf(m), Start(m, stack);
    if Emits(m, stack, out) {
      var n: nat, d :| Reaches(m, start, d, n) && Accepting(m, d) && d.stack == out;
      CoveredHasRuns(next, seen, start, d, n);
    }
    if Emitted(m, seen, out) {
      var d :| d in seen && Accepting(m, d) && d.stack == out;
      var k := UpToIsReached(next, start, d, MaxSteps(m));
      assert Reaches(m, start, d, k);
    }
  }

  ghost function Universe(m: Machine, stack: Stack): set<Config> {
    UpTo(StepsOf(m), Start(m, stack), MaxSteps(m))
  }

  ghost predicate WorklistState(m: Machine, stack: Stack, seen: set<Config>, todo: seq<Config>, result: set<Stack>) {
    && seen <= Universe(m, stack) && (forall c :: c in todo ==> c in Universe(m, stack))
    && (Start(m, stack) in seen || Start(m, stack) in todo)
    && Covered(StepsOf(m), seen, todo)
    && forall out :: out in result <==> Emitted(m, seen, out)
  }

  method Process(m: Machine, ghost stack: Stack, ghost seen: set<Config>, rest: seq<Config>, c: Config, result: set<Stack>)
    returns (todo: seq<Config>, emitted: set<Stack>)
    requires Valid(m) && WorklistState(m, stack, seen, rest + [c], result)
    ensures WorklistState(m, stack, seen + {c}, todo, emitted)
  {
    var successors := Successors(m, c);
    todo := rest + successors;
    emitted := if Accepting(m, c) then result + {c.stack} else result;
    RunsAreShort(m, stack);
    assert c in rest + [c];
    forall e | e in successors ensures e in Universe(m, stack) {
      UpToClosed(StepsOf(m), Start(m, stack), MaxSteps(m), c, e);
    }
    ProcessOne(StepsOf(m), seen, rest, c, successors);
    EmittedOne(m, seen, c);
  }

  lemma Begin(m: Machine, stack: Stack)
    ensures WorklistState(m, stack, {}, [Start(m, stack)], {})
  {
    StartInUpTo(StepsOf(m), Start(m, stack), MaxSteps(m));
  }

  lemma Skip(m: Machine, stack: Stack, seen: set<Config>, rest: seq<Config>, c: Config, result: set<Stack>)
    requires WorklistState(m, stack, seen, rest + [c], result) && c in seen
    ensures WorklistState(m, stack, seen, rest, result)
  {
    SkipSeen(StepsOf(m), seen, rest, c);
  }

  lemma Finish(m: Machine, stack: Stack, seen: set<Config>, result: set<Stack>)
    requires WorklistState(m, stack, seen, [], result)
    ensures forall out :: out in result <==> Emits(m, stack, out)
  {
    forall out ensures out in result <==> Emits(m, stack, out) {
      WorklistIsExact(m, stack, seen, out);
    }
  }

  /** A configuration taken from the list for the first time leaves fewer to process. */
  lemma Progress(m: Machine, stack: Stack, seen: set<Config>, todo: seq<Config>, c: Config, result: set<Stack>)
    requires WorklistState(m, stack, seen, todo, result) && c in todo && c !in seen
    ensures Universe(m, stack) - (seen + {c}) < Universe(m, stack) - seen
  {
    assert c in Universe(m, stack) - seen;
  }

  /** Exactly the stacks of the relation; the worklist terminates because the phases are acyclic. */
  method Apply(m: Machine, stack: Stack) returns (result: set<Stack>)
    requires Valid(m)
    ensures forall out :: out in result <==> Emits(m, stack, out)
  {
    var todo := [Start(m, stack)];
    var seen: set<Config> := {};
    result := {};
    Begin(m, stack);
    while todo != []
      invariant WorklistState(m, stack, seen, todo, result)
      decreases Universe(m, stack) - seen, |todo|
    {
      var c := todo[|todo| - 1];
      var rest := todo[..|todo| - 1];
      assert todo == rest + [c];
      if c in seen {
        Skip(m, stack, seen, rest, c, result);
        todo := rest;
      } else {
        Progress(m, stack, seen, todo, c, result);
        todo, result := Process(m, stack, seen, rest, c, result);
        seen := seen + {c};
      }
    }
    Finish(m, stack, seen, result);
  }
}
