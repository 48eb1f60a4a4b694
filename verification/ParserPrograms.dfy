/** A whole parser definition: every terminal's template and the completion drawn from one budget, and the
    rule that only an identity terminal may be ignored. */
module ParserPrograms {
  import opened Wrappers
  import opened Collections
  import opened StackMachine
  import opened StackTemplates
  import opened TemplateConversion

  const MAX_CERTIFICATE_BYTES: nat := 256 * 1024 * 1024
  const MAX_AUTOMATON_STATES: nat := 1_000_000
  const MAX_AUTOMATON_EDGES: nat := 4_000_000
  const MAX_CERTIFICATE_PAIRS: nat := 16_000_000

  datatype ParserDefinition = ParserDefinition(symbols: nat, terminals: seq<StackTemplate>, completion: StackTemplate)

  datatype ParserProgram = ParserProgram(
    symbols: nat, templates: seq<CommitTemplates>, completion: CommitTemplates, identityTerminals: set<nat>)

  /** Size of the per-symbol certificate rows; `bitset` is the in-memory size of one bit set header. */
  function CertificateBytes(d: ParserDefinition, bitset: nat): nat {
    ((|d.terminals| + 1 + 63) / 64 * 16 + 2 * bitset) * d.symbols
  }

  /** `words` is the least number of 64-bit words with that many bits. */
  predicate IsWordCount(words: nat, bits: nat) {
    bits <= 64 * words < bits + 64
  }

  /** The alphabet has the start symbol and excludes the reserved labels, and the certificate, a bit for each pair of a
      symbol and a terminal or the completion, is at most 16 million pairs and 256 MiB. */
  ghost predicate Admissible(d: ParserDefinition, bitset: nat) {
    && 0 < d.symbols < 0x7FFF_FFFE
    && |d.terminals| < 0x1_0000_0000
    && d.symbols * (|d.terminals| + 1) <= 16_000_000
    && exists words: nat :: IsWordCount(words, |d.terminals| + 1) && (16 * words + 2 * bitset) * d.symbols <= 0x1000_0000
  }

  lemma CertificateSize(d: ParserDefinition, bitset: nat)
    ensures CertificateBytes(d, bitset) <= MAX_CERTIFICATE_BYTES <==>
              exists words: nat :: IsWordCount(words, |d.terminals| + 1) && (16 * words + 2 * bitset) * d.symbols <= 0x1000_0000
  {
    var words := (|d.terminals| + 1 + 63) / 64;
    assert IsWordCount(words, |d.terminals| + 1);
    assert words * 16 == 16 * words;
    if other: nat :| IsWordCount(other, |d.terminals| + 1) && (16 * other + 2 * bitset) * d.symbols <= 0x1000_0000 {
      assert other == words;
    }
  }

  function StatesIn(): StackTemplate -> nat {
    (t: StackTemplate) => StatesOf(t)
  }

  function EdgesInside(): StackTemplate -> nat {
    (t: StackTemplate) => EdgesIn(t)
  }

  /** Everything conversion asks of a definition, with the budgets as one total over all phases. */
  ghost predicate Convertible(d: ParserDefinition) {
    && All(WellFormedOf(d.symbols), d.terminals)
    && WellFormedTemplate(d.completion, d.symbols)
    && Sum(StatesIn(), d.terminals) + StatesOf(d.completion) <= 1_000_000
    && Sum(EdgesInside(), d.terminals) + EdgesIn(d.completion) <= 4_000_000
  }

  ghost predicate Realizes(p: ParserProgram, d: ParserDefinition) {
    && p.symbols == d.symbols && AllPaired(DenotesOf(d.symbols), p.templates, d.terminals)
    && Denotes(p.completion, d.completion, d.symbols)
    && p.identityTerminals == set i | 0 <= i < |d.terminals| && d.terminals[i] == IdentityTemplate()
  }

  ghost predicate AllPaired<T(!new), U(!new)>(holds: (T, U) -> bool, items: seq<T>, others: seq<U>) {
    |items| == |others| &&
    (items == [] ||
     (AllPaired(holds, items[..|items| - 1], others[..|items| - 1]) && holds(items[|items| - 1], others[|items| - 1])))
  }

  lemma {:induction false} AllPairedAt<T(!new), U(!new)>(holds: (T, U) -> bool, items: seq<T>, others: seq<U>, i: nat)
    requires i < |items| && AllPaired(holds, items, others)
    ensures i < |others| && holds(items[i], others[i])
  {
    if i < |items| - 1 {
      AllPairedAt(holds, items[..|items| - 1], others[..|items| - 1], i);
    }
  }

  ghost function WellFormedOf(symbols: nat): StackTemplate -> bool {
    t => WellFormedTemplate(t, symbols)
  }

  ghost function DenotesOf(symbols: nat): (CommitTemplates, StackTemplate) -> bool {
    (converted, t) => Denotes(converted, t, symbols)
  }

  type Shape = StackTemplate -> bool
  type Denotation = (CommitTemplates, StackTemplate) -> bool

  /** The templates converted so far and what they cost. */
  ghost predicate Charged(ok: Shape, denotes: Denotation, converted: seq<CommitTemplates>, ts: seq<StackTemplate>, states: nat, edges: nat) {
    All(ok, ts) && AllPaired(denotes, converted, ts) && states == Sum(StatesIn(), ts) && edges == Sum(EdgesInside(), ts)
  }

  ghost predicate Affordable(ok: Shape, ts: seq<StackTemplate>, states: nat, edges: nat) {
    All(ok, ts) && Sum(StatesIn(), ts) <= states && Sum(EdgesInside(), ts) <= edges
  }

  lemma ChargeOne(ok: Shape, denotes: Denotation, converted: seq<CommitTemplates>, ts: seq<StackTemplate>, states: nat, edges: nat, last: CommitTemplates, t: StackTemplate)
    requires Charged(ok, denotes, converted, ts, states, edges) && ok(t) && denotes(last, t)
    ensures Charged(ok, denotes, converted + [last], ts + [t], states + StatesOf(t), edges + EdgesIn(t))
  {
    var more, longer := converted + [last], ts + [t];
    assert longer[..|longer| - 1] == ts && more[..|longer| - 1] == converted;
    SumOneMore(StatesIn(), ts, t);
    SumOneMore(EdgesInside(), ts, t);
  }

  lemma CannotCharge(ok: Shape, denotes: Denotation, converted: seq<CommitTemplates>, ts: seq<StackTemplate>, i: nat, states: nat, edges: nat, statesLeft: nat, edgesLeft: nat)
    requires i < |ts| && Charged(ok, denotes, converted, ts[..i], states, edges)
    requires !(ok(ts[i]) && StatesOf(ts[i]) <= statesLeft && EdgesIn(ts[i]) <= edgesLeft)
    ensures !Affordable(ok, ts, states + statesLeft, edges + edgesLeft)
  {
    if Affordable(ok, ts, states + statesLeft, edges + edgesLeft) {
      AllAt(ok, ts, i);
      SumAt(StatesIn(), ts, i);
      SumAt(EdgesInside(), ts, i);
    }
  }

  /** The conversion of one terminal, its outcome stated through the tests for shape and denotation. */
  method ConvertOne(t: StackTemplate, symbols: nat, budget: Budget, ghost ok: Shape, ghost denotes: Denotation) returns (r: Result<CommitTemplates>)
    requires symbols < DEFAULT_LABEL && ok == WellFormedOf(symbols) && denotes == DenotesOf(symbols)
    modifies budget
    ensures r.Success? <==> ok(t) && StatesOf(t) <= old(budget.statesLeft) && EdgesIn(t) <= old(budget.edgesLeft)
    ensures r.Success? ==>
              && denotes(r.value, t)
              && budget.statesLeft == old(budget.statesLeft) - StatesOf(t) && budget.edgesLeft == old(budget.edgesLeft) - EdgesIn(t)
  {
    r := Convert(t, symbols, budget);
  }

  /** Terminals are converted in order, each charged to what the earlier ones left. */
  method ConvertAll(terminals: seq<StackTemplate>, symbols: nat, budget: Budget) returns (r: Result<seq<CommitTemplates>>)
    requires symbols < DEFAULT_LABEL
    modifies budget
    ensures r.Success? <==> Affordable(WellFormedOf(symbols), terminals, old(budget.statesLeft), old(budget.edgesLeft))
    ensures r.Success? ==>
              && budget.statesLeft <= old(budget.statesLeft) && budget.edgesLeft <= old(budget.edgesLeft)
              && Charged(WellFormedOf(symbols), DenotesOf(symbols), r.value, terminals,
                         old(budget.statesLeft) - budget.statesLeft, old(budget.edgesLeft) - budget.edgesLeft)
  {
    var templates: seq<CommitTemplates> := [];
    ghost var states0, edges0, ok, denotes := budget.statesLeft, budget.edgesLeft, WellFormedOf(symbols), DenotesOf(symbols);
    assert terminals[..0] == [];
    for i := 0 to |terminals|
      invariant budget.statesLeft <= states0 && budget.edgesLeft <= edges0
      invariant Charged(ok, denotes, templates, terminals[..i], states0 - budget.statesLeft, edges0 - budget.edgesLeft)
    {
      ghost var states, edges := budget.statesLeft, budget.edgesLeft;
      var converted := ConvertOne(terminals[i], symbols, budget, ok, denotes);
      if converted.Failure? {
        CannotCharge(ok, denotes, templates, terminals, i, states0 - states, edges0 - edges, states, edges);
        return Failure;
      }
      ChargeOne(ok, denotes, templates, terminals[..i], states0 - states, edges0 - edges, converted.value, terminals[i]);
      OneLonger(terminals, i);
      templates := templates + [converted.value];
    }
    assert terminals[..|terminals|] == terminals;
    r := Success(templates);
  }

  /** The checks on the alphabet and the certificate. */
  method IsAdmissible(d: ParserDefinition, bitset: nat) returns (ok: bool)
    ensures ok <==> Admissible(d, bitset)
  {
    CertificateSize(d, bitset);
    if d.symbols == 0 || d.symbols >= DEFAULT_LABEL || |d.terminals| >= 0x1_0000_0000 {
      return false;
    }
    ok := d.symbols * (|d.terminals| + 1) <= MAX_CERTIFICATE_PAIRS && CertificateBytes(d, bitset) <= MAX_CERTIFICATE_BYTES;
  }

  method NewProgram(d: ParserDefinition, bitset: nat) returns (r: Result<ParserProgram>)
    ensures r.Success? <==> Admissible(d, bitset) && Convertible(d)
    ensures r.Success? ==> Realizes(r.value, d)
  {
    var admissible := IsAdmissible(d, bitset);
    if !admissible {
      return Failure;
    }
    var budget := new Budget(MAX_AUTOMATON_STATES, MAX_AUTOMATON_EDGES);
    var identityTerminals := set i | 0 <= i < |d.terminals| && d.terminals[i] == IdentityTemplate();
    var templates := ConvertAll(d.terminals, d.symbols, budget);
    if templates.Failure? {
      return Failure;
    }
    var completion := Convert(d.completion, d.symbols, budget);
    if completion.Failure? {
      return Failure;
    }
    r := Success(ParserProgram(d.symbols, templates.value, completion.value, identityTerminals));
  }

  // ----- Ignoring a terminal -----

  /** The checks a lexer definition passes before compilation: equal counts, and an ignored terminal is an identity. */
  predicate LexerAccepted(p: ParserProgram, lexerTerminals: nat, ignore: Option<nat>) {
    lexerTerminals == |p.templates| && (ignore.Some? ==> ignore.value in p.identityTerminals)
  }

  /** For the program of a definition: exactly the lexers with as many terminals that ignore none, or one whose
      template is the identity template. */
  lemma AcceptedLexers(d: ParserDefinition, p: ParserProgram, lexerTerminals: nat, ignore: Option<nat>)
    requires Realizes(p, d)
    ensures LexerAccepted(p, lexerTerminals, ignore) <==>
              && lexerTerminals == |d.terminals|
              && (ignore.Some? ==> ignore.value < |d.terminals| && d.terminals[ignore.value] == IdentityTemplate())
  {
  }

  function FastMachines(templates: seq<CommitTemplates>, symbols: nat): (machines: seq<Machine>)
    ensures |machines| == |templates|
  {
    if templates == [] then []
    else FastMachines(templates[..|templates| - 1], symbols) + [FastMachine(templates[|templates| - 1], symbols)]
  }

  lemma {:induction false} FastMachineAt(templates: seq<CommitTemplates>, symbols: nat, i: nat)
    requires i < |templates|
    ensures FastMachines(templates, symbols)[i] == FastMachine(templates[i], symbols)
  {
    if i < |templates| - 1 {
      FastMachineAt(templates[..|templates| - 1], symbols, i);
    }
  }

  function MachinesOf(p: ParserProgram): seq<Machine> {
    FastMachines(p.templates, p.symbols)
  }

  /** Whatever an accepted lexer ignores leaves every reachable stack unchanged, wherever it occurs. */
  lemma AcceptedIgnoreIsInvisible(d: ParserDefinition, p: ParserProgram, ignore: nat, a: seq<nat>, b: seq<nat>, from: Stack, to: Stack)
    requires Realizes(p, d) && LexerAccepted(p, |p.templates|, Some(ignore))
    ensures Advances(EmitsOf(MachinesOf(p)), a + [ignore] + b, from, to) <==> Advances(EmitsOf(MachinesOf(p)), a + b, from, to)
  {
    AllPairedAt(DenotesOf(d.symbols), p.templates, d.terminals, ignore);
    FastMachineAt(p.templates, p.symbols, ignore);
    IgnoredTerminalIsInvisible(MachinesOf(p), ignore, a, b, from, to);
  }

  lemma MachineBounds(d: ParserDefinition, p: ParserProgram, i: nat)
    requires d.symbols < DEFAULT_LABEL && Realizes(p, d) && Convertible(d) && i < |p.templates|
    ensures Valid(MachinesOf(p)[i]) && |MachinesOf(p)[i].push.rows| <= MAX_AUTOMATON_STATES
  {
    AllPairedAt(DenotesOf(d.symbols), p.templates, d.terminals, i);
    FastMachineAt(p.templates, p.symbols, i);
    AllAt(WellFormedOf(d.symbols), d.terminals, i);
    WellFormedIsValid(d.terminals[i], d.symbols);
    SumAt(StatesIn(), d.terminals, i);
  }

  /** Stacks of an admitted program grow by at most the state budget for each terminal. */
  lemma ProgramHeights(d: ParserDefinition, p: ParserProgram, word: seq<nat>, to: Stack)
    requires d.symbols < DEFAULT_LABEL && Realizes(p, d) && Convertible(d)
    requires Advances(EmitsOf(MachinesOf(p)), word, [0], to)
    ensures |to| <= 1 + |word| * MAX_AUTOMATON_STATES
  {
    var machines := MachinesOf(p);
    forall i | 0 <= i < |machines|
      ensures Valid(machines[i]) && |machines[i].push.rows| <= MAX_AUTOMATON_STATES + 1
    {
      MachineBounds(d, p, i);
    }
    AllOf(PushOf(MAX_AUTOMATON_STATES), machines);
    HeightAfterTerminals(machines, MAX_AUTOMATON_STATES, word, to);
  }
}
