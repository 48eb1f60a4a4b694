/** The prefix DFA of a word, intersected with a grammar. */
module PrefixDfa {
  // State `i` of the automaton means that the first `i` bytes of the target are matched. With `absorbing` the
  // final state accepts any continuation; without it that state has no edge. The intersection is a relation on
  // (nonterminal, from, to).

  import opened Wrappers
  import opened Cfg
  import opened Collections

  function Edge(target: seq<Byte>, absorbing: bool, text: seq<Byte>, from: nat): (to: Option<nat>)
    requires from <= |target|
    ensures to.Some? ==> from <= to.value <= |target|
  {
    if from < |target| then
      if text <= target[from..] then Some(from + |text|) else None
    else if absorbing then Some(|target|)
    else None
  }

  function Run(target: seq<Byte>, absorbing: bool, from: nat, texts: seq<seq<Byte>>): (to: Option<nat>)
    requires from <= |target|
    ensures to.Some? ==> from <= to.value <= |target|
    decreases |texts|
  {
    if texts == [] then Some(from)
    else
      match Edge(target, absorbing, texts[0], from)
      case None => None
      case Some(mid) => Run(target, absorbing, mid, texts[1..])
  }

  lemma {:induction false} RunConcat(target: seq<Byte>, absorbing: bool, from: nat, a: seq<seq<Byte>>, b: seq<seq<Byte>>)
    requires from <= |target|
    ensures Run(target, absorbing, from, a + b)
         == match Run(target, absorbing, from, a)
            case None => None
            case Some(mid) => Run(target, absorbing, mid, b)
    decreases |a|
  {
    if a == [] {
      assert a + b == b;
    } else {
      assert (a + b)[1..] == a[1..] + b;
      match Edge(target, absorbing, a[0], from)
      case None =>
      case Some(mid) => RunConcat(target, absorbing, mid, a[1..], b);
    }
  }

  /** `symbols` derives some terminal string that drives the DFA from `from` to `to`. */
  ghost predicate ReachesSeq(rules: seq<Rule>, target: seq<Byte>, absorbing: bool, symbols: seq<Symbol>, from: nat, to: nat) {
    from <= |target| &&
    exists d :: Derives(rules, symbols, d) && Run(target, absorbing, from, Leaves(d)) == Some(to)
  }

  ghost predicate Reaches(rules: seq<Rule>, target: seq<Byte>, absorbing: bool, nt: nat, from: nat, to: nat) {
    ReachesSeq(rules, target, absorbing, [Nonterminal(nt)], from, to)
  }

  // ----- The relation under construction, as a set of facts -----

  datatype Fact = Fact(nt: nat, from: nat, to: nat)

  function Universe(count: nat, states: nat): set<Fact> {
    set nt: nat, from: nat, to: nat | nt < count && from < states && to < states :: Fact(nt, from, to)
  }

  ghost predicate Step(r: set<Fact>, target: seq<Byte>, absorbing: bool, symbol: Symbol, from: nat, to: nat) {
    match symbol
    case Terminal(text) => from <= |target| && Edge(target, absorbing, text, from) == Some(to)
    case Nonterminal(nt) => Fact(nt, from, to) in r
  }

  /** The boolean matrix product of the symbols' step relations, composed left to right. */
  ghost predicate Path(r: set<Fact>, target: seq<Byte>, absorbing: bool, symbols: seq<Symbol>, from: nat, to: nat)
    decreases |symbols|
  {
    if symbols == [] then from == to
    else
      var last := |symbols| - 1;
      exists mid: nat :: mid <= |target| && Path(r, target, absorbing, symbols[..last], from, mid) && Step(r, target, absorbing, symbols[last], mid, to)
  }

  /** Every recorded fact has a derivation behind it. */
  ghost predicate Justified(rules: seq<Rule>, target: seq<Byte>, absorbing: bool, r: set<Fact>) {
    forall f :: f in r ==> Reaches(rules, target, absorbing, f.nt, f.from, f.to)
  }

  ghost predicate ClosedUnder(rule: Rule, target: seq<Byte>, absorbing: bool, r: set<Fact>) {
    forall from: nat, to: nat :: from <= |target| && to <= |target| && Path(r, target, absorbing, rule.rhs, from, to) ==> Fact(rule.lhs, from, to) in r
  }

  ghost predicate Closed(rules: seq<Rule>, target: seq<Byte>, absorbing: bool, r: set<Fact>) {
    forall rule :: rule in rules ==> ClosedUnder(rule, target, absorbing, r)
  }

  /** `r` with everything that one use of `rule` derives from it. */
  ghost function AfterRule(r: set<Fact>, rule: Rule, target: seq<Byte>, absorbing: bool): set<Fact> {
    r + set f | f in Universe(rule.lhs + 1, |target| + 1) && f.nt == rule.lhs && Path(r, target, absorbing, rule.rhs, f.from, f.to)
  }

  lemma InAfterRule(r: set<Fact>, rule: Rule, target: seq<Byte>, absorbing: bool, f: Fact)
    ensures f in AfterRule(r, rule, target, absorbing) <==>
            f in r || (f.nt == rule.lhs && f.from <= |target| && f.to <= |target| && Path(r, target, absorbing, rule.rhs, f.from, f.to))
  {
    assert f == Fact(f.nt, f.from, f.to);
  }

  // ----- How many facts there can be -----

  function Cells(nt: nat, froms: nat, states: nat): set<Fact> {
    set from: nat, to: nat | from < froms && to < states :: Fact(nt, from, to)
  }

  function Row(nt: nat, from: nat, tos: nat): set<Fact> {
    set to: nat | to < tos :: Fact(nt, from, to)
  }

  lemma {:induction false} RowSize(nt: nat, from: nat, tos: nat)
    ensures |Row(nt, from, tos)| == tos
  {
    if tos > 0 {
      RowSize(nt, from, tos - 1);
      assert Row(nt, from, tos) == Row(nt, from, tos - 1) + {Fact(nt, from, tos - 1)};
    }
  }

  lemma OneMoreTime(times: nat, size: nat)
    ensures (times + 1) * size == times * size + size
  {
  }

  lemma DisjointSizes(whole: set<Fact>, a: set<Fact>, b: set<Fact>)
    requires a !! b && whole == a + b
    ensures |whole| == |a| + |b|
  {
  }

  lemma {:induction false} CellsSize(nt: nat, froms: nat, states: nat)
    ensures |Cells(nt, froms, states)| == froms * states
  {
    if froms > 0 {
      CellsSize(nt, froms - 1, states);
      RowSize(nt, froms - 1, states);
      DisjointSizes(Cells(nt, froms, states), Cells(nt, froms - 1, states), Row(nt, froms - 1, states));
      OneMoreTime(froms - 1, states);
    }
  }

  lemma {:induction false} UniverseSize(count: nat, states: nat)
    ensures |Universe(count, states)| == count * (states * states)
  {
    if count > 0 {
      UniverseSize(count - 1, states);
      CellsSize(count - 1, states, states);
      DisjointSizes(Universe(count, states), Universe(count - 1, states), Cells(count - 1, states, states));
      OneMoreTime(count - 1, states * states);
    }
  }

  // ----- Soundness -----

  lemma StepSound(rules: seq<Rule>, target: seq<Byte>, absorbing: bool, r: set<Fact>, symbol: Symbol, from: nat, to: nat)
    requires Justified(rules, target, absorbing, r)
    requires Step(r, target, absorbing, symbol, from, to)
    ensures ReachesSeq(rules, target, absorbing, [symbol], from, to)
  {
    match symbol
    case Terminal(text) =>
      var d := Shift(text, Done);
      assert [symbol][1..] == [];
      assert Derives(rules, [symbol], d);
      assert Leaves(d) == [text];
      assert [text][1..] == [];
      assert Run(target, absorbing, from, [text]) == Some(to);
    case Nonterminal(nt) =>
      assert Reaches(rules, target, absorbing, nt, from, to) by { assert Fact(nt, from, to) in r; }
  }

  lemma ReachesConcat(rules: seq<Rule>, target: seq<Byte>, absorbing: bool, a: seq<Symbol>, b: seq<Symbol>, from: nat, mid: nat, to: nat)
    requires from <= |target| && mid <= |target|
    requires ReachesSeq(rules, target, absorbing, a, from, mid) && ReachesSeq(rules, target, absorbing, b, mid, to)
    ensures ReachesSeq(rules, target, absorbing, a + b, from, to)
  {
    var d :| Derives(rules, a, d) && Run(target, absorbing, from, Leaves(d)) == Some(mid);
    var e :| Derives(rules, b, e) && Run(target, absorbing, mid, Leaves(e)) == Some(to);
    AppendDerives(rules, a, b, d, e);
    RunConcat(target, absorbing, from, Leaves(d), Leaves(e));
  }

  lemma ReachesNothing(rules: seq<Rule>, target: seq<Byte>, absorbing: bool, from: nat)
    requires from <= |target|
    ensures ReachesSeq(rules, target, absorbing, [], from, from)
  {
    assert Derives(rules, [], Done) && Leaves(Done) == [];
  }

  lemma {:induction false} PathSound(rules: seq<Rule>, target: seq<Byte>, absorbing: bool, r: set<Fact>, symbols: seq<Symbol>, from: nat, to: nat)
    requires Justified(rules, target, absorbing, r)
    requires from <= |target|
    requires Path(r, target, absorbing, symbols, from, to)
    ensures ReachesSeq(rules, target, absorbing, symbols, from, to)
    decreases |symbols|
  {
    if symbols == [] {
      ReachesNothing(rules, target, absorbing, from);
    } else {
      var last := |symbols| - 1;
      var mid: nat :| mid <= |target| && Path(r, target, absorbing, symbols[..last], from, mid) && Step(r, target, absorbing, symbols[last], mid, to);
      PathSound(rules, target, absorbing, r, symbols[..last], from, mid);
      StepSound(rules, target, absorbing, r, symbols[last], mid, to);
      ReachesConcat(rules, target, absorbing, symbols[..last], [symbols[last]], from, mid, to);
      LastApart(symbols);
    }
  }

  /** What a rule adds is justified when what it read was. */
  lemma RuleSound(rules: seq<Rule>, target: seq<Byte>, absorbing: bool, r: set<Fact>, rule: Rule, from: nat, to: nat)
    requires rule in rules && from <= |target|
    requires Justified(rules, target, absorbing, r)
    requires Path(r, target, absorbing, rule.rhs, from, to)
    ensures Reaches(rules, target, absorbing, rule.lhs, from, to)
  {
    PathSound(rules, target, absorbing, r, rule.rhs, from, to);
    var body :| Derives(rules, rule.rhs, body) && Run(target, absorbing, from, Leaves(body)) == Some(to);
    var d := Expand(rule, body, Done);
    var symbols := [Nonterminal(rule.lhs)];
    assert symbols[1..] == [];
    assert Derives(rules, symbols, d);
    assert Leaves(d) == Leaves(body) + [] == Leaves(body);
  }

  lemma AfterRuleSound(rules: seq<Rule>, target: seq<Byte>, absorbing: bool, r: set<Fact>, rule: Rule, count: nat)
    requires rule in rules && rule.lhs < count
    requires Justified(rules, target, absorbing, r) && r <= Universe(count, |target| + 1)
    ensures Justified(rules, target, absorbing, AfterRule(r, rule, target, absorbing))
    ensures r <= AfterRule(r, rule, target, absorbing) <= Universe(count, |target| + 1)
  {
    forall f | f in AfterRule(r, rule, target, absorbing)
      ensures Reaches(rules, target, absorbing, f.nt, f.from, f.to) && f in Universe(count, |target| + 1)
    {
      InAfterRule(r, rule, target, absorbing, f);
      if f !in r {
        RuleSound(rules, target, absorbing, r, rule, f.from, f.to);
        assert f == Fact(f.nt, f.from, f.to);
      }
    }
  }

  /** A rule that adds nothing is one the relation is closed under. */
  lemma NoChangeMeansClosed(target: seq<Byte>, absorbing: bool, r: set<Fact>, rule: Rule)
    requires AfterRule(r, rule, target, absorbing) == r
    ensures ClosedUnder(rule, target, absorbing, r)
  {
    forall from: nat, to: nat | from <= |target| && to <= |target| && Path(r, target, absorbing, rule.rhs, from, to)
      ensures Fact(rule.lhs, from, to) in r
    {
      InAfterRule(r, rule, target, absorbing, Fact(rule.lhs, from, to));
    }
  }

  // ----- Completeness -----

  lemma {:induction false} PathFromHead(r: set<Fact>, target: seq<Byte>, absorbing: bool, symbols: seq<Symbol>, from: nat, mid: nat, to: nat)
    requires symbols != [] && mid <= |target|
    requires Step(r, target, absorbing, symbols[0], from, mid)
    requires Path(r, target, absorbing, symbols[1..], mid, to)
    requires from <= |target|
    ensures Path(r, target, absorbing, symbols, from, to)
    decreases |symbols|
  {
    var last := |symbols| - 1;
    if last == 0 {
      assert symbols[..last] == [];
      assert Path(r, target, absorbing, symbols[..last], from, from);
    } else {
      var rest := symbols[1..];
      assert rest[|rest| - 1] == symbols[last];
      var m: nat :| m <= |target| && Path(r, target, absorbing, rest[..|rest| - 1], mid, m) && Step(r, target, absorbing, symbols[last], m, to);
      assert rest[..|rest| - 1] == symbols[..last][1..];
      PathFromHead(r, target, absorbing, symbols[..last], from, mid, m);
    }
  }

  lemma {:induction false} DerivationHasPath(rules: seq<Rule>, target: seq<Byte>, absorbing: bool, r: set<Fact>, symbols: seq<Symbol>, d: Derivation, from: nat, to: nat)
    requires Closed(rules, target, absorbing, r)
    requires Derives(rules, symbols, d)
    requires from <= |target| && Run(target, absorbing, from, Leaves(d)) == Some(to)
    ensures Path(r, target, absorbing, symbols, from, to)
    decreases d
  {
    match d
    case Done =>
    case Shift(text, tail) =>
      assert Leaves(d)[1..] == Leaves(tail);
      var mid := Edge(target, absorbing, text, from).value;
      DerivationHasPath(rules, target, absorbing, r, symbols[1..], tail, mid, to);
      PathFromHead(r, target, absorbing, symbols, from, mid, to);
    case Expand(rule, body, tail) =>
      RunConcat(target, absorbing, from, Leaves(body), Leaves(tail));
      var mid := Run(target, absorbing, from, Leaves(body)).value;
      DerivationHasPath(rules, target, absorbing, r, rule.rhs, body, from, mid);
      assert ClosedUnder(rule, target, absorbing, r);
      assert Fact(rule.lhs, from, mid) in r;
      DerivationHasPath(rules, target, absorbing, r, symbols[1..], tail, mid, to);
      PathFromHead(r, target, absorbing, symbols, from, mid, to);
  }

  // ----- The relation is the least closed one, whatever the order of the rules -----

  /** Every relation closed under the rules contains the intersection relation. */
  lemma LeastClosedRelation(rules: seq<Rule>, target: seq<Byte>, absorbing: bool, r: set<Fact>, nt: nat, from: nat, to: nat)
    requires Closed(rules, target, absorbing, r)
    requires Reaches(rules, target, absorbing, nt, from, to)
    ensures Fact(nt, from, to) in r
  {
    var symbols := [Nonterminal(nt)];
    var d :| Derives(rules, symbols, d) && Run(target, absorbing, from, Leaves(d)) == Some(to);
    DerivationHasPath(rules, target, absorbing, r, symbols, d, from, to);
    var mid: nat :| mid <= |target| && Path(r, target, absorbing, symbols[..0], from, mid) && Step(r, target, absorbing, symbols[0], mid, to);
    assert mid == from;
  }

  /** A relation that is justified and closed is the intersection relation, exactly. */
  lemma FixpointIsExact(rules: seq<Rule>, target: seq<Byte>, absorbing: bool, r: set<Fact>, nt: nat, from: nat, to: nat)
    requires Justified(rules, target, absorbing, r) && Closed(rules, target, absorbing, r)
    ensures Fact(nt, from, to) in r <==> Reaches(rules, target, absorbing, nt, from, to)
  {
    if Reaches(rules, target, absorbing, nt, from, to) {
      LeastClosedRelation(rules, target, absorbing, r, nt, from, to);
    }
  }

  lemma RuleOrderIrrelevant(rules: seq<Rule>, other: seq<Rule>, target: seq<Byte>, absorbing: bool, nt: nat, from: nat, to: nat)
    requires forall rule :: rule in rules <==> rule in other
    ensures Reaches(rules, target, absorbing, nt, from, to) <==> Reaches(other, target, absorbing, nt, from, to)
  {
    var symbols := [Nonterminal(nt)];
    if Reaches(rules, target, absorbing, nt, from, to) {
      var d :| Derives(rules, symbols, d) && Run(target, absorbing, from, Leaves(d)) == Some(to);
      DerivesFromMoreRules(rules, other, symbols, d);
    }
    if Reaches(other, target, absorbing, nt, from, to) {
      var d :| Derives(other, symbols, d) && Run(target, absorbing, from, Leaves(d)) == Some(to);
      DerivesFromMoreRules(other, rules, symbols, d);
    }
  }
}
