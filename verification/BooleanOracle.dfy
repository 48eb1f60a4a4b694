/** The CFG / prefix-DFA oracle: a fixpoint on boolean matrices, updated in place. */
module BooleanOracle {
  import opened Wrappers
  import opened Cfg
  import opened Collections
  import opened PrefixDfa

  // ----- Sizes -----

  /** One more than the largest nonterminal of a symbol string; 0 when it has none. */
  function SymbolBound(symbols: seq<Symbol>): (bound: nat)
    ensures forall s :: s in symbols && s.Nonterminal? ==> s.id < bound
  {
    if symbols == [] then 0
    else
      var rest := SymbolBound(symbols[1..]);
      assert forall s :: s in symbols ==> s == symbols[0] || s in symbols[1..];
      match symbols[0]
      case Terminal(_) => rest
      case Nonterminal(id) => Max(id + 1, rest)
  }

  function RuleBound(rules: seq<Rule>): (bound: nat)
    ensures forall rule :: rule in rules ==> rule.lhs < bound && forall s :: s in rule.rhs && s.Nonterminal? ==> s.id < bound
  {
    if rules == [] then 0
    else
      assert forall rule :: rule in rules ==> rule == rules[0] || rule in rules[1..];
      Max(rules[0].lhs + 1, Max(SymbolBound(rules[0].rhs), RuleBound(rules[1..])))
  }

  /** Rows allocated for nonterminals: enough for every index used, and at least one. */
  function NonterminalCount(rules: seq<Rule>): nat {
    if rules == [] then 1 else RuleBound(rules)
  }

  lemma {:induction false} SymbolBoundReached(symbols: seq<Symbol>)
    ensures SymbolBound(symbols) > 0 ==> Nonterminal(SymbolBound(symbols) - 1) in symbols
  {
    if symbols != [] {
      SymbolBoundReached(symbols[1..]);
      assert symbols == [symbols[0]] + symbols[1..];
    }
  }

  /** Some rule names the nonterminal. */
  ghost predicate Names(rules: seq<Rule>, nt: nat) {
    exists rule :: rule in rules && (rule.lhs == nt || Nonterminal(nt) in rule.rhs)
  }

  lemma NamedByMore(rules: seq<Rule>, nt: nat)
    requires rules != [] && Names(rules[1..], nt)
    ensures Names(rules, nt)
  {
    var rule :| rule in rules[1..] && (rule.lhs == nt || Nonterminal(nt) in rule.rhs);
    assert rule in rules;
  }

  lemma NamedFirst(rules: seq<Rule>, nt: nat)
    requires rules != [] && (rules[0].lhs == nt || Nonterminal(nt) in rules[0].rhs)
    ensures Names(rules, nt)
  {
    assert rules[0] in rules;
  }

  /** There is no row too many: the last one is the largest nonterminal's. */
  lemma {:induction false} RuleBoundReached(rules: seq<Rule>)
    ensures rules != [] ==> RuleBound(rules) > 0 && Names(rules, RuleBound(rules) - 1)
  {
    if rules != [] {
      var first, rest := rules[0], rules[1..];
      SymbolBoundReached(first.rhs);
      RuleBoundReached(rest);
      var bound, later := RuleBound(rules), RuleBound(rest);
      assert bound == Max(first.lhs + 1, Max(SymbolBound(first.rhs), later));
      if bound == first.lhs + 1 || bound == SymbolBound(first.rhs) {
        NamedFirst(rules, bound - 1);
      } else {
        assert rest != [];
        NamedByMore(rules, bound - 1);
      }
    }
  }

  // ----- The matrices as facts -----

  ghost predicate Holds(relation: array3<bool>, r: set<Fact>)
    reads relation
  {
    && relation.Length1 == relation.Length2
    && forall f: Fact :: f in r <==>
         f.nt < relation.Length0 && f.from < relation.Length1 && f.to < relation.Length1 && relation[f.nt, f.from, f.to]
  }

  ghost predicate IsMatrix(m: array2<bool>, states: nat) {
    m.Length0 == states && m.Length1 == states
  }

  ghost predicate IsPath(m: array2<bool>, r: set<Fact>, target: seq<Byte>, absorbing: bool, symbols: seq<Symbol>)
    reads m
  {
    && IsMatrix(m, |target| + 1)
    && forall from: nat, to: nat :: from <= |target| && to <= |target| ==>
         (m[from, to] <==> Path(r, target, absorbing, symbols, from, to))
  }

  ghost predicate IsStep(m: array2<bool>, r: set<Fact>, target: seq<Byte>, absorbing: bool, symbol: Symbol)
    reads m
  {
    && IsMatrix(m, |target| + 1)
    && forall from: nat, to: nat :: from <= |target| && to <= |target| ==>
         (m[from, to] <==> Step(r, target, absorbing, symbol, from, to))
  }

  // ----- One symbol's step matrix -----

  method TerminalStep(target: seq<Byte>, absorbing: bool, text: seq<Byte>) returns (step: array2<bool>)
    ensures fresh(step)
    ensures IsStep(step, {}, target, absorbing, Terminal(text))
  {
    var n := |target|;
    step := new bool[n + 1, n + 1]((_, _) => false);
    for from := 0 to n + 1
      invariant forall p: nat, q: nat :: p <= n && q <= n ==>
                  (step[p, q] <==> p < from && Edge(target, absorbing, text, p) == Some(q))
    {
      var to := if from < n then
                  if text <= target[from..] then Some(from + |text|) else None
                else if absorbing then Some(n)
                else None;
      if to.Some? {
        step[from, to.value] := true;
      }
    }
  }

  method CloneRow(relation: array3<bool>, nt: nat, ghost r: set<Fact>, target: seq<Byte>, absorbing: bool) returns (step: array2<bool>)
    requires Holds(relation, r) && relation.Length1 == |target| + 1 && nt < relation.Length0
    ensures fresh(step)
    ensures IsStep(step, r, target, absorbing, Nonterminal(nt))
  {
    var states := |target| + 1;
    step := new bool[states, states];
    for from := 0 to states
      invariant forall p: nat, q: nat :: p < from && q < states ==> step[p, q] == relation[nt, p, q]
    {
      for to := 0 to states
        invariant forall p: nat, q: nat :: p < from && q < states ==> step[p, q] == relation[nt, p, q]
        invariant forall q: nat :: q < to ==> step[from, q] == relation[nt, from, q]
      {
        step[from, to] := relation[nt, from, to];
      }
    }
  }

  // ----- Boolean matrix product -----

  ghost predicate Joined(composed: array2<bool>, step: array2<bool>, from: nat, mids: nat, to: nat)
    requires from < composed.Length0 && mids <= composed.Length1 && mids <= step.Length0 && to < step.Length1
    reads composed, step
  {
    exists mid: nat :: mid < mids && composed[from, mid] && step[mid, to]
  }

  method Product(composed: array2<bool>, step: array2<bool>, states: nat) returns (next: array2<bool>)
    requires IsMatrix(composed, states) && IsMatrix(step, states)
    ensures fresh(next) && IsMatrix(next, states)
    ensures forall p: nat, q: nat :: p < states && q < states ==>
              (next[p, q] <==> Joined(composed, step, p, states, q))
  {
    next := new bool[states, states]((_, _) => false);
    for from := 0 to states
      invariant forall p: nat, q: nat :: p < states && q < states ==>
                  (next[p, q] <==> p < from && Joined(composed, step, p, states, q))
    {
      for mid := 0 to states
        invariant forall p: nat, q: nat :: p < states && q < states && p != from ==>
                    (next[p, q] <==> p < from && Joined(composed, step, p, states, q))
        invariant forall q: nat :: q < states ==> (next[from, q] <==> Joined(composed, step, from, mid, q))
      {
        if composed[from, mid] {
          OrRow(next, step, from, mid, states);
        }
        assert forall q: nat :: q < states ==>
            (Joined(composed, step, from, mid + 1, q) <==> Joined(composed, step, from, mid, q) || (composed[from, mid] && step[mid, q]));
      }
    }
  }

  /** `next[from] |= step[mid]`, entry by entry. */
  method OrRow(next: array2<bool>, step: array2<bool>, from: nat, mid: nat, states: nat)
    requires next != step && IsMatrix(next, states) && IsMatrix(step, states) && from < states && mid < states
    modifies next
    ensures forall p: nat, q: nat :: p < states && q < states ==>
              next[p, q] == (old(next[p, q]) || (p == from && step[mid, q]))
  {
    for to := 0 to states
      invariant forall p: nat, q: nat :: p < states && q < states ==>
                  next[p, q] == (old(next[p, q]) || (p == from && q < to && step[mid, q]))
    {
      if step[mid, to] {
        next[from, to] := true;
      }
    }
  }

  // ----- Composing a right-hand side, left to right -----

  method ComposeRhs(relation: array3<bool>, ghost r: set<Fact>, rhs: seq<Symbol>, target: seq<Byte>, absorbing: bool)
    returns (composed: array2<bool>)
    requires Holds(relation, r) && relation.Length1 == |target| + 1
    requires forall s :: s in rhs && s.Nonterminal? ==> s.id < relation.Length0
    ensures IsPath(composed, r, target, absorbing, rhs)
  {
    var states := |target| + 1;
    composed := new bool[states, states]((from, to) => from == to);
    assert rhs[..0] == [];
    for i := 0 to |rhs|
      invariant IsPath(composed, r, target, absorbing, rhs[..i])
    {
      var step: array2<bool>;
      match rhs[i] {
        case Nonterminal(id) => step := CloneRow(relation, id, r, target, absorbing);
        case Terminal(text) => step := TerminalStep(target, absorbing, text);
      }
      assert IsStep(step, r, target, absorbing, rhs[i]);
      var next := Product(composed, step, states);
      assert rhs[..i + 1][..i] == rhs[..i];
      assert forall p: nat, q: nat :: p < states && q < states && Path(r, target, absorbing, rhs[..i + 1], p, q) ==> Joined(composed, step, p, states, q);
      composed := next;
    }
    assert rhs[..|rhs|] == rhs;
  }

  // ----- Adding what a rule derives -----

  /** `now` is `r` with those facts of `after` about `lhs` that come before the cell (`from`, `to`), row by row. */
  ghost predicate AddedTo(now: set<Fact>, r: set<Fact>, after: set<Fact>, lhs: nat, from: nat, to: nat) {
    forall f: Fact :: f in now <==> f in r || (f in after && f.nt == lhs && (f.from < from || (f.from == from && f.to < to)))
  }

  lemma NextCell(now: set<Fact>, r: set<Fact>, after: set<Fact>, lhs: nat, from: nat, to: nat)
    requires AddedTo(now, r, after, lhs, from, to)
    ensures AddedTo(if Fact(lhs, from, to) in after then now + {Fact(lhs, from, to)} else now, r, after, lhs, from, to + 1)
  {
  }

  lemma NextRow(now: set<Fact>, r: set<Fact>, rule: Rule, target: seq<Byte>, absorbing: bool, from: nat)
    requires AddedTo(now, r, AfterRule(r, rule, target, absorbing), rule.lhs, from, |target| + 1)
    ensures AddedTo(now, r, AfterRule(r, rule, target, absorbing), rule.lhs, from + 1, 0)
  {
    forall f | f in AfterRule(r, rule, target, absorbing) && f !in r ensures f.to <= |target| {
      InAfterRule(r, rule, target, absorbing, f);
    }
  }

  lemma AllAdded(now: set<Fact>, r: set<Fact>, rule: Rule, target: seq<Byte>, absorbing: bool)
    requires AddedTo(now, r, AfterRule(r, rule, target, absorbing), rule.lhs, |target| + 1, 0)
    ensures now == AfterRule(r, rule, target, absorbing)
  {
    forall f ensures f in now <==> f in AfterRule(r, rule, target, absorbing) {
      InAfterRule(r, rule, target, absorbing, f);
    }
  }

  /** The cell is added unless it is there; a set that gains a fact has changed. */
  method AddCell(relation: array3<bool>, ghost now: set<Fact>, lhs: nat, from: nat, to: nat) returns (added: bool)
    requires Holds(relation, now) && lhs < relation.Length0 && from < relation.Length1 && to < relation.Length2
    modifies relation
    ensures Holds(relation, now + {Fact(lhs, from, to)}) && (added <==> Fact(lhs, from, to) !in now)
  {
    added := !relation[lhs, from, to];
    assert Fact(lhs, from, to) in now <==> !added;
    if added {
      relation[lhs, from, to] := true;
    }
  }

  method ApplyRule(relation: array3<bool>, ghost r: set<Fact>, rule: Rule, target: seq<Byte>, absorbing: bool) returns (changed: bool)
    requires Holds(relation, r) && relation.Length1 == |target| + 1
    requires rule.lhs < relation.Length0 && forall s :: s in rule.rhs && s.Nonterminal? ==> s.id < relation.Length0
    modifies relation
    ensures Holds(relation, AfterRule(r, rule, target, absorbing))
    ensures changed <==> AfterRule(r, rule, target, absorbing) != r
  {
    var states := |target| + 1;
    var composed := ComposeRhs(relation, r, rule.rhs, target, absorbing);
    changed := false;
    ghost var after, now := AfterRule(r, rule, target, absorbing), r;
    for from := 0 to states
      invariant IsPath(composed, r, target, absorbing, rule.rhs)
      invariant Holds(relation, now) && AddedTo(now, r, after, rule.lhs, from, 0) && (changed <==> now != r)
    {
      for to := 0 to states
        invariant IsPath(composed, r, target, absorbing, rule.rhs)
        invariant Holds(relation, now) && AddedTo(now, r, after, rule.lhs, from, to) && (changed <==> now != r)
      {
        InAfterRule(r, rule, target, absorbing, Fact(rule.lhs, from, to));
        NextCell(now, r, after, rule.lhs, from, to);
        if composed[from, to] {
          var added := AddCell(relation, now, rule.lhs, from, to);
          now := now + {Fact(rule.lhs, from, to)};
          changed := changed || added;
        }
      }
      NextRow(now, r, rule, target, absorbing, from);
    }
    AllAdded(now, r, rule, target, absorbing);
  }

  // ----- The fixpoint -----

  ghost predicate FitsRules(relation: array3<bool>, rules: seq<Rule>) {
    forall rule :: rule in rules ==> rule.lhs < relation.Length0 && forall s :: s in rule.rhs && s.Nonterminal? ==> s.id < relation.Length0
  }

  /** The empty rules hold on every diagonal before the first round. */
  method SeedEpsilon(relation: array3<bool>, rules: seq<Rule>, target: seq<Byte>, absorbing: bool) returns (ghost r: set<Fact>)
    requires Holds(relation, {}) && relation.Length1 == |target| + 1 && FitsRules(relation, rules)
    modifies relation
    ensures Holds(relation, r)
    ensures Justified(rules, target, absorbing, r) && r <= Universe(relation.Length0, |target| + 1)
  {
    r := {};
    for i := 0 to |rules|
      invariant Holds(relation, r)
      invariant Justified(rules, target, absorbing, r) && r <= Universe(relation.Length0, |target| + 1)
    {
      var rule := rules[i];
      if rule.rhs == [] {
        ghost var before := r;
        label Start:
        for state := 0 to |target| + 1
          invariant forall a: nat, p: nat, q: nat :: a < relation.Length0 && p <= |target| && q <= |target| ==>
                      (relation[a, p, q] <==> old@Start(relation[a, p, q]) || (a == rule.lhs && p == q && p < state))
        {
          relation[rule.lhs, state, state] := true;
        }
        r := AfterRule(before, rule, target, absorbing);
        forall f: Fact
          ensures f in r <==>
              f.nt < relation.Length0 && f.from <= |target| && f.to <= |target| && relation[f.nt, f.from, f.to]
        {
          InAfterRule(before, rule, target, absorbing, f);
        }
        AfterRuleSound(rules, target, absorbing, before, rule, relation.Length0);
      }
    }
  }

  /** One pass over the rules, each reading the rows that earlier rules of the pass already updated. */
  method Round(relation: array3<bool>, ghost r0: set<Fact>, rules: seq<Rule>, target: seq<Byte>, absorbing: bool)
    returns (changed: bool, ghost r: set<Fact>)
    requires Holds(relation, r0) && relation.Length1 == |target| + 1 && FitsRules(relation, rules)
    requires Justified(rules, target, absorbing, r0) && r0 <= Universe(relation.Length0, |target| + 1)
    modifies relation
    ensures Holds(relation, r)
    ensures Justified(rules, target, absorbing, r) && r0 <= r <= Universe(relation.Length0, |target| + 1)
    ensures changed <==> r != r0
    ensures !changed ==> Closed(rules, target, absorbing, r)
  {
    r := r0;
    changed := false;
    for i := 0 to |rules|
      invariant Holds(relation, r)
      invariant Justified(rules, target, absorbing, r) && r0 <= r <= Universe(relation.Length0, |target| + 1)
      invariant changed <==> r != r0
      invariant !changed ==> forall k :: 0 <= k < i ==> ClosedUnder(rules[k], target, absorbing, r)
    {
      ghost var before := r;
      var ruleChanged := ApplyRule(relation, r, rules[i], target, absorbing);
      r := AfterRule(before, rules[i], target, absorbing);
      AfterRuleSound(rules, target, absorbing, before, rules[i], relation.Length0);
      if !ruleChanged {
        NoChangeMeansClosed(target, absorbing, r, rules[i]);
      } else {
        assert r != r0;
      }
      changed := changed || ruleChanged;
    }
  }

  /** The oracle's relation: afterwards an entry is true exactly when the nonterminal derives some
      terminal string that drives the DFA between the two states. `rounds` counts the passes. */
  method DeriveRelation(rules: seq<Rule>, target: seq<Byte>, absorbing: bool) returns (relation: array3<bool>, ghost rounds: nat)
    ensures relation.Length0 == NonterminalCount(rules) && relation.Length1 == relation.Length2 == |target| + 1
    ensures forall nt: nat, from: nat, to: nat :: nt < relation.Length0 && from <= |target| && to <= |target| ==>
              (relation[nt, from, to] <==> Reaches(rules, target, absorbing, nt, from, to))
    ensures rounds <= NonterminalCount(rules) * ((|target| + 1) * (|target| + 1)) + 1
  {
    var count, states := NonterminalCount(rules), |target| + 1;
    relation := new bool[count, states, states]((_, _, _) => false);
    ghost var r := SeedEpsilon(relation, rules, target, absorbing);
    rounds := 0;
    while true
      invariant Holds(relation, r)
      invariant Justified(rules, target, absorbing, r) && r <= Universe(count, states)
      invariant rounds <= |r|
      decreases Universe(count, states) - r
    {
      ghost var before := r;
      var changed;
      changed, r := Round(relation, r, rules, target, absorbing);
      rounds := rounds + 1;
      SubsetSize(before, r);
      if !changed {
        break;
      }
      assert r - before != {};
    }
    SubsetSize(r, Universe(count, states));
    UniverseSize(count, states);
    forall nt: nat, from: nat, to: nat | nt < count && from <= |target| && to <= |target|
      ensures relation[nt, from, to] <==> Reaches(rules, target, absorbing, nt, from, to)
    {
      FixpointIsExact(rules, target, absorbing, r, nt, from, to);
      assert relation[nt, from, to] <==> Fact(nt, from, to) in r;
    }
  }
}
