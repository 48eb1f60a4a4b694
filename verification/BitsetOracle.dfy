/** The same oracle with each relation row packed into one `u64`: bit `to` of `derives[nt, from]`. */
module BitsetOracle {
  import opened Cfg
  import opened Collections
  import opened PrefixDfa
  import opened Words
  import opened ExactOracle
  import BooleanOracle

  const MAX_STATES: nat := 8

  function LhsBound(rules: seq<Rule>): (bound: nat)
    ensures forall rule :: rule in rules ==> rule.lhs < bound
  {
    if rules == [] then 0
    else
      assert forall rule :: rule in rules ==> rule == rules[0] || rule in rules[1..];
      Max(rules[0].lhs + 1, LhsBound(rules[1..]))
  }

  /** There is no row too many. */
  lemma {:induction false} LhsBoundReached(rules: seq<Rule>)
    ensures LhsBound(rules) > 0 ==> exists rule :: rule in rules && rule.lhs == LhsBound(rules) - 1
  {
    if rules != [] {
      var first, rest := rules[0], rules[1..];
      assert rules == [first] + rest;
      LhsBoundReached(rest);
      assert first in rules;
      if LhsBound(rest) > 0 {
        var rule :| rule in rest && rule.lhs == LhsBound(rest) - 1;
        assert rule in rules;
      }
    }
  }

  /** Rows allocated: every left-hand side and the start symbol have one. */
  function RowCount(rules: seq<Rule>, start: nat): nat {
    Max(LhsBound(rules), start + 1)
  }

  ghost predicate NonterminalsBelow(rule: Rule, count: nat) {
    rule.lhs < count && forall s :: s in rule.rhs && s.Nonterminal? ==> s.id < count
  }

  ghost predicate Holds(derives: array2<u64>, r: set<Fact>)
    reads derives
  {
    && derives.Length1 == MAX_STATES
    && forall f: Fact :: f in r <==> f.nt < derives.Length0 && f.from < MAX_STATES && Has(derives[f.nt, f.from], f.to)
  }

  ghost predicate IsPath(rows: array<u64>, r: set<Fact>, target: seq<Byte>, absorbing: bool, symbols: seq<Symbol>)
    requires |target| < MAX_STATES
    reads rows
  {
    && rows.Length == MAX_STATES
    && forall from: nat, to: nat :: from <= |target| ==>
         (Has(rows[from], to) <==> to <= |target| && Path(r, target, absorbing, symbols, from, to))
  }

  ghost predicate IsStep(rows: array<u64>, r: set<Fact>, target: seq<Byte>, absorbing: bool, symbol: Symbol)
    requires |target| < MAX_STATES
    reads rows
  {
    && rows.Length == MAX_STATES
    && forall from: nat, to: nat :: from <= |target| ==>
         (Has(rows[from], to) <==> to <= |target| && Step(r, target, absorbing, symbol, from, to))
  }

  method IdentityRows(ghost r: set<Fact>, target: seq<Byte>, absorbing: bool) returns (rows: array<u64>)
    requires |target| < MAX_STATES
    ensures fresh(rows) && IsPath(rows, r, target, absorbing, [])
  {
    rows := new u64[MAX_STATES](_ => 0);
    for state := 0 to |target| + 1
      invariant forall from: nat, to: nat :: from < state ==> (Has(rows[from], to) <==> from == to)
    {
      rows[state] := Bit64(state);
      forall to: nat ensures Has(rows[state], to) <==> state == to { HasPow2(state, to); }
    }
  }

  method ByteRows(target: seq<Byte>, absorbing: bool, byte: Byte, ghost r: set<Fact>) returns (rows: array<u64>)
    requires |target| < MAX_STATES
    ensures fresh(rows) && IsStep(rows, r, target, absorbing, Terminal([byte]))
  {
    var n := |target|;
    rows := new u64[MAX_STATES](_ => 0);
    for state := 0 to n + 1
      invariant forall k :: state <= k < MAX_STATES ==> rows[k] == 0
      invariant forall from: nat, to: nat :: from < state ==>
                  (Has(rows[from], to) <==> to <= n && Step(r, target, absorbing, Terminal([byte]), from, to))
    {
      if state == n {
        if absorbing {
          rows[state] := Or64(rows[state], Bit64(n));
        }
      } else if target[state] == byte {
        rows[state] := Or64(rows[state], Bit64(state + 1));
      }
      forall to: nat
        ensures Has(rows[state], to) <==> to <= n && Step(r, target, absorbing, Terminal([byte]), state, to)
      {
        HasZero(to);
        HasOr(0, Pow2(n), to);
        HasPow2(n, to);
        HasOr(0, Pow2(state + 1), to);
        HasPow2(state + 1, to);
        assert state < n ==> ([byte] <= target[state..] <==> target[state] == byte);
      }
    }
  }

  method CopyRows(derives: array2<u64>, nt: nat, ghost r: set<Fact>, target: seq<Byte>, absorbing: bool) returns (rows: array<u64>)
    requires |target| < MAX_STATES && nt < derives.Length0
    requires Holds(derives, r) && r <= Universe(derives.Length0, |target| + 1)
    ensures fresh(rows) && IsStep(rows, r, target, absorbing, Nonterminal(nt))
  {
    rows := new u64[MAX_STATES](_ => 0);
    for from := 0 to MAX_STATES
      invariant forall k :: 0 <= k < from ==> rows[k] == derives[nt, k]
    {
      rows[from] := derives[nt, from];
    }
    forall from: nat, to: nat | from <= |target|
      ensures Has(rows[from], to) <==> to <= |target| && Step(r, target, absorbing, Nonterminal(nt), from, to)
    {
      assert Has(derives[nt, from], to) <==> Fact(nt, from, to) in r;
    }
  }

  ghost predicate Joined(bits: u64, step: seq<u64>, mids: nat, to: nat)
    requires mids <= |step|
  {
    exists mid: nat :: mid < mids && Has(bits, mid) && Has(step[mid], to)
  }

  /** `row |= step[mid]` for every bit `mid` of `bits`. */
  method OrRows(bits: u64, step: array<u64>, states: nat) returns (row: u64)
    requires states <= step.Length && states <= 64
    ensures forall to: nat :: Has(row, to) <==> Joined(bits, step[..], states, to)
  {
    row := 0;
    forall to: nat ensures !Has(row, to) { HasZero(to); }
    for mid := 0 to states
      invariant forall to: nat :: Has(row, to) <==> Joined(bits, step[..], mid, to)
    {
      ghost var before := row;
      HasAndPow2(bits, mid);
      if And(bits, Bit64(mid)) != 0 {
        row := Or64(row, step[mid]);
      }
      forall to: nat
        ensures Has(row, to) <==> Joined(bits, step[..], mid + 1, to)
      {
        HasOr(before, step[mid], to);
        assert Joined(bits, step[..], mid + 1, to) <==> Joined(bits, step[..], mid, to) || (Has(bits, mid) && Has(step[..][mid], to));
      }
    }
  }

  method Product(relation: array<u64>, step: array<u64>, states: nat) returns (next: array<u64>)
    requires states <= MAX_STATES && relation.Length == MAX_STATES && step.Length == MAX_STATES
    ensures fresh(next) && next.Length == MAX_STATES
    ensures forall from: nat, to: nat :: from < states ==>
              (Has(next[from], to) <==> Joined(relation[from], step[..], states, to))
  {
    next := new u64[MAX_STATES](_ => 0);
    for from := 0 to states
      invariant forall p: nat, to: nat :: p < from ==> (Has(next[p], to) <==> Joined(relation[p], step[..], states, to))
    {
      next[from] := OrRows(relation[from], step, states);
    }
  }

  /** `bits & (1 << mid) != 0` tests one bit. */
  lemma HasAndPow2(bits: nat, mid: nat)
    ensures And(bits, Pow2(mid)) != 0 <==> Has(bits, mid)
  {
    var masked := And(bits, Pow2(mid));
    HasAnd(bits, Pow2(mid), mid);
    HasPow2(mid, mid);
    if masked != 0 {
      var k := TrailingZeros(masked);
      HasTrailingZeros(masked, 0);
      HasAnd(bits, Pow2(mid), k);
      HasPow2(mid, k);
    } else {
      HasZero(mid);
    }
  }

  lemma JoinedPath(relation: seq<u64>, step: seq<u64>, r: set<Fact>, target: seq<Byte>, absorbing: bool, longer: seq<Symbol>, from: nat, to: nat)
    requires longer != [] && from <= |target| && |relation| == |step| == MAX_STATES && |target| < MAX_STATES
    requires forall mid: nat :: Has(relation[from], mid) <==> mid <= |target| && Path(r, target, absorbing, longer[..|longer| - 1], from, mid)
    requires forall mid: nat :: mid <= |target| ==>
               (Has(step[mid], to) <==> to <= |target| && Step(r, target, absorbing, longer[|longer| - 1], mid, to))
    ensures Joined(relation[from], step, |target| + 1, to) <==> to <= |target| && Path(r, target, absorbing, longer, from, to)
  {
    if Joined(relation[from], step, |target| + 1, to) {
      var mid: nat :| mid < |target| + 1 && Has(relation[from], mid) && Has(step[mid], to);
      assert Path(r, target, absorbing, longer[..|longer| - 1], from, mid) && Step(r, target, absorbing, longer[|longer| - 1], mid, to);
    }
    if to <= |target| && Path(r, target, absorbing, longer, from, to) {
      var mid: nat :| mid <= |target| && Path(r, target, absorbing, longer[..|longer| - 1], from, mid) && Step(r, target, absorbing, longer[|longer| - 1], mid, to);
      assert Has(relation[from], mid) && Has(step[mid], to);
    }
  }

  method ComposeRhs(derives: array2<u64>, ghost r: set<Fact>, rhs: seq<Symbol>, target: seq<Byte>, absorbing: bool)
    returns (relation: array<u64>)
    requires |target| < MAX_STATES
    requires Holds(derives, r) && r <= Universe(derives.Length0, |target| + 1)
    requires forall s :: s in rhs ==> if s.Nonterminal? then s.id < derives.Length0 else |s.text| == 1
    ensures fresh(relation) && IsPath(relation, r, target, absorbing, rhs)
  {
    relation := IdentityRows(r, target, absorbing);
    assert rhs[..0] == [];
    for i := 0 to |rhs|
      invariant fresh(relation) && IsPath(relation, r, target, absorbing, rhs[..i])
    {
      var step: array<u64>;
      assert rhs[i] in rhs;
      match rhs[i] {
        case Nonterminal(id) => step := CopyRows(derives, id, r, target, absorbing);
        case Terminal(text) =>
          assert text == [text[0]];
          step := ByteRows(target, absorbing, text[0], r);
      }
      assert IsStep(step, r, target, absorbing, rhs[i]);
      var next := Product(relation, step, |target| + 1);
      var longer := rhs[..i + 1];
      assert longer[..i] == rhs[..i] && longer[i] == rhs[i];
      forall from: nat, to: nat | from <= |target|
        ensures Has(next[from], to) <==> to <= |target| && Path(r, target, absorbing, longer, from, to)
      {
        JoinedPath(relation[..], step[..], r, target, absorbing, longer, from, to);
      }
      relation := next;
    }
    assert rhs[..|rhs|] == rhs;
  }

  /** `added = bits & !target[from]; if added != 0 { target[from] |= added; changed = true }` */
  method AddRow(derives: array2<u64>, nt: nat, from: nat, bits: u64) returns (changed: bool)
    requires nt < derives.Length0 && from < derives.Length1
    modifies derives
    ensures forall a: nat, p: nat :: a < derives.Length0 && p < derives.Length1 && (a != nt || p != from) ==> derives[a, p] == old(derives[a, p])
    ensures forall q: nat :: Has(derives[nt, from], q) <==> Has(old(derives[nt, from]), q) || Has(bits, q)
    ensures changed ==> exists q: nat :: Has(bits, q) && !Has(old(derives[nt, from]), q)
    ensures !changed ==> derives[nt, from] == old(derives[nt, from])
  {
    ghost var row := derives[nt, from];
    var added := AndNot64(bits, derives[nt, from]);
    changed := added != 0;
    if changed {
      derives[nt, from] := Or64(derives[nt, from], added);
      HasTrailingZeros(added, 0);
      HasAndNot(bits, row, TrailingZeros(added));
    }
    forall q: nat
      ensures Has(derives[nt, from], q) <==> Has(row, q) || Has(bits, q)
    {
      HasOr(row, added, q);
      HasAndNot(bits, row, q);
      HasZero(q);
    }
  }

  method ApplyRule(derives: array2<u64>, ghost r: set<Fact>, rule: Rule, target: seq<Byte>, absorbing: bool) returns (changed: bool)
    requires |target| < MAX_STATES
    requires Holds(derives, r) && r <= Universe(derives.Length0, |target| + 1)
    requires NonterminalsBelow(rule, derives.Length0) && forall s :: s in rule.rhs && s.Terminal? ==> |s.text| == 1
    modifies derives
    ensures Holds(derives, AfterRule(r, rule, target, absorbing))
    ensures changed <==> AfterRule(r, rule, target, absorbing) != r
  {
    var states := |target| + 1;
    var relation := ComposeRhs(derives, r, rule.rhs, target, absorbing);
    ghost var after := AfterRule(r, rule, target, absorbing);
    changed := false;
    for from := 0 to states
      invariant IsPath(relation, r, target, absorbing, rule.rhs)
      invariant forall a: nat, p: nat :: a < derives.Length0 && p < MAX_STATES && (a != rule.lhs || p >= from) ==> derives[a, p] == old(derives[a, p])
      invariant forall p: nat, q: nat :: p < from ==>
                  (Has(derives[rule.lhs, p], q) <==> Has(old(derives[rule.lhs, p]), q) || Has(relation[p], q))
      invariant changed ==> exists f :: f in after && f !in r
      invariant !changed ==> forall a: nat, p: nat :: a < derives.Length0 && p < MAX_STATES ==> derives[a, p] == old(derives[a, p])
    {
      ghost var row := derives[rule.lhs, from];
      var rowChanged := AddRow(derives, rule.lhs, from, relation[from]);
      if rowChanged {
        ghost var q: nat :| Has(relation[from], q) && !Has(row, q);
        InAfterRule(r, rule, target, absorbing, Fact(rule.lhs, from, q));
      }
      changed := changed || rowChanged;
    }
    forall f: Fact
      ensures f in after <==> f.nt < derives.Length0 && f.from < MAX_STATES && Has(derives[f.nt, f.from], f.to)
    {
      InAfterRule(r, rule, target, absorbing, f);
    }
    if !changed {
      assert Holds(derives, r);
      assert forall f :: f in after <==> f in r;
    }
  }

  method Round(derives: array2<u64>, ghost r0: set<Fact>, rules: seq<Rule>, target: seq<Byte>, absorbing: bool)
    returns (changed: bool, ghost r: set<Fact>)
    requires |target| < MAX_STATES && OneByte(rules)
    requires forall rule :: rule in rules ==> NonterminalsBelow(rule, derives.Length0)
    requires Holds(derives, r0) && r0 <= Universe(derives.Length0, |target| + 1) && Justified(rules, target, absorbing, r0)
    modifies derives
    ensures Holds(derives, r)
    ensures Justified(rules, target, absorbing, r) && r0 <= r <= Universe(derives.Length0, |target| + 1)
    ensures changed <==> r != r0
    ensures !changed ==> Closed(rules, target, absorbing, r)
  {
    r := r0;
    changed := false;
    for i := 0 to |rules|
      invariant Holds(derives, r)
      invariant Justified(rules, target, absorbing, r) && r0 <= r <= Universe(derives.Length0, |target| + 1)
      invariant changed <==> r != r0
      invariant !changed ==> forall k :: 0 <= k < i ==> ClosedUnder(rules[k], target, absorbing, r)
    {
      ghost var before := r;
      var ruleChanged := ApplyRule(derives, r, rules[i], target, absorbing);
      r := AfterRule(before, rules[i], target, absorbing);
      AfterRuleSound(rules, target, absorbing, before, rules[i], derives.Length0);
      if !ruleChanged {
        NoChangeMeansClosed(target, absorbing, r, rules[i]);
      }
      changed := changed || ruleChanged;
    }
  }

  /** The packed relation. Bit `to` of row `from` is the same entry as `relation[nt, from, to]` of the
      boolean oracle: both are `Reaches`. No other bit is set. */
  method DeriveRows(rules: seq<Rule>, start: nat, word: seq<Byte>, absorbing: bool) returns (derives: array2<u64>)
    requires |word| + 1 <= 8
    requires OneByte(rules) && forall rule :: rule in rules ==> NonterminalsBelow(rule, RowCount(rules, start))
    ensures derives.Length0 == RowCount(rules, start) && derives.Length1 == MAX_STATES
    ensures forall nt: nat, from: nat, to: nat :: nt < derives.Length0 && from <= |word| ==>
              (Has(derives[nt, from], to) <==> Reaches(rules, word, absorbing, nt, from, to))
  {
    var count := RowCount(rules, start);
    derives := new u64[count, MAX_STATES]((_, _) => 0);
    ghost var r: set<Fact> := {};
    forall to: nat ensures !Has(0, to) { HasZero(to); }
    while true
      invariant Holds(derives, r)
      invariant Justified(rules, word, absorbing, r) && r <= Universe(count, |word| + 1)
      decreases Universe(count, |word| + 1) - r
    {
      ghost var before := r;
      var changed;
      changed, r := Round(derives, r, rules, word, absorbing);
      if !changed {
        break;
      }
      assert r - before != {};
    }
    forall nt: nat, from: nat, to: nat | nt < count && from <= |word|
      ensures Has(derives[nt, from], to) <==> Reaches(rules, word, absorbing, nt, from, to)
    {
      FixpointIsExact(rules, word, absorbing, r, nt, from, to);
      assert Has(derives[nt, from], to) <==> Fact(nt, from, to) in r;
    }
  }

  method DfaDerives(rules: seq<Rule>, start: nat, word: seq<Byte>, absorbing: bool) returns (accepted: bool)
    requires |word| + 1 <= 8
    requires OneByte(rules) && forall rule :: rule in rules ==> NonterminalsBelow(rule, RowCount(rules, start))
    ensures !absorbing ==> (accepted <==> InLanguage(rules, start, word))
    ensures absorbing ==> (accepted <==> Viable(rules, start, word))
  {
    var derives := DeriveRows(rules, start, word, absorbing);
    HasAndPow2(derives[start, 0], |word|);
    accepted := And(derives[start, 0], Bit64(|word|)) != 0;
    ExactDecides(rules, start, word);
    NonemptyTerminalsMembership(rules, start, word);
    AbsorbingDecides(rules, start, word);
    ShortTerminalsViability(rules, start, word);
  }

  /** Packed rows and boolean matrices of one grammar and word hold the same relation. */
  method RefinesBooleanOracle(rules: seq<Rule>, start: nat, word: seq<Byte>, absorbing: bool)
    returns (derives: array2<u64>, relation: array3<bool>)
    requires |word| + 1 <= 8
    requires OneByte(rules) && forall rule :: rule in rules ==> NonterminalsBelow(rule, RowCount(rules, start))
    ensures derives.Length0 == RowCount(rules, start) && derives.Length1 == MAX_STATES
    ensures relation.Length0 == BooleanOracle.NonterminalCount(rules) && relation.Length1 == relation.Length2 == |word| + 1
    ensures forall nt: nat, from: nat, to: nat :: nt < derives.Length0 && nt < relation.Length0 && from <= |word| && to <= |word| ==>
              (Has(derives[nt, from], to) <==> relation[nt, from, to])
  {
    derives := DeriveRows(rules, start, word, absorbing);
    ghost var rounds;
    relation, rounds := BooleanOracle.DeriveRelation(rules, word, absorbing);
  }
}
