/** How far the enumeration must look for the compact grammar of the nullable left-recursive regression. */
module CompactGrammar {
  import opened Cfg
  import opened Cases
  import opened ExactOracle
  import opened BoundedWords

  const B: Byte := 98
  const C: Byte := 99

  /** `n1: "c" | n1 n0 n1 |` and `n0: n1 "b"`, started at `n1`. */
  function Compact(bound: nat): Case {
    Case(1, bound, [(1, [-3]), (0, [1, -2]), (1, [1, 0, 1]), (1, [])])
  }

  const COMPACT_RULES: seq<Rule> := [
    Rule(1, [Terminal([C])]),
    Rule(0, [Nonterminal(1), Terminal([B])]),
    Rule(1, [Nonterminal(1), Nonterminal(0), Nonterminal(1)]),
    Rule(1, [])
  ]

  lemma CompactRules(bound: nat)
    ensures ByteRules(Compact(bound)) == COMPACT_RULES
  {
    var rules := ByteRules(Compact(bound));
    assert rules[0].rhs == COMPACT_RULES[0].rhs && rules[1].rhs == COMPACT_RULES[1].rhs;
    assert rules[2].rhs == COMPACT_RULES[2].rhs && rules[3].rhs == COMPACT_RULES[3].rhs;
  }

  /** Leading `c`s, and all `b`s. */
  function Lead(w: Word): nat {
    if w != [] && w[0] == C then 1 + Lead(w[1..]) else 0
  }

  function Bs(w: Word): nat {
    if w == [] then 0 else (if w[0] == B then 1 else 0) + Bs(w[1..])
  }

  lemma {:induction false} LeadConcat(a: Word, b: Word)
    ensures Lead(a) <= |a| && Lead(a) + Bs(a) <= |a|
    ensures Bs(a + b) == Bs(a) + Bs(b)
    ensures Lead(a + b) == if Lead(a) == |a| then |a| + Lead(b) else Lead(a)
    decreases |a|
  {
    if a == [] {
      assert a + b == b;
    } else {
      LeadConcat(a[1..], b);
      assert (a + b)[1..] == a[1..] + b;
    }
  }

  /** Each further leading `c` costs a `b`. */
  predicate Costly(w: Word) {
    Lead(w) <= Bs(w) + 1
  }

  lemma CostlyJoin(x: Word, y: Word, z: Word)
    requires Costly(x) && Costly(y)
    ensures Costly(x + y + [B] + z)
  {
    var one, rest := [B], [B] + z;
    assert one[1..] == [] && rest[1..] == z;
    LeadConcat(x, y + rest);
    LeadConcat(y, rest);
    assert x + (y + rest) == x + y + [B] + z;
  }

  function Yield(d: Derivation): Word {
    Flatten(Leaves(d))
  }

  lemma YieldExpand(rule: Rule, body: Derivation, tail: Derivation)
    ensures Yield(Expand(rule, body, tail)) == Yield(body) + Yield(tail)
  {
    FlattenConcat(Leaves(body), Leaves(tail));
  }

  /** The long rule's body: two words of `n1`, a `b`, and a third one. */
  lemma CompactParts(body: Derivation) returns (first: Derivation, second: Derivation, third: Derivation)
    requires Derives(COMPACT_RULES, COMPACT_RULES[2].rhs, body)
    ensures first.Expand? && second.Expand? && third.Expand?
    ensures first.rule.lhs == second.rule.lhs == third.rule.lhs == 1
    ensures first.rule in COMPACT_RULES && second.rule in COMPACT_RULES && third.rule in COMPACT_RULES
    ensures Derives(COMPACT_RULES, first.rule.rhs, first.body) && first.body < body
    ensures Derives(COMPACT_RULES, second.rule.rhs, second.body) && second.body < body
    ensures Derives(COMPACT_RULES, third.rule.rhs, third.body) && third.body < body
    ensures Yield(body) == Yield(first.body) + Yield(second.body) + [B] + Yield(third.body)
  {
    var n0n1, n1, b := [Nonterminal(0), Nonterminal(1)], [Nonterminal(1)], [Terminal([B])];
    first := body;
    FirstExpands(COMPACT_RULES, COMPACT_RULES[2].rhs, first);
    assert COMPACT_RULES[2].rhs[1..] == n0n1;
    var middle := first.tail;
    FirstExpands(COMPACT_RULES, n0n1, middle);
    assert n0n1[1..] == n1 && middle.rule == COMPACT_RULES[1];
    second := middle.body;
    FirstExpands(COMPACT_RULES, COMPACT_RULES[1].rhs, second);
    assert COMPACT_RULES[1].rhs[1..] == b;
    OneTerminal(COMPACT_RULES, [B], second.tail);
    third := middle.tail;
    FirstExpands(COMPACT_RULES, n1, third);
    assert n1[1..] == [] && third.tail == Done;
    CompactYield(first.rule, first.body, middle.rule, second.rule, second.body, third.rule, third.body);
  }

  lemma CompactYield(r1: Rule, b1: Derivation, r0: Rule, r2: Rule, b2: Derivation, r3: Rule, b3: Derivation)
    ensures Yield(Expand(r1, b1, Expand(r0, Expand(r2, b2, Shift([B], Done)), Expand(r3, b3, Done))))
            == Yield(b1) + Yield(b2) + [B] + Yield(b3)
  {
    var last := Shift([B], Done);
    var second, third := Expand(r2, b2, last), Expand(r3, b3, Done);
    YieldExpand(r1, b1, Expand(r0, second, third));
    YieldExpand(r0, second, third);
    YieldExpand(r2, b2, last);
    YieldExpand(r3, b3, Done);
    assert Leaves(last) == [[B]];
    FlattenOne([B]);
    CompactRegroup(Yield(b1), Yield(b2), [B], Yield(b3));
  }

  lemma CompactRegroup(x: Word, y: Word, b: Word, z: Word)
    ensures x + ((y + b) + (z + [])) == x + y + b + z
  {
  }

  lemma {:induction false} CompactCostly(rule: Rule, body: Derivation)
    requires rule in COMPACT_RULES && rule.lhs == 1 && Derives(COMPACT_RULES, rule.rhs, body)
    ensures Costly(Yield(body))
    decreases body
  {
    if rule == COMPACT_RULES[2] {
      var first, second, third := CompactParts(body);
      CompactCostly(first.rule, first.body);
      CompactCostly(second.rule, second.body);
      CostlyJoin(Yield(first.body), Yield(second.body), Yield(third.body));
    } else if rule == COMPACT_RULES[0] {
      assert Derives(COMPACT_RULES, rule.rhs[1..], body.tail) && rule.rhs[1..] == [];
      assert Leaves(body) == [[C]];
      FlattenOne([C]);
    }
  }

  lemma CompactWordCostly(w: Word)
    requires InLanguage(COMPACT_RULES, 1, w)
    ensures Costly(w)
  {
    var texts :| Generates(COMPACT_RULES, 1, texts) && Flatten(texts) == w;
    var symbols := [Nonterminal(1)];
    var d :| Derives(COMPACT_RULES, symbols, d) && Leaves(d) == texts;
    FirstExpands(COMPACT_RULES, symbols, d);
    assert symbols[1..] == [] && d.tail == Done;
    YieldExpand(d.rule, d.body, d.tail);
    assert w == Yield(d.body) + [] == Yield(d.body);
    CompactCostly(d.rule, d.body);
  }

  // ----- Completing any string of `b`s and `c`s -----

  ghost predicate IsCompactWord(w: Word) {
    InLanguage(COMPACT_RULES, 1, w)
  }

  lemma CompactDerivation(w: Word) returns (d: Derivation)
    requires IsCompactWord(w)
    ensures Derives(COMPACT_RULES, [Nonterminal(1)], d) && Yield(d) == w
  {
    var texts :| Generates(COMPACT_RULES, 1, texts) && Flatten(texts) == w;
    d :| Derives(COMPACT_RULES, [Nonterminal(1)], d) && Leaves(d) == texts;
  }

  lemma CompactByRule(rule: Rule, body: Derivation)
    requires rule in COMPACT_RULES && rule.lhs == 1 && Derives(COMPACT_RULES, rule.rhs, body)
    ensures IsCompactWord(Yield(body))
  {
    var d, symbols := Expand(rule, body, Done), [Nonterminal(1)];
    assert symbols[1..] == [];
    assert Derives(COMPACT_RULES, symbols, d);
    YieldExpand(rule, body, Done);
    assert Generates(COMPACT_RULES, 1, Leaves(d)) && Flatten(Leaves(d)) == Yield(body) + [];
  }

  lemma CompactJoin(x: Word, y: Word)
    requires IsCompactWord(x) && IsCompactWord(y)
    ensures IsCompactWord(x + y + [B])
  {
    var dx := CompactDerivation(x);
    var dy := CompactDerivation(y);
    var body := CompactBody(dx, dy);
    CompactByRule(COMPACT_RULES[2], body);
  }

  lemma CompactBody(dx: Derivation, dy: Derivation) returns (body: Derivation)
    requires Derives(COMPACT_RULES, [Nonterminal(1)], dx) && Derives(COMPACT_RULES, [Nonterminal(1)], dy)
    ensures Derives(COMPACT_RULES, COMPACT_RULES[2].rhs, body)
    ensures Yield(body) == Yield(dx) + Yield(dy) + [B]
  {
    var n1, b, n0, last := [Nonterminal(1)], [Terminal([B])], [Nonterminal(0)], Shift([B], Done);
    assert b[1..] == [] && n0[1..] == [] && n1[1..] == [] && Derives(COMPACT_RULES, b, last);
    AppendDerives(COMPACT_RULES, n1, b, dy, last);
    assert n1 + b == COMPACT_RULES[1].rhs;
    var middle := Expand(COMPACT_RULES[1], Append(dy, last), Done);
    var third := Expand(COMPACT_RULES[3], Done, Done);
    assert Derives(COMPACT_RULES, n0, middle) && Derives(COMPACT_RULES, n1, third);
    AppendDerives(COMPACT_RULES, n0, n1, middle, third);
    AppendDerives(COMPACT_RULES, n1, n0 + n1, dx, Append(middle, third));
    assert n1 + (n0 + n1) == COMPACT_RULES[2].rhs;
    body := Append(dx, Append(middle, third));
    CompactLeaves(Leaves(dx), Leaves(dy), Leaves(body));
  }

  lemma CompactLeaves(x: seq<Word>, y: seq<Word>, all: seq<Word>)
    requires all == x + (y + [[B]] + [] + ([] + []))
    ensures Flatten(all) == Flatten(x) + Flatten(y) + [B]
  {
    assert all == x + (y + [[B]]);
    FlattenConcat(x, y + [[B]]);
    FlattenConcat(y, [[B]]);
    FlattenOne([B]);
  }

  lemma CompactLetter(x: Byte)
    requires x == B || x == C
    ensures IsCompactWord([x]) && IsCompactWord([])
  {
    CompactByRule(COMPACT_RULES[3], Done);
    var none: Word := [];
    assert Yield(Done) == none;
    if x == B {
      CompactJoin(none, none);
      assert none + none + [B] == [B];
    } else {
      var c := Shift([C], Done);
      assert COMPACT_RULES[0].rhs[1..] == [] && Leaves(c) == [[C]];
      FlattenOne([C]);
      CompactByRule(COMPACT_RULES[0], c);
    }
  }

  predicate OnlyBC(w: Word) {
    forall i :: 0 <= i < |w| ==> w[i] == B || w[i] == C
  }

  /** Every string of `b`s and `c`s is completed by one `b` less than it is long. */
  lemma {:induction false} CompactCompletes(p: Word)
    requires p != [] && OnlyBC(p)
    ensures IsCompactWord(p + seq(|p| - 1, _ => B))
  {
    CompactLetter(p[0]);
    if |p| == 1 {
      assert p + seq(|p| - 1, _ => B) == [p[0]];
    } else {
      var rest, fewer := p[1..], seq(|p| - 2, _ => B);
      CompactCompletes(rest);
      CompactJoin([p[0]], rest + fewer);
      assert [p[0]] + (rest + fewer) + [B] == p + seq(|p| - 1, _ => B);
    }
  }

  // ----- The margin that the compact grammar needs -----

  lemma {:induction false} FlattenOnlyBC(texts: seq<Word>)
    requires forall t :: t in texts ==> OnlyBC(t)
    ensures OnlyBC(Flatten(texts))
  {
    if texts != [] {
      FlattenOnlyBC(texts[1..]);
      assert OnlyBC(texts[0]) && Flatten(texts) == texts[0] + Flatten(texts[1..]);
    }
  }

  lemma CompactOnlyBC(w: Word)
    requires IsCompactWord(w)
    ensures OnlyBC(w)
  {
    var texts :| Generates(COMPACT_RULES, 1, texts) && Flatten(texts) == w;
    GeneratedSatisfy(COMPACT_RULES, 1, texts, t => OnlyBC(t));
    FlattenOnlyBC(texts);
  }

  lemma {:induction false} LeadOfCs(n: nat, w: Word)
    requires seq(n, _ => C) <= w
    ensures Lead(w) >= n
    decreases n
  {
    if n > 0 {
      assert seq(n, _ => C)[1..] == seq(n - 1, _ => C);
      LeadOfCs(n - 1, w[1..]);
    }
  }

  lemma CompactWords(bound: nat)
    ensures forall w :: CaseWord(Compact(bound), w) <==> InLanguage(COMPACT_RULES, 1, w)
  {
    CompactRules(bound);
    forall w ensures CaseWord(Compact(bound), w) <==> InLanguage(COMPACT_RULES, 1, w) {
      SameWords(Compact(bound), w);
    }
  }

  /** The compact grammar needs exactly one byte less than the bound: two bytes are just enough for its bound of
      three, and not for any larger one. */
  lemma CompactMargin(bound: nat, margin: nat)
    ensures EnumerationDecides(Compact(bound), margin) <==> bound <= margin + 1
  {
    var c := Compact(bound);
    EnumerationDecidesIff(c, margin);
    if bound <= margin + 1 {
      forall p | |p| == bound && CaseViable(c, p) ensures Witnessed(c, margin, p) {
        CompactWitness(bound, margin, p);
      }
    } else {
      CompactUnwitnessed(bound, margin);
    }
  }

  /** A string of `c`s alone is only completed by as many `b`s, but one. */
  lemma CompactUnwitnessed(bound: nat, margin: nat)
    requires bound > margin + 1
    ensures var p: Word := seq(bound, _ => C); CaseViable(Compact(bound), p) && !Witnessed(Compact(bound), margin, p)
  {
    var p: Word := seq(bound, _ => C);
    CompactWords(bound);
    CompactCompletes(p);
    assert CaseWord(Compact(bound), p + seq(bound - 1, _ => B));
    forall w | CaseWord(Compact(bound), w) && p <= w ensures |w| > bound + margin {
      CompactWordCostly(w);
      LeadOfCs(bound, w);
      LeadConcat(w, []);
    }
  }

  lemma CompactWitness(bound: nat, margin: nat, p: Word)
    requires bound <= margin + 1 && |p| == bound && CaseViable(Compact(bound), p)
    ensures Witnessed(Compact(bound), margin, p)
  {
    CompactWords(bound);
    var w :| CaseWord(Compact(bound), w) && p <= w;
    CompactOnlyBC(w);
    CompactLetter(B);
    var x := if p == [] then [] else p + seq(bound - 1, _ => B);
    if p != [] {
      CompactCompletes(p);
    }
    assert CaseWord(Compact(bound), x) && |x| <= bound + margin && p <= x;
  }
}
