/** Context-free grammars over byte strings, and what they derive.
    A terminal is spelled by the bytes it stands for: one byte in the byte-level oracles, a whole
    vocabulary token in the token-level one. Rules may be empty, left recursive, cyclic or unproductive. */
module Cfg {

  type Byte = b: int | 0 <= b < 256

  datatype Symbol = Terminal(text: seq<Byte>) | Nonterminal(id: nat)

  datatype Rule = Rule(lhs: nat, rhs: seq<Symbol>)

  /** Every terminal is a single byte. */
  predicate OneByte(rules: seq<Rule>) {
    forall rule, s :: rule in rules && s in rule.rhs && s.Terminal? ==> |s.text| == 1
  }

  /** A derivation of a whole symbol string, read left to right: `Shift` consumes a terminal and
      `Expand` rewrites the leading nonterminal by a rule, `body` deriving the right-hand side. */
  datatype Derivation =
    | Done
    | Shift(text: seq<Byte>, tail: Derivation)
    | Expand(rule: Rule, body: Derivation, tail: Derivation)

  ghost predicate Derives(rules: seq<Rule>, symbols: seq<Symbol>, d: Derivation)
    decreases d
  {
    match d
    case Done => symbols == []
    case Shift(text, tail) =>
      && symbols != [] && symbols[0] == Terminal(text)
      && Derives(rules, symbols[1..], tail)
    case Expand(rule, body, tail) =>
      && symbols != [] && rule in rules && symbols[0] == Nonterminal(rule.lhs)
      && Derives(rules, rule.rhs, body)
      && Derives(rules, symbols[1..], tail)
  }

  lemma FirstExpands(rules: seq<Rule>, symbols: seq<Symbol>, d: Derivation)
    requires symbols != [] && symbols[0].Nonterminal? && Derives(rules, symbols, d)
    ensures d.Expand? && d.rule in rules && d.rule.lhs == symbols[0].id
    ensures Derives(rules, d.rule.rhs, d.body) && Derives(rules, symbols[1..], d.tail)
  {
  }

  lemma OneTerminal(rules: seq<Rule>, text: seq<Byte>, d: Derivation)
    requires Derives(rules, [Terminal(text)], d)
    ensures d == Shift(text, Done)
  {
    assert [Terminal(text)][1..] == [];
  }

  /** The terminals at the frontier of a derivation, in order. */
  function Leaves(d: Derivation): seq<seq<Byte>> {
    match d
    case Done => []
    case Shift(text, tail) => [text] + Leaves(tail)
    case Expand(_, body, tail) => Leaves(body) + Leaves(tail)
  }

  function Flatten(texts: seq<seq<Byte>>): seq<Byte> {
    if texts == [] then [] else texts[0] + Flatten(texts[1..])
  }

  /** `texts` is a terminal string derived from nonterminal `start`. */
  ghost predicate Generates(rules: seq<Rule>, start: nat, texts: seq<seq<Byte>>) {
    exists d :: Derives(rules, [Nonterminal(start)], d) && Leaves(d) == texts
  }

  /** `word` is in the byte language of nonterminal `start`. */
  ghost predicate InLanguage(rules: seq<Rule>, start: nat, word: seq<Byte>) {
    exists texts :: Generates(rules, start, texts) && Flatten(texts) == word
  }

  function Append(d: Derivation, e: Derivation): Derivation {
    match d
    case Done => e
    case Shift(text, tail) => Shift(text, Append(tail, e))
    case Expand(rule, body, tail) => Expand(rule, body, Append(tail, e))
  }

  lemma {:induction false} AppendDerives(rules: seq<Rule>, left: seq<Symbol>, right: seq<Symbol>, d: Derivation, e: Derivation)
    requires Derives(rules, left, d) && Derives(rules, right, e)
    ensures Derives(rules, left + right, Append(d, e))
    ensures Leaves(Append(d, e)) == Leaves(d) + Leaves(e)
    decreases d
  {
    match d
    case Done =>
      assert left + right == right;
    case Shift(text, tail) =>
      AppendDerives(rules, left[1..], right, tail, e);
      assert (left + right)[1..] == left[1..] + right;
    case Expand(rule, body, tail) =>
      AppendDerives(rules, left[1..], right, tail, e);
      assert (left + right)[1..] == left[1..] + right;
  }

  lemma FlattenOne(text: seq<Byte>)
    ensures Flatten([text]) == text
  {
    var texts := [text];
    assert texts[1..] == [];
  }

  lemma FlattenFirst(text: seq<Byte>, rest: seq<seq<Byte>>)
    ensures Flatten([text] + rest) == text + Flatten(rest)
  {
    assert ([text] + rest)[1..] == rest;
  }

  lemma {:induction false} FlattenConcat(a: seq<seq<Byte>>, b: seq<seq<Byte>>)
    ensures Flatten(a + b) == Flatten(a) + Flatten(b)
  {
    if a == [] {
      assert a + b == b;
    } else {
      FlattenConcat(a[1..], b);
      FlattenFirst(a[0], a[1..] + b);
      assert a + b == [a[0]] + (a[1..] + b);
      assert a[0] + (Flatten(a[1..]) + Flatten(b)) == a[0] + Flatten(a[1..]) + Flatten(b);
    }
  }

  /** A derivation only looks at which rules there are, not at their order or multiplicity. */
  lemma {:induction false} DerivesFromMoreRules(rules: seq<Rule>, more: seq<Rule>, symbols: seq<Symbol>, d: Derivation)
    requires forall rule :: rule in rules ==> rule in more
    requires Derives(rules, symbols, d)
    ensures Derives(more, symbols, d)
    decreases d
  {
    match d
    case Done =>
    case Shift(_, tail) => DerivesFromMoreRules(rules, more, symbols[1..], tail);
    case Expand(rule, body, tail) =>
      DerivesFromMoreRules(rules, more, rule.rhs, body);
      DerivesFromMoreRules(rules, more, symbols[1..], tail);
  }
}
