/** Grammars as the tests write them, and what they derive. */
module Cases {
  import opened Cfg

  /** Symbols at or above 0 are nonterminals, the others terminals. */
  datatype Case = Case(start: nat, bound: nat, rules: seq<(nat, seq<int>)>)

  // ----- Derivations over the integers themselves -----

  /** `Consume` reads a terminal, `Rewrite` replaces the leading nonterminal by the rule with that number. */
  datatype CaseDerivation =
    | End
    | Consume(symbol: int, tail: CaseDerivation)
    | Rewrite(rule: nat, body: CaseDerivation, tail: CaseDerivation)

  ghost predicate DerivesIn(c: Case, symbols: seq<int>, d: CaseDerivation)
    decreases d
  {
    match d
    case End => symbols == []
    case Consume(symbol, tail) =>
      symbols != [] && symbol < 0 && symbols[0] == symbol && DerivesIn(c, symbols[1..], tail)
    case Rewrite(rule, body, tail) =>
      && symbols != [] && rule < |c.rules| && symbols[0] == c.rules[rule].0
      && DerivesIn(c, c.rules[rule].1, body) && DerivesIn(c, symbols[1..], tail)
  }

  /** The terminals read, in order. */
  function Frontier(d: CaseDerivation): seq<int> {
    match d
    case End => []
    case Consume(symbol, tail) => [symbol] + Frontier(tail)
    case Rewrite(_, body, tail) => Frontier(body) + Frontier(tail)
  }

  ghost predicate Yields(c: Case, terminals: seq<int>) {
    exists d :: DerivesIn(c, [c.start], d) && Frontier(d) == terminals
  }

  /** -1 is the byte of `a`, -2 that of `b`, and so on, wrapping after 255. */
  ghost predicate SpelledInBytes(terminals: seq<int>, word: seq<Byte>) {
    |word| == |terminals| && forall i :: 0 <= i < |word| ==> word[i] == (96 - terminals[i]) % 256
  }

  /** -1 is the first token, -2 the second, and so on. */
  ghost predicate SpelledInTokens(terminals: seq<int>, tokens: seq<seq<Byte>>, texts: seq<seq<Byte>>) {
    |texts| == |terminals| && forall i :: 0 <= i < |texts| ==> -|tokens| <= terminals[i] < 0 && texts[i] == tokens[-1 - terminals[i]]
  }

  /** The byte strings of the grammar, and what can be extended to one. */
  ghost predicate CaseWord(c: Case, word: seq<Byte>) {
    exists terminals :: Yields(c, terminals) && SpelledInBytes(terminals, word)
  }

  ghost predicate CaseViable(c: Case, prefix: seq<Byte>) {
    exists word :: CaseWord(c, word) && prefix <= word
  }

  /** The token strings of the grammar. */
  ghost predicate CaseTokens(c: Case, tokens: seq<seq<Byte>>, texts: seq<seq<Byte>>) {
    exists terminals :: Yields(c, terminals) && SpelledInTokens(terminals, tokens, texts)
  }

  /** The relation has a row for the start symbol: some rule names a nonterminal that is no smaller, or there are no
      rules at all and the start is 0. */
  ghost predicate StartHasRow(c: Case) {
    || (c.rules == [] && c.start == 0)
    || exists i :: 0 <= i < |c.rules| && (c.start <= c.rules[i].0 || exists j :: 0 <= j < |c.rules[i].1| && c.start <= c.rules[i].1[j])
  }

  predicate TokenIndicesInRange(c: Case, tokens: seq<seq<Byte>>) {
    forall i, j :: 0 <= i < |c.rules| && 0 <= j < |c.rules[i].1| ==> -|tokens| <= c.rules[i].1[j]
  }

  // ----- As rules over byte strings -----

  /** `b'a' + ((-symbol - 1) as u8)`: the cast truncates. (A debug build stops where the sum wraps.) */
  function TerminalByte(symbol: int): Byte
    requires symbol < 0
  {
    (97 + (-symbol - 1) % 256) % 256
  }

  function ByteSymbol(symbol: int): Symbol {
    if symbol >= 0 then Nonterminal(symbol) else Terminal([TerminalByte(symbol)])
  }

  function ByteRules(c: Case): seq<Rule> {
    seq(|c.rules|, i requires 0 <= i < |c.rules| =>
      Rule(c.rules[i].0, seq(|c.rules[i].1|, j requires 0 <= j < |c.rules[i].1| => ByteSymbol(c.rules[i].1[j]))))
  }

  function TokenSymbol(symbol: int, tokens: seq<seq<Byte>>): Symbol
    requires -|tokens| <= symbol
  {
    if symbol >= 0 then Nonterminal(symbol) else Terminal(tokens[-symbol - 1])
  }

  function TokenRules(c: Case, tokens: seq<seq<Byte>>): seq<Rule>
    requires TokenIndicesInRange(c, tokens)
  {
    seq(|c.rules|, i requires 0 <= i < |c.rules| =>
      Rule(c.rules[i].0, seq(|c.rules[i].1|, j requires 0 <= j < |c.rules[i].1| => TokenSymbol(c.rules[i].1[j], tokens))))
  }

  // ----- Both forms derive the same -----

  type Spell = int -> seq<Byte>

  /** `mirror` is the same symbol string, each terminal as the text it is spelled by. */
  ghost predicate Mirrors(spell: Spell, symbols: seq<int>, mirror: seq<Symbol>) {
    |mirror| == |symbols| && forall i :: 0 <= i < |symbols| ==>
      mirror[i] == if symbols[i] >= 0 then Nonterminal(symbols[i]) else Terminal(spell(symbols[i]))
  }

  ghost predicate RulesMirror(spell: Spell, c: Case, rules: seq<Rule>) {
    |rules| == |c.rules| && forall i :: 0 <= i < |rules| ==> rules[i].lhs == c.rules[i].0 && Mirrors(spell, c.rules[i].1, rules[i].rhs)
  }

  ghost predicate SpelledBy(spell: Spell, terminals: seq<int>, texts: seq<seq<Byte>>) {
    |texts| == |terminals| && forall i :: 0 <= i < |texts| ==> texts[i] == spell(terminals[i])
  }

  lemma {:induction false} FromRules(spell: Spell, c: Case, rules: seq<Rule>, symbols: seq<int>, mirror: seq<Symbol>, d: Derivation) returns (e: CaseDerivation)
    requires RulesMirror(spell, c, rules) && Mirrors(spell, symbols, mirror) && Derives(rules, mirror, d)
    ensures DerivesIn(c, symbols, e) && SpelledBy(spell, Frontier(e), Leaves(d))
    decreases d
  {
    match d
    case Done => e := End;
    case Shift(text, tail) =>
      var rest := FromRules(spell, c, rules, symbols[1..], mirror[1..], tail);
      e := Consume(symbols[0], rest);
    case Expand(rule, body, tail) =>
      var i :| 0 <= i < |rules| && rules[i] == rule;
      var inner := FromRules(spell, c, rules, c.rules[i].1, rule.rhs, body);
      var rest := FromRules(spell, c, rules, symbols[1..], mirror[1..], tail);
      e := Rewrite(i, inner, rest);
  }

  lemma {:induction false} ToRules(spell: Spell, c: Case, rules: seq<Rule>, symbols: seq<int>, mirror: seq<Symbol>, e: CaseDerivation) returns (d: Derivation)
    requires RulesMirror(spell, c, rules) && Mirrors(spell, symbols, mirror) && DerivesIn(c, symbols, e)
    ensures Derives(rules, mirror, d) && SpelledBy(spell, Frontier(e), Leaves(d))
    decreases e
  {
    match e
    case End => d := Done;
    case Consume(symbol, tail) =>
      var rest := ToRules(spell, c, rules, symbols[1..], mirror[1..], tail);
      d := Shift(spell(symbol), rest);
    case Rewrite(i, body, tail) =>
      var inner := ToRules(spell, c, rules, c.rules[i].1, rules[i].rhs, body);
      var rest := ToRules(spell, c, rules, symbols[1..], mirror[1..], tail);
      d := Expand(rules[i], inner, rest);
  }

  lemma SameTexts(spell: Spell, c: Case, rules: seq<Rule>, texts: seq<seq<Byte>>)
    requires RulesMirror(spell, c, rules)
    ensures Generates(rules, c.start, texts) <==> exists terminals :: Yields(c, terminals) && SpelledBy(spell, terminals, texts)
  {
    var symbols: seq<int>, mirror := [c.start], [Nonterminal(c.start)];
    if Generates(rules, c.start, texts) {
      var d :| Derives(rules, mirror, d) && Leaves(d) == texts;
      var e := FromRules(spell, c, rules, symbols, mirror, d);
      assert Yields(c, Frontier(e));
    }
    if terminals :| Yields(c, terminals) && SpelledBy(spell, terminals, texts) {
      var e :| DerivesIn(c, symbols, e) && Frontier(e) == terminals;
      var d := ToRules(spell, c, rules, symbols, mirror, e);
      assert Leaves(d) == texts;
    }
  }

  /** What is read is negative and occurs in the symbol string or in a rule. */
  lemma {:induction false} FrontierFromRules(c: Case, symbols: seq<int>, d: CaseDerivation, least: int)
    requires DerivesIn(c, symbols, d) && (forall k :: 0 <= k < |symbols| ==> least <= symbols[k])
    requires forall i, j :: 0 <= i < |c.rules| && 0 <= j < |c.rules[i].1| ==> least <= c.rules[i].1[j]
    ensures forall k :: 0 <= k < |Frontier(d)| ==> least <= Frontier(d)[k] < 0
    decreases d
  {
    match d
    case End =>
    case Consume(symbol, tail) => FrontierFromRules(c, symbols[1..], tail, least);
    case Rewrite(rule, body, tail) =>
      FrontierFromRules(c, c.rules[rule].1, body, least);
      FrontierFromRules(c, symbols[1..], tail, least);
  }

  // ----- Spelled by bytes -----

  ghost function BytesOf(): Spell {
    s => [(96 - s) % 256]
  }

  lemma ByteRulesMirror(c: Case)
    ensures RulesMirror(BytesOf(), c, ByteRules(c))
  {
    var rules := ByteRules(c);
    forall i, j | 0 <= i < |c.rules| && 0 <= j < |c.rules[i].1| ensures rules[i].rhs[j] == ByteSymbol(c.rules[i].1[j]) {
    }
    forall s: int | s < 0 ensures TerminalByte(s) == (96 - s) % 256 {
    }
  }

  lemma OneByteMore(terminals: seq<int>, rest: seq<Byte>, first: seq<Byte>)
    requires terminals != [] && SpelledInBytes(terminals[1..], rest) && first == BytesOf()(terminals[0])
    ensures SpelledInBytes(terminals, first + rest)
  {
    forall i | 0 < i < |terminals| ensures (first + rest)[i] == (96 - terminals[i]) % 256 {
      assert (first + rest)[i] == rest[i - 1] && terminals[1..][i - 1] == terminals[i];
    }
  }

  lemma {:induction false} FlattenBytes(terminals: seq<int>, texts: seq<seq<Byte>>)
    requires SpelledBy(BytesOf(), terminals, texts)
    ensures SpelledInBytes(terminals, Flatten(texts))
  {
    if texts != [] {
      var more, rest := terminals[1..], texts[1..];
      assert SpelledBy(BytesOf(), more, rest) by {
        forall i | 0 <= i < |rest| ensures rest[i] == BytesOf()(more[i]) {
          assert rest[i] == texts[i + 1] && more[i] == terminals[i + 1];
        }
      }
      FlattenBytes(more, rest);
      OneByteMore(terminals, Flatten(rest), texts[0]);
    }
  }

  /** The words of the rules are those of the case. */
  lemma SameWords(c: Case, word: seq<Byte>)
    ensures InLanguage(ByteRules(c), c.start, word) <==> CaseWord(c, word)
  {
    var rules := ByteRules(c);
    ByteRulesMirror(c);
    if InLanguage(rules, c.start, word) {
      var texts :| Generates(rules, c.start, texts) && Flatten(texts) == word;
      SameTexts(BytesOf(), c, rules, texts);
      var terminals :| Yields(c, terminals) && SpelledBy(BytesOf(), terminals, texts);
      FlattenBytes(terminals, texts);
    }
    if CaseWord(c, word) {
      var terminals :| Yields(c, terminals) && SpelledInBytes(terminals, word);
      var texts := seq(|terminals|, i requires 0 <= i < |terminals| => BytesOf()(terminals[i]));
      SameTexts(BytesOf(), c, rules, texts);
      FlattenBytes(terminals, texts);
      assert Flatten(texts) == word;
    }
  }

  // ----- Spelled by tokens -----

  ghost function TokensOf(tokens: seq<seq<Byte>>): Spell {
    s => if -|tokens| <= s < 0 then tokens[-1 - s] else []
  }

  lemma TokenRulesMirror(c: Case, tokens: seq<seq<Byte>>)
    requires TokenIndicesInRange(c, tokens)
    ensures RulesMirror(TokensOf(tokens), c, TokenRules(c, tokens))
  {
    var rules := TokenRules(c, tokens);
    forall i, j | 0 <= i < |c.rules| && 0 <= j < |c.rules[i].1| ensures rules[i].rhs[j] == TokenSymbol(c.rules[i].1[j], tokens) {
    }
  }

  /** The token strings of the rules are those of the case. */
  lemma SameTokens(c: Case, tokens: seq<seq<Byte>>, texts: seq<seq<Byte>>)
    requires TokenIndicesInRange(c, tokens)
    ensures Generates(TokenRules(c, tokens), c.start, texts) <==> CaseTokens(c, tokens, texts)
  {
    TokenRulesMirror(c, tokens);
    SameTexts(TokensOf(tokens), c, TokenRules(c, tokens), texts);
    forall terminals | Yields(c, terminals)
      ensures SpelledBy(TokensOf(tokens), terminals, texts) <==> SpelledInTokens(terminals, tokens, texts)
    {
      var d :| DerivesIn(c, [c.start], d) && Frontier(d) == terminals;
      FrontierFromRules(c, [c.start], d, -|tokens|);
      assert forall k :: 0 <= k < |terminals| ==> TokensOf(tokens)(terminals[k]) == tokens[-1 - terminals[k]];
    }
  }
}
