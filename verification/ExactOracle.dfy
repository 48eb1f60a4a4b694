/** What the fixpoint decides, over single bytes and over vocabulary tokens of any length. */
module ExactOracle {
  import opened Wrappers
  import opened Cfg
  import opened Cases
  import opened PrefixDfa
  import opened BooleanOracle

  // ----- Runs of the two automata, as statements about words -----

  predicate NoTrailingEmpty(texts: seq<seq<Byte>>) {
    texts == [] || texts[|texts| - 1] != []
  }

  lemma {:induction false} FlattenLast(texts: seq<seq<Byte>>)
    requires texts != []
    ensures Flatten(texts) == Flatten(texts[..|texts| - 1]) + texts[|texts| - 1]
  {
    var last := |texts| - 1;
    assert texts == texts[..last] + [texts[last]];
    FlattenConcat(texts[..last], [texts[last]]);
    FlattenOne(texts[last]);
  }

  /** The exact automaton reads `texts` from `from` to its end just when they spell the rest of the target,
      except that nothing, not even an empty terminal, can be read at the end. */
  lemma {:induction false} ExactRun(target: seq<Byte>, from: nat, texts: seq<seq<Byte>>)
    requires from <= |target|
    ensures Run(target, false, from, texts) == Some(|target|) <==> Flatten(texts) == target[from..] && NoTrailingEmpty(texts)
    decreases |texts|
  {
    if texts == [] {
    } else if from == |target| {
      FlattenLast(texts);
    } else {
      assert Flatten(texts) == texts[0] + Flatten(texts[1..]);
      if texts[0] <= target[from..] {
        ExactRun(target, from + |texts[0]|, texts[1..]);
        assert target[from..] == texts[0] + target[from + |texts[0]|..];
      }
    }
  }

  /** The absorbing automaton ends in its final state just when some leading `texts` spell the rest of the target. */
  lemma {:induction false} AbsorbingRun(target: seq<Byte>, from: nat, texts: seq<seq<Byte>>)
    requires from <= |target|
    ensures Run(target, true, from, texts) == Some(|target|) <==> exists k :: 0 <= k <= |texts| && Flatten(texts[..k]) == target[from..]
    decreases |texts|
  {
    if from == |target| {
      AbsorbingStays(target, texts);
      assert Flatten(texts[..0]) == target[from..];
    } else if texts != [] {
      var rest := texts[1..];
      forall k | 1 <= k <= |texts|
        ensures Flatten(texts[..k]) == texts[0] + Flatten(rest[..k - 1])
      {
        assert texts[..k][1..] == rest[..k - 1];
      }
      if texts[0] <= target[from..] {
        var mid := from + |texts[0]|;
        AbsorbingRun(target, mid, rest);
        assert target[from..] == texts[0] + target[mid..];
        if k :| 0 <= k <= |rest| && Flatten(rest[..k]) == target[mid..] {
          assert Flatten(texts[..k + 1]) == target[from..];
        }
        if k :| 0 <= k <= |texts| && Flatten(texts[..k]) == target[from..] {
          assert Flatten(rest[..k - 1]) == target[mid..];
        }
      } else {
        forall k | 0 <= k <= |texts|
          ensures Flatten(texts[..k]) != target[from..]
        {
          if k > 0 {
            assert texts[0] <= Flatten(texts[..k]);
          }
        }
      }
    }
  }

  lemma {:induction false} AbsorbingStays(target: seq<Byte>, texts: seq<seq<Byte>>)
    ensures Run(target, true, |target|, texts) == Some(|target|)
    decreases |texts|
  {
    if texts != [] {
      AbsorbingStays(target, texts[1..]);
    }
  }

  // ----- What the two automata decide about a grammar -----

  /** Some generated token string spells `prefix` at a token boundary. */
  ghost predicate ViableAtBoundary(rules: seq<Rule>, start: nat, prefix: seq<Byte>) {
    exists texts, k :: Generates(rules, start, texts) && 0 <= k <= |texts| && Flatten(texts[..k]) == prefix
  }

  /** Some word of the language extends `prefix`, however long the extension. */
  ghost predicate Viable(rules: seq<Rule>, start: nat, prefix: seq<Byte>) {
    exists word :: InLanguage(rules, start, word) && prefix <= word
  }

  ghost predicate AcceptedWord(rules: seq<Rule>, start: nat, word: seq<Byte>) {
    exists texts :: Generates(rules, start, texts) && Flatten(texts) == word && NoTrailingEmpty(texts)
  }

  lemma AbsorbingDecides(rules: seq<Rule>, start: nat, prefix: seq<Byte>)
    ensures Reaches(rules, prefix, true, start, 0, |prefix|) <==> ViableAtBoundary(rules, start, prefix)
  {
    assert prefix[0..] == prefix;
    if Reaches(rules, prefix, true, start, 0, |prefix|) {
      var d :| Derives(rules, [Nonterminal(start)], d) && Run(prefix, true, 0, Leaves(d)) == Some(|prefix|);
      AbsorbingRun(prefix, 0, Leaves(d));
      assert Generates(rules, start, Leaves(d));
    }
    if ViableAtBoundary(rules, start, prefix) {
      var texts, k :| Generates(rules, start, texts) && 0 <= k <= |texts| && Flatten(texts[..k]) == prefix;
      var d :| Derives(rules, [Nonterminal(start)], d) && Leaves(d) == texts;
      AbsorbingRun(prefix, 0, texts);
    }
  }

  lemma ExactDecides(rules: seq<Rule>, start: nat, word: seq<Byte>)
    ensures Reaches(rules, word, false, start, 0, |word|) <==> AcceptedWord(rules, start, word)
  {
    assert word[0..] == word;
    if Reaches(rules, word, false, start, 0, |word|) {
      var d :| Derives(rules, [Nonterminal(start)], d) && Run(word, false, 0, Leaves(d)) == Some(|word|);
      ExactRun(word, 0, Leaves(d));
      assert Generates(rules, start, Leaves(d));
    }
    if AcceptedWord(rules, start, word) {
      var texts :| Generates(rules, start, texts) && Flatten(texts) == word && NoTrailingEmpty(texts);
      var d :| Derives(rules, [Nonterminal(start)], d) && Leaves(d) == texts;
      ExactRun(word, 0, texts);
    }
  }

  // ----- Terminal lengths decide whether that is the language -----

  ghost predicate TextsSatisfy(rules: seq<Rule>, p: seq<Byte> -> bool) {
    forall rule, s :: rule in rules && s in rule.rhs && s.Terminal? ==> p(s.text)
  }

  lemma {:induction false} LeavesSatisfy(rules: seq<Rule>, symbols: seq<Symbol>, d: Derivation, p: seq<Byte> -> bool)
    requires Derives(rules, symbols, d) && TextsSatisfy(rules, p)
    requires forall s :: s in symbols && s.Terminal? ==> p(s.text)
    ensures forall t :: t in Leaves(d) ==> p(t)
    decreases d
  {
    match d
    case Done =>
    case Shift(text, tail) =>
      assert symbols[0].text == text;
      LeavesSatisfy(rules, symbols[1..], tail, p);
    case Expand(rule, body, tail) =>
      LeavesSatisfy(rules, rule.rhs, body, p);
      LeavesSatisfy(rules, symbols[1..], tail, p);
  }

  lemma GeneratedSatisfy(rules: seq<Rule>, start: nat, texts: seq<seq<Byte>>, p: seq<Byte> -> bool)
    requires Generates(rules, start, texts) && TextsSatisfy(rules, p)
    ensures forall t :: t in texts ==> p(t)
  {
    var d :| Derives(rules, [Nonterminal(start)], d) && Leaves(d) == texts;
    LeavesSatisfy(rules, [Nonterminal(start)], d, p);
  }

  /** With terminals of at most one byte every prefix falls on a terminal boundary. */
  lemma {:induction false} BoundaryForPrefix(texts: seq<seq<Byte>>, prefix: seq<Byte>)
    requires forall t :: t in texts ==> |t| <= 1
    requires prefix <= Flatten(texts)
    ensures exists k :: 0 <= k <= |texts| && Flatten(texts[..k]) == prefix
  {
    if prefix == [] {
      assert Flatten(texts[..0]) == prefix;
    } else {
      var rest := prefix[|texts[0]|..];
      BoundaryForPrefix(texts[1..], rest);
      var k :| 0 <= k <= |texts[1..]| && Flatten(texts[1..][..k]) == rest;
      assert texts[..k + 1][1..] == texts[1..][..k];
      assert Flatten(texts[..k + 1]) == texts[0] + rest == prefix;
    }
  }

  /** A prefix the oracle calls viable is viable, whatever the tokens are. */
  lemma BoundaryIsViable(rules: seq<Rule>, start: nat, prefix: seq<Byte>)
    requires ViableAtBoundary(rules, start, prefix)
    ensures Viable(rules, start, prefix)
  {
    var texts, k :| Generates(rules, start, texts) && 0 <= k <= |texts| && Flatten(texts[..k]) == prefix;
    assert texts == texts[..k] + texts[k..];
    FlattenConcat(texts[..k], texts[k..]);
    assert InLanguage(rules, start, Flatten(texts));
  }

  lemma ShortTerminalsViability(rules: seq<Rule>, start: nat, prefix: seq<Byte>)
    requires TextsSatisfy(rules, t => |t| <= 1)
    ensures ViableAtBoundary(rules, start, prefix) <==> Viable(rules, start, prefix)
  {
    if Viable(rules, start, prefix) {
      var word :| InLanguage(rules, start, word) && prefix <= word;
      var texts :| Generates(rules, start, texts) && Flatten(texts) == word;
      GeneratedSatisfy(rules, start, texts, t => |t| <= 1);
      BoundaryForPrefix(texts, prefix);
    }
    if ViableAtBoundary(rules, start, prefix) {
      BoundaryIsViable(rules, start, prefix);
    }
  }

  lemma NonemptyTerminalsMembership(rules: seq<Rule>, start: nat, word: seq<Byte>)
    requires TextsSatisfy(rules, t => t != [])
    ensures AcceptedWord(rules, start, word) <==> InLanguage(rules, start, word)
  {
    if InLanguage(rules, start, word) {
      var texts :| Generates(rules, start, texts) && Flatten(texts) == word;
      GeneratedSatisfy(rules, start, texts, t => t != []);
      assert texts != [] ==> texts[|texts| - 1] in texts;
    }
  }

  // ----- The byte oracle -----

  lemma StartInRange(spell: Spell, c: Case, rules: seq<Rule>)
    requires StartHasRow(c) && RulesMirror(spell, c, rules)
    ensures c.start < NonterminalCount(rules)
  {
    if c.rules != [] {
      var i :| 0 <= i < |c.rules| && (c.start <= c.rules[i].0 || exists j :: 0 <= j < |c.rules[i].1| && c.start <= c.rules[i].1[j]);
      assert rules[i] in rules;
      if c.start > c.rules[i].0 {
        var j :| 0 <= j < |c.rules[i].1| && c.start <= c.rules[i].1[j];
        assert rules[i].rhs[j] in rules[i].rhs && rules[i].rhs[j].Nonterminal?;
      }
    }
  }

  lemma SameViable(c: Case, prefix: seq<Byte>)
    ensures Viable(ByteRules(c), c.start, prefix) <==> CaseViable(c, prefix)
  {
    forall word ensures InLanguage(ByteRules(c), c.start, word) <==> CaseWord(c, word) {
      SameWords(c, word);
    }
  }

  method ViableByte(c: Case, prefix: seq<Byte>) returns (viable: bool)
    requires StartHasRow(c)
    ensures viable <==> CaseViable(c, prefix)
  {
    ByteRulesMirror(c);
    StartInRange(BytesOf(), c, ByteRules(c));
    var relation, _ := DeriveRelation(ByteRules(c), prefix, true);
    viable := relation[c.start, 0, |prefix|];
    AbsorbingDecides(ByteRules(c), c.start, prefix);
    ShortTerminalsViability(ByteRules(c), c.start, prefix);
    SameViable(c, prefix);
  }

  method AcceptsByte(c: Case, word: seq<Byte>) returns (accepted: bool)
    requires StartHasRow(c)
    ensures accepted <==> CaseWord(c, word)
  {
    ByteRulesMirror(c);
    StartInRange(BytesOf(), c, ByteRules(c));
    var relation, _ := DeriveRelation(ByteRules(c), word, false);
    accepted := relation[c.start, 0, |word|];
    ExactDecides(ByteRules(c), c.start, word);
    NonemptyTerminalsMembership(ByteRules(c), c.start, word);
    SameWords(c, word);
  }

  lemma AcceptedIsViableAndPrefixClosed(rules: seq<Rule>, start: nat, word: seq<Byte>, prefix: seq<Byte>)
    requires prefix <= word
    ensures InLanguage(rules, start, word) ==> Viable(rules, start, word)
    ensures Viable(rules, start, word) ==> Viable(rules, start, prefix)
  {
  }

  // ----- The token oracle -----

  /** Some token string of the grammar spells `prefix` at a token boundary. */
  ghost predicate BoundaryIn(c: Case, tokens: seq<seq<Byte>>, prefix: seq<Byte>) {
    exists texts, k :: CaseTokens(c, tokens, texts) && 0 <= k <= |texts| && Flatten(texts[..k]) == prefix
  }

  /** The bytes of some token string of the grammar extend `prefix`. */
  ghost predicate ViableIn(c: Case, tokens: seq<seq<Byte>>, prefix: seq<Byte>) {
    exists texts :: CaseTokens(c, tokens, texts) && prefix <= Flatten(texts)
  }

  /** Some token string of the grammar that does not end in an empty token spells `word`. */
  ghost predicate AcceptedIn(c: Case, tokens: seq<seq<Byte>>, word: seq<Byte>) {
    exists texts :: CaseTokens(c, tokens, texts) && Flatten(texts) == word && NoTrailingEmpty(texts)
  }

  /** Some token string of the grammar spells `word`. */
  ghost predicate WordIn(c: Case, tokens: seq<seq<Byte>>, word: seq<Byte>) {
    exists texts :: CaseTokens(c, tokens, texts) && Flatten(texts) == word
  }

  lemma SameTokenStrings(c: Case, tokens: seq<seq<Byte>>, word: seq<Byte>)
    requires TokenIndicesInRange(c, tokens)
    ensures BoundaryIn(c, tokens, word) <==> ViableAtBoundary(TokenRules(c, tokens), c.start, word)
    ensures ViableIn(c, tokens, word) <==> Viable(TokenRules(c, tokens), c.start, word)
    ensures AcceptedIn(c, tokens, word) <==> AcceptedWord(TokenRules(c, tokens), c.start, word)
    ensures WordIn(c, tokens, word) <==> InLanguage(TokenRules(c, tokens), c.start, word)
  {
    var rules := TokenRules(c, tokens);
    forall texts ensures Generates(rules, c.start, texts) <==> CaseTokens(c, tokens, texts) {
      SameTokens(c, tokens, texts);
    }
    if ViableIn(c, tokens, word) {
      var texts :| CaseTokens(c, tokens, texts) && word <= Flatten(texts);
      assert InLanguage(rules, c.start, Flatten(texts));
    }
    if Viable(rules, c.start, word) {
      var longer :| InLanguage(rules, c.start, longer) && word <= longer;
      var texts :| Generates(rules, c.start, texts) && Flatten(texts) == longer;
      assert CaseTokens(c, tokens, texts);
    }
  }

  method ViableWithTokens(c: Case, prefix: seq<Byte>, tokens: seq<seq<Byte>>) returns (viable: bool)
    requires TokenIndicesInRange(c, tokens) && StartHasRow(c)
    ensures viable <==> BoundaryIn(c, tokens, prefix)
    ensures viable ==> ViableIn(c, tokens, prefix)
  {
    TokenRulesMirror(c, tokens);
    StartInRange(TokensOf(tokens), c, TokenRules(c, tokens));
    var relation, _ := DeriveRelation(TokenRules(c, tokens), prefix, true);
    viable := relation[c.start, 0, |prefix|];
    AbsorbingDecides(TokenRules(c, tokens), c.start, prefix);
    SameTokenStrings(c, tokens, prefix);
    if viable {
      BoundaryIsViable(TokenRules(c, tokens), c.start, prefix);
    }
  }

  method AcceptsWithTokens(c: Case, word: seq<Byte>, tokens: seq<seq<Byte>>) returns (accepted: bool)
    requires TokenIndicesInRange(c, tokens) && StartHasRow(c)
    ensures accepted <==> AcceptedIn(c, tokens, word)
    ensures accepted ==> WordIn(c, tokens, word)
  {
    TokenRulesMirror(c, tokens);
    StartInRange(TokensOf(tokens), c, TokenRules(c, tokens));
    var relation, _ := DeriveRelation(TokenRules(c, tokens), word, false);
    accepted := relation[c.start, 0, |word|];
    ExactDecides(TokenRules(c, tokens), c.start, word);
    SameTokenStrings(c, tokens, word);
  }

  ghost predicate ViabilityExact(tokens: seq<seq<Byte>>) {
    forall c: Case, prefix :: TokenIndicesInRange(c, tokens) ==> (BoundaryIn(c, tokens, prefix) <==> ViableIn(c, tokens, prefix))
  }

  ghost predicate MembershipExact(tokens: seq<seq<Byte>>) {
    forall c: Case, word :: TokenIndicesInRange(c, tokens) ==> (AcceptedIn(c, tokens, word) <==> WordIn(c, tokens, word))
  }

  /** The grammar with the single rule `0 -> token i`. */
  function OneToken(i: nat): Case {
    var rhs: seq<int> := [-1 - i];
    Case(0, 0, [(0, rhs)])
  }

  lemma OneTokenGenerates(tokens: seq<seq<Byte>>, i: nat, texts: seq<seq<Byte>>)
    requires i < |tokens|
    ensures TokenIndicesInRange(OneToken(i), tokens)
    ensures Generates(TokenRules(OneToken(i), tokens), 0, texts) <==> texts == [tokens[i]]
  {
    var c := OneToken(i);
    var rules := TokenRules(c, tokens);
    var rule := Rule(0, [Terminal(tokens[i])]);
    assert rules[0].rhs == rule.rhs;
    assert rules == [rule];
    if Generates(rules, 0, texts) {
      var d :| Derives(rules, [Nonterminal(0)], d) && Leaves(d) == texts;
      var symbols := [Nonterminal(0)];
      assert symbols[1..] == [] && rule.rhs[1..] == [];
      assert Derives(rules, symbols[1..], d.tail) && Derives(rules, rule.rhs, d.body);
      assert Derives(rules, rule.rhs[1..], d.body.tail);
    }
    var body := Shift(tokens[i], Done);
    assert rule.rhs[1..] == [] && [Nonterminal(0)][1..] == [];
    assert Derives(rules, rule.rhs, body);
    assert Derives(rules, [Nonterminal(0)], Expand(rule, body, Done));
    assert Leaves(Expand(rule, body, Done)) == [tokens[i]];
  }

  lemma TokenRulesSatisfy(c: Case, tokens: seq<seq<Byte>>, p: seq<Byte> -> bool)
    requires TokenIndicesInRange(c, tokens) && forall t :: t in tokens ==> p(t)
    ensures TextsSatisfy(TokenRules(c, tokens), p)
  {
  }

  /** Viability over a token vocabulary is exact for every grammar and prefix just when no token has two bytes or more:
      a token that straddles the end of the prefix gets no edge. */
  lemma ViabilityExactIffShortTokens(tokens: seq<seq<Byte>>)
    ensures ViabilityExact(tokens) <==> forall t :: t in tokens ==> |t| <= 1
  {
    if forall t :: t in tokens ==> |t| <= 1 {
      forall c: Case, prefix | TokenIndicesInRange(c, tokens)
        ensures BoundaryIn(c, tokens, prefix) <==> ViableIn(c, tokens, prefix)
      {
        SameTokenStrings(c, tokens, prefix);
        TokenRulesSatisfy(c, tokens, t => |t| <= 1);
        ShortTerminalsViability(TokenRules(c, tokens), c.start, prefix);
      }
    } else {
      var i :| 0 <= i < |tokens| && |tokens[i]| > 1;
      StraddlingTokenMissed(tokens, i);
    }
  }

  /** The failing family: one rule whose token is longer than the prefix `tokens[i][..1]`. */
  lemma StraddlingTokenMissed(tokens: seq<seq<Byte>>, i: nat)
    requires i < |tokens| && |tokens[i]| > 1
    ensures TokenIndicesInRange(OneToken(i), tokens)
    ensures ViableIn(OneToken(i), tokens, tokens[i][..1]) && !BoundaryIn(OneToken(i), tokens, tokens[i][..1])
  {
    var rules, text := TokenRules(OneToken(i), tokens), tokens[i];
    OneTokenGenerates(tokens, i, [text]);
    FlattenOne(text);
    SameTokenStrings(OneToken(i), tokens, text[..1]);
    assert InLanguage(rules, 0, text);
    forall texts, k | Generates(rules, 0, texts) && 0 <= k <= |texts|
      ensures Flatten(texts[..k]) != text[..1]
    {
      OneTokenGenerates(tokens, i, texts);
      assert texts[..k] == [] || texts[..k] == [text];
    }
  }

  /** Membership over a token vocabulary is exact for every grammar and word just when no token is empty. */
  lemma MembershipExactIffNonemptyTokens(tokens: seq<seq<Byte>>)
    ensures MembershipExact(tokens) <==> forall t :: t in tokens ==> t != []
  {
    if forall t :: t in tokens ==> t != [] {
      forall c: Case, word | TokenIndicesInRange(c, tokens)
        ensures AcceptedIn(c, tokens, word) <==> WordIn(c, tokens, word)
      {
        SameTokenStrings(c, tokens, word);
        TokenRulesSatisfy(c, tokens, t => t != []);
        NonemptyTerminalsMembership(TokenRules(c, tokens), c.start, word);
      }
    } else {
      var i :| 0 <= i < |tokens| && tokens[i] == [];
      var rules := TokenRules(OneToken(i), tokens);
      OneTokenGenerates(tokens, i, [[]]);
      FlattenOne([]);
      SameTokenStrings(OneToken(i), tokens, []);
      assert InLanguage(rules, 0, []);
      forall texts | Generates(rules, 0, texts)
        ensures !NoTrailingEmpty(texts)
      {
        OneTokenGenerates(tokens, i, texts);
      }
    }
  }

  // ----- Grammars of a single word -----

  /** A terminal that is spelled by the byte `b`. */
  function LetterSymbol(b: Byte): int {
    -1 - (b + 159) % 256
  }

  /** The grammar with the single rule `0 -> w`, a terminal for each byte. */
  function OneWord(bound: nat, w: seq<Byte>): Case {
    var rhs: seq<int> := seq(|w|, i requires 0 <= i < |w| => LetterSymbol(w[i]));
    Case(0, bound, [(0, rhs)])
  }

  lemma OneWordRuns(bound: nat, w: seq<Byte>)
    ensures StartHasRow(OneWord(bound, w)) && OneWord(bound, w).bound == bound
  {
    assert OneWord(bound, w).rules[0].0 == 0;
  }

  function Letters(w: seq<Byte>): seq<Symbol> {
    seq(|w|, i requires 0 <= i < |w| => Terminal([w[i]]))
  }

  lemma OneWordRules(bound: nat, w: seq<Byte>)
    ensures ByteRules(OneWord(bound, w)) == [Rule(0, Letters(w))]
  {
    var rules := ByteRules(OneWord(bound, w));
    forall i | 0 <= i < |w| ensures rules[0].rhs[i] == Terminal([w[i]]) {
    }
    assert rules[0].rhs == Letters(w);
  }

  lemma {:induction false} ShiftLetters(rules: seq<Rule>, w: seq<Byte>) returns (d: Derivation)
    ensures Derives(rules, Letters(w), d)
  {
    if w == [] {
      d := Done;
    } else {
      var tail := ShiftLetters(rules, w[1..]);
      assert Letters(w)[1..] == Letters(w[1..]);
      d := Shift([w[0]], tail);
    }
  }

  lemma {:induction false} LettersSpell(rules: seq<Rule>, w: seq<Byte>, d: Derivation)
    requires Derives(rules, Letters(w), d)
    ensures Flatten(Leaves(d)) == w
    decreases d
  {
    if w != [] {
      assert Letters(w)[1..] == Letters(w[1..]);
      LettersSpell(rules, w[1..], d.tail);
      assert Leaves(d)[1..] == Leaves(d.tail);
    }
  }

  lemma OneWordDerived(rules: seq<Rule>, w: seq<Byte>, x: seq<Byte>)
    requires rules == [Rule(0, Letters(w))]
    ensures InLanguage(rules, 0, x) <==> x == w
  {
    var symbols := [Nonterminal(0)];
    assert symbols[1..] == [];
    if InLanguage(rules, 0, x) {
      var texts :| Generates(rules, 0, texts) && Flatten(texts) == x;
      var d :| Derives(rules, symbols, d) && Leaves(d) == texts;
      LettersSpell(rules, w, d.body);
      assert Derives(rules, symbols[1..], d.tail);
      assert Leaves(d) == Leaves(d.body) + [] == Leaves(d.body);
    }
    var body := ShiftLetters(rules, w);
    LettersSpell(rules, w, body);
    var d := Expand(rules[0], body, Done);
    assert Derives(rules, symbols, d);
    assert Leaves(d) == Leaves(body) + [] == Leaves(body);
    assert Generates(rules, 0, Leaves(d)) && Flatten(Leaves(d)) == w;
  }

  /** The language is that one word, and the viable strings are its prefixes. */
  lemma OneWordLanguage(bound: nat, w: seq<Byte>)
    ensures forall x :: CaseWord(OneWord(bound, w), x) <==> x == w
    ensures forall x :: CaseViable(OneWord(bound, w), x) <==> x <= w
  {
    var rules := ByteRules(OneWord(bound, w));
    OneWordRules(bound, w);
    forall x ensures CaseWord(OneWord(bound, w), x) <==> x == w {
      OneWordDerived(rules, w, x);
      SameWords(OneWord(bound, w), x);
    }
    assert CaseWord(OneWord(bound, w), w);
  }
}
