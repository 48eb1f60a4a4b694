/** The bounded word enumerator: a fixpoint of word sets without the words longer than a limit. */
module BoundedWords {
  import opened Cfg
  import opened Cases
  import opened Collections
  import opened ExactOracle
  import BooleanOracle

  type Word = seq<Byte>

  // ----- Derived words -----

  ghost predicate DerivesWord(rules: seq<Rule>, symbols: seq<Symbol>, word: Word) {
    exists d :: Derives(rules, symbols, d) && Flatten(Leaves(d)) == word
  }

  lemma DerivesWordIsInLanguage(rules: seq<Rule>, nt: nat, word: Word)
    ensures DerivesWord(rules, [Nonterminal(nt)], word) <==> InLanguage(rules, nt, word)
  {
    if DerivesWord(rules, [Nonterminal(nt)], word) {
      var d :| Derives(rules, [Nonterminal(nt)], d) && Flatten(Leaves(d)) == word;
      assert Generates(rules, nt, Leaves(d));
    }
  }

  // ----- Concatenations of recorded words -----

  predicate Unit(sets: nat -> set<Word>, symbol: Symbol, word: Word) {
    match symbol
    case Terminal(text) => word == text
    case Nonterminal(nt) => word in sets(nt)
  }

  /** `word` is a concatenation of recorded words, one for each symbol. */
  ghost predicate Spells(sets: nat -> set<Word>, symbols: seq<Symbol>, word: Word)
    decreases |symbols|
  {
    if symbols == [] then word == []
    else
      var last := |symbols| - 1;
      exists k: nat :: k <= |word| && Spells(sets, symbols[..last], word[..k]) && Unit(sets, symbols[last], word[k..])
  }

  ghost predicate Justified(rules: seq<Rule>, limit: nat, sets: nat -> set<Word>) {
    forall nt: nat, word :: word in sets(nt) ==> |word| <= limit && InLanguage(rules, nt, word)
  }

  ghost predicate ClosedUnder(rule: Rule, limit: nat, sets: nat -> set<Word>) {
    forall word :: |word| <= limit && Spells(sets, rule.rhs, word) ==> word in sets(rule.lhs)
  }

  lemma {:induction false} SpellsSound(rules: seq<Rule>, limit: nat, sets: nat -> set<Word>, symbols: seq<Symbol>, word: Word)
    requires Justified(rules, limit, sets)
    requires Spells(sets, symbols, word)
    ensures DerivesWord(rules, symbols, word)
    decreases |symbols|
  {
    if symbols == [] {
      assert Derives(rules, symbols, Done) && Flatten(Leaves(Done)) == word;
    } else {
      var last := |symbols| - 1;
      var k: nat :| k <= |word| && Spells(sets, symbols[..last], word[..k]) && Unit(sets, symbols[last], word[k..]);
      SpellsSound(rules, limit, sets, symbols[..last], word[..k]);
      var d :| Derives(rules, symbols[..last], d) && Flatten(Leaves(d)) == word[..k];
      UnitSound(rules, limit, sets, symbols[last], word[k..]);
      var e :| Derives(rules, [symbols[last]], e) && Flatten(Leaves(e)) == word[k..];
      AppendDerives(rules, symbols[..last], [symbols[last]], d, e);
      FlattenConcat(Leaves(d), Leaves(e));
      assert symbols[..last] + [symbols[last]] == symbols;
      assert word[..k] + word[k..] == word;
    }
  }

  lemma UnitSound(rules: seq<Rule>, limit: nat, sets: nat -> set<Word>, symbol: Symbol, word: Word)
    requires Justified(rules, limit, sets) && Unit(sets, symbol, word)
    ensures DerivesWord(rules, [symbol], word)
  {
    match symbol
    case Terminal(text) =>
      var d := Shift(text, Done);
      assert [symbol][1..] == [];
      assert Derives(rules, [symbol], d);
      assert Leaves(d) == [text];
      FlattenOne(text);
    case Nonterminal(nt) =>
      DerivesWordIsInLanguage(rules, nt, word);
  }

  lemma RuleSound(rules: seq<Rule>, limit: nat, sets: nat -> set<Word>, rule: Rule, word: Word)
    requires rule in rules && Justified(rules, limit, sets) && Spells(sets, rule.rhs, word)
    ensures InLanguage(rules, rule.lhs, word)
  {
    SpellsSound(rules, limit, sets, rule.rhs, word);
    var body :| Derives(rules, rule.rhs, body) && Flatten(Leaves(body)) == word;
    var symbols := [Nonterminal(rule.lhs)];
    assert symbols[1..] == [];
    assert Derives(rules, symbols, Expand(rule, body, Done));
    assert Leaves(Expand(rule, body, Done)) == Leaves(body) + [] == Leaves(body);
    DerivesWordIsInLanguage(rules, rule.lhs, word);
  }

  /** Adding what a rule spells keeps every recorded word justified. */
  lemma AddedWordsSound(rules: seq<Rule>, limit: nat, before: nat -> set<Word>, after: nat -> set<Word>, rule: Rule)
    requires rule in rules && Justified(rules, limit, before)
    requires forall nt: nat, w :: w in after(nt) ==> w in before(nt) || (nt == rule.lhs && |w| <= limit && Spells(before, rule.rhs, w))
    ensures Justified(rules, limit, after)
  {
    forall nt: nat, word | word in after(nt)
      ensures |word| <= limit && InLanguage(rules, nt, word)
    {
      if word !in before(nt) {
        RuleSound(rules, limit, before, rule, word);
      }
    }
  }

  lemma SpellsLast(sets: nat -> set<Word>, symbols: seq<Symbol>, last: Symbol, head: Word, tail: Word)
    requires Spells(sets, symbols, head) && Unit(sets, last, tail)
    ensures Spells(sets, symbols + [last], head + tail)
  {
    var longer, word := symbols + [last], head + tail;
    assert longer[..|symbols|] == symbols && word[..|head|] == head && word[|head|..] == tail;
  }

  lemma {:induction false} SpellsFromHead(sets: nat -> set<Word>, symbols: seq<Symbol>, head: Word, tail: Word)
    requires symbols != []
    requires Unit(sets, symbols[0], head) && Spells(sets, symbols[1..], tail)
    ensures Spells(sets, symbols, head + tail)
    decreases |symbols|
  {
    LastApart(symbols);
    if |symbols| == 1 {
      var none: Word := [];
      assert symbols[..0] == [] && none + head == head + tail;
      SpellsLast(sets, [], symbols[0], none, head);
    } else {
      var init, last, rest := symbols[..|symbols| - 1], symbols[|symbols| - 1], symbols[1..];
      var k: nat :| k <= |tail| && Spells(sets, rest[..|rest| - 1], tail[..k]) && Unit(sets, last, tail[k..]);
      assert rest[..|rest| - 1] == init[1..];
      SpellsFromHead(sets, init, head, tail[..k]);
      SpellsLast(sets, init, last, head + tail[..k], tail[k..]);
      assert head + tail[..k] + tail[k..] == head + tail;
    }
  }

  /** Dropping long concatenations loses no short word: every part of a short word is short. */
  lemma {:induction false} DerivationIsSpelled(rules: seq<Rule>, limit: nat, sets: nat -> set<Word>, symbols: seq<Symbol>, d: Derivation)
    requires forall rule :: rule in rules ==> ClosedUnder(rule, limit, sets)
    requires Derives(rules, symbols, d) && |Flatten(Leaves(d))| <= limit
    ensures Spells(sets, symbols, Flatten(Leaves(d)))
    decreases d
  {
    match d
    case Done =>
    case Shift(text, tail) =>
      assert Leaves(d)[1..] == Leaves(tail);
      DerivationIsSpelled(rules, limit, sets, symbols[1..], tail);
      SpellsFromHead(sets, symbols, text, Flatten(Leaves(tail)));
    case Expand(rule, body, tail) =>
      FlattenConcat(Leaves(body), Leaves(tail));
      DerivationIsSpelled(rules, limit, sets, rule.rhs, body);
      DerivationIsSpelled(rules, limit, sets, symbols[1..], tail);
      assert ClosedUnder(rule, limit, sets);
      SpellsFromHead(sets, symbols, Flatten(Leaves(body)), Flatten(Leaves(tail)));
  }

  lemma FixpointIsExact(rules: seq<Rule>, limit: nat, sets: nat -> set<Word>, nt: nat, word: Word)
    requires Justified(rules, limit, sets) && forall rule :: rule in rules ==> ClosedUnder(rule, limit, sets)
    ensures word in sets(nt) <==> |word| <= limit && InLanguage(rules, nt, word)
  {
    if |word| <= limit && InLanguage(rules, nt, word) {
      DerivesWordIsInLanguage(rules, nt, word);
      var symbols := [Nonterminal(nt)];
      var d :| Derives(rules, symbols, d) && Flatten(Leaves(d)) == word;
      DerivationIsSpelled(rules, limit, sets, symbols, d);
      var k: nat :| k <= |word| && Spells(sets, symbols[..0], word[..k]) && Unit(sets, symbols[0], word[k..]);
      assert word[k..] == word;
    }
  }

  // ----- Finitely many short words, hence finitely many rounds -----

  ghost function ShortWords(limit: nat): set<Word> {
    if limit == 0 then {[]}
    else ShortWords(limit - 1) + set w, b: Byte | w in ShortWords(limit - 1) && 0 <= b < 256 :: w + [b]
  }

  lemma {:induction false} ShortWordsComplete(limit: nat, word: Word)
    requires |word| <= limit
    ensures word in ShortWords(limit)
  {
    if |word| < limit {
      ShortWordsComplete(limit - 1, word);
    } else if limit > 0 {
      ShortWordsComplete(limit - 1, word[..limit - 1]);
      assert word == word[..limit - 1] + [word[limit - 1]];
    }
  }

  datatype WordFact = WordFact(nt: nat, word: Word)

  ghost function AllFacts(count: nat, limit: nat): set<WordFact> {
    set nt: nat, word | nt < count && word in ShortWords(limit) :: WordFact(nt, word)
  }

  ghost function FactsOf(sets: nat -> set<Word>, count: nat): set<WordFact> {
    set nt: nat, word | nt < count && word in sets(nt) :: WordFact(nt, word)
  }

  lemma FactsBounded(rules: seq<Rule>, limit: nat, sets: nat -> set<Word>, count: nat)
    requires Justified(rules, limit, sets)
    ensures FactsOf(sets, count) <= AllFacts(count, limit)
  {
    forall f | f in FactsOf(sets, count)
      ensures f in AllFacts(count, limit)
    {
      ShortWordsComplete(limit, f.word);
    }
  }

  /** A round that added a word to some set leaves fewer facts missing. */
  lemma FactsGrow(rules: seq<Rule>, limit: nat, before: nat -> set<Word>, after: nat -> set<Word>, count: nat, nt: nat, word: Word)
    requires Justified(rules, limit, after)
    requires forall a: nat :: before(a) <= after(a)
    requires nt < count && word in after(nt) && word !in before(nt)
    ensures AllFacts(count, limit) - FactsOf(after, count) < AllFacts(count, limit) - FactsOf(before, count)
  {
    FactsBounded(rules, limit, after, count);
    assert WordFact(nt, word) in FactsOf(after, count);
    assert WordFact(nt, word) !in FactsOf(before, count);
    assert FactsOf(before, count) <= FactsOf(after, count);
  }

  // ----- Joining word sets -----

  /** Every concatenation of `prefix` with a suffix that stays within the limit, added to `product`. */
  method JoinPrefix(prefix: Word, suffixes: set<Word>, limit: nat, product: set<Word>) returns (joined: set<Word>)
    ensures forall w :: w in joined <==> w in product || exists s :: s in suffixes && |prefix| + |s| <= limit && w == prefix + s
  {
    joined := product;
    var todo := suffixes;
    while todo != {}
      invariant todo <= suffixes
      invariant forall w :: w in joined <==> w in product || exists s :: s in suffixes - todo && |prefix| + |s| <= limit && w == prefix + s
      decreases todo
    {
      var suffix :| suffix in todo;
      ghost var before, seen := joined, suffixes - todo;
      if |prefix| + |suffix| <= limit {
        joined := joined + {prefix + suffix};
      }
      todo := todo - {suffix};
      assert suffixes - todo == seen + {suffix};
    }
    assert suffixes - todo == suffixes;
  }

  method Join(words: set<Word>, suffixes: set<Word>, limit: nat) returns (product: set<Word>)
    ensures forall w :: w in product <==> exists p, s :: p in words && s in suffixes && |p| + |s| <= limit && w == p + s
  {
    product := {};
    var todo := words;
    while todo != {}
      invariant todo <= words
      invariant forall w :: w in product <==> exists p, s :: p in words - todo && s in suffixes && |p| + |s| <= limit && w == p + s
      decreases todo
    {
      var prefix :| prefix in todo;
      ghost var seen := words - todo;
      product := JoinPrefix(prefix, suffixes, limit, product);
      todo := todo - {prefix};
      assert words - todo == seen + {prefix};
    }
    assert words - todo == words;
  }

  type Test = Word -> bool

  function UnitOf(sets: nat -> set<Word>, symbol: Symbol): Test {
    (w: Word) => Unit(sets, symbol, w)
  }

  ghost function SpellsOf(sets: nat -> set<Word>, symbols: seq<Symbol>): Test {
    (w: Word) => Spells(sets, symbols, w)
  }

  ghost predicate Splits(head: Test, tail: Test, w: Word) {
    exists k: nat :: k <= |w| && head(w[..k]) && tail(w[k..])
  }

  lemma JoinSplits(head: Test, tail: Test, limit: nat, words: set<Word>, suffixes: set<Word>, w: Word)
    requires forall p :: p in words <==> |p| <= limit && head(p)
    requires forall s :: s in suffixes <==> tail(s)
    ensures (exists p, s :: p in words && s in suffixes && |p| + |s| <= limit && w == p + s) <==> |w| <= limit && Splits(head, tail, w)
  {
    if p, s :| p in words && s in suffixes && |p| + |s| <= limit && w == p + s {
      assert w[..|p|] == p && w[|p|..] == s;
    }
    if |w| <= limit && Splits(head, tail, w) {
      var k: nat :| k <= |w| && head(w[..k]) && tail(w[k..]);
      var p, s := w[..k], w[k..];
      assert w == p + s && p in words && s in suffixes;
    }
  }

  lemma SpellsSplits(sets: nat -> set<Word>, symbols: seq<Symbol>, last: Symbol, w: Word)
    ensures Spells(sets, symbols + [last], w) <==> Splits(SpellsOf(sets, symbols), UnitOf(sets, last), w)
  {
    var longer := symbols + [last];
    assert longer[..|longer| - 1] == symbols;
  }

  /** All words within the limit that the right-hand side spells over the recorded sets. */
  method RhsWords(sets: nat -> set<Word>, rhs: seq<Symbol>, limit: nat) returns (words: set<Word>)
    requires forall s :: s in rhs && s.Terminal? ==> |s.text| == 1
    ensures forall w :: w in words <==> |w| <= limit && Spells(sets, rhs, w)
  {
    words := {[]};
    assert rhs[..0] == [];
    for i := 0 to |rhs|
      invariant forall w :: w in words <==> |w| <= limit && Spells(sets, rhs[..i], w)
    {
      var suffixes := match rhs[i] case Nonterminal(nt) => sets(nt) case Terminal(text) => {text};
      var product := Join(words, suffixes, limit);
      assert rhs[..i + 1] == rhs[..i] + [rhs[i]];
      forall w ensures w in product <==> |w| <= limit && Spells(sets, rhs[..i + 1], w) {
        JoinSplits(SpellsOf(sets, rhs[..i]), UnitOf(sets, rhs[i]), limit, words, suffixes, w);
        SpellsSplits(sets, rhs[..i], rhs[i], w);
      }
      words := product;
    }
    assert rhs[..|rhs|] == rhs;
  }

  // ----- Sets in a map -----

  function Lookup(sets: map<nat, set<Word>>): nat -> set<Word> {
    (nt: nat) => if nt in sets then sets[nt] else {}
  }

  method BoundedRound(rules: seq<Rule>, limit: nat, sets: map<nat, set<Word>>) returns (changed: bool, next: map<nat, set<Word>>)
    requires OneByte(rules) && forall rule :: rule in rules ==> rule.lhs in sets
    requires Justified(rules, limit, Lookup(sets))
    ensures next.Keys == sets.Keys && Justified(rules, limit, Lookup(next))
    ensures forall nt: nat :: Lookup(sets)(nt) <= Lookup(next)(nt)
    ensures changed ==> exists nt, word :: nt in sets && word in next[nt] && word !in sets[nt]
    ensures !changed ==> forall rule :: rule in rules ==> ClosedUnder(rule, limit, Lookup(next))
  {
    changed, next := false, sets;
    for i := 0 to |rules|
      invariant next.Keys == sets.Keys && Justified(rules, limit, Lookup(next))
      invariant forall nt: nat :: Lookup(sets)(nt) <= Lookup(next)(nt)
      invariant changed ==> exists nt, word :: nt in sets && word in next[nt] && word !in sets[nt]
      invariant !changed ==> next == sets && forall k :: 0 <= k < i ==> ClosedUnder(rules[k], limit, Lookup(next))
    {
      var rule := rules[i];
      var words := RhsWords(Lookup(next), rule.rhs, limit);
      ghost var before := next;
      if !(words <= next[rule.lhs]) {
        next := next[rule.lhs := next[rule.lhs] + words];
        ghost var added :| added in words && added !in before[rule.lhs];
        if !changed {
          assert added in next[rule.lhs] && added !in sets[rule.lhs];
        } else {
          ghost var nt, word :| nt in sets && word in before[nt] && word !in sets[nt];
          assert word in next[nt];
        }
        changed := true;
        AddedWordsSound(rules, limit, Lookup(before), Lookup(next), rule);
      } else {
        assert ClosedUnder(rule, limit, Lookup(next));
      }
    }
  }

  /** Exactly the words of the language within the limit. */
  method WordsUpTo(rules: seq<Rule>, start: nat, limit: nat) returns (words: set<Word>)
    requires OneByte(rules)
    ensures forall w :: w in words <==> |w| <= limit && InLanguage(rules, start, w)
  {
    var sets: map<nat, set<Word>> := map[];
    for i := 0 to |rules|
      invariant forall k :: 0 <= k < i ==> rules[k].lhs in sets
      invariant forall nt :: nt in sets ==> sets[nt] == {} && nt < BooleanOracle.RuleBound(rules)
    {
      if rules[i].lhs !in sets {
        sets := sets[rules[i].lhs := {}];
      }
    }
    ghost var count := BooleanOracle.RuleBound(rules);
    while true
      invariant forall rule :: rule in rules ==> rule.lhs in sets
      invariant forall nt :: nt in sets ==> nt < count
      invariant Justified(rules, limit, Lookup(sets))
      decreases AllFacts(count, limit) - FactsOf(Lookup(sets), count)
    {
      ghost var before := sets;
      var changed;
      changed, sets := BoundedRound(rules, limit, sets);
      if !changed {
        break;
      }
      ghost var nt, word :| nt in before && word in sets[nt] && word !in before[nt];
      FactsGrow(rules, limit, Lookup(before), Lookup(sets), count, nt, word);
    }
    words := Lookup(sets)(start);
    forall w
      ensures w in words <==> |w| <= limit && InLanguage(rules, start, w)
    {
      FixpointIsExact(rules, limit, Lookup(sets), start, w);
    }
  }

  method BoundedLanguage(c: Case) returns (words: set<Word>)
    ensures forall w :: w in words <==> |w| <= c.bound + 2 && CaseWord(c, w)
  {
    words := WordsUpTo(ByteRules(c), c.start, c.bound + 2);
    forall w ensures InLanguage(ByteRules(c), c.start, w) <==> CaseWord(c, w) {
      SameWords(c, w);
    }
  }

  // ----- Sets in a vector -----

  function At(languages: seq<set<Word>>): nat -> set<Word> {
    (nt: nat) => if nt < |languages| then languages[nt] else {}
  }

  /** One rule; the source compares the set sizes, and a set that grew is a set that changed. */
  method VectorRule(rules: seq<Rule>, rule: Rule, limit: nat, languages: seq<set<Word>>) returns (grew: bool, next: seq<set<Word>>)
    requires OneByte(rules) && rule in rules && rule.lhs < |languages| && Justified(rules, limit, At(languages))
    ensures |next| == |languages| && Justified(rules, limit, At(next))
    ensures forall nt :: 0 <= nt < |languages| ==> languages[nt] <= next[nt]
    ensures grew ==> next[rule.lhs] != languages[rule.lhs]
    ensures !grew ==> next == languages && ClosedUnder(rule, limit, At(languages))
  {
    var words := RhsWords(At(languages), rule.rhs, limit);
    next := languages[rule.lhs := languages[rule.lhs] + words];
    AddedWordsSound(rules, limit, At(languages), At(next), rule);
    grew := |next[rule.lhs]| != |languages[rule.lhs]|;
    if !grew {
      SubsetSize(languages[rule.lhs], next[rule.lhs]);
      assert next == languages;
    }
  }

  ghost predicate Grown(languages: seq<set<Word>>, next: seq<set<Word>>) {
    |next| == |languages| && forall nt :: 0 <= nt < |languages| ==> languages[nt] <= next[nt]
  }

  ghost predicate HasNew(languages: seq<set<Word>>, next: seq<set<Word>>)
    requires |next| == |languages|
  {
    exists nt, word :: 0 <= nt < |languages| && word in next[nt] && word !in languages[nt]
  }

  lemma NewSinceStart(languages: seq<set<Word>>, before: seq<set<Word>>, next: seq<set<Word>>, lhs: nat)
    requires Grown(languages, before) && Grown(before, next) && lhs < |languages| && next[lhs] != before[lhs]
    ensures HasNew(languages, next)
  {
    var word :| word in next[lhs] && word !in before[lhs];
    assert word !in languages[lhs];
  }

  method VectorRound(rules: seq<Rule>, limit: nat, languages: seq<set<Word>>) returns (changed: bool, next: seq<set<Word>>)
    requires OneByte(rules) && forall rule :: rule in rules ==> rule.lhs < |languages|
    requires Justified(rules, limit, At(languages))
    ensures |next| == |languages| && Justified(rules, limit, At(next))
    ensures forall nt :: 0 <= nt < |languages| ==> languages[nt] <= next[nt]
    ensures changed ==> exists nt, word :: 0 <= nt < |languages| && word in next[nt] && word !in languages[nt]
    ensures !changed ==> forall rule :: rule in rules ==> ClosedUnder(rule, limit, At(next))
  {
    changed, next := false, languages;
    for i := 0 to |rules|
      invariant |next| == |languages| && Justified(rules, limit, At(next))
      invariant forall nt :: 0 <= nt < |languages| ==> languages[nt] <= next[nt]
      invariant changed ==> exists nt, word :: 0 <= nt < |languages| && word in next[nt] && word !in languages[nt]
      invariant !changed ==> next == languages && forall k :: 0 <= k < i ==> ClosedUnder(rules[k], limit, At(next))
    {
      ghost var before := next;
      var grew;
      grew, next := VectorRule(rules, rules[i], limit, next);
      if grew {
        NewSinceStart(languages, before, next, rules[i].lhs);
        changed := true;
      }
    }
  }

  method LanguageOf(rules: seq<Rule>, count: nat, limit: nat) returns (language: set<Word>)
    requires count > 0 && OneByte(rules) && forall rule :: rule in rules ==> rule.lhs < count
    ensures forall w :: w in language <==> |w| <= limit && InLanguage(rules, 0, w)
  {
    var languages: seq<set<Word>> := seq(count, _ => {});
    while true
      invariant |languages| == count && Justified(rules, limit, At(languages))
      decreases AllFacts(count, limit) - FactsOf(At(languages), count)
    {
      ghost var before := languages;
      var changed;
      changed, languages := VectorRound(rules, limit, languages);
      if !changed {
        break;
      }
      ghost var nt, word :| 0 <= nt < count && word in languages[nt] && word !in before[nt];
      FactsGrow(rules, limit, At(before), At(languages), count, nt, word);
    }
    language := languages[0];
    forall w
      ensures w in language <==> |w| <= limit && InLanguage(rules, 0, w)
    {
      FixpointIsExact(rules, limit, At(languages), 0, w);
    }
  }

  const BOUND: nat := 3

  /** `n0: "b" n0 n0`, `n1: "c" | n2`, `n2: | n1 n2`, with terminals numbered from 0. */
  const RIGHT_RECURSIVE_RULES: seq<Rule> := [
    Rule(0, [Terminal([1]), Nonterminal(0), Nonterminal(0)]),
    Rule(1, [Terminal([2])]),
    Rule(1, [Nonterminal(2)]),
    Rule(2, []),
    Rule(2, [Nonterminal(1), Nonterminal(2)])
  ]

  /** The start symbol of that grammar never terminates, so the expected language is empty. */
  method Language() returns (language: set<Word>)
    ensures language == {}
  {
    language := LanguageOf(RIGHT_RECURSIVE_RULES, 3, BOUND);
    forall w ensures !InLanguage(RIGHT_RECURSIVE_RULES, 0, w) {
      if InLanguage(RIGHT_RECURSIVE_RULES, 0, w) {
        var texts :| Generates(RIGHT_RECURSIVE_RULES, 0, texts) && Flatten(texts) == w;
        var d :| Derives(RIGHT_RECURSIVE_RULES, [Nonterminal(0)], d) && Leaves(d) == texts;
        Unproductive([Nonterminal(0)], d);
      }
    }
  }

  lemma {:induction false} Unproductive(symbols: seq<Symbol>, d: Derivation)
    requires Nonterminal(0) in symbols
    ensures !Derives(RIGHT_RECURSIVE_RULES, symbols, d)
    decreases d
  {
    if Derives(RIGHT_RECURSIVE_RULES, symbols, d) {
      match d
      case Done =>
      case Shift(_, tail) => Unproductive(symbols[1..], tail);
      case Expand(rule, body, tail) =>
        if symbols[0] == Nonterminal(0) {
          assert rule == RIGHT_RECURSIVE_RULES[0];
          assert rule.rhs[1] == Nonterminal(0);
          Unproductive(rule.rhs, body);
        } else {
          Unproductive(symbols[1..], tail);
        }
    }
  }

  // ----- When the enumeration decides masks -----

  /** The assertions' expected mask bit: some enumerated word starts with the prefix. */
  method StartsSome(words: set<Word>, prefix: Word) returns (expected: bool)
    ensures expected <==> exists w :: w in words && prefix <= w
  {
    expected := exists w :: w in words && prefix <= w;
  }

  /** Some word of the language within `margin` of the bound starts with `prefix`. */
  ghost predicate Witnessed(c: Case, margin: nat, prefix: Word) {
    exists w :: |w| <= c.bound + margin && CaseWord(c, w) && prefix <= w
  }

  /** On the prefixes that the assertions ask about, an enumerated extension is the same as viability. */
  ghost predicate EnumerationDecides(c: Case, margin: nat) {
    forall prefix :: |prefix| <= c.bound ==> (Witnessed(c, margin, prefix) <==> CaseViable(c, prefix))
  }

  /** What the assertions expect, with the source's margin of two bytes. */
  method ExpectedBit(c: Case, prefix: Word) returns (expected: bool)
    ensures expected <==> Witnessed(c, 2, prefix)
    ensures EnumerationDecides(c, 2) && |prefix| <= c.bound ==> (expected <==> CaseViable(c, prefix))
  {
    var words := BoundedLanguage(c);
    expected := StartsSome(words, prefix);
  }

  /** A margin is enough exactly when it is enough for the viable prefixes as long as the bound, which the exact
      oracle finds: a shorter prefix is in a word within the bound, or is extended by one of those. */
  lemma EnumerationDecidesIff(c: Case, margin: nat)
    ensures EnumerationDecides(c, margin) <==>
              forall p :: |p| == c.bound && CaseViable(c, p) ==> Witnessed(c, margin, p)
  {
    if forall p :: |p| == c.bound && CaseViable(c, p) ==> Witnessed(c, margin, p) {
      forall prefix | |prefix| <= c.bound && CaseViable(c, prefix)
        ensures Witnessed(c, margin, prefix)
      {
        var w :| CaseWord(c, w) && prefix <= w;
        if |w| > c.bound {
          var p := w[..c.bound];
          assert p <= w && prefix <= p;
          assert Witnessed(c, margin, p);
          var x :| |x| <= c.bound + margin && CaseWord(c, x) && p <= x;
          assert prefix <= x;
        }
      }
    }
  }

  /** No margin is enough for all grammars: for every bound and margin, the grammar of one word that is longer than
      both together enumerates nothing, although all its prefixes within the bound are viable. */
  lemma EnumerationIsNotViability(bound: nat, margin: nat)
    ensures var c := OneWord(bound, seq(bound + margin + 1, _ => 97));
            && (forall prefix :: !Witnessed(c, margin, prefix))
            && CaseViable(c, seq(bound, _ => 97)) && !EnumerationDecides(c, margin)
  {
    var w := seq(bound + margin + 1, _ => 97);
    OneWordLanguage(bound, w);
    assert seq(bound, _ => 97) == w[..bound];
  }
}
