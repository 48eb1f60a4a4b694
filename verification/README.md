# A verified model of GLRMask's oracles, template programs and tools

This Dafny project models the parts of GLRMask whose correctness everything else leans on, and proves what they
promise for all inputs. `dafny verify dfyconfig.toml` checks it.

- **The exact mask oracle.** Masks are judged by intersecting a context-free grammar with the prefix automaton of
  a byte string. `Cases` is the grammars as the tests write them and what those derive, `Cfg` their form as rules over
  byte strings; `PrefixDfa` the intersection; `BooleanOracle` the in-place matrix fixpoint; `BitsetOracle` the packed
  form; `ExactOracle` what the two modes decide, over single bytes and over vocabulary tokens; `BoundedWords` the
  bounded enumerators, and `CompactGrammar` the margin one of its grammars needs. `Words` defines machine words by their
  binary digits.
- **Stack template programs.** `StackTemplates` is the provider's data and constructors, `StackMachine` the
  POP/READ/PUSH relation with its literal evaluator, `TemplateConversion` and `ParserPrograms` the validating
  conversion under shared budgets, `Dfas` and `Graphs` the acyclicity check it relies on, `FlatTemplates` and
  `WorkBudgets` the bounded evaluator of the runtime, `PushCounts` and `PushSuffixes` the word lists it uses.
  `ConstructorConversion` and `PreparedPrograms` follow the provided constructors and whole templates through all of it.
- **Masks and checkers.** `VocabPartitions` expands packed class masks to packed token masks. `MaskMachines` and
  `OracleChecker` are the searches that compare machines with each other and with the oracle, `TokenOrder` the order in
  which they meet token paths, and `PassedMachines` what a pass says.
- **Automata.** `KeyedAutomata` is the construction by worklist that `Subtraction` and, with `Nfas`, `Determinization`
  share. `Trimming`, `PartitionRefinement`, `Minimization` and `FewestStates` minimize automata with cycles.
- **Around them.** `EnvProtocol` is the snapshot and override protocol with interleaved threads, `Bindings` and
  `BindingLaws` the persistent binding of extern slots, `PublishOrder` the crate order, `NativeRows` the dump
  comparison and `PngChunks` the image chunk reader and writer. `Wrappers`, `Collections` and `Reachability` hold what
  several of these use.

Loops that update arrays or variables in the sources are methods here, proved against functions or predicates of
their inputs; what the sources promise is then proved about those. Failed assertions, panics and error returns are
results. The semantics of a template is the one of the literal evaluator in `tests/template_parser_randomized.rs`,
which the comments of `src/template_parser.rs` describe.

Four places where the code is less than its comments suggest, each with failing inputs and the exact condition:

- With tokens of several bytes the token oracle misses viable prefixes that end inside a token; it is exact for all
  grammars just when no token is longer than one byte (`ExactOracle.ViabilityExactIffShortTokens`).
- The comment on the bounded enumerator says that a margin of two gives every checked prefix a witness
  (`src/public_api.rs:7160-7164`). No margin does for all grammars (`BoundedWords.EnumerationIsNotViability`); one does
  for a case just when it does for the viable prefixes as long as the bound (`BoundedWords.EnumerationDecidesIff`); for
  the grammar it is used on two is just enough (`CompactGrammar.CompactMargin`).
- The search against the oracle is keyed by bytes, so of several paths with one spelling it judges the first. A pass
  speaks for all paths just when no two paths within the bound share a spelling
  (`PassedMachines.PassSpeaksForAllIff`); the fuzz vocabulary it is used with has such paths
  (`PassedMachines.FuzzVocabularyIsAmbiguous`).
- The comment on the minimization of cyclic automata promises the fewest possible states
  (`crates/glrmask-finite-automata/src/automata/unweighted_u32/minimize_cyclic.rs:162-163`). States that accept
  nothing are never merged into the sink, so it delivers that just when every reachable state accepts something
  (`Minimization.MinimizeCyclic`, `FewestStates.TrapIsNotFewest`).

## Model

| member | source | states |
|---|---|---|
| `BooleanOracle.RuleBound` | src/budget_fallback_tests.rs:69-76 | every left-hand side and every nonterminal on a right-hand side has a row of its own |
| `BooleanOracle.RuleBoundReached` | src/budget_fallback_tests.rs:69-76 | there is no row too many: the last is the largest nonterminal's |
| `BooleanOracle.TerminalStep` | src/budget_fallback_tests.rs:96-110 | a terminal's step matrix is exactly the prefix automaton's edge, in exact and absorbing mode |
| `BooleanOracle.Product` | src/budget_fallback_tests.rs:112-123 | the triple loop computes the boolean matrix product, entry by entry |
| `BooleanOracle.ComposeRhs` | src/budget_fallback_tests.rs:88-125 | the composed matrix holds at (from, to) just when the right-hand side has a path over the current relation |
| `BooleanOracle.ApplyRule` | src/budget_fallback_tests.rs:87-134 | one rule adds exactly what it derives, touches no other row, and reports a change just when something was new |
| `BooleanOracle.Round` | src/budget_fallback_tests.rs:85-137 | a pass that reads rows updated earlier in the same pass keeps every fact justified, and reports no change only when the relation is closed under all rules |
| `BooleanOracle.DeriveRelation` | src/budget_fallback_tests.rs:66-140 | for every grammar, target and mode an entry is true exactly when the nonterminal derives a terminal string that drives the automaton between the two states; at most one pass more than there are entries |
| `PrefixDfa.PathSound` | src/budget_fallback_tests.rs:61-65 | a path over a justified relation has a derivation behind it |
| `PrefixDfa.DerivationHasPath` | src/budget_fallback_tests.rs:61-65 | a relation closed under the rules has a path for every derivation, whatever epsilon, left-recursive or cyclic rules it uses |
| `PrefixDfa.LeastClosedRelation` | src/tokentrie_reduce_cycle_tests.rs:52-54 | the intersection relation is contained in every relation closed under the rules |
| `PrefixDfa.FixpointIsExact` | src/budget_fallback_tests.rs:85-139 | a justified and closed relation is the intersection relation, fact by fact |
| `PrefixDfa.RuleOrderIrrelevant` | src/budget_fallback_tests.rs:86-134 | grammars with the same rules in any order and multiplicity have the same relation |
| `PrefixDfa.UniverseSize` | src/budget_fallback_tests.rs:77 | the relation has count times states squared entries, the bound on rounds |
| `Cases.SameWords` | src/budget_fallback_tests.rs:90-100 | the rules built from a case, terminals as bytes, have exactly the words that derivations over the case's own integer symbols spell |
| `Cases.SameTokens` | src/terminal_ended_rescue_tests.rs:150-165 | the rules built with a vocabulary have exactly the token strings that derivations over the case's own integer symbols give |
| `ExactOracle.ExactRun` | src/budget_fallback_tests.rs:63-65 | the exact automaton accepts a token string just when it spells the target and does not end in an empty token |
| `ExactOracle.AbsorbingRun` | src/budget_fallback_tests.rs:63-65 | the absorbing automaton accepts a token string just when some of its leading tokens spell the target |
| `ExactOracle.ViableByte` | src/budget_fallback_tests.rs:142-145 | true exactly when some word that the case derives from its start symbol extends the prefix, however long the extension |
| `ExactOracle.AcceptsByte` | src/budget_fallback_tests.rs:147-150 | true exactly for the words that the case derives from its start symbol |
| `ExactOracle.ViableWithTokens` | src/terminal_ended_rescue_tests.rs:206-208 | with tokens of any length, true exactly when some token string that the case derives spells the prefix at a token boundary; sound for viability |
| `ExactOracle.AcceptsWithTokens` | src/terminal_ended_rescue_tests.rs:214-216 | with tokens of any length, true exactly when some token string that the case derives, not ending in an empty token, spells the word; sound for membership |
| `ExactOracle.ViabilityExactIffShortTokens` | src/terminal_ended_rescue_tests.rs:159-160 | over a vocabulary the viability test is exact for every grammar and prefix if and only if no token has two bytes or more |
| `ExactOracle.StraddlingTokenMissed` | src/terminal_ended_rescue_tests.rs:159-160 | the failing family: a token that straddles the end of the prefix gets no edge, so a viable prefix is missed |
| `ExactOracle.MembershipExactIffNonemptyTokens` | src/terminal_ended_rescue_tests.rs:159-165 | over a vocabulary the membership test is exact for every grammar and word if and only if no token is empty |
| `BitsetOracle.ByteRows` | src/tokentrie_reduce_cycle_tests.rs:80-92 | the packed step rows of a byte have exactly the prefix automaton's edges as bits |
| `BitsetOracle.OrRows` | src/tokentrie_reduce_cycle_tests.rs:96-105 | the or of the selected rows has a bit just when some selected row has it |
| `BitsetOracle.AddRow` | src/tokentrie_reduce_cycle_tests.rs:108-115 | the row becomes the union, a change is reported only for a new bit, and no other row is touched |
| `BitsetOracle.DeriveRows` | src/tokentrie_reduce_cycle_tests.rs:55-120 | bit `to` of row (nonterminal, from) is set exactly when the nonterminal drives the automaton from one to the other; no stray bit is ever set |
| `BitsetOracle.DfaDerives` | src/tokentrie_reduce_cycle_tests.rs:55-135 | exact mode decides membership and absorbing mode decides viability |
| `BitsetOracle.RefinesBooleanOracle` | src/tokentrie_reduce_cycle_tests.rs:68-119 | every bit of the packed relation equals the entry of the boolean relation |
| `Words.ClearLowest` | src/public_api.rs:1801-1812 | `w & (w - 1)` removes exactly the bit that `trailing_zeros` names, and decreases the word |
| `Words.HasAndNot` | src/tokentrie_reduce_cycle_tests.rs:110 | the bits of `a & !b` are those of `a` that `b` lacks |
| `BoundedWords.JoinPrefix` | src/public_api.rs:7181-7189 | the inner loop adds exactly the concatenations within the limit |
| `BoundedWords.DerivationIsSpelled` | src/public_api.rs:7183-7187 | dropping over-long partial concatenations loses no word within the limit |
| `BoundedWords.SpellsSound` | src/public_api.rs:7172-7195 | what the recorded sets spell is derived |
| `BoundedWords.FixpointIsExact` | src/public_api.rs:7170-7200 | at the fixpoint a set holds exactly the words of its nonterminal within the limit |
| `BoundedWords.BoundedLanguage` | src/public_api.rs:7159-7202 | exactly the words of the language of at most bound plus two bytes, so it agrees with the exact oracle on each of them |
| `BoundedWords.LanguageOf` | src/right_recursion_regression.rs:31-61 | the vector form, whose change test compares set sizes, computes the same language |
| `BoundedWords.Language` | src/right_recursion_regression.rs:22-62 | the fixed grammar's start symbol never terminates, so the expected language is empty |
| `BoundedWords.ExpectedBit` | src/public_api.rs:7231-7235 | the expected mask bit says whether a word of at most bound plus two bytes starts with the prefix; where that margin is enough, whether the prefix is viable |
| `BoundedWords.EnumerationDecidesIff` | src/public_api.rs:7159-7165 | for every case and margin: an enumerated extension is the same as viability on all prefixes within the bound if and only if each viable prefix exactly as long as the bound has one |
| `BoundedWords.EnumerationIsNotViability` | src/public_api.rs:7159-7165 | the failing family: for every bound and margin a case of one word enumerates no witness at all, although its prefixes within the bound are viable |
| `CompactGrammar.CompactMargin` | src/public_api.rs:7102-7111 | the compact grammar needs a margin of one byte less than the bound, no more and no less, so two bytes are just enough for its bound of three |
| `CompactGrammar.CompactWordCostly` | src/public_api.rs:7102-7111 | in each of its words there are at most one more leading `c`s than there are `b`s |
| `CompactGrammar.CompactCompletes` | src/public_api.rs:7102-7111 | every nonempty string of `b`s and `c`s becomes one of its words by appending one `b` fewer than it has bytes |
| `Graphs.OrderedIsAcyclic` | crates/glrmask-finite-automata/src/automata/unweighted_u32/dfa.rs:51-54 | a listing of all states in which predecessors come first rules out every cycle |
| `Graphs.StuckMeansCycle` | crates/glrmask-finite-automata/src/automata/unweighted_u32/dfa.rs:72-84 | a nonempty set of states each with a predecessor in the set contains a cycle |
| `Graphs.AcyclicWalkBound` | src/template_parser.rs:66-67 | a walk in an acyclic graph visits each state at most once |
| `Dfas.CountIndegrees` | crates/glrmask-finite-automata/src/automata/unweighted_u32/dfa.rs:56-64 | the indegree of each state is the number of labelled edges into it |
| `Dfas.Consume` | crates/glrmask-finite-automata/src/automata/unweighted_u32/dfa.rs:74-82 | consuming a state's edges queues exactly the states left without an incoming edge |
| `Dfas.VisitOrder` | crates/glrmask-finite-automata/src/automata/unweighted_u32/dfa.rs:55-85 | the queue visits predecessors first, and visits every state exactly when there is no cycle |
| `Dfas.ComputeIsAcyclic` | crates/glrmask-finite-automata/src/automata/unweighted_u32/dfa.rs:55-85 | true exactly when the automaton has no cycle, in reachable and unreachable states alike |
| `KeyedAutomata.Connect` | crates/glrmask-finite-automata/src/automata/unweighted_u32/subtract.rs:63-76 | each transition goes to the state of its key, which is created and queued when the key is new; no other state changes |
| `KeyedAutomata.BuiltLanguage` | crates/glrmask-finite-automata/src/automata/unweighted_u32/determinize.rs:82-96 | when the worklist is empty, the state of each key accepts exactly what the key does |
| `Subtraction.Subtract` | crates/glrmask-finite-automata/src/automata/unweighted_u32/subtract.rs:32-80 | the product worklist terminates, and its automaton accepts exactly the words of the left side that the right side does not accept |
| `Nfas.EpsilonClosure` | crates/glrmask-finite-automata/src/automata/unweighted_u32/determinize.rs:51-79 | the marking loop yields exactly the states that epsilon edges reach from the seeds |
| `Nfas.NfaIsAcyclic` | crates/glrmask-finite-automata/src/automata/unweighted_u32/nfa.rs:89-130 | true exactly when labelled and epsilon edges together have no cycle |
| `Determinization.NextKeys` | crates/glrmask-finite-automata/src/automata/unweighted_u32/determinize.rs:140-186 | for each label of a subset the closure of all its targets, whether or not the shortcut for a lone target is taken |
| `Determinization.SubsetLanguage` | crates/glrmask-finite-automata/src/automata/unweighted_u32/determinize.rs:98-107 | a closed subset accepts exactly the words that some of its states accepts |
| `Determinization.Determinize` | crates/glrmask-finite-automata/src/automata/unweighted_u32/determinize.rs:108-190 | stops exactly on a cyclic input; otherwise the result has exactly its language, no cycle either, and leads to no state it does not have |
| `Trimming.ReachableStates` | crates/glrmask-finite-automata/src/automata/unweighted_u32/minimize_cyclic.rs:203-223 | exactly the reachable states, in order |
| `PartitionRefinement.RefinePartition` | crates/glrmask-finite-automata/src/automata/unweighted_u32/minimize_cyclic.rs:47-101 | states keep a common class exactly when their classes and those of all their targets agree; classes are numbered as they are met |
| `PartitionRefinement.CanonicalUnique` | crates/glrmask-finite-automata/src/automata/unweighted_u32/minimize_cyclic.rs:193-196 | numbered as they are met, a partition has one numbering, so comparing vectors compares partitions |
| `PartitionRefinement.Partition` | crates/glrmask-finite-automata/src/automata/unweighted_u32/minimize_cyclic.rs:179-197 | refinement terminates, and two states share a class exactly when no word tells them apart, the sink being told from every state |
| `Minimization.MinimizeCyclic` | crates/glrmask-finite-automata/src/automata/unweighted_u32/minimize_cyclic.rs:160-201 | the language is kept, every state is reached and any two are told apart; the result has the fewest states of all automata with its language if and only if every reachable state of the input accepts something |
| `FewestStates.LiveIsFewest` | crates/glrmask-finite-automata/src/automata/unweighted_u32/minimize_cyclic.rs:160-163 | a reduced automaton whose states all accept something is no larger than any automaton with its language |
| `FewestStates.TrapIsNotFewest` | crates/glrmask-finite-automata/src/automata/unweighted_u32/minimize_cyclic.rs:160-163 | an input that stays at two states where one is enough: its second state accepts nothing |
| `Reachability.UpToClosed` | tests/template_parser_randomized.rs:80-85 | bounded runs stay within one finite set of configurations that is closed under steps |
| `StackMachine.StepWalk` | src/template_parser.rs:98-103 | each step continues a walk in its phase or starts one in a later phase, and trades height against unvisited states |
| `StackMachine.RunBounds` | src/template_parser.rs:12-13 | every run is at most as long as there are states, and moves the height within the POP and PUSH budgets |
| `StackMachine.HeightBounds` | src/template_parser.rs:66-67 | from height h every output is between h minus the POP states less one and h plus the PUSH states less one |
| `StackMachine.EmitsUnfold` | src/template_parser.rs:58-59 | accepting emits and the traversal goes on |
| `StackMachine.PopEquation` | tests/template_parser_randomized.rs:94-139 | what a POP state emits, on the program's own tables: itself where it accepts, its links with or without a visible symbol, and below the top its edge, DEFAULT only where no explicit edge is |
| `StackMachine.ReadEquation` | tests/template_parser_randomized.rs:94-139 | what a READ state emits: likewise, with the top tested and kept |
| `StackMachine.PushEquation` | tests/template_parser_randomized.rs:94-116 | what a PUSH state emits: itself where it accepts, and what every edge gives with its symbol appended |
| `StackMachine.Apply` | tests/template_parser_randomized.rs:80-141 | the literal worklist terminates and yields exactly the stacks of the relation, a finite set |
| `StackTemplates.Word` | src/template_parser.rs:85-95 | the built graph is linear and accepts exactly the given label word |
| `StackTemplates.IdentityEmitsItself` | src/template_parser.rs:120-123 | the identity relation |
| `StackTemplates.Rewrite` | src/template_parser.rs:125-133 | exactly: the top-first prefix matches, DEFAULT matching any symbol, and is replaced by the bottom-first suffix |
| `StackTemplates.ReadTopAndPush` | src/template_parser.rs:135-143 | exactly: the top is one of the given symbols, stays, and the suffix is appended |
| `StackTemplates.AdvancesSplit` | tests/template_parser_randomized.rs:142-160 | a sequence of terminals passes through some stack at every cut |
| `StackTemplates.IgnoredTerminalIsInvisible` | src/template_parser.rs:180-182 | inserting an identity terminal anywhere in a sequence leaves the reachable stacks unchanged |
| `StackTemplates.HeightAfterTerminals` | src/template_parser.rs:12-13 | after n terminals from the one-symbol stack the height is at most one plus n times the PUSH states less one |
| `TemplateConversion.ConvertState` | src/template_parser.rs:241-252 | a state converts just when its targets, symbols and labels are legal and distinct, to the map of its encoded transitions |
| `TemplateConversion.LabelsRoundTrip` | crates/glrmask-glr/src/glr/labels.rs:1-17 | labels are 32-bit values from which the evaluators read back the kind of phase, DEFAULT, and the symbol |
| `TemplateConversion.EncodeWraps` | crates/glrmask-glr/src/glr/labels.rs:7-17 | the encoding is the wrapping sum, for every 32-bit symbol, and wrapping subtraction undoes it |
| `TemplateConversion.PhaseGraphOf` | src/template_parser.rs:232-256 | a phase converts just when it is well formed, acyclic and within both budgets, which drop by exactly its states and edges |
| `TemplateConversion.Convert` | src/template_parser.rs:258-275 | a template converts just when, on its own fields, starts and targets are states, symbols are in the alphabet, DEFAULT is in POP only, no state repeats a label, phases have no cycle, links are no more than states and lead to states, and the sizes are within budget; the result denotes the same program |
| `TemplateConversion.PhasePreserved` | src/template_parser.rs:241-255 | the evaluator's rows of a converted phase are exactly the rows of its input, DEFAULT kept apart |
| `TemplateConversion.WellFormedIsValid` | src/template_parser.rs:233-254 | a template that passes the checks is a valid program: targets and links in range, phases acyclic |
| `TemplateConversion.LabelWordsPreserved` | src/template_parser.rs:243-252 | over legal labels a converted phase accepts the encodings of exactly the words its input accepts |
| `TemplateConversion.AcceptedWordsAreEncodings` | src/template_parser.rs:243-252 | a converted phase accepts nothing but encodings of legal label words |
| `ConstructorConversion.ConvertReject` | src/template_parser.rs:115-118 | the reject template converts whenever three states are left, and then emits nothing |
| `ConstructorConversion.ConvertIdentity` | src/template_parser.rs:120-123 | the identity template converts whenever three states are left, and then emits exactly its input |
| `ConstructorConversion.ConvertRewrite` | src/template_parser.rs:125-133 | a rewrite converts exactly when its symbols are in the alphabet and its two words fit the budgets; then it is exactly the promised relation |
| `ConstructorConversion.ConvertReadTopAndPush` | src/template_parser.rs:135-143 | a test of the top converts exactly when its symbols are in the alphabet and its distinct tops and its word fit the budgets; then it is exactly the promised relation |
| `ParserPrograms.ConvertAll` | src/template_parser.rs:297-298 | terminals convert in order, each charged to what the earlier ones left |
| `ParserPrograms.NewProgram` | src/template_parser.rs:282-303 | succeeds exactly for an alphabet of 1 to 2^31-3 symbols, a certificate of at most 16 million pairs and 256 MiB, well-formed templates and totals of at most 1,000,000 states and 4,000,000 edges; the program denotes the definition, and its identity terminals are exactly those equal to the identity template |
| `ParserPrograms.AcceptedLexers` | src/template_parser.rs:315-317 | for the program of a definition, exactly the lexers with as many terminals that ignore none or one whose template is the identity template |
| `ParserPrograms.AcceptedIgnoreIsInvisible` | src/template_parser.rs:315-317 | whatever an accepted lexer ignores leaves every reachable stack unchanged |
| `ParserPrograms.ProgramHeights` | src/template_parser.rs:39-41 | stacks of an admitted program grow by at most the state budget for each terminal |
| `FlatTemplates.PushEmits` | src/runtime/commit/flat_template.rs:33-47 | PUSH emits exactly the base with an appendable word added |
| `FlatTemplates.Scratch.PushComplete` | src/runtime/commit/mod.rs:235-244 | deduplicating push into a buffer of sixteen that never spills |
| `WorkBudgets.AffordsWithinBudgets` | src/runtime/commit/flat_template.rs:8-10 | charging as it goes, the evaluator gets through exactly when the whole work is within the budgets for steps, output length and distinct outputs, in whatever order |
| `FlatTemplates.ReadOutputs` | src/runtime/commit/flat_template.rs:49-71 | goes through exactly when the budgets left cover the READ work, and then adds exactly what the READ state emits |
| `FlatTemplates.Evaluate` | src/runtime/commit/flat_template.rs:73-101 | answers exactly when the stack is short enough and the work along its route within the budgets; then the outputs are exactly the relation's stacks, and the flag says whether there is one |
| `FlatTemplates.ApplyFlat` | src/runtime/commit/flat_template.rs:103-112 | outside the budgets, and only there, it declines and leaves the scratch empty; otherwise the fast evaluator refines the literal relation |
| `PreparedPrograms.AcceptedIsPreparable` | src/template_parser.rs:232-275 | every template that conversion accepts is one whose PUSH words can be prepared |
| `PreparedPrograms.ConvertAndApply` | src/runtime/commit/flat_template.rs:103-112 | converted, prepared and evaluated, a template's answer is its own relation on the stack, each output once and at most sixteen |
| `PreparedPrograms.ApplyIdentity` | src/runtime/commit/flat_template.rs:73-101 | the identity template is answered, with the stack itself, on every stack of at most 64 symbols and on no longer one |
| `PushCounts.AddEdge` | src/runtime/commit/push_suffixes.rs:95-99 | adding a target's saturating count and length gives those of the words with the target's words added behind the edge's symbol |
| `PushCounts.CountAll` | src/runtime/commit/push_suffixes.rs:92-101 | the reverse topological pass gives each state the number of its words and the greatest length, exact up to the budgets and saturating just above |
| `PushSuffixes.Enumerate` | src/runtime/commit/push_suffixes.rs:107-122 | the pruned depth-first stack terminates and lists every word PUSH can append from the entry exactly once |
| `PushSuffixes.Prepare` | src/runtime/commit/push_suffixes.rs:48-130 | nothing is prepared unless the PUSH graph is legal and acyclic and the links in range; then exactly the entry states whose words are within what is left of the budgets get a list, and each list is exact |
| `VocabPartitions.OutputMask` | src/public_api.rs:1715-1731 | the run-merged mask words of a class have exactly its tokens as bits |
| `VocabPartitions.DenseMap` | src/public_api.rs:1704-1711 | every listed token maps to the last class that lists it, every other token to none |
| `VocabPartitions.Compile` | src/public_api.rs:1697-1738 | the partition's masks are those of its classes; a dense map made here has an entry for each token up to the largest, the last class that lists it or none, overlapping classes included |
| `VocabPartitions.FillExpandedMask` | src/public_api.rs:1788-1814 | a token's bit is set exactly when a selected class lists it; the whole buffer is overwritten and bits above the classes are ignored |
| `VocabPartitions.ExpandMask` | src/public_api.rs:1777-1781 | the same into a new buffer of the least number of words that holds all tokens |
| `VocabPartitions.ExpansionCommutes` | src/public_api.rs:1772-1776 | expansion commutes with union, and with intersection when classes are disjoint |
| `EnvProtocol.Environment.constructor` | src/env.rs:34-40 | the snapshot holds exactly the process's own names |
| `EnvProtocol.Environment.RecordOverride` | src/env.rs:78-82 | the override is recorded and the flag covers it |
| `EnvProtocol.Environment.VarOs` | src/env.rs:59-68 | own names answer with the override, a removal included, else with the snapshot's value; others with the live environment's |
| `EnvProtocol.ReadAtStart` | src/env.rs:54-58 | until something is recorded every name reads as in the environment |
| `EnvProtocol.ReadAfterRecord` | src/env.rs:88-97 | a recorded value or removal changes what its own name reads, if it is one of GLRMask's, and nothing else |
| `EnvProtocol.CachedNames` | src/env.rs:25-28 | exactly the names that begin with one of the two prefixes |
| `EnvProtocol.RunInvariants` | src/env.rs:59-82 | every interleaving of insertions, flag stores, loads and lookups keeps the linearization invariants |
| `EnvProtocol.EveryRunLinearizes` | src/env.rs:59-82 | every interleaving is equivalent to a sequential history that respects the order of non-overlapping operations and in which each read answers with the last record of its name before it, or with the snapshot's value when there is none |
| `EnvProtocol.ReadsAreNeverStale` | src/env.rs:78-82 | a read that began after a record returned answers with that record or a later one, removals included |
| `EnvProtocol.UntouchedReadsSnapshot` | src/env.rs:42-52 | in every run a name that no record was begun for reads as in the snapshot |
| `EnvProtocol.OtherAnswersWereRecorded` | src/env.rs:42-52 | any other answer than the snapshot's was recorded for that name; a name of the snapshot that reads as absent was removed |
| `EnvProtocol.EveryOperationFinishes` | src/env.rs:59-82 | at any point of any run a new operation can begin and finish by two steps of its own, whatever others are half done |
| `EnvProtocol.NeverStuck` | src/env.rs:59-82 | a running operation always has a step of its own that is possible |
| `PublishOrder.BuiltDepsClosed` | scripts/publish-crates.py:41-48 | the dependency map names only publishable crates and no crate under itself |
| `PublishOrder.OrderedIsAcyclic` | scripts/publish-crates.py:34 | an order with dependencies first exists only without cycles |
| `PublishOrder.Walk.Visit` | scripts/publish-crates.py:52-61 | a visit extends the order by the crate after its dependencies, or stops at a real cycle |
| `PublishOrder.PublishableCrates` | scripts/publish-crates.py:36-65 | on the workspace metadata: every published crate once, each after the published crates it depends on other than by a versionless dev dependency; it fails exactly when a crate so depends on itself |
| `MaskMachines.CheckMatchesReference` | src/terminal_ended_rescue_tests.rs:327-364 | passes exactly when both machines have equal masks and acceptance after every mask-allowed token path within the byte bound |
| `MaskMachines.SameLanguage` | src/public_api.rs:7456-7486 | passes exactly when both machines agree after every mask-allowed path of at most the given number of tokens |
| `OracleChecker.CheckState` | src/budget_fallback_tests.rs:185-217 | the assertions at one state hold exactly when its mask and acceptance are the grammar's for that prefix |
| `OracleChecker.CheckExactOracle` | src/budget_fallback_tests.rs:172-231 | passes if and only if, at the first token path of every viable spelling within the bound (shorter first, then by token), the machine is there, is right, and commits every wanted token |
| `OracleChecker.EarlierIsJudged` | src/budget_fallback_tests.rs:174-180 | the queue meets paths in order: whatever comes before its head has a spelling that was judged |
| `PassedMachines.PassChecksEverywhere` | src/budget_fallback_tests.rs:172-174 | whatever the vocabulary, after a pass every viable spelling within the bound is right at some allowed path that has it |
| `PassedMachines.FailureIsReal` | src/budget_fallback_tests.rs:190-217 | a run that does not pass has an allowed path at which the machine stopped or is wrong |
| `PassedMachines.PassSpeaksForAllIff` | src/budget_fallback_tests.rs:172-174 | a pass means right at every allowed path, for all machines and grammars, if and only if no two token paths within the bound have the same spelling |
| `PassedMachines.SharedSpellingMissed` | src/budget_fallback_tests.rs:178-180 | the failing family: for any two paths with one spelling within the bound, a machine that is wrong at the second passes |
| `PassedMachines.FuzzVocabularyIsAmbiguous` | src/budget_fallback_tests.rs:152-165 | the fuzz vocabulary spells `ab` twice: its paths are told apart only up to bound one, and from two on a machine that is wrong after `a`, `b` passes |
| `PassedMachines.OneByteTokensUnique` | src/terminal_ended_rescue_tests.rs:51 | distinct one-byte tokens determine token paths |
| `NativeRows.Validate` | examples/dev/compare_boundary_native_rows.rs:16-34 | true exactly when dimensions, widths, targets and coefficient numbers are in range |
| `NativeRows.Compare` | examples/dev/compare_boundary_native_rows.rs:48-75 | succeeds exactly on valid dumps that are equal once coefficient numbers are replaced by coefficients, with the number of edges |
| `NativeRows.EqualExactly` | examples/dev/compare_boundary_native_rows.rs:48-75 | equal dumps agree in every header field, the decoder, and for each state in the final coefficient and the ordered labels, targets and coefficients |
| `NativeRows.EqualWeighSame` | examples/dev/compare_boundary_native_rows.rs:5-6 | equal dumps give every label word from every state the same coefficients and final coefficient |
| `NativeRows.RenamedIsEqual` | examples/dev/compare_boundary_native_rows.rs:100-108 | renaming coefficient numbers to ones with equal values is not a difference |
| `PngChunks.ReadChunks` | scripts/sync-benchmarks.py:148-157 | reads exactly the files that are laid out as the signature and chunks, consuming all of the data |
| `PngChunks.FileLayout` | scripts/sync-benchmarks.py:148-157 | byte by byte: the signature, then for each chunk the big-endian length of its body, the kind, the body, and the big-endian checksum of kind and body, and nothing after the last |
| `PngChunks.FilesAreUnambiguous` | scripts/sync-benchmarks.py:148-157 | no two chunk lists encode to the same file |
| `PngChunks.InsertionAddsChunk` | scripts/sync-benchmarks.py:163-166 | cutting twelve bytes before the end inserts the chunk exactly before an empty end chunk |
| `PngChunks.RenderAndRead` | scripts/sync-benchmarks.py:160-166 | reading the extended file gives the original chunks, the text chunk, then the end chunk |
| `Bindings.AttachedPath` | src/public_api.rs:510-516 | the head found is the longest bound proper prefix of the name |
| `BindingLaws.BindSucceedsIff` | src/public_api.rs:3070-3122 | without limits a bind succeeds exactly when the name designates, through attached children, a declared slot that is empty, is no token extern for a grammar, and whose component has the value's vocabulary |
| `BindingLaws.LimitsDeclineIff` | src/public_api.rs:3070-3122 | limits decline exactly the binds of which the attached value or some component on the way, before or after, does not fit; they change no other |
| `BindingLaws.DeclaredSlotIsFilled` | src/public_api.rs:3083-3121 | a declared slot without an entry takes a value of the right kind and vocabulary when the parts fit: one entry is added and nothing else changes |
| `BindingLaws.AttachedChildDecides` | src/public_api.rs:3072-3082 | an undeclared name succeeds exactly as in the child at its longest bound prefix, limits aside, and replaces that child |
| `BindingLaws.BindKeepsConsistent` | src/public_api.rs:2987-3033 | at every depth, only declared slots are filled, token externs never by a grammar, and attached children and constraints have their owner's vocabulary; every bind keeps this |
| `BindingLaws.Handle.BindSlot` | src/public_api.rs:3126-3131 | a failed bind leaves the handle as it was; one that succeeds fills the designated slot, all its parts fit, and the composition stays consistent |
| `Bindings.BindFillsOneSlot` | src/public_api.rs:3070-3122 | a bind changes only the spine to one slot that was open |
| `Bindings.NeverRebinds` | src/public_api.rs:3036-3040 | a slot filled through a path cannot be filled again through it |
| `Bindings.BindAddsExterns` | src/public_api.rs:3070-3122 | a bind adds exactly the child's externs, each under the bound path |
| `Bindings.Externs` | src/public_api.rs:3051-3067 | with a valid summary and within the limits, exactly then, the stack walk returns the externs of the whole composition sorted by path |
| `Bindings.ExternListMembers` | src/public_api.rs:3050-3067 | the externs are exactly the slots, with their kinds, that paths through attached children lead to |

## Left out

- The GLR compiler, lexers, graph-structured stacks, weighted automata and save formats: a compiled constraint appears only as an abstract deterministic mask machine.
- ParserPrograms.NewProgram: ends before `TemplateParser::compile`, the last step of `ParserProgram::new`, which derives admission certificates and may still decline.
- Which of several errors is reported: a failure is one value, and the condition for it is exact.
- Memory orders weaker than sequential consistency in `src/env.rs`, and lock poisoning; the snapshot is the map captured on first use, whenever that is.
- The memo tables of the oracle checkers, which only avoid recomputation, and their counters of checked states.
- `Grammar::bind_value`, which differs from the prepared form in the order of its checks and in widening a token set to a grammar.
- Whether a composition is within its resource limits and which vocabulary a component targets: a predicate and a number.
- Bindings.Externs: requirements carry no source spans.
- Subtraction.Subtract: takes automata whose start and targets are states; the source stops on others when it meets them.
- Determinization.Determinize: takes automata whose labelled targets are states, keys subsets by sets where the source has sorted vectors, and states nothing about how the result is numbered.
- Minimization.MinimizeCyclic: states nothing about how the result is numbered, and keeps signatures in a list where the source hashes them.
- Bindings.Bind: tables are lists of entries with distinct names rather than ordered maps, and a name is its list of nonempty segments.
- PublishOrder.PublishableCrates: takes the sorted listing of names and dependencies as given, because sorting strings adds nothing to the order property.
- Dfas.ComputeIsAcyclic: edge and state counts are unbounded numbers, while the source counts in 32 bits.
- StackTemplates.Word: state numbers are unbounded, while the source casts them to 32 bits.
- PushSuffixes.Prepare: reads graphs whose PUSH labels are already symbols; a label that is none is a DEFAULT edge here.
- Cases.TerminalByte: wraps where a debug build would stop on overflow, which takes a grammar of more than 158 terminals.
- PngChunks.ReadChunks: the checksum is any function to 32-bit values.
- Benchmarks, packaging, language bindings and file or network access.
