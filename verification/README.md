# Automata core in Dafny

A model of the algorithmic core of a small finite-automaton toolkit written
in Python:

- `NFA.epsilon_closure` and `NFA.test` (nfa.py): the subset simulation of an
  NFA whose edges are labelled by one-character strings or by the empty
  string (epsilon);
- `regex_to_nfa` (nfa.py): the fresh-state counter `new_state`, the
  operator-precedence pass `to_postfix`, and the Thompson construction
  `postfix_to_nfa`;
- `DFA.test`, `DFA.minimize` and `DFA.is_equivalent`, and `complete_dfa`
  (dfa.py).

States and symbols are strings (`seq<char>`), epsilon is the empty string,
and transition tables are maps, as in the Python. Every operation is a pure
function or a method over immutable values. Iteration over Python sets and
dicts happens in an order the model does not fix (`:|` choices), so each
contract holds whatever that order is.

Modules, in dependency order:

| module | file | what it holds |
|---|---|---|
| `Wrappers` | wrappers.dfy | `Option` and `Result` |
| `AutomataTypes` | nfa.dfy | `State`, `Symbol`, `Eps`, edge tables, `Nfa` |
| `NfaSim` | nfa.dfy | epsilon closure, `NFA.test`, the walk semantics |
| `FreshNames` | fresh_names.dfy | `new_state`: the names `S0`, `S1`, ... |
| `Postfix` | postfix.dfy | `to_postfix` and what its output holds |
| `Fragments` | fragments.dfy | the five Thompson fragments |
| `Thompson` | thompson.dfy | `postfix_to_nfa`, `regex_to_nfa` |
| `RegexExamples` | regex_examples.dfy | worked examples and quirks of `to_postfix` |
| `RegexLanguages` | regex_languages.dfy | the language of the automaton built for the alternation of `a` and `b` |
| `RegexLoops` | regex_loops.dfy | the languages of the automata built for `(ab)*`, `ab+` and a lone `(` |
| `Dfas` | dfa.dfy | `Dfa`, runs, `DFA.test` |
| `Completion` | completion.dfy | `complete_dfa` |
| `Refinement` | refinement.dfy | the splitting loop of `minimize` |
| `BlockNames` | block_names.dfy | `state_name`: sorted, comma-joined, in braces |
| `Renaming` | renaming.dfy | the renaming dict loops at the end of `minimize` |
| `Minimization` | minimization.dfy | `minimize` |
| `Equivalence` | equivalence.dfy | `is_equivalent` |

Behaviour of the code that the model keeps and a reader may not expect:

- A partition block may be empty. When no state accepts, or every state does,
  `P` starts with an empty set, and the minimized DFA gets a state named `{}`
  with no transitions (`Minimization.QuotientEmptyState`).
- `minimize` does not require a total DFA, but the proofs show it keeps the
  language only on total DFAs. On a partial DFA it accepts at least the
  words the input accepts (`Minimization.Minimize`).
- `is_equivalent` never expands a pair in which either DFA lacks a
  transition. It therefore decides `Equivalence.Agree`, which only covers
  words that both DFAs read to the end. On total DFAs over one alphabet this
  is language equality (`Equivalence.AgreeIsLanguageEquality`).
- The Python raises `IndexError` on `)` with no `(` on the stack, and on an
  operator with too few fragments below it. The model returns the errors
  `UnmatchedClose` and `MissingOperand(op)`. An empty postfix raises on the
  final pop, which the model returns as `EmptyExpression`.

Quirks of `regex_to_nfa` that the model keeps and states:

- No implicit concatenation is inserted before `(`. As a result `a(b)` has
  postfix `ab`, and the automaton is the one for `b` alone
  (`RegexLanguages.GroupDropsLiteral`).
- A `.` in the input is an operand for the implicit-concatenation rule but
  is emitted as the concatenation operator, so `a.b` fails
  (`RegexLanguages.ExplicitDotFails`).
- A `(` left unclosed is flushed to the postfix and becomes a literal
  (`RegexExamples.OpenIsFlushed`). `regex_to_nfa("(")` returns the literal
  automaton for `(`, which accepts exactly the one-symbol word `(`
  (`RegexLoops.OpenRegexLanguage`).

## Model

| member | source | states |
|---|---|---|
| NfaSim.EpsilonClosure | nfa.py:9-18 | the worklist loop returns a set that contains the input, has no epsilon edge leaving it, and holds exactly the states reachable from the input by epsilon edges |
| NfaSim.ClosureIsEpsReachability | nfa.py:9-18 | a state is in the closure exactly when some epsilon path leads to it from the input set |
| NfaSim.ClosureLeast | nfa.py:9-18 | the closure lies inside every epsilon-closed superset of the input |
| NfaSim.ClosureExtendsAndIsClosed | nfa.py:9-18 | the closure contains the input and is closed under epsilon edges |
| NfaSim.Test | nfa.py:20-27 | `test` answers whether the simulated set after the word meets the accept states; the empty word is accepted exactly when the closure of the start meets them; on words without the epsilon symbol it agrees with acceptance by a walk through the NFA |
| NfaSim.RunEmptyStaysEmpty | nfa.py:22-26 | once the current set is empty it stays empty, and no extension of the word is accepted |
| NfaSim.RunIsClosed | nfa.py:21-26 | every simulated set is epsilon-closed |
| NfaSim.WalkEndsInRun | nfa.py:20-27 | every walk from the start ends in the simulated set for the word it reads |
| NfaSim.WalkToRunState | nfa.py:20-27 | every state of the simulated set is the end of a walk from the start reading the word |
| NfaSim.AcceptsIffWalk | nfa.py:20-27 | the subset simulation accepts a word exactly when some walk reading it ends in an accept state |
| FreshNames.Digits | nfa.py:33 | the decimal digits of the counter are non-empty, all between `0` and `9`, and a single digit exactly below 10 |
| FreshNames.StateNameInjective | nfa.py:31-34 | two counter values give the same name `S{n}` exactly when they are equal |
| FreshNames.NamesBelowMembers | nfa.py:31-34 | `S{j}` has been handed out by a counter at `n` exactly when `j < n` |
| FreshNames.NextNameIsFresh | nfa.py:31-34 | the next two names are new and different from each other |
| FreshNames.FreshPair | nfa.py:31-34 | the two names one construction step takes are fresh and counted by the advanced counter |
| FreshNames.NamesBelowMonotone | nfa.py:31-34 | names handed out stay handed out as the counter grows |
| Postfix.PopOps | nfa.py:46-47 | the pop loop moves a top segment of the stack, reversed, to the output; every operator it moves is not `(` and has precedence at least the given one; it stops at `(`, at the bottom, or below an operator of lower precedence |
| Postfix.Reverse | nfa.py:62-63 | flushing the stack emits its characters top first |
| Postfix.PopOpsTallied | nfa.py:46-47 | popping operators to the output loses and invents no character |
| Postfix.ShuntOpenInv | nfa.py:43-44 | `(` is pushed and the loop invariant is kept |
| Postfix.ShuntBarInv | nfa.py:45-48 | the alternation bar pops operators of equal or higher precedence, is pushed, and keeps the invariant |
| Postfix.ShuntPostfixOpInv | nfa.py:49-50 | `*` and `+` go straight to the output and keep the invariant |
| Postfix.ShuntCloseInv | nfa.py:51-54 | `)` succeeds exactly when no prefix closes more groups than it opens, then keeps the invariant; otherwise it fails with `UnmatchedClose` |
| Postfix.ShuntConcatInv | nfa.py:55-60 | an operand after one that is not `(`, the alternation bar or `.` first pushes an implicit `.` and keeps the invariant |
| Postfix.ShuntLiteralInv | nfa.py:55-60 | an operand with no implicit `.` before it goes to the output and keeps the invariant |
| Postfix.ShuntAllInvariant | nfa.py:36-61 | the loop succeeds exactly on prefix-balanced input, and then every character is accounted for in the output or on the stack |
| Postfix.ToPostfixFailsIff | nfa.py:36-64 | `to_postfix` fails exactly when some prefix has more `)` than `(`, and then with `UnmatchedClose` |
| Postfix.ToPostfixOutput | nfa.py:36-64 | the postfix keeps every operand and postfix operator in order, every alternation bar, every `.` plus one per implicit concatenation, no `)`, and one `(` per unclosed group |
| Fragments.AddEdges | nfa.py:75-76 | the `setdefault(...).update` loop adds the targets to the given sources' edges on one label and leaves every other edge alone |
| Fragments.Merge | nfa.py:115-117 | merging two edge tables gives each state and label the union of both tables' successors |
| Fragments.LiteralShape | nfa.py:147-156 | a literal has two fresh states and a single edge on the token between them |
| Fragments.LiteralWellFormed | nfa.py:147-156 | a literal fragment is well formed and uses exactly its two fresh states |
| Fragments.StarShape | nfa.py:69-83 | `*` adds a fresh start with epsilon edges to the old start and the fresh end, and gives every old accept state epsilon edges to the same two states |
| Fragments.StarWellFormed | nfa.py:69-83 | `*` keeps a fragment well formed |
| Fragments.PlusShape | nfa.py:84-111 | `+` keeps the old start, accepts only at the fresh end of its starred copy, and adds just the two fresh states |
| Fragments.PlusEdges | nfa.py:84-111 | the edges of `+` are the fragment's and its starred copy's, plus epsilon edges from the old accept states to the copy's start |
| Fragments.PlusWellFormed | nfa.py:84-111 | `+` keeps a fragment well formed |
| Fragments.ConcatShape | nfa.py:112-126 | `.` keeps the first start and the second accept states, and adds epsilon edges from the first accept states to the second start |
| Fragments.AltShape | nfa.py:127-146 | alternation adds a fresh start branching by epsilon to both starts, and epsilon edges from both accept sets to a fresh end |
| Fragments.AltWellFormed | nfa.py:127-146 | alternation keeps fragments on disjoint states well formed |
| Fragments.AltStartEdges | nfa.py:135 | the fresh start of an alternation moves by epsilon to exactly the two starts |
| Thompson.ReduceTokenInv | nfa.py:68-156 | a token succeeds exactly when the stack holds as many fragments as it pops, fails with `MissingOperand` otherwise, and keeps the fragments well formed and on disjoint, already handed-out states |
| Thompson.UnderflowsSnoc | nfa.py:68-156 | a postfix underflows when its prefix does or its last token finds too few fragments |
| Thompson.ReduceAllInv | nfa.py:66-156 | the token loop succeeds exactly when no token underflows, and then its stack height is the count of pushes minus pops |
| Thompson.PostfixToNfaSpec | nfa.py:66-158 | `postfix_to_nfa` succeeds exactly when no token underflows and a fragment is left; it reports `EmptyExpression` or `MissingOperand` accordingly; the result is well formed on at most twice as many names as the postfix has tokens |
| Thompson.FragAsNfa | nfa.py:162-168 | dropping the empty symbol from the alphabet removes nothing from a well-formed fragment, and the NFA built from it is well formed |
| Thompson.RegexToNfaSpec | nfa.py:160-168 | `regex_to_nfa` fails with `UnmatchedClose` exactly on unbalanced input; otherwise it succeeds exactly when the postfix does not underflow and is non-empty; the NFA is well formed with one accept state distinct from the start and one-character symbols |
| RegexExamples.PostfixOfAlternation | nfa.py:45-48 | `a` or `b`, written with the bar, has postfix `a`, `b`, bar |
| RegexExamples.ShuntOfBarThenLiterals | nfa.py:55-59 | in `a` or `bc`, reading `c` pushes a `.` above the waiting bar without popping it, since `.` binds tighter |
| RegexExamples.PostfixOfAlternationOfConcat | nfa.py:36-64 | `a` or `bc` has postfix `abc.` then bar: the concatenation groups before the alternation |
| RegexExamples.PostfixOfConcatThenAlternation | nfa.py:45-48 | `ab` or `c` has postfix `ab.c` then bar: the bar pops the pending `.` first |
| RegexExamples.PostfixOfStarredGroup | nfa.py:49-54 | `(ab)*` has postfix `ab.*` |
| RegexExamples.PostfixOfPlus | nfa.py:49-60 | `ab+` has postfix `ab+.`, with `+` applying to `b` only |
| RegexExamples.NoConcatBeforeGroup | nfa.py:55-60 | `a(b)` has postfix `ab`, with no concatenation |
| RegexExamples.DotIsConcat | nfa.py:55-60 | `a.b` has postfix `a.b.` |
| RegexExamples.OpenIsFlushed | nfa.py:62-63 | an unclosed `(` ends up in the postfix |
| RegexExamples.EmptyRegexFails | nfa.py:157 | the empty regex has no fragment to return |
| RegexExamples.LoneStarFails | nfa.py:69-70 | `*` with no operand has no fragment to pop |
| RegexExamples.UnmatchedCloseFails | nfa.py:51-54 | `)` and `a)` fail with `UnmatchedClose` |
| RegexExamples.LeadingBarFails | nfa.py:127-129 | a bar followed by `a` fails with `MissingOperand` on the bar |
| RegexLanguages.AlternationTable | nfa.py:127-156 | the automaton for the alternation of `a` and `b` built on counter `n` has exactly the six edges the construction adds |
| RegexLanguages.AlternationRunEmpty | nfa.py:20-21 | the closure of its start is the start and both literal starts |
| RegexLanguages.AlternationRunOne | nfa.py:22-26 | after one symbol the simulated set is the end of the matching literal plus the accept state, or empty |
| RegexLanguages.AlternationRunTwo | nfa.py:22-26 | after two symbols the simulated set is empty |
| RegexLanguages.AlternationLanguage | nfa.py:20-27 | the automaton accepts exactly the words `a` and `b` |
| RegexLanguages.AlternationBuilt | nfa.py:160-168 | `regex_to_nfa` on the alternation of `a` and `b` builds that automaton on counter 0 |
| RegexLanguages.AlternationRegexLanguage | nfa.py:29-30 | the automaton `regex_to_nfa` returns for the alternation of `a` and `b` accepts exactly `a` and `b` |
| RegexLanguages.GroupDropsLiteral | nfa.py:157-158 | `regex_to_nfa("a(b)")` returns the literal automaton for `b` alone |
| RegexLanguages.ExplicitDotFails | nfa.py:112-114 | `regex_to_nfa("a.b")` fails with `MissingOperand('.')` |
| RegexLoops.StarOfABTable | nfa.py:69-83 | the automaton for `(ab)*` on counter `n` has exactly the edges of the `a` and `b` literals, the `.` edge between them, and the `*` edges from the fresh start and from the old accept state to the old start and the fresh end |
| RegexLoops.StarOfABRun | nfa.py:20-27 | the simulation of `(ab)*` holds the entry set on the empty word, the end set after every word of `(ab)*`, the halfway set after such a word plus `a`, and nothing otherwise |
| RegexLoops.StarOfABEndAfter | nfa.py:20-27 | the fresh end of `(ab)*` is simulated after a word exactly when the word is `ab` repeated |
| RegexLoops.StarOfABLanguage | nfa.py:20-27 | the automaton for `(ab)*` accepts exactly the words that repeat `ab` zero or more times |
| RegexLoops.StarredGroupBuilt | nfa.py:160-168 | `regex_to_nfa("(ab)*")` builds the starred concatenation of `a` and `b` on counter 0 |
| RegexLoops.StarredGroupRegexLanguage | nfa.py:29-30 | the automaton `regex_to_nfa` returns for `(ab)*` accepts exactly the words that repeat `ab` |
| RegexLoops.StarredGroupAccepts | nfa.py:69-83 | `(ab)*` accepts the empty word, `ab` and `abab` |
| RegexLoops.StarredGroupRejects | nfa.py:69-83 | `(ab)*` rejects `a` and `aba` |
| RegexLoops.PlusOfBTable | nfa.py:84-111 | the `+` of the `b` literal has the literal edge, the starred copy's edges, and the epsilon edge from the literal's end to the copy's start |
| RegexLoops.APlusBTable | nfa.py:112-126 | the automaton for `ab+` on counter `n` has exactly the `a` edge, the `.` edge to `b+`, and the edges of `b+` |
| RegexLoops.APlusBRun | nfa.py:20-27 | a simulation with the table of `ab+` holds the start on the empty word, the halfway set after `a`, the loop set after `a` and one or more `b`, and nothing otherwise |
| RegexLoops.APlusBLanguage | nfa.py:20-27 | the automaton for `ab+` accepts exactly `a` followed by one or more `b` |
| RegexLoops.PlusTokenOnTwo | nfa.py:84-111 | the `+` token replaces the top fragment by its `+` on the next two names and keeps the one below |
| RegexLoops.ConcatTokenOnTwo | nfa.py:112-126 | the `.` token replaces two fragments by their concatenation and takes no name |
| RegexLoops.PlusBuilt | nfa.py:160-168 | `regex_to_nfa("ab+")` builds the concatenation of `a` with the `+` of `b` on counter 0 |
| RegexLoops.PlusRegexLanguage | nfa.py:29-30 | the automaton `regex_to_nfa` returns for `ab+` accepts exactly `a` followed by one or more `b` |
| RegexLoops.PlusExamples | nfa.py:84-111 | `ab+` accepts `ab` and `abb`, and rejects `a` and `b` |
| RegexLoops.LiteralLanguage | nfa.py:147-156 | a literal automaton accepts exactly the one-symbol word of its token |
| RegexLoops.OpenBuilt | nfa.py:62-63 | `regex_to_nfa("(")` flushes the `(` to the postfix and builds the literal automaton for it on counter 0 |
| RegexLoops.OpenRegexLanguage | nfa.py:147-158 | the automaton `regex_to_nfa` returns for a lone `(` accepts exactly the word `(` |
| Dfas.Test | dfa.py:11-17 | `test` answers whether the run from the start reads the whole word and ends in an accept state; the empty word is accepted exactly when the start accepts |
| Dfas.RunAppend | dfa.py:12-16 | reading `u + v` is reading `u`, then `v` from where `u` ended |
| Dfas.StuckStaysStuck | dfa.py:14-16 | once a transition is missing, no extension of the word is read |
| Dfas.RunStaysInStates | dfa.py:12-16 | a run of a well-formed DFA ends in one of its states |
| Dfas.TotalRunDefined | dfa.py:12-16 | a total DFA reads every word over its alphabet |
| Completion.Filled | dfa.py:95-99 | after the fill loop there is an entry for every old entry and every state and alphabet symbol, and for nothing else |
| Completion.CompleteShape | dfa.py:90-104 | the result is total, keeps alphabet, start and accept states, and gains `DEAD` exactly when an entry was missing |
| Completion.CompleteEntries | dfa.py:95-103 | old entries are kept except `DEAD`'s own, which are overwritten; new entries lead to `DEAD`; `DEAD` loops on every symbol |
| Completion.CompleteWhenTotal | dfa.py:100-104 | a DFA with no missing entry is returned unchanged |
| Completion.CompleteIdempotent | dfa.py:90-104 | completing twice is completing once |
| Completion.CompleteWellFormed | dfa.py:90-104 | completion keeps a DFA well formed |
| Completion.CompleteRun | dfa.py:95-103 | the completed DFA follows the original while it has transitions and then stays in `DEAD` |
| Completion.CompletePreservesLanguage | dfa.py:90-104 | when `DEAD` is not already a state, completion accepts exactly the words the DFA accepts |
| Refinement.InitialState | dfa.py:20-21 | `P` starts as a partition into accepting and non-accepting states, with `{}` in it exactly when one of the two is empty |
| Refinement.RemoveFirst | dfa.py:34 | `W.remove(Y)` keeps every other set and adds none |
| Refinement.SplitPartition | dfa.py:29-32 | replacing `Y` by its two non-empty parts keeps a partition, and both parts are new blocks |
| Refinement.SplitMates | dfa.py:29-32 | the split strictly shrinks the set of pairs sharing a block, and only separates pairs inside `Y` that lie on opposite sides of `X` |
| Refinement.SplitWorklist | dfa.py:33-38 | the worklist update keeps apart every pair that the split separated |
| Refinement.SplitGuards | dfa.py:29-38 | every pair that shared a block or was told apart by the worklist still is |
| Refinement.PassStep | dfa.py:26-38 | visiting one more block of `P[:]` keeps the pass invariant: visited blocks lie inside or outside `X`, the partition is only refined, and guarded pairs stay guarded |
| Refinement.SplitPass | dfa.py:26-38 | one pass over `P[:]` leaves a partition whose blocks each lie inside or outside `X`, only refines, changes `W` only when it splits, and keeps `{}` in `P` exactly when it was there |
| Refinement.ApplySplitter | dfa.py:24-38 | applying a splitter on every symbol keeps the partition, refines it, and discharges the splitter |
| Refinement.PassDone | dfa.py:25-38 | once every block lies inside or outside the predecessors of the splitter on `c`, no pair depends on the splitter for `c` any more |
| Refinement.PopPending | dfa.py:22-23 | popping the last worklist set makes it the splitter still owed on every symbol |
| Refinement.Round | dfa.py:22-38 | one round keeps the loop invariant and strictly refines the partition or shortens the worklist |
| Refinement.Refine | dfa.py:20-38 | the loop ends with a partition that never mixes accepting and non-accepting states and in which states sharing a block move, on each symbol both have, to states sharing a block |
| Refinement.NoMixRefined | dfa.py:27-32 | a refinement of a partition that does not mix verdicts does not mix them either |
| Refinement.ConsistentAtEnd | dfa.py:22 | with the worklist empty, the loop invariant says the partition is consistent with the transitions |
| BlockNames.LexLeTotal | dfa.py:56 | the string order `sorted` uses is total |
| BlockNames.LexLeAntisymmetric | dfa.py:56 | the string order is antisymmetric |
| BlockNames.LexLeTransitive | dfa.py:56 | the string order is transitive |
| BlockNames.Least | dfa.py:56 | a non-empty block has a least name |
| BlockNames.Sorted | dfa.py:56 | `sorted(B)` lists each member of the block once, in strictly increasing order |
| BlockNames.JoinShape | dfa.py:56 | the comma join starts with the first name and is longer than it exactly when there are more |
| BlockNames.JoinInjective | dfa.py:56 | for comma-free, non-empty names, equal joins come from equal lists |
| BlockNames.BlockNameInjective | dfa.py:55-56 | for comma-free, non-empty names, two blocks get the same `state_name` exactly when they are equal |
| Renaming.RenameMoves | dfa.py:49-53 | the dict loop writes `(names[s], c) -> names[t]` for every transition, whatever the order, and nothing else |
| Renaming.RenamedRun | dfa.py:46-67 | the renamed DFA follows every run of the DFA, from new name to new name |
| Renaming.RenamedStuck | dfa.py:46-67 | on a total DFA, a word the DFA cannot read is not read after renaming either |
| Renaming.RenamedLanguage | dfa.py:46-67 | if states sharing a name agree on acceptance, renaming keeps every accepted word, and on a total DFA the language |
| Renaming.RenamedWellFormed | dfa.py:46-67 | renaming into names that are all states keeps a DFA well formed |
| Renaming.RenamedAvoids | dfa.py:63-65 | a name given to no state has no transitions after renaming |
| Minimization.BlockOf | dfa.py:40-44 | `state_map[s]` is the only block holding `s` |
| Minimization.Names | dfa.py:40-58 | every state is mapped to the name of the block holding it |
| Minimization.NamesIffMates | dfa.py:40-58 | two states get the same name exactly when they share a block |
| Minimization.MovesAgree | dfa.py:49-53 | transitions from states sharing a name on one symbol lead to states sharing a name, so the dict writes never disagree |
| Minimization.EmptyBlockUnnamed | dfa.py:55-56 | the name `{}` belongs to the empty block alone |
| Minimization.QuotientWellFormed | dfa.py:46-67 | the minimized DFA is well formed |
| Minimization.QuotientEmptyStuck | dfa.py:49-53 | the `{}` state has no transitions |
| Minimization.QuotientMovesFrom | dfa.py:49-53 | on a total DFA every non-empty block has a transition on every symbol |
| Minimization.QuotientTotal | dfa.py:46-67 | the minimized form of a total DFA is total apart from its `{}` state |
| Minimization.QuotientEmptyState | dfa.py:20 | the `{}` state exists exactly when `P` holds an empty block |
| Minimization.QuotientLanguage | dfa.py:46-67 | the minimized DFA accepts every word the DFA accepts, and on a total DFA only those |
| Minimization.NamesFollowBlocks | dfa.py:40-58 | the names follow the blocks of the final partition |
| Minimization.Minimize | dfa.py:19-67 | `minimize` returns the DFA renamed by block names, has a `{}` state exactly when no state or every state accepts, is well formed, keeps every accepted word, and on a total DFA keeps the language |
| Equivalence.LeadsSnoc | dfa.py:71-75 | one more step of both DFAs extends the word by the symbol |
| Equivalence.ClosedHoldsReached | dfa.py:83-87 | a set of pairs closed under joint steps holds every pair reachable from its members |
| Equivalence.StepsIntoGrows | dfa.py:83-87 | expanding a pair keeps the explored pairs' successors inside the visited set |
| Equivalence.CoveredAfterVisit | dfa.py:79-87 | every visited pair is either checked or still queued |
| Equivalence.Expand | dfa.py:83-87 | the inner loop adds each new successor pair to `visited` and the queue, with a word reaching it |
| Equivalence.IsEquivalent | dfa.py:70-88 | `is_equivalent` answers true exactly when every word both DFAs read to the end leaves them agreeing on acceptance |
| Equivalence.AgreeFromSearch | dfa.py:79-88 | when the queue empties with no mismatch, the DFAs agree |
| Equivalence.AgreeReflexive | dfa.py:70-88 | every DFA agrees with itself |
| Equivalence.AgreeSymmetric | dfa.py:70-88 | agreement does not depend on the order of the two DFAs |
| Equivalence.AgreeIsLanguageEquality | dfa.py:70-88 | on total DFAs over one alphabet, agreement is equality of the languages |

## Left out

- app.py, the web front end, is not part of this model: it never calls the
  core's functions.
- Printing, parsing of user input, and the text dump of automata are left out.
- Python aliasing is not modelled. `postfix_to_nfa` copies or merges dicts
  whose values are shared sets; the model treats every update as building a
  new set. No construction step updates a set another fragment still uses.
- Iteration order of sets and dicts is not fixed. Each loop over a set
  picks any element, and each contract holds for every order.
- Minimization.Minimize: requires `WellFormed`. The Python raises
  `KeyError` from `state_map` (dfa.py:47, 51-52) only when the start, or the
  source or target of a transition, is neither a state nor an accept state.
  It accepts two other cases silently, and the model excludes both. An
  accept state outside `states` joins the first block of `P` (dfa.py:20). A
  transition on a symbol outside the alphabet is copied to the result
  (dfa.py:50-53). `Dfas.Test`, `Completion.Complete` and
  `Equivalence.IsEquivalent` require nothing of the DFA, as in the Python.
- Minimization.Minimize: requires that no state name is empty or contains
  a comma. Otherwise two blocks can share a name; for example `{"a,b"}` and
  `{"a", "b"}` are both named `{a,b}`.
- Minimization.Minimize: keeps the language only for total DFAs. On a
  partial DFA it is stated only to accept every word the input accepts.
- Minimization.Minimize: the two renaming steps, from states to blocks and
  from blocks to names, are merged into one renaming.
- Minimization.Minimize: minimality and idempotence of minimization (same
  number of states after a second pass) are not stated.
- Refinement.Refine: termination is shown by the set of pairs sharing a
  block, which shrinks strictly on every split. Running time is not modelled.
- Completion.CompletePreservesLanguage: requires that `DEAD` is not already
  a state. If it is, the Python overwrites that state's transitions.
- RegexLanguages.AlternationRegexLanguage: the language of the automaton
  `regex_to_nfa` builds is proved for `a|b`, `(ab)*`, `ab+` and a lone `(`
  (`RegexLoops.StarredGroupRegexLanguage`, `RegexLoops.PlusRegexLanguage`,
  `RegexLoops.OpenRegexLanguage`). The general claim, that Thompson's
  construction accepts the regular language of the expression, is not
  stated.
- Equivalence.IsEquivalent: the `visited` set never contains the start
  pair, so the start may be queued twice. The model keeps this, and the
  contract does not depend on it.
