# FOVRiS verified

A Dafny model of FOVRiS, a four-valued Datalog engine, of the calendar arithmetic and the text codecs it
rests on, and of the parser generator that builds its query language. `dafny verify dfyconfig.toml`
checks everything.

**The engine.** A fact is a tuple with one of the values False, Unknown, Incons, True; a relation keeps
one value per tuple and absorbs new values by a join in the knowledge order (`KBRelations`). A rule
compiles to a left-deep pipeline of select, project, sort and merge join (`EvalRules`, `StageMethods`,
`JoinStages`), fed by a two-pass parallel filter (`ParallelFilter`) and a parallel merge sort
(`OmpMergesort`). `RuleSemantics` says what a rule means without any of that: which substitutions
satisfy the body, and which head tuple each of them gives. The main result about rules is
`EvalRules.Evaluate`: the pipeline yields exactly one head tuple for each satisfying substitution.

A module is evaluated to a fixpoint, by re-evaluating all rules round after round
(`NaiveEvaluations`), or by evaluating deltas only (`SemiNaiveEvaluations`, `Deltas`). `Runs` says, without
pipelines, deltas or counters, to which database each step of either evaluation leads; both are proved to
end and to give the one result of their run. Both meet one contract, `Fixpoints.IsFixpoint`, with or without
a model: the initial facts are kept, the result is closed under the rules, everything in it is produced by
the rules, and it lies below every model. Hence each is consistent exactly when the module has a model, and
consistent results are the least model and equal to each other (`Fixpoints.FixpointIsLeastModel`,
`Fixpoints.FixpointsAgree`, `Evaluations.EvaluateBothWays`). Inconsistent results may differ
(`Disagreement.ResultsDiffer`).

**The calendar** (`Dates`): day numbers and civil dates are inverse and ordered alike, with the 16-bit
year taken into account; weekdays and n-th weekdays of a month.

**The parser generator**: the compressed action table answers as its transactions want (`ActTabs`), the
bin merge sort over linked lists (`ListSort`), and FIRST and FOLLOW sets as least solutions that mean
what they should (`FirstFollow`, on bytes `ByteSets`), for derivations of strings too (`Derivations`).

**The codecs**: the quoted-string printer, scanner and reader (`QuotedStrings`), and the UTF-8/UTF-32
converters (`Unicode`).

Where the code does not do what one would expect, the exact condition is proved and, but for the sort,
a concrete input is given:

- values of a negated first literal (`RuleSemantics.BodyValueIs`, `EdgeCases.NegatedFirstLiteralGivesFalse`);
- complements below the first join key (`EdgeCases.IntendedUnlessBelowFirst`, `EdgeCases.DerivesIntended`,
  `EdgeCases.ComplementBelowFirstKeyIsMissed`);
- loss of monotonicity under inconsistency (`EdgeCases.DerivationKeptExactly`, `EdgeCases.MoreKnowledgeDerivesLess`);
- counters that miss a change (`EdgeCases.InsertMovesNoCounter`, `Fixpoints.CountersTell`,
  `EdgeCases.UnknownToTrueIsNotCounted`) or drift (`KBRelations.ClearKeepsExact`, `KBRelations.AddKeepsExact`,
  `EdgeCases.ClearedStaysCounted`, `EdgeCases.AddedIsCountedTwice`);
- rows with the null marker (`EdgeCases.ScanOnePair`, `EdgeCases.NullIsJoined`);
- a search that runs off its end (`ActTabs.ActTab.Insert`, `ActTabs.AliasingRun`);
- a sort that loses elements from 2^30 on (`ListSort.Msort`);
- strings that end in a backslash (`QuotedStrings.RoundTrip`, `QuotedStrings.LoneBackslash`);
- byte sequences accepted against RFC 3629 (`Unicode.LegalIsRfc3629`, `Unicode.AcceptedOutsideRfc3629`);
- years that do not fit their field (`Dates.FromDaysRoundTrip`, `Dates.WeekdayDateRoundTrip`, `Dates.YearWraps`).

The form follows the source: relations, the knowledge base, the action table and the list nodes are
classes with fields that methods update; sorting and scattering work in place on arrays; what the
source computes in loops is a method with a loop, proved against a specification function or predicate.

## Model

| member | source | states |
|---|---|---|
| TruthValues.JoinIsLeastUpperBound | src/TruthValue.cc:21-41 | the value a tuple absorbs is the least upper bound in the knowledge order |
| TruthValues.KnowledgeJoinIs | src/TruthValue.cc:21-41 | equal values stay, unknown gives way, and values that disagree become inconsistent |
| TruthValues.ConjunctionIsLower | src/TruthValue.cc:18-37 | a conjunction has the lower value in the order False, Unknown, Incons, True |
| TruthValues.NegationSwaps | src/TruthValue.cc:24-29 | negation swaps true and false and keeps the rest |
| KBLiterals.CreateSameVarsIndices | src/KB/KBLiteral.cc:15-33 | every variable is mapped to exactly its positions, in increasing order |
| KBLiterals.MakeVarSet | src/KB/KBLiteral.cc:35-45 | the variables of the literal, each once |
| KBRelations.FactsPool.PushBack | src/KB/KBRelation.h:21-26 | a new key is appended and indexed, a present key is refused and located; sequence and index stay in agreement |
| KBRelations.FactsPool.Modify | src/KB/KBRelation.h:59-60 | changes the value of one key and nothing else |
| KBRelations.RowsAreContents | src/KB/KBRelation.h:21-26 | the rows of a pool are exactly its facts, one row a key |
| KBRelations.KBRelation.AddTuple | src/KB/KBRelation.h:47-71 | inserts by the knowledge join, reports exactly new keys and new inconsistencies, keeps the counter exact |
| KBRelations.KBRelation.AddEdbTuple | src/KB/KBRelation.h:73-97 | the same for loaded facts; nothing happens once the relation is finalized |
| KBRelations.KBRelation.Finalize | src/KB/KBRelation.cc:55-62 | evaluation starts from the loaded facts, with exact counters |
| KBRelations.KBRelation.Load | src/KnowledgeBase.cc:456-463 | after loading true and false facts the pool holds their joins and both counters are exact |
| KBRelations.InsertAllIsLeast | src/KB/KBRelation.h:47-71 | a run of insertions gives the least pool above the old one that absorbs every inserted tuple |
| KBRelations.InsertAllOrderFree | src/KB/KBRelation.h:47-71 | neither order nor repetition of insertions matters |
| KBRelations.InsertCounts | src/KB/KBRelation.h:47-71 | how one insertion moves the number of facts and of inconsistent facts |
| KBRelations.KBRelation.Clear | src/KB/KBRelation.cc:95-98 | back to the loaded facts, counters exact |
| KBRelations.KBRelation.ClearIncons | src/KB/KBRelation.cc:69-84 | sets the tuples inconsistent in the given pool to unknown and never moves the counter |
| KBRelations.ClearKeepsExact | src/KB/KBRelation.cc:75-80 | the counter stays exact exactly when no inconsistent tuple was cleared |
| KBRelations.KBRelation.AddIncons | src/KB/KBRelation.cc:86-93 | inserts the inconsistent tuples and counts each once more than AddTuple does |
| KBRelations.AddKeepsExact | src/KB/KBRelation.cc:88-90 | the counter stays exact exactly when no added tuple was stored before |
| OmpMergesort.Merge | src/Eval/omp_mergesort.h:96-123 | two sorted halves become a sorted permutation; only the two slices change |
| OmpMergesort.InsertionSort | src/Eval/omp_mergesort.h:125-138 | sorts a slice in place and touches nothing else |
| OmpMergesort.MergesortSerial | src/Eval/omp_mergesort.h:82-94 | a sorted permutation of the slice, within its part of temp |
| OmpMergesort.ParallelSections | src/Eval/omp_mergesort.h:52-71 | the two sections use disjoint slices of both arrays, so their order does not matter |
| OmpMergesort.MergesortParallel | src/Eval/omp_mergesort.h:42-80 | a sorted permutation for any strict weak order, size and thread count, with recursion that ends |
| OmpMergesort.MergeSeqsSorted | src/Eval/omp_mergesort.h:101-120 | merging sorted sequences gives a sorted sequence |
| JoinKeys.SortRelation | src/Eval/EvalSubgoal.cc:287-320 | a permutation of the rows sorted by the join key |
| JoinKeys.KeyOrderIsWeak | src/Eval/EvalSubgoal.cc:258-284 | the comparison functor is a strict weak order |
| JoinKeys.Join.Compare | src/Eval/Join.h:49-68 | zero exactly when every key pair is equal or holds a null; the key order on null-free rows |
| JoinKeys.Join.CompareWithoutNull | src/Eval/Join.h:70-88 | the key order |
| JoinKeys.Join.Joinable | src/Eval/Join.h:37-47 | accepts a null on either side; equality of keys on null-free rows |
| JoinKeys.Join.JoinableWithoutNull | src/Eval/Join.h:91-100 | equality of keys |
| Selections.MakeSelection | src/Eval/Selection.h:13-99 | the constraints built from a literal let through exactly the rows that are instances of it |
| Projections.MakeProjectionIds | src/Eval/Projection.h:41-58 | each entry reads the column of its variable or holds its constant; absent variables are dropped |
| Projections.MakeJoinProjectionIds | src/Eval/JoinProjection.h:127-157 | each entry reads its variable from the side or sides that have it |
| Projections.ProjectJoined | src/Eval/JoinProjection.h:46-74 | fills a joined row; a null on the left falls back to the right |
| Projections.LeftComplement | src/Eval/JoinProjection.h:76-98 | fills a row without partner; on null-free rows it is the projection with nothing on the right |
| ParallelFilter.CountPass | src/Eval/EvalSubgoal.cc:196-201 | every thread counts the hits of its block, under any interleaving |
| ParallelFilter.PrefixSum | src/Eval/EvalSubgoal.cc:202-208 | every thread learns where its block begins in the result |
| ParallelFilter.ScatterPass | src/Eval/EvalSubgoal.cc:213-227 | disjoint ranges that cover the result, written under any interleaving |
| ParallelFilter.ParallelSelect | src/Eval/EvalSubgoal.cc:195-229 | for any division into consecutive blocks the result is the sequential filter's, in order |
| ParallelFilter.Select | src/Eval/EvalSubgoal.cc:175-230 | the filtered rows in order, for any number of threads |
| ParallelFilter.FilteredOne | src/Eval/EvalSubgoal.cc:175-192 | the sequential filter of one row |
| ParallelFilter.FilteredConcat | src/Eval/EvalSubgoal.cc:175-192 | the sequential filter keeps the order of the rows |
| EvalSubgoals.GetOrderedUniqueVarIndices | src/KB/KBLiteral.cc:80-92 | the first position of every variable |
| EvalSubgoals.MakeEqualIndices | src/Eval/Join.cc:18-40 | the join key is the common variables in increasing order, one column each on both sides |
| EvalSubgoals.SelectCandidates | src/Eval/EvalSubgoal.cc:115-230 | exactly the known instances of the literal, each once, with the match flag, or only the accepted ones |
| MergeJoin.EmitGroup | src/Eval/EvalSubgoal.cc:890-922 | the L shape at equal keys: the rest of each group against the current row of the other |
| MergeJoin.LShapeIsNew | src/Eval/EvalSubgoal.cc:890-926 | the L shape is exactly what the scan has not emitted of the pairs it leaves behind |
| MergeJoin.MergeJoinSafe | src/Eval/EvalSubgoal.cc:877-930 | the rows are a permutation of the nested-loop join: each joinable pair that passes exactly once, and nothing else |
| MergeJoin.NestedLoopMembers | src/Eval/EvalSubgoal.cc:882-926 | the reference without sorting: it has exactly the wanted pairs and complements, each once |
| MergeJoin.MergeJoinUnknown | src/Eval/EvalSubgoal.cc:702-819 | the rows are a permutation of a nested loop that gives the joinable pairs that pass, unless the constraint is unknown only, and each partnerless left row not below the first right key exactly once |
| JoinStages.KeysCompare | src/Eval/Join.h:70-88 | keys of a row and a candidate compare as the substitutions they stand for |
| JoinStages.MatchedSat | src/Eval/EvalSubgoal.cc:890-895 | a joined row stands for a substitution that satisfies one literal more, with the conjunction of the values |
| JoinStages.MatchedComplete | src/Eval/EvalSubgoal.cc:882-926 | and every such substitution that picks a known fact comes from a pair |
| JoinStages.ComplementedMeans | src/Eval/EvalSubgoal.cc:721-735 | a row is complemented exactly when nothing is known about the instance and the scan reaches it |
| StageMethods.EvaluateFirst | src/Eval/EvalSubgoal.cc:368-429 | one row for each substitution that satisfies the first literal, with the value of its fact |
| StageMethods.EvaluateNext | src/Eval/EvalSubgoal.cc:691-820 | from the table of n literals one row for each substitution that satisfies n + 1, safe or unknown-aware |
| RuleSemantics.BodyValueIs | src/Eval/EvalSubgoal.cc:376-385 | the value of a body is False exactly when the first fact is False; otherwise Incons exactly when some used fact is, and True in the remaining case |
| RuleSemantics.HeadValueIs | include/fovris/TruthValue.h:19-24 | a head is False, or with negation True, exactly when the first fact is False; otherwise Incons exactly when some used fact is, and else True, or with negation False |
| RuleSemantics.DerivesMeans | src/Eval/EvalRule.cc:67-85 | a rule derives exactly the head instances of its satisfying substitutions with these values |
| RuleSemantics.SatLiteralMeans | src/Eval/Selection.h:30-53 | a known fact is accepted exactly if the literal names no values, or its value and not unknown only; an unknown one exactly if the literal names Unknown and the scan reaches it |
| RuleSemantics.ConvertedLiteralAccepts | src/KnowledgeBase.cc:805-816 | p, !p, p in values and !p in values accept a known fact exactly if its value, with true and false exchanged under the negation, is asked for; they accept unknown exactly if they ask for it |
| RuleSemantics.LiteralsAccept | src/Eval/Selection.h:41-53 | a positive literal accepts exactly true and inconsistent facts, a negated one exactly false and inconsistent ones |
| RuleSemantics.SatNotNull | src/Eval/EvalRule.cc:161-171 | a satisfying substitution assigns no null |
| EvalRules.AddToRuleVars | src/Eval/EvalRule.cc:50-65 | keeps the order of first insertion and the counts positive |
| EvalRules.RemoveFromRuleVars | src/Eval/EvalRule.cc:67-85 | never drops a variable, since a count stops at one |
| EvalRules.GetVarSet | src/Eval/EvalRule.cc:36-44 | all variables of the counter, in order |
| EvalRules.MakeVarsCounter | src/Eval/EvalRule.cc:87-97 | the variables of head and body, those of the head first |
| EvalRules.ComplementSafe | src/Eval/JoinProjection.h:85-89 | no complement reads a column beyond the result, as its assertion demands |
| EvalRules.CreateEvalRule | src/Eval/EvalRule.cc:108-155 | builds one evaluator per literal, each on the columns of the one before; fails exactly if the first literal accepts unknown |
| EvalRules.Evaluate | src/Eval/EvalRule.cc:161-171 | exactly one head tuple for each substitution that satisfies the body, nothing else, whatever the thread count |
| Fixpoints.DerivedWhereServed | src/SemiNaiveEvaluation.cc:165-171 | what a rule derives depends only on the facts it uses |
| Fixpoints.DerivedFits | src/NaiveEvaluation.cc:59-67 | derived tuples have the arity of the head, values of the active domain, and a known value |
| Fixpoints.AddedKeepsInvariant | src/NaiveEvaluation.cc:43-51 | adding consistent results keeps every database below every model, and produced by the rules |
| Fixpoints.StoredIsInitialOrDerived | src/NaiveEvaluation.cc:43-51 | whatever is stored, also within an inconsistent tuple, is an initial fact or was derived from what had been produced before, whether or not there is a model |
| Fixpoints.CountersTell | src/NaiveEvaluation.cc:99-102 | when knowledge grows and both counters stand still, nothing changed exactly if no unknown tuple became known |
| Fixpoints.CountersBounded | src/NaiveEvaluation.cc:93-102 | the active domain bounds the counters |
| Fixpoints.FixpointIsLeastModel | src/NaiveEvaluation.cc:107-121 | the result is consistent exactly when the module has a model, and then it is the least one |
| Fixpoints.FixpointsAgree | src/SemiNaiveEvaluation.cc:252-271 | naive and semi-naive results are both consistent or neither, and equal when consistent |
| KnowledgeBases.KnowledgeBase.AddTuple | src/KB/KBRelation.h:47-71 | changes one relation and no other, for any tuple; the counters stay exact unless an inconsistent tuple is new |
| KnowledgeBases.KnowledgeBase.FactsNumber | src/KB/KBModule.cc:26-32 | the number of facts of the module |
| KnowledgeBases.KnowledgeBase.InconsFactsNumber | src/KB/KBModule.cc:34-40 | the number of inconsistent facts of the module |
| KnowledgeBases.KnowledgeBase.GetRelationRefs | src/Evaluation.cc:5-14 | the present pools of the body literals, in order |
| NaiveEvaluations.AddResultsToRelation | src/NaiveEvaluation.cc:39-52 | inserts all results but the inconsistent ones |
| NaiveEvaluations.UnchangedMeansClosed | src/NaiveEvaluation.cc:39-52 | the complete results of a rule change nothing exactly when no consistent result can |
| NaiveEvaluations.EvaluateRules | src/NaiveEvaluation.cc:54-68 | one round applies the rules in their order, each adding exactly its consistent tuples, and changes nothing exactly when the database was closed |
| NaiveEvaluations.Generate | src/NaiveEvaluation.cc:84-105 | the loop ends, with the one database to which the rounds lead and which no rule can change |
| NaiveEvaluations.EvaluateKBModule | src/NaiveEvaluation.cc:107-121 | with or without a model: initial facts kept, closed, produced by the rules, below every model; no inconsistent fact is counted exactly when there is a model |
| Runs.NaiveResultUnique | src/NaiveEvaluation.cc:84-105 | the rounds determine the result, consistent or not |
| Deltas.RecordedTracks | src/SemiNaiveEvaluation.cc:52-66 | a delta holds exactly the keys that are new or changed, with their present values |
| Deltas.NewInstance | src/SemiNaiveEvaluation.cc:157-175 | an instance that uses a changed fact is found when the delta stands in for that literal |
| Deltas.OldInstance | src/SemiNaiveEvaluation.cc:157-175 | an instance over unchanged facts was found before |
| Deltas.RoundCovers | src/SemiNaiveEvaluation.cc:144-179 | after a round the consistent head of every instance over facts at its start that did not change in it is stored, whether or not anything is inconsistent |
| Deltas.SemiNaiveResultIsClosed | src/SemiNaiveEvaluation.cc:220-223 | when a round changes nothing, the result is closed under the rules, consistent or not |
| SemiNaiveEvaluations.AddToDeltaRelation | src/SemiNaiveEvaluation.cc:52-66 | the delta stores the value the knowledge base has now |
| SemiNaiveEvaluations.AddResultsToRelation | src/SemiNaiveEvaluation.cc:81-106 | inserts all results but the inconsistent ones and keeps the delta exact |
| SemiNaiveEvaluations.GenerateRuleIdbInfo | src/SemiNaiveEvaluation.cc:229-250 | marks exactly the literals on relations of rule heads |
| SemiNaiveEvaluations.AreDeltasEmpty | src/SemiNaiveEvaluation.cc:183-190 | tells whether all deltas are empty |
| SemiNaiveEvaluations.FirstPass | src/SemiNaiveEvaluation.cc:124-133 | a round on all facts, which leaves the exact changes in the deltas |
| SemiNaiveEvaluations.EvaluateRules | src/SemiNaiveEvaluation.cc:135-181 | every rule in its order adds exactly the consistent tuples that the last changes give, one literal at a time |
| SemiNaiveEvaluations.Rounds | src/SemiNaiveEvaluation.cc:220-223 | the loop ends on every input, and only when a round changed nothing |
| SemiNaiveEvaluations.Generate | src/SemiNaiveEvaluation.cc:207-226 | the first pass and the loop lead to the result of the run |
| SemiNaiveEvaluations.EvaluateKBModule | src/SemiNaiveEvaluation.cc:252-271 | the same contract as the naive evaluation, with the run on changes |
| Runs.SemiNaiveResultUnique | src/SemiNaiveEvaluation.cc:207-226 | the run determines the result, consistent or not |
| Evaluations.EvaluateBothWays | src/Program.cc:36-45 | run from equal facts, both evaluations give the results of their runs, both find the module consistent or neither does, and consistent knowledge bases are equal and the least model |
| Disagreement.ResultsDiffer | src/SemiNaiveEvaluation.cc:157-175 | a concrete module without a model on which the two results differ |
| EdgeCases.NegatedFirstLiteralGivesFalse | src/Eval/EvalSubgoal.cc:376-385 | a negated first literal makes a positive head false |
| EdgeCases.NegatedHeadGivesFalse | include/fovris/TruthValue.h:19-24 | a concrete negated head that is false where its body is true |
| JoinStages.ReachedMeans | src/Eval/EvalSubgoal.cc:718-735 | the scan reaches a row exactly when there is no candidate or the row's key is not below the first candidate's |
| EdgeCases.IntendedUnlessBelowFirst | src/Eval/EvalSubgoal.cc:718-735 | an intended instance is accepted exactly when its fact is known, or there is no candidate, or the row's key is not below the first one's |
| EdgeCases.DerivesIntended | src/Eval/EvalSubgoal.cc:718-735 | a rule derives exactly the intended head tuples for which no literal lies below all its known instances |
| EdgeCases.ComplementBelowFirstKeyIsMissed | src/Eval/EvalSubgoal.cc:722-725 | a concrete row that is missed |
| EdgeCases.DerivationKeptExactly | src/NaiveEvaluation.cc:115-116 | when knowledge grows, a head tuple is kept exactly if all changed facts are accepted as inconsistent and the value was inconsistent, or false by an unchanged first fact, or nothing changed |
| EdgeCases.MoreKnowledgeDerivesLess | src/NaiveEvaluation.cc:115-116 | a concrete head tuple that is lost when its fact turns inconsistent |
| EdgeCases.InsertMovesNoCounter | src/KB/KBRelation.h:59-67 | an insertion changes the pool without moving a counter exactly when it turns an unknown tuple true or false |
| EdgeCases.UnknownToTrueIsNotCounted | src/KB/KBRelation.h:59-67 | a concrete change from unknown to true |
| EdgeCases.ClearedStaysCounted | src/KB/KBRelation.cc:75-80 | a concrete tuple that is cleared and still counted |
| EdgeCases.AddedIsCountedTwice | src/KB/KBRelation.cc:88-90 | a concrete tuple that is counted twice |
| EdgeCases.ScanOnePair | src/Eval/EvalSubgoal.cc:882-896 | a pair of rows, with null or without, is emitted exactly when its keys are equal up to null and it passes |
| EdgeCases.NullMatchesEverything | src/Eval/Join.h:53-56 | the null marker compares as equal to every value; the row that the pair gives |
| EdgeCases.NullIsJoined | src/Eval/EvalSubgoal.cc:882-896 | a concrete pair with different keys that is emitted |
| Dates.PartsInRange | include/fovris/date.h:2608-2627 | the ranges in the comments of from_days hold |
| Dates.CivilIsOk | include/fovris/date.h:2608-2627 | from_days yields an ok date for every day number, before the year is narrowed |
| Dates.CivilToDays | include/fovris/date.h:2498-2515 | to_days undoes from_days for every day number |
| Dates.DaysToCivil | include/fovris/date.h:2608-2627 | from_days undoes to_days for every ok date |
| Dates.FromDaysRoundTrip | include/fovris/date.h:2608-2627 | with the 16-bit year the round trip holds exactly from January 1 of -32768 to December 31 of 32767 |
| Dates.Epoch | include/fovris/date.h:2498-2515 | day 0 is January 1, 1970 |
| Dates.ShortWraps | include/fovris/date.h:2608-2627 | a narrowed year fits its field and differs by a multiple of 65536 |
| Dates.YearWraps | include/fovris/date.h:2608-2627 | the day after the last representable one comes out as the first |
| Dates.ToDaysRoundTrip | include/fovris/date.h:2498-2515 | from_days undoes to_days on ok dates whose year fits |
| Dates.OrderIsomorphism | include/fovris/date.h:2557-2567 | the order of dates is the order of their day numbers |
| Dates.SuccessorIsOneLater | include/fovris/date.h:2283-2297 | the calendar successor by month lengths and leap years is always one day later |
| Dates.WeekdayIsModulo | include/fovris/date.h:1518-1525 | weekdays count on in steps of one, before and after the epoch |
| Dates.DifferenceIsDays | include/fovris/date.h:1593-1600 | the unsigned difference of weekdays is the days, less than a week, from one to the other |
| Dates.WeekdayDateRoundTrip | include/fovris/date.h:2791-2810 | year_month_weekday: to_days undoes from_days exactly when the year fits its field, and then it is ok; the index is 1 to 5 for every day number |
| Dates.OkMeansSameMonth | include/fovris/date.h:2778-2789 | with index 1 to 5, ok exactly when the day stays in the month |
| Dates.WeekdayOfDate | include/fovris/date.h:2802-2810 | the day found carries the weekday asked for |
| Dates.LastWeekdayIsLast | include/fovris/date.h:2975-2982 | the requested weekday, within the last seven days of the month |
| ActTabs.ActTab.Action | thirdparty/lemon/lemon.c:610-634 | extends the transaction and keeps its range |
| ActTabs.LookupFinds | thirdparty/lemon/lempar.c:423-483 | the reader finds exactly the entry at the offset plus the lookahead that names the lookahead |
| ActTabs.ActTab.FindDuplicate | thirdparty/lemon/lemon.c:667-697 | finds an equal transaction that shares its offset with nothing else, if there is one |
| ActTabs.ActTab.FindSlot | thirdparty/lemon/lemon.c:703-724 | the lowest slot that fits, or past the last slot that is checked |
| ActTabs.ActTab.Insert | thirdparty/lemon/lemon.c:643-736 | all transactions, old and new, are answered exactly, if and only if the search did not run off its end onto an offset where an entry answers |
| ActTabs.DuplicateIsExact | thirdparty/lemon/lemon.c:673-697 | equal count means no foreign entry answers at the offset |
| ActTabs.FreshOffset | thirdparty/lemon/lemon.c:725-730 | writing at a fresh offset answers the transaction and changes no earlier answer |
| ActTabs.InsertOutcome | thirdparty/lemon/lempar.c:432-437 | what one insertion does to the lookups |
| ActTabs.RoomToSpare | thirdparty/lemon/lemon.c:647-665 | with room for the least lookahead, and always if that is 0 or 1, the search stops at a checked slot |
| ActTabs.FiveRunsOff | thirdparty/lemon/lemon.c:708-723 | a table on which it does not |
| ActTabs.AliasingRun | thirdparty/lemon/lemon.c:643-736 | a run of insertions from the empty table after which a lookup is wrong |
| ListSort.Merge | thirdparty/lemon/lemon.c:1704-1740 | relinks the nodes of two lists into their merge |
| ListSort.MergeSorts | thirdparty/lemon/lemon.c:1717-1737 | the merge of sorted lists is sorted |
| ListSort.CounterBound | thirdparty/lemon/lemon.c:1755-1775 | the bins are a binary counter |
| ListSort.InsertOne | thirdparty/lemon/lemon.c:1767-1776 | one element goes into the bins and nothing is lost unless all are full |
| ListSort.Collect | thirdparty/lemon/lemon.c:1777-1779 | the bins merge into one sorted list |
| ListSort.Msort | thirdparty/lemon/lemon.c:1756-1780 | a sorted list of nodes of the input, all of them exactly when there are fewer than 2^30 |
| ByteSets.SetAdd | thirdparty/lemon/lemon.c:4488-4495 | on bytes: adds the element and tells whether it was absent |
| ByteSets.SetUnion | thirdparty/lemon/lemon.c:4498-4510 | on bytes, also of one set with itself: adds the elements and tells whether the set changed |
| FirstFollow.SetUnion | thirdparty/lemon/lemon.c:4498-4510 | the same on set values: adds the elements and tells whether the set changed |
| FirstFollow.FindLambdas | thirdparty/lemon/lemon.c:795-810 | ends with the least closed marking |
| FirstFollow.FindFirstSets | thirdparty/lemon/lemon.c:782-838 | ends with the least closed marking and the least FIRST family |
| FirstFollow.LambdaMeansNullable | thirdparty/lemon/lemon.c:777-781 | the marked nonterminals are exactly those that derive the empty string |
| FirstFollow.FirstMeansBegins | thirdparty/lemon/lemon.c:777-781 | the first set holds exactly the terminals that can begin a derivation tree of the nonterminal |
| Derivations.LambdaMeansDerivesEmpty | thirdparty/lemon/lemon.c:777-781 | the marked nonterminals are exactly those from which steps of the rules lead to the empty form |
| Derivations.FirstMeansDerives | thirdparty/lemon/lemon.c:777-781 | the first set holds exactly the terminals that begin a sentential form derived from the nonterminal |
| FirstFollow.PropagateConfig | thirdparty/lemon/lemon.c:1069-1077 | a COMPLETE config is contained in all its targets |
| FirstFollow.FindFollowSets | thirdparty/lemon/lemon.c:1052-1082 | ends with the least family above the initial one that is closed along the links |
| FirstFollow.FollowMeansFlows | thirdparty/lemon/lemon.c:1047-1051 | a token is in a set exactly when it flows there over links |
| QuotedStrings.QuotedString | src/QlScanner.re2c.cc:2504-2540 | the automaton does what the one-step reading says |
| QuotedStrings.ScanMeans | src/QlScanner.re2c.cc:2504-2540 | the scan stops behind the first quote that is not behind a backslash, and records exactly the backslashes before quotes |
| QuotedStrings.GetToken | src/Lexer.cc:30-61 | the text without the recorded escapes |
| QuotedStrings.ScanPrinted | src/QlScanner.re2c.cc:2504-2540 | stops at the closing quote with exactly the escapes, unless the string ends in a backslash |
| QuotedStrings.PrintAppends | src/Term.cc:25-32 | between the quotes a quote prints as a backslash and a quote, any other character as itself |
| QuotedStrings.BackslashIsLost | src/Lexer.cc:30-61 | a string that ends in a backslash is read back with a quote in the place of the backslash |
| QuotedStrings.RoundTrip | src/Term.cc:120-128 | printed, scanned and read back a string is itself, and the scan stops at its closing quote, exactly if it does not end in a backslash |
| QuotedStrings.LoneBackslash | src/Term.cc:120-128 | a concrete string that is read back as another one |
| QuotedStrings.PrintScanRead | src/Lexer.cc:30-61 | the three steps run one after the other return the string exactly if it does not end in a backslash |
| Unicode.LegalIsRfc3629 | thirdparty/linenoise-ng/src/ConvertUTF.cpp:296-319 | accepts the sequences of section 4 of RFC 3629, and else exactly those with ED or F4 before a byte below 80 |
| Unicode.TrailingBytesAre | thirdparty/linenoise-ng/src/ConvertUTF.cpp:175-184 | how many bytes a first byte announces, by its leading ones |
| Unicode.DecodeIs | thirdparty/linenoise-ng/src/ConvertUTF.cpp:483-491 | the character of an accepted sequence is the number that its bytes give without their marks, six bits for each that follows |
| Unicode.EncodeIsUtf8 | thirdparty/linenoise-ng/src/ConvertUTF.cpp:434-454 | the bytes of a character are its bits in groups of six behind the marks of UTF-8; beyond the last plane those of U+FFFD |
| Unicode.AcceptedOutsideRfc3629 | thirdparty/linenoise-ng/src/ConvertUTF.cpp:304-313 | a sequence that is accepted and should not be |
| Unicode.EncodeOne | thirdparty/linenoise-ng/src/ConvertUTF.cpp:434-454 | an encoded scalar value is legal, tells its length, and decodes to itself |
| Unicode.DecodeOne | thirdparty/linenoise-ng/src/ConvertUTF.cpp:483-491 | a sequence of section 4 of RFC 3629 decodes to the scalar value that encodes to it |
| Unicode.LegalIsScalar | thirdparty/linenoise-ng/src/ConvertUTF.cpp:497-516 | whatever is accepted decodes to a scalar value, so the surrogate and range branches are never taken |
| Unicode.ConvertUTF32toUTF8 | thirdparty/linenoise-ng/src/ConvertUTF.cpp:410-459 | the bytes written are exactly those of the characters read; the result tells why it stopped |
| Unicode.ConvertUTF8toUTF32 | thirdparty/linenoise-ng/src/ConvertUTF.cpp:463-521 | the characters written are exactly those of the bytes read; the result tells why it stopped |
| Unicode.RoundTrip | thirdparty/linenoise-ng/src/ConvertUTF.cpp:410-521 | decoding undoes encoding on every text of scalar values |

## Left out

- Fixpoints.FixpointsAgree: equality is stated for consistent results; Disagreement.ResultsDiffer shows that it fails beyond them, as a delta keeps the value a tuple had before it became inconsistent.
- NaiveEvaluations.EvaluateKBModule: ends where the engine tests for inconsistent facts; the correction loop behind it (src/NaiveEvaluation.cc:123-158) is not modelled, since its counters drift, as ClearKeepsExact and AddKeepsExact show.
- SemiNaiveEvaluations.EvaluateKBModule: the same, for src/SemiNaiveEvaluation.cc:274-311.
- EvalRules.Evaluate: needs null-free facts (integer -1 shares its number with the null marker, src/TermMapper.cc:19), and unknown-aware literals must bind no variable of their own, as the order of the body is taken as given.
- StageMethods.EvaluateNext: both scans use the null-blind test of equality while they emit a group; on null-free rows it is the one the source uses.
- JoinKeys.SortRelation: std::sort below the threshold is replaced by the serial merge sort; only "a sorted permutation" is used.
- OmpMergesort.ParallelSections: the two sections run as wholes, in either order; that they touch disjoint slices is what makes finer interleavings equal.
- ParallelFilter.ParallelSelect: the interleaving is by whole iterations of the loops, not by machine instructions.
- KBRelations.FactsPool.PushBack: the multi-index container is a sequence with a map from keys to positions.
- KnowledgeBases.KnowledgeBase.FactsNumber: counters are unbounded; the 32-bit wrap-around is not modelled.
- Dates.CivilToDays: day numbers are unbounded; overflow of 32-bit day numbers is not modelled, the 16-bit year is (FromDaysRoundTrip).
- FirstFollow.SetUnion: the fixpoints work on set values in array slots; ByteSets proves the byte loops against the same contract. The configurations of all states form one list.
- ListSort.Msort: the comparison function is a total preorder on the data of the nodes.
- ActTabs.InsertOutcome: lookups without the fallback and wildcard options of the generated parser.
- Unicode.ConvertUTF8toUTF32: without the branches for surrogates and values beyond the last plane, which LegalIsScalar shows are never taken; so the strict flag has no effect.
- QuotedStrings.QuotedString: a text without closing quote gives RanOff, where the automaton reads on.
- Variables and constants are kept apart as constructors; the source compares their numbers but never mixes them in one map.
- Disjunctive rules (EvalSubgoalNextDisjunction, EvalRuleWithDisj): null padding does not implement an outer join.
- Predicate functions in rules, SortRuleLiterals, AggregateSortedRuleResult and the interning of terms are not part of this model.
- UTF-16 conversions, date parsing and printing, the HTTP server, the command line and the remaining scanner rules are not part of this model.
