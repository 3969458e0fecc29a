# The evaluation-data pipeline, modelled and proved

The scripts of this repository choose, allocate, repair, finalize and measure the data a
retrieval system for insurance clauses is evaluated with. Around the language-model calls
they are deterministic algorithms: a capped largest-remainder apportionment, a greedy
scheduler with shared counters, a window clustering over sorted matches, a cycle-safe
ancestor walk, a repair planner, an id allocator that must survive reruns, a callback handler
fed by concurrent branches, ranked pick loops, a conditional top-up and a threshold sweep.
This project models those algorithms and proves what they are for.

| file | what it models |
|---|---|
| `EraQuota.dfy`, `StratifiedDraw.dfy` | splitting a quota over eras; the stratified draw that relies on the split being exact |
| `SlotPicking.dfy` | the greedy choice of source clauses against shared vocabulary counts |
| `RepairPlan.dfy`, `RepairTargets.dfy`, `RowIds.dfy` | filling freed slots without reusing a clause or a row id; which term each slot targets |
| `PackageListing.dfy`, `ListingTerms.dfy` | which vocabulary matches are only an enumeration, and which terms a question exercises; counting matches against counting terms |
| `CorpusIndex.dfy` | ancestor titles, the duplicate-text index and the expansion of references by twins |
| `IndemnityBasis.dfy` | which documents carry an indemnity-basis question |
| `NodeCapture.dfy`, `CallRecords.dfy` | attribution of model calls and node times under every interleaving; what is recorded, event by event |
| `GoldenSetFinalize.dfy`, `GoldenSetRows.dfy`, `GoldenSetHistory.dfy` | finalizing approved rows: numbering, order of effects, crashes, reruns; what happens to each row and file; golden sets grown from empty, uniqueness across files |
| `AdversarialSlots.dfy` | the pick loop over ranked clause pairs |
| `CandidateClauses.dfy` | document-order neighbours and the ranked candidate list |
| `ReviewTopUp.dfy` | topping up the second-review sample |
| `GateSweep.dfy` | confusion counts, threshold sweep and attribution of the abstention gate |
| `ParallelSaving.dfy` | what the parallel assessment branches save |
| `Ordering.dfy`, `Outcomes.dfy` | shared vocabulary: stable sorting, filtering, distinctness; options and results |

Loops that update variables are methods, each proved against a specification function or
predicate; what the source promises is then proved about that specification. The stateful
objects are classes: `RunningCounts` (the counter dictionary `pick_slots` shares with its
callers), `NodeCostCallback`, `NodeLatencyCollector` and `GoldenSet` (the stored question
files and the draft CSV). Inner loops are methods of their own.

Beside the laws over whole runs stand laws in the fields of the records (`...InFields`, `...Exactly` and the modules
`RepairTargets`, `CallRecords` and `GoldenSetRows`), with constants, types, years and id texts written out.

Where the code and its documentation differ, the model follows the code and a lemma says so:

- reruns of the finalizer "never double-finalize": true of any number of interrupted runs if and only if each was cut
  off before its first append (`GoldenSetFinalize.RerunIsExactlyOnce`);
- numbering "continues from whatever is already there": the three-digit pattern stops seeing ids at 1000
  (`GoldenSetFinalize.NumberingLimit`, `GoldenSetFinalize.AppendDistinctExactly`); a golden set grown from empty stays
  unique if and only if no run reaches a type that already holds 1000 questions
  (`GoldenSetHistory.UniqueFromEmptyExactly`);
- "a run of three or more vocabulary terms": the code counts matches, not terms. The two agree on a question if and
  only if every run of three matches has three terms, for instance when no term matches twice within 80 characters
  (`ListingTerms.CountingMatchesIsCountingTerms`, `ListingTerms.NoCloseRepeatsSuffices`); which terms lose their
  credit otherwise is `ListingTerms.LosesCreditExactly`;
- "inside a short window": the window is anchored at a run's first match, so three matches within one window can
  escape, exactly when the first is the second of a two-match run and the next match is out of reach
  (`PackageListing.ThreeInWindowEscapeExactly`); four cannot (`PackageListing.FourInWindowMeetListing`);
- the top-up swaps "rather than growing the sample size, unless `chosen` is empty" and guarantees both trap cases:
  a one-row sample can grow and the only HDI row can be overwritten (`ReviewTopUp.GrowsExactlyWhen`,
  `ReviewTopUp.HdiIsGuaranteedUnlessOverwritten`);
- keying by `run_id` makes concurrency "unambiguous": calls are lost if and only if a run id is started again while
  still pending; reuse after its end is harmless (`NodeCapture.NoCallLostExactly`).

Conventions of the model:

- Quotients and scores are exact numbers. The apportionment's `quota * count / total` is compared as a fraction over
  the common `total`. Eras with equal exact remainders are a tie, which the exact loop gives to the earlier era and
  the source's floats may give to either; `LargestRemainder` leaves ties free, so what is proved of it covers both
  (`EraQuota.TiesMayGoEitherWay`).
- Quotas, counts and sizes are natural numbers, a filing year is an integer already read, numbers inside ids are plain
  decimal digits.
- `random.sample` is any choice of k elements, a shuffle is any permutation, a similarity ranking any list.
- Pattern matching is an input: match positions, term sets of a clause or a title, cross-referenced numbers, whether a
  question asks for an instance value.
- A lookup or conversion the source lets raise is an error result of the method.
- That clause ids are unique in the corpus (`DistinctIds`, `UniqueIds`, `DistinctCells`) and that a document's
  candidates are its own clauses (`ClausesByDocument`) are facts about the corpus; lemmas that need them say so.
- An interrupted finalizer run stops between two effects: one append per question type, then the rewritten CSV.

## Model

| member | source | states |
|---|---|---|
| EraQuota.AllocateEraQuota | scripts/sample_parsing_quality.py:163-188 | The allocation stays between 0 and each era's count, sums to exactly min(quota, total), and for quota <= total is a largest-remainder split: floor or ceiling of the exact share, ceilings going to the largest remainders; for exact quotients an earlier era is rounded up first among equals |
| EraQuota.GiveRemainders | scripts/sample_parsing_quality.py:181-186 | The loop raises a prefix of the ranking by one each and stops only when the slots or the eras run out |
| EraQuota.EnoughRemainders | scripts/sample_parsing_quality.py:172-186 | Flooring never leaves more slots than there are eras with a positive remainder, so no slot is lost and none goes to an era already at its exact share |
| EraQuota.LargestRemainderUnique | scripts/sample_parsing_quality.py:176-186 | With ties broken by place the declarative description admits only one dictionary |
| EraQuota.SplitsDifferOnlyInTies | scripts/sample_parsing_quality.py:176-186 | However ties are broken, two largest-remainder splits only exchange slots between eras of equal exact remainder |
| EraQuota.TiesMayGoEitherWay | scripts/sample_parsing_quality.py:176-186 | Counts 1, 10, 22 with quota 11: the split by place and the one float quotients give are both largest-remainder splits, and only the first breaks ties by place |
| EraQuota.LargestRemainderOptimal | scripts/sample_parsing_quality.py:163-188 | However ties are broken: among all integer vectors with the same sum, negative or above the counts included, none has a smaller total deviation from the exact shares under any convex penalty |
| EraQuota.LargestRemainderMinimisesAbsoluteDeviation | scripts/sample_parsing_quality.py:163-188 | In particular the sum of abs(alloc * total - quota * count) is minimal |
| StratifiedDraw.EraBucketCoversYears | scripts/sample_parsing_quality.py:82-91 | A year has a bucket if and only if it lies in 2004-2025, and then exactly the bucket spanning it |
| StratifiedDraw.EraOfYear | scripts/sample_parsing_quality.py:82-91 | The bucket of every year by name: 2004-2009, 2010-2016, 2017-2021, 2022-2025, none outside |
| StratifiedDraw.GroupByEra | scripts/sample_parsing_quality.py:207-209 | Every record of the pool lands in its era's list, eras in order of first appearance; the first year outside all eras is the error |
| StratifiedDraw.DrawByEra | scripts/sample_parsing_quality.py:215-218 | Sampling each era for its allocation draws the quota from the pool without repeats, with the largest-remainder tally; the sampler is never asked for more than an era holds |
| StratifiedDraw.DrawCell | scripts/sample_parsing_quality.py:207-218 | The same for a whole cell, single-era pools included |
| StratifiedDraw.DrawStratifiedSample | scripts/sample_parsing_quality.py:191-222 | Whatever the sampler picks: it fails exactly on the first short cell or bad year, never inside the sampler; otherwise it returns the sum of the quotas, no clause twice, only from cells with a quota, and from each cell a proportional draw of exactly its quota |
| StratifiedDraw.DrawPossible | scripts/sample_parsing_quality.py:203-209 | The draw succeeds if and only if every pool meets its quota and holds only years of 2004-2025 |
| StratifiedDraw.ProblemExactly | scripts/sample_parsing_quality.py:203-209 | A failing draw reports the first cell that has too few records of its product line and source, with both counts, or holds a record filed outside 2004-2025, with the year |
| StratifiedDraw.ShareOfYears | scripts/sample_parsing_quality.py:191-222 | From every product line and source exactly the quota is drawn, and from each of the four year ranges less than one clause more or less than its proportional share |
| StratifiedDraw.ProportionalDrawIsClosest | scripts/sample_parsing_quality.py:191-222 | No other selection of as many clauses of the pool matches the pool's eras more closely, under any convex penalty |
| SlotPicking.PickSlots | scripts/casco_clause_selection.py:688-760 | The choice is a `Selection` of the eligible pool (definition clause, basis clause, then key-minimal picks against the counts as they stand), and the shared counts become the tally of the choice |
| SlotPicking.TakeHead | scripts/casco_clause_selection.py:718-739 | The definition and indemnity-basis clauses are taken within the limit, the counts follow |
| SlotPicking.MinByKey | scripts/casco_clause_selection.py:741-759 | The returned clause has the least key of those left, the first one among equal keys |
| SlotPicking.RunningCounts.Take | scripts/casco_clause_selection.py:712-716 | Every term the clause hits, and no other, is counted once more |
| SlotPicking.TallyCounts | scripts/casco_clause_selection.py:712-716 | A running count grows by exactly the number of chosen clauses that hit its term |
| SlotPicking.LowestMeaning | scripts/casco_clause_selection.py:741-748 | The first key component is the least count among the clause's terms, or 7 for a clause that hits none |
| SlotPicking.SelectionSize | scripts/casco_clause_selection.py:752-760 | Exactly min(limit, number of distinct eligible ids) clauses are chosen |
| SlotPicking.SelectionDistinct | scripts/casco_clause_selection.py:705-716 | All chosen clauses are of the pool, pairwise distinct by id |
| SlotPicking.SelectionEligible | scripts/casco_clause_selection.py:705-709 | None is out of scope, flagged or already used |
| SlotPicking.SelectionUnique | scripts/casco_clause_selection.py:688-760 | Pool, counts and limit determine the choice |
| SlotPicking.PriorityRespected | scripts/casco_clause_selection.py:741-759 | A pick serves a least-covered term left; an assistance clause wins only over clauses with strictly higher lowest counts; a clause without terms wins only when all counts left are at least 7 |
| SlotPicking.TiesByTypeThenId | scripts/casco_clause_selection.py:741-753 | Between clauses left with equal lowest count and equal assistance tag, one that is no coverage, exclusion, condition or definition is picked only when no such clause is left, and then the smaller id wins |
| SlotPicking.EligibleExactly | scripts/casco_clause_selection.py:705-709 | Eligible is what is casco or assistance, carries no exclusion reason and is not used |
| SlotPicking.SelectionStarts | scripts/casco_clause_selection.py:718-739 | The choice begins with the first casco definition of the pool, then where wanted the first indemnity-basis clause with another id |
| SlotPicking.SelectionStartsWithoutDefinition | scripts/casco_clause_selection.py:718-739 | Without a casco definition it begins with the first indemnity-basis clause where wanted; without either all picks go by the key |
| SlotPicking.LowestNeverDecreases | scripts/casco_clause_selection.py:755-759 | Over a run of the loop the lowest count served never goes down |
| RepairPlan.TargetedSlot | scripts/draft_golden_questions_casco.py:1214-1235 | A targeted slot takes the least-id clause titled with the term and counts the term once, its scenario only below the ceiling |
| RepairPlan.PickedSlot | scripts/draft_golden_questions_casco.py:1220-1229 | Without a servable deficit the slot takes what the greedy choice would, failing exactly when the pool is empty |
| RepairPlan.FillSlot | scripts/draft_golden_questions_casco.py:1206-1242 | A slot stays empty if and only if the pool is empty; otherwise the step obeys the targeting rule against the counts left by all earlier steps |
| RepairPlan.FillDocument | scripts/draft_golden_questions_casco.py:1192-1242 | A document's loop extends the plan by its own steps only and ends when its freed slots or its free clauses run out |
| RepairPlan.PlanReplacements | scripts/draft_golden_questions_casco.py:1185-1242 | The replacements form a plan over all documents, served one after the other in the listed order; used ids and both counters end as the plan says |
| RepairPlan.PlanUnique | scripts/draft_golden_questions_casco.py:1185-1242 | The draft determines the plan: there is only one list of replacements that serves the documents in order, step by step as described |
| RepairPlan.StepTakesFreeClause | scripts/draft_golden_questions_casco.py:1197-1242 | Each step takes a selectable clause of its own document that no surviving row and no earlier step uses |
| RepairTargets.StepTargets | scripts/draft_golden_questions_casco.py:1132-1160 | If a free clause is titled with a term that has under 2 scenarios or under 3 mentions, the step has a target, and no such term comes before it: scenario shortfalls first, then mention shortfalls, each by count and then by vocabulary place |
| RepairTargets.TargetExactly | scripts/draft_golden_questions_casco.py:1132-1213 | A term is a step's target if and only if a free clause is titled with it, it has under 2 scenarios or under 3 mentions, and it comes first of all such terms in that order |
| RepairTargets.StepServes | scripts/draft_golden_questions_casco.py:1206-1219 | A target has under 2 scenarios or under 3 mentions and is in the title of the clause taken, which has the least id of the document's free clauses so titled |
| RepairTargets.MentionsAfter | scripts/draft_golden_questions_casco.py:1231-1233 | A term's mentions grow by one per step that targets it and per free pick that hits it |
| RepairTargets.ScenariosAfterSteps | scripts/draft_golden_questions_casco.py:1149-1159 | A term's scenarios grow by one per step that targets it, up to 3 |
| RepairPlan.PlanUsesFreshClauses | scripts/draft_golden_questions_casco.py:1185-1242 | Replacement clauses are pairwise distinct and disjoint from every surviving row's clause |
| RepairPlan.PlanRespectsCap | scripts/draft_golden_questions_casco.py:1192-1196 | No document ends above the larger of five and its survivors |
| RepairPlan.PlanFillsEverySlot | scripts/draft_golden_questions_casco.py:1192-1242 | A document receives exactly min(freed slots, free clauses) replacements |
| RepairTargets.DocumentIsBroughtToFive | scripts/draft_golden_questions_casco.py:1185-1242 | A served document ends with five rows, with its kept rows if those are more, and with fewer than five only when its free clauses run out |
| RepairPlan.NextSlots | scripts/draft_golden_questions_casco.py:1245-1248 | The counters continue every document behind its highest slot; an id without a dash and number is the error |
| RepairPlan.AssignRowIds | scripts/draft_golden_questions_casco.py:1244-1252 | The i-th replacement gets its document's next slot, counting earlier replacements of the document |
| RepairPlan.NextSlotAbove | scripts/draft_golden_questions_casco.py:1245-1248 | The next slot lies above every reviewed slot of the document |
| RepairPlan.RowIdsFresh | scripts/draft_golden_questions_casco.py:1244-1252 | New row-id texts are pairwise distinct and none is in the reviewed universe |
| RowIds.ParseRender | scripts/draft_golden_questions_casco.py:1247-1251 | Writing an id and splitting it at its last dash gives back prefix and number, whatever the prefix |
| RowIds.ParseExactly | scripts/draft_golden_questions_casco.py:1246-1248 | An id is read if and only if it is a prefix, a dash and then only digits, at least one; the number is that of the digits |
| RowIds.PadThree | scripts/finalize_golden_set_from_review.py:59 | A padded number has three digits if and only if it is at most 999 |
| RowIds.PaddedDigits | scripts/draft_golden_questions_casco.py:1251 | Numbers up to 99 and up to 999 are written with exactly two and three digits, zeros in front |
| RowIds.NoNeedlessZero | scripts/draft_golden_questions_casco.py:1251 | Beyond the width no zero is put in front |
| PackageListing.CollectHits | scripts/casco_clause_selection.py:581-584 | All matches of all terms, sorted |
| PackageListing.GrowCluster | scripts/casco_clause_selection.py:588-595 | A cluster is the run of hits starting within 80 of its first |
| PackageListing.PackageListingSpans | scripts/casco_clause_selection.py:574-599 | The emitted spans are those of the runs of three or more hits |
| PackageListing.RunPartitionUnique | scripts/casco_clause_selection.py:586-598 | The loop splits the hits into consecutive maximal runs, and that partition is the only one |
| PackageListing.HitsAscend | scripts/casco_clause_selection.py:584 | Hits are sorted by start, then by end |
| PackageListing.RunHoldsExactly | scripts/casco_clause_selection.py:588-595 | A run holds exactly the following hits that start at most 80 characters after its first |
| PackageListing.ThreeHitsArePackage | scripts/casco_clause_selection.py:586-598 | Fewer than three hits are never a package; three are if and only if the last starts at most 80 characters after the first, and the span reaches from the first's start to the last's end |
| PackageListing.ListingSpans | scripts/casco_clause_selection.py:596-598 | A span is emitted if and only if it is the span of a run of at least three hits |
| PackageListing.SwallowedExactly | scripts/casco_clause_selection.py:617-618 | For arbitrary, even nested, hits: a hit lies inside a listing if and only if its own or an earlier run is a listing whose last hit ends no earlier than it does |
| PackageListing.OutsideIsShortRun | scripts/casco_clause_selection.py:617-618 | Without nesting, a hit is outside all listings if and only if its own run has fewer than three hits |
| PackageListing.ThreeInWindowEscapeExactly | scripts/casco_clause_selection.py:586-598 | Three hits whose starts lie within one window all miss the runs of three if and only if the first is the second hit of a run that ends there and the hit behind the three is out of reach of the second |
| PackageListing.FourInWindowMeetListing | scripts/casco_clause_selection.py:574-599 | Of any four hits starting within one window, one of the first three is in a run of three or more |
| PackageListing.NothingEmittedExactly | scripts/casco_clause_selection.py:586-599 | Nothing is emitted if and only if every hit is in a run of fewer than three |
| PackageListing.ThreeInWindowCanEscape | scripts/casco_clause_selection.py:574-580 | An instance: starts 0, 70, 90, 100 emit nothing |
| PackageListing.ScoreScenarios | scripts/casco_clause_selection.py:602-624 | Definition questions and questions without a scenario marker exercise no term; otherwise a term is credited for a match outside every listing |
| PackageListing.TermsExactly | scripts/casco_clause_selection.py:556-624 | A term is used if and only if it matches at all, and credited if and only if one of its matches lies in no listing |
| PackageListing.CreditedExactly | scripts/casco_clause_selection.py:613-624 | For any matches, nested or not: a term is credited if and only if one of its matches ends after the last hit of every listing up to its own run |
| PackageListing.ScenarioTerms | scripts/casco_clause_selection.py:556-624 | Scenario terms are vocabulary terms; without nesting a term is credited if and only if one of its matches is in a run of fewer than three |
| PackageListing.NestedHitLosesCredit | scripts/casco_clause_selection.py:617-624 | With nesting that equivalence fails: a match alone in its run can still be swallowed |
| PackageListing.RepeatedTermIsTakenForListing | scripts/casco_clause_selection.py:574-599 | One term matched three times in a window counts as a package listing and is not credited |
| ListingTerms.SortedLabelledSpans | scripts/casco_clause_selection.py:581-585 | Keeping each match's term beside it does not change the sorted hits |
| ListingTerms.CountingMatchesIsCountingTerms | scripts/casco_clause_selection.py:574-599 | For every question, the listings of the code are those of the documented rule, three different terms, if and only if no run of three or more matches is carried by fewer than three terms |
| ListingTerms.NoCloseRepeatsSuffices | scripts/casco_clause_selection.py:574-599 | If the matches of each term start more than 80 characters apart, every run names as many terms as it has matches and the two rules agree |
| ListingTerms.CountingMatchesOnlyLosesCredit | scripts/casco_clause_selection.py:574-624 | Every term the code credits would be credited under the documented rule too |
| ListingTerms.SwallowedByTermsExactly | scripts/casco_clause_selection.py:574-624 | Under the documented rule a match is swallowed if and only if its own or an earlier run has three different terms and a last hit that ends no earlier than it does |
| ListingTerms.LosesCreditExactly | scripts/casco_clause_selection.py:574-624 | A term the documented rule credits is not credited by the code if and only if the code's listings swallow all its matches while some match of it is swallowed by no run of three different terms |
| CorpusIndex.BuildAncestorTitles | scripts/casco_clause_selection.py:318-340 | Every clause id maps to the titles along the chain of one of its records |
| CorpusIndex.WalkTitles | scripts/casco_clause_selection.py:331-339 | The loop terminates on any parent map and collects the titles of the clause's chain, nearest first |
| CorpusIndex.AncestorsAreTheChain | scripts/casco_clause_selection.py:331-339 | The walk is the one chain that follows parents over distinct known clauses until an unknown, absent or repeated parent; it is no longer than the number of other clauses |
| CorpusIndex.AncestorsOfForest | scripts/casco_clause_selection.py:318-340 | On an acyclic parent map the guarded walk equals the plain recursion parent, then the parent's chain |
| CorpusIndex.BuildDuplicateTextIndex | scripts/casco_clause_selection.py:343-367 | The index maps each clause to exactly the other clauses of its document with the same text of at least 30 characters, and omits clauses without one |
| CorpusIndex.TwinsInFields | scripts/casco_clause_selection.py:343-367 | One clause is listed under another if and only if they are different clauses of one document with the same text of at least 30 characters |
| CorpusIndex.OnlyTwinsAreIndexed | scripts/casco_clause_selection.py:343-367 | A clause is in the index at all if and only if it has such a twin |
| CorpusIndex.IndexGroup | scripts/casco_clause_selection.py:362-366 | Each member of a group is mapped to the other members |
| CorpusIndex.TwinsTransitive | scripts/casco_clause_selection.py:343-367 | Together with identity, being twins is transitive |
| CorpusIndex.ExpandWithTwins | scripts/draft_golden_questions_casco.py:1564-1569 | The loop computes the expansion the next two lemmas describe |
| CorpusIndex.AppendTwins | scripts/draft_golden_questions_casco.py:1566-1568 | The inner loop appends the twins that are not listed yet, in order |
| CorpusIndex.SortedIds | scripts/draft_golden_questions_casco.py:1566 | The sorted list of a set does not depend on the order the set is read in |
| Ordering.StringLeExactly | scripts/casco_clause_selection.py:749-754 | Ids compare at the first character where they differ, a prefix before what it starts |
| CorpusIndex.ExpansionIsClosure | scripts/draft_golden_questions_casco.py:1559-1569 | The expansion has the references as a prefix, adds exactly their twins, none twice, and is closed under twins |
| CorpusIndex.ExpansionIdempotent | scripts/draft_golden_questions_casco.py:1559-1569 | Expanding an expanded list changes nothing |
| IndemnityBasis.GroupEligible | scripts/casco_clause_selection.py:660-663 | Eligible documents are listed by regime, each once; an eligible document without a regime is the error |
| IndemnityBasis.EligibleExactly | scripts/casco_clause_selection.py:660-662 | A document is eligible if and only if one and the same of its clauses is an indemnity-basis clause and selectable |
| IndemnityBasis.TakeQuotas | scripts/casco_clause_selection.py:667-669 | The quota loop takes exactly the documents with fewer than two lower-numbered eligible ones of their regime |
| IndemnityBasis.TopUp | scripts/casco_clause_selection.py:671-684 | The top-up adds the lowest-numbered others until five are chosen or none is left |
| IndemnityBasis.SelectIndemnityBasisDocuments | scripts/casco_clause_selection.py:650-685 | The result is the `Choice` of the eligible documents: quota part plus lowest-numbered others |
| IndemnityBasis.ChoiceUnique | scripts/casco_clause_selection.py:650-685 | That description determines the set |
| IndemnityBasis.ChoiceSize | scripts/casco_clause_selection.py:667-685 | Exactly max(sum over regimes of min(2, eligible), min(5, eligible)) documents; at least five if and only if five are eligible; never more than six |
| IndemnityBasis.QuotaPartOfRegime | scripts/casco_clause_selection.py:667-669 | Each regime contributes min(quota, eligible) documents to the quota part |
| IndemnityBasis.LowestOfEveryRegime | scripts/casco_clause_selection.py:664-684 | Across quota and top-up, no eligible document is passed over for a later one of its regime |
| NodeCapture.NodeCostCallback.OnChatModelStart | scripts/eval_performance.py:260-279 | A start files the call's node and model under its run id and touches nothing else |
| NodeCapture.NodeCostCallback.PopPending | scripts/eval_performance.py:291-292 | The first critical section takes the entry out, or the default |
| NodeCapture.NodeCostCallback.AppendCall | scripts/eval_performance.py:295-306 | The second critical section appends one record |
| NodeCapture.NodeCostCallback.OnLlmError | scripts/eval_performance.py:308-320 | An error pops and records in one section, with no tokens |
| NodeCapture.Perform | scripts/eval_performance.py:245-320 | Running any interleaving of sections on the handler ends in the state of the step machine |
| NodeCapture.EveryInterleavingIsFaithful | scripts/eval_performance.py:245-320 | For every interleaving in which no call ends unstarted and no id restarts while pending, reuse after an end included: the pending and popped entries are exactly the unfinished calls, and the list holds each finished call once, with its own start's node and model and its own end's usage, none for an error |
| CallRecords.EndedCallIsRecorded | scripts/eval_performance.py:260-306 | A started call whose run ends and whose thread appends is recorded with the node name and model of its start event, "unknown" where the start names no node, and the usage of its own append event |
| CallRecords.FailedCallIsRecorded | scripts/eval_performance.py:260-320 | A failed call is recorded with the node name and model of its start event and no tokens |
| CallRecords.RecordHasItsCall | scripts/eval_performance.py:260-320 | Every record stems from one start event and its own end |
| CallRecords.UnstartedEndIsUnknown | scripts/eval_performance.py:291-306 | The end of a call that never started is recorded under "unknown" without a model |
| CallRecords.UnstartedErrorIsUnknown | scripts/eval_performance.py:308-320 | So is its failure, with no tokens |
| NodeCapture.CallsBalance | scripts/eval_performance.py:254-320 | At every point of every interleaving of threads: calls started + ends that found nothing = pending + popped but unrecorded + recorded + entries overwritten by a start |
| NodeCapture.NoCallLostExactly | scripts/eval_performance.py:254-320 | Where every end finds its call, all started calls are pending, popped or recorded if and only if no start finds its id still pending |
| NodeCapture.RunsDoNotInterfere | scripts/eval_performance.py:245-320 | A run id's share of the pending entries, popped entries and records is what its own steps alone leave, reused ids, overwrites and unstarted ends included |
| NodeCapture.InterleavingsAgree | scripts/eval_performance.py:245-320 | Two interleavings that agree on each run id's own steps end with equal dictionaries and the same records up to order |
| NodeCapture.NodeTotalIsOwnTokens | scripts/eval_performance.py:245-320 | A node's token total is the sum, over the started calls whose own start named it, of the tokens their own ends reported; at quiescence every started call is among them |
| NodeCapture.TotalsIndependentOfOrder | scripts/eval_performance.py:245-320 | Per-node token totals do not depend on the interleaving, reused ids included |
| NodeCapture.ReusedRunIdLosesACall | scripts/eval_performance.py:275-292 | An instance: a run id started again while pending leaves two starts and one record |
| NodeCapture.NodeLatencyCollector.EmitRecord | scripts/eval_performance.py:202-215 | A node log line adds one sample to its run; every other line changes nothing |
| CallRecords.EmittedExactly | scripts/eval_performance.py:202-215 | A run's samples are exactly those of its node.completed and node.failed lines that carry a node and a duration, lines without a correlation id going to "-" |
| NodeCapture.NodeLatencyCollector.DrainRun | scripts/eval_performance.py:217-220 | Draining hands over a run's samples and clears them, and no other run's |
| NodeCapture.Collect | scripts/eval_performance.py:188-220 | However emits and drains interleave, what was drained for a run followed by what is left is what was emitted for it, in order |
| GoldenSetFinalize.HighestSequence | scripts/finalize_golden_set_from_review.py:75-85 | The highest number the pattern recognises among a file's ids |
| GoldenSetFinalize.NextSequenceNumbers | scripts/finalize_golden_set_from_review.py:71-86 | Every stored type continues behind its highest recognised number |
| GoldenSetFinalize.AssignIds | scripts/finalize_golden_set_from_review.py:139-153 | The loop gives every pending row its type's next number, counting pending rows above it, and stops at the first invalid one |
| GoldenSetFinalize.FinalizeRows | scripts/finalize_golden_set_from_review.py:129-153 | Succeeds if and only if all pending rows are valid; then rows, types in first-appearance order and new ids per type are as specified |
| GoldenSetFinalize.GoldenSet.AppendQuestions | scripts/finalize_golden_set_from_review.py:156-162 | One file grows at its end; the others stay |
| GoldenSetFinalize.GoldenSet.AppendAll | scripts/finalize_golden_set_from_review.py:215-218 | The append loop, cut off after any number of appends |
| GoldenSetFinalize.GoldenSet.Run | scripts/finalize_golden_set_from_review.py:205-221 | A run cut off after k effects leaves exactly the first k of them: appends by type, then the CSV; an invalid row stops it before any |
| GoldenSetFinalize.RunAppendsConsecutively | scripts/finalize_golden_set_from_review.py:137-153 | Each type reached gains the consecutive ids after its maximum, one per pending row; no other file changes |
| GoldenSetRows.NothingHappens | scripts/finalize_golden_set_from_review.py:129-153 | A draft in which an approved unfinalized row is malformed or has no lower-case type name, and one without approved unfinalized rows, leaves the store as it is |
| GoldenSetRows.RowsStay | scripts/finalize_golden_set_from_review.py:143-153 | Rows keep their place and all other fields; a row that is not approved or is finalized already keeps its id too |
| GoldenSetRows.RowIsNumbered | scripts/finalize_golden_set_from_review.py:146-153 | A completed run gives an approved row the number after the highest of its type plus the approved unfinalized rows of the type above it, written as type, dash and three digits |
| GoldenSetRows.ReachedExactly | scripts/finalize_golden_set_from_review.py:150-218 | A run cut off after k effects reaches a type if and only if fewer than k other types have an approved unfinalized row before the type's first |
| GoldenSetRows.FileGrows | scripts/finalize_golden_set_from_review.py:156-218 | A reached file is continued by one id per approved unfinalized row of its type; the others stay |
| GoldenSetRows.ExtendedContinues | scripts/finalize_golden_set_from_review.py:146-162 | Continuing keeps the file and adds consecutive ids from the one after its highest |
| GoldenSetFinalize.RecogniseRender | scripts/finalize_golden_set_from_review.py:59-84 | A written id is read back if and only if its number is at most 999 |
| GoldenSetRows.RecognisedExactly | scripts/finalize_golden_set_from_review.py:59-84 | An id is recognised if and only if the type's name is lower-case letters and underscores and the id is that name, a dash and three digits; the number is that of the digits |
| GoldenSetRows.HighestExactly | scripts/finalize_golden_set_from_review.py:75-85 | The highest number of a file is that of one of its ids, or 0, and no id has a higher one |
| GoldenSetFinalize.AppendDistinctExactly | scripts/finalize_golden_set_from_review.py:71-153 | Continuing a file repeats an id if and only if a number after 999 that it gives out is there already |
| GoldenSetFinalize.NumberingLimit | scripts/finalize_golden_set_from_review.py:59-86 | A file numbered 1..n takes more questions without a repeated id if and only if n <= 999 |
| GoldenSetFinalize.RunKeepsDistinctExactly | scripts/finalize_golden_set_from_review.py:129-222 | A run keeps all files free of repeated ids if and only if it fits in that sense |
| GoldenSetFinalize.ThreeDigitsFit | scripts/finalize_golden_set_from_review.py:59-153 | Every run fits while no type passes 999 |
| GoldenSetFinalize.IdsStayDistinct | scripts/finalize_golden_set_from_review.py:71-222 | Over any history of edits and runs, complete or cut off anywhere, ids stay pairwise distinct at every point if and only if every run fits |
| GoldenSetFinalize.FinalizedRowsAreStored | scripts/finalize_golden_set_from_review.py:215-221 | Over any history in which edits invent no id, a row marked finalized has its question stored |
| GoldenSetHistory.DistinctFromEmptyExactly | scripts/finalize_golden_set_from_review.py:59-222 | From an empty golden set, over any history: each file stays free of repeated ids if and only if every run starts with at most 999 questions of each type it reaches |
| GoldenSetHistory.HistoryIsNumbered | scripts/finalize_golden_set_from_review.py:71-153 | From an empty golden set and within that limit every file holds the ids 1..n of its type, after any history |
| GoldenSetHistory.UniqueAcrossFilesExactly | scripts/validate_golden_set.py:123-132 | Over any history no id stands twice in the whole golden set, in one file or in two, if and only if every run fits |
| GoldenSetHistory.UniqueFromEmptyExactly | scripts/validate_golden_set.py:123-132 | From an empty golden set: if and only if every run starts with at most 999 questions of each type it reaches |
| GoldenSetHistory.OwnAndDistinctIsUnique | scripts/validate_golden_set.py:123-132 | Where files hold ids of their own type, uniqueness across files is uniqueness within each |
| GoldenSetHistory.HistoryKeepsOwn | scripts/finalize_golden_set_from_review.py:137-162 | No history puts an id of another type into a file |
| GoldenSetFinalize.RerunChangesNothing | scripts/finalize_golden_set_from_review.py:144-145 | A rerun after a completed run changes nothing, and a run with an invalid row changes nothing at all |
| GoldenSetFinalize.CrashedRunsRepeat | scripts/finalize_golden_set_from_review.py:215-221 | Any sequence of runs cut off before the CSV leaves the draft as it was and adds each type's pending questions once for every run that reached the type |
| GoldenSetFinalize.RerunRepeats | scripts/finalize_golden_set_from_review.py:215-221 | A complete run after them adds every pending question once more |
| GoldenSetFinalize.RerunIsExactlyOnce | scripts/finalize_golden_set_from_review.py:13-15 | Completing after any sequence of interrupted runs stores every pending question exactly once if and only if none of them had appended anything |
| AdversarialSlots.SelectForPair | scripts/adversarial_clause_selection.py:470-496 | The loop with its seen-set and counter equals the pipeline: usable pairs, one per primary clause, the first n, numbered from 0 |
| AdversarialSlots.SelectSlots | scripts/adversarial_clause_selection.py:456-497 | The outer loop concatenates the pipelines of all document pairs |
| AdversarialSlots.UsableExactly | scripts/adversarial_clause_selection.py:298-324 | A pair can be used if and only if both clauses are known, have no twin and are at least 30 characters long |
| AdversarialSlots.SlotInFields | scripts/adversarial_clause_selection.py:484-495 | The k-th slot asks about the k-th picked pair in the first document; its id text is kind, both documents and k in two digits |
| AdversarialSlots.PickedNext | scripts/adversarial_clause_selection.py:473-483 | One more candidate is picked if and only if there is room, both clauses are known and selectable, and its primary is new |
| AdversarialSlots.PickedExactly | scripts/adversarial_clause_selection.py:470-496 | A primary clause is asked about if and only if some usable pair of it is ranked behind fewer than n different primaries |
| AdversarialSlots.PicksAreBestPerPrimary | scripts/adversarial_clause_selection.py:470-496 | Each pick is the best-ranked usable pair of its primary, primaries are distinct, and fewer than n picks mean the usable primaries ran out |
| AdversarialSlots.TextInjective | scripts/adversarial_clause_selection.py:489 | Written row ids of numbered documents differ unless document pair and number agree |
| AdversarialSlots.RowIdTextsDiffer | scripts/adversarial_clause_selection.py:456-497 | No two slots of a run share a row-id text, within or across document pairs |
| CandidateClauses.FindDocumentOrderNeighbours | scripts/find_candidate_clauses.py:111-146 | The slices around the target in the sorted roots, empty for a clause with a parent or a bundle section |
| CandidateClauses.NeighbourExactly | scripts/find_candidate_clauses.py:127-146 | A clause is a neighbour if and only if the target has neither parent nor bundle section and the clause is another root of its document with fewer than `window` roots strictly between the two |
| CandidateClauses.BetweenInFields | scripts/find_candidate_clauses.py:127-136 | What lies between two clauses are the document's other parentless clauses read after one and before the other, by page and then id |
| CandidateClauses.NeighboursAreMutual | scripts/find_candidate_clauses.py:111-146 | Being neighbours is symmetric between clauses with neither parent nor bundle section |
| CandidateClauses.NeighbourCount | scripts/find_candidate_clauses.py:144-146 | There are min(before, window) + min(after, window) neighbours |
| CandidateClauses.ReasonsExactly | scripts/find_candidate_clauses.py:173-187 | A signal is listed if and only if its relation holds, each at most once and in the fixed order |
| CandidateClauses.FindCandidates | scripts/find_candidate_clauses.py:149-195 | Fails if and only if the id is unknown; otherwise the short list: the best `maxCandidates` of all linked clauses by signal count, then id |
| CandidateClauses.ListedExactly | scripts/find_candidate_clauses.py:168-187 | What is ranked are exactly the other clauses of the target's document with at least one signal |
| CandidateClauses.ListedInFields | scripts/find_candidate_clauses.py:168-190 | A clause is listed under its id, with its title and signals, if and only if it is another clause of the document with a signal |
| CandidateClauses.ListInFields | scripts/find_candidate_clauses.py:190-195 | More signals come first, then the smaller id, among those kept and before those cut off |
| CandidateClauses.ShortListUnique | scripts/find_candidate_clauses.py:190-195 | The short list is determined by what is ranked, not by the order it was collected in |
| CandidateClauses.AtMostThreeSignals | scripts/find_candidate_clauses.py:124-187 | No clause has more than three of the four signals: document order excludes parent and bundle |
| ReviewTopUp.EnsureCrossDocumentSubsets | scripts/review_sample_selection.py:68-99 | The loop performs the two top-up steps with a decreasing swap index |
| ReviewTopUp.TrapsInFields | scripts/review_sample_selection.py:57-92 | The trap rows are those of document 12 and those that refer to a clause with a non-empty bundle section |
| ReviewTopUp.BundleIsGuaranteed | scripts/review_sample_selection.py:68-99 | The sample keeps distinct rows of the pool and shows a bundle row if and only if the pool has one |
| ReviewTopUp.HdiIsGuaranteedUnlessOverwritten | scripts/review_sample_selection.py:68-99 | The sample shows an HDI row if and only if the pool has one and the trailing row was not its only carrier, overwritten by a bundle row of another document |
| ReviewTopUp.SizeAfterTopUp | scripts/review_sample_selection.py:82-99 | The size is the larger of the old size and the number of replacements |
| ReviewTopUp.GrowsExactlyWhen | scripts/review_sample_selection.py:73-78 | A non-empty sample grows if and only if it has one row, both cases are missing and the HDI row brought in is not a bundle row |
| ReviewTopUp.LeadingRowsStay | scripts/review_sample_selection.py:73-98 | Only the last two rows can be replaced |
| ReviewTopUp.OneRowGrows | scripts/review_sample_selection.py:73-78 | A sample of one row that ends with two |
| ReviewTopUp.HdiCanBeLost | scripts/review_sample_selection.py:24-28 | A sample that loses its only HDI row although the pool has both cases |
| GateSweep.ConfusionAt | scripts/eval_insufficient_context_gate.py:245-290 | The four counters and two lists are those of the abstention rule |
| GateSweep.CountsInFields | scripts/eval_insufficient_context_gate.py:245-290 | The four counts are those of the rows by label and by abstention: nothing retrieved, top score under the low floor, or under the high one when an instance value is asked for |
| GateSweep.RecallExactly | scripts/eval_insufficient_context_gate.py:245-290 | Recall times the unanswerable rows is the number caught, and 0 without such rows |
| GateSweep.EveryRowCounted | scripts/eval_insufficient_context_gate.py:260-278 | The four counts add up to the rows, tp + fn to the unanswerable ones |
| GateSweep.RaisingAbstainsMore | scripts/eval_insufficient_context_gate.py:245-290 | Raising either threshold never lowers tp or fp and never raises fn |
| GateSweep.FullRecallExactly | scripts/eval_insufficient_context_gate.py:293-301 | With the instance rule off, recall is 1 if and only if the floor exceeds the top score of every unanswerable question that retrieved something |
| GateSweep.PureFloorSweep | scripts/eval_insufficient_context_gate.py:293-301 | Fails if and only if no row is unanswerable; otherwise strictly ascending thresholds, exactly the grid points and the added one, each with its confusion |
| GateSweep.SweepUnique | scripts/eval_insufficient_context_gate.py:293-301 | The rows determine the sweep |
| GateSweep.GridExactly | scripts/eval_insufficient_context_gate.py:113 | The grid is 0.3 to 0.65 in fifteen steps of 0.025 |
| GateSweep.Round4Exactly | scripts/eval_insufficient_context_gate.py:300 | Rounding gives the nearest multiple of 1/10000, the even one of two equally near |
| GateSweep.SweepOnlyGrows | scripts/eval_insufficient_context_gate.py:293-301 | Along the sweep tp and fp never decrease |
| GateSweep.PointIsJustAbove | scripts/eval_insufficient_context_gate.py:299-300 | The added point exceeds every unanswerable score, the highest by less than 0.0011 |
| GateSweep.SweepReachesFullRecall | scripts/eval_insufficient_context_gate.py:293-301 | The sweep's added point has recall 1 |
| GateSweep.OperatingPoint | scripts/eval_insufficient_context_gate.py:304-328 | The attribution splits the unanswerable rows: caught by the floor, caught by the instance rule (together tp), missed (exactly the false negatives) |
| ParallelSaving.ParallelComparison | scripts/eval_performance.py:912-953 | Nothing is compared if and only if no claim ran the compatibility node; otherwise each such claim's sequential time, parallel time and saving, in order, and their aggregate fraction |
| ParallelSaving.OnPathExactly | scripts/eval_performance.py:383-385 | A claim is compared if and only if its compatibility node ran at least once |
| ParallelSaving.TimesExactly | scripts/eval_performance.py:926-931 | The sequential time is the sum of the three nodes' times, the parallel time the largest of them |
| ParallelSaving.ClaimSaving | scripts/eval_performance.py:926-932 | A claim saves between nothing and two thirds of its sequential time, two thirds if and only if its three branches take the same time |
| ParallelSaving.StageFraction | scripts/eval_performance.py:926-953 | For any list of claims the fraction lies in 0..2/3 and equals 1 - sum(parallel) / sum(sequential); it is 2/3 if and only if every claim's branches take the same time |

## Left out

- Model calls, prompts, providers and their fallback, structured-output schemas: external behaviour; a schema's answer is an input.
- LangGraph nodes, retrievers, chunking and parsing: imported by these scripts, not part of this model.
- Regular expressions and text similarity, including the near-duplicate search: inputs, as described above.
- CSV, JSONL, Parquet and Postgres formats, reports and rendering: the stores are their contents.
- Assigning soft targets to corrected rows before the repair plan: its effect on the two counters is part of the plan's starting counts.
- Cost and latency summaries of `eval_performance.py`: sums, means and formatting of single values.
- ParallelSaving.ParallelComparison: does not state the percentiles, the end-to-end fraction, the token cost or the rounding of the report; it covers the times, the savings and their fraction of the stage.
- The coverage-with-exclusion and bundle-section slots of `adversarial_clause_selection.py`: the first reuses the candidate list and candidate flags modelled here, the second walks a hand-written list.
- Drawing the review sample itself: rounding a share of each shuffled stratum; the top-up takes any drawn rows.
- Threads: critical sections under the lock are atomic steps, and a run's steps may interleave in any order.
- A crash in the middle of one file's append: an append is one effect.
- Float rounding: exact rationals and reals stand for Python floats, half-even rounding to four decimals is exact.
- RowIds.ParseRender: Python's `int` also reads signs, blanks and underscores, which the model's reader rejects.
- IndemnityBasis.SelectIndemnityBasisDocuments: document ids are their numbers, so two spellings of one number are one document.
