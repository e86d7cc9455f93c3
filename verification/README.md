# Saena measurement and evidence core: a verified model

This project states, in Dafny, what the self-contained algorithmic cores of the Saena platform do, and proves what
their documentation promises of them. `dafny verify dfyconfig.toml` checks everything.

What is modelled, one module or a few per source file:

- **B-gate verdict** (`AugmentingSearch`, `LayerMatching`, `ServedLayers`, `KuhnMatcher`, `BGate`, `BGateDecision`).
  Kuhn's augmenting-path matching of outcome layers to evidence bases, run in place, and the fail-closed verdict built
  around it. Every failed search leaves a closed region of bases, and that region proves the matching maximum and tells
  which layers are served.
- **Idempotent analytics store** (`AnalyticsStore`, `AnalyticsRuns`, `AnalyticsQuery`, `AnalyticsPipeline`,
  `AnalyticsRead`). Writers insert and read back in two separate steps, interleaved in any way, against a table whose
  deduplication window is bounded; readers go through a query builder and the two nested queries that deduplicate.
- **Outbox, topics and consumer** (`Outbox`, `OutboxTopics`, `OutboxBlocking`, `Consumer`). Drains as steps of a
  system in which publishing may fail, drains may overlap, and a crash may fall between any two steps; the consumer
  that handles each key once.
- **Difference-in-differences** (`Rounding`, `DiD`, `DiDNumbers`, `DiDLaws`, `DiDRounding`, `DiDReport`). Exact means,
  deduplication, the window, leave-one-out sign stability, the two-stage rounding, and which of a signal's numbers it
  can report, and the canonical report over all signals.
- **Command normaliser** (`ShellScan`, `ShellScanLaws`, `ShellQuoting`, `CommandNormalize`, `CommandNormalizeLaws`,
  `CommandSegments`, `CommandDepth`). Three scanners tied to one quoting automaton, and a depth-limited recursion
  measured against the meaning a command has without the limit.
- **Hash chains** (`EvidenceManifest`, `ExperimentLedger`, `AuditChain`). Sealing, registering, appending, and where
  verification fails after tampering.
- **Versioned vector store** (`VectorStore`, `VectorStoreLaws`, `VectorCalls`, `VectorSearch`, `VectorTenants`,
  `VectorMemory`). The two dictionaries updated in place, the histories they keep, nearest-neighbour search, and the
  separation of tenants.
- **Skill bundle hash** (`SkillBundle`, `SkillBundleLaws`, `SkillBundleFormat`), **experiment binding** (`Binding`,
  `BindingReasons`, `BindingLaws`), and **confirmation with its clock** (`Confirmation`, `ConfirmationLaws`).
- Shared: `Common` (Option and Result), `TextOrder` (the order of `sorted` on strings), `Decimal` (numerals),
  `TenantPatterns` (the two tenant-id patterns).

How it is put together: a loop or an object of the source is a method or a class here, with an `ensures` that equates
its effect with a specification function. What that function does is then said a second time, by lemmas that use the
inputs and outputs only (`...Calls`, `...Topics`, `...Numbers`, `...Decision`, `...Reasons`, `...Segments`, `...Format`,
`...Quoting`), and the laws over whole runs are proved about it.

Assumptions, each a parameter or a named predicate of the lemmas that use it:

- SHA-256 over canonical JSON, and over file contents and manifest texts, is a function without collisions.
- `shlex.split` is any tokenizer whose tokens, joined by single spaces, are no longer than its input.
- Envelope validation, the k-anonymity guard, the publisher's answers, handler outcomes and verifier answers are
  arbitrary, and witnesses are pairwise different.
- Datetimes are integers, with or without a zone where the code looks at that; floats are exact rationals or reals with
  tags for the non-finite values.

Where the code differs from its own documentation, the model follows the code:

- `_extract_dollar_paren` is documented as respecting quotes. It does so inside a group only: a `$(` that stands
  between quotes is peeled like any other (`ShellScanLaws.OuterQuotesDoNotProtect`). It heeds the quotes around groups
  exactly on the texts where no group it peels stands inside protecting ones
  (`ShellScanLaws.QuotesAreHeededIffNoneProtects`).
- `with_time_range` is described as an additional bound, but a further call rebinds the parameters of the first. It
  narrows when its bounds are no looser than those it replaces, or when the range is then empty, and, unless the
  filters already decide the time or select nothing, only then (`AnalyticsQuery.SecondRangeNarrowsIffNotLooser`,
  `AnalyticsQuery.SecondRangeCanWiden`).
- A drain is described as going on with the other rows after a bad one. A row whose guard or tenant check raises ends
  the drain (`Outbox.AbortBlocksTheRest`), and the rows behind it stay where they are over all drains of the whole
  outbox (`OutboxBlocking.BadRowBlocksForGood`); a drain of one tenant passes
  (`OutboxBlocking.TenantDrainNeverAborts`). Both outboxes validate an envelope when it is recorded, so a malformed
  tenant id does not get in there. An aggregate with the cohort size `5.0` does: JSON Schema and pydantic take it for
  an integer, and the k-anonymity gate then raises `TypeError` (`OutboxBlocking.FloatCohortEndsTheDrain`,
  `OutboxBlocking.AggregateAbortsIffFloat`).
- The system scope of the consumer is meant to be apart from all tenants; a tenant named `saena-system-scope` shares it
  (`Consumer.SystemScopeIsApart`).
- `_round` is said never to raise. That holds for deltas and lifts (`DiDRounding.LiftIsReported`). A margin raises
  exactly when the effect threshold exceeds the lift by 10^50 less half a unit
  (`DiDRounding.MarginRaisesIffThresholdIsHuge`), as it does in `DiDRounding.MarginCanRaise`.
- `_round` is said to round the exact value half to even. It does so except exactly when the 60 digits of the quotient
  end in a half of a unit and the exact value lies off that half, on the side away from the even unit
  (`Rounding.RoundIsOneRoundingIffNoTieIsLost`); a denominator no larger than 10^(s-10), with s the place of the last of
  those digits, is enough (`Rounding.SmallDenominatorsRoundOnce`), and that guard is sharp
  (`Rounding.LargeDenominatorRoundsTwice`).
- The docstring of the token says `:` joins its parts; the code joins with the unit separator.
- The tenant pattern ends in `$`, which also matches before one trailing newline; valid tenants include that case.
- A confirmer is said to be trusted on a truthy answer; only the literal `True` is accepted.
- The canonical report of `did.py` is said not to depend on the order of the signals. That holds exactly when no two
  signals share layer, metric and evidence basis and come out differently (`DiDReport.ReportIsOrderFreeIffNoClash`),
  as two do in `DiDReport.ReportCanDependOnOrder`.

The order of repeats inside a cell, of which the code promises nothing, does not matter in cells without ids, and in a
cell with ids exactly when no id carries two different repeats (`DiDLaws.OrderIsIrrelevantIffNoClash`). With a clash the
reported lift can move, but the signal then carries the conflict code in every order (`DiDLaws.ClashMovesTheLift`).

## Model

| member | source | states |
|---|---|---|
| `KuhnMatcher.LayerMatcher.Augment` | packages/domain/src/saena_domain/measurement/b_gate.py:299-308 | the in-place augmenting search ends, and its matching, visited set and answer are those of the recursive search function |
| `KuhnMatcher.FindMaxIndependentLayers` | packages/domain/src/saena_domain/measurement/b_gate.py:281-311 | the layers returned are those of the final matching, in the order of their wire values |
| `LayerMatching.FoundSearch` | packages/domain/src/saena_domain/measurement/b_gate.py:299-308 | a successful search moves matched layers along a path: the same layers stay served, the asking layer joins them, every basis is used at most once |
| `LayerMatching.FailedSearch` | packages/domain/src/saena_domain/measurement/b_gate.py:299-308 | a failed search changes nothing, and every basis it visited is taken by a layer whose neighbours were all visited too |
| `LayerMatching.AugmentGrows` | packages/domain/src/saena_domain/measurement/b_gate.py:299-311 | an `augment` keeps the matching injective and inside the edges, never unmatches a layer, and adds at most the asking one |
| `LayerMatching.AugmentClosed` | packages/domain/src/saena_domain/measurement/b_gate.py:299-311 | a closed region of bases stays closed over an `augment`, and a failure extends it by all the failed layer could reach |
| `LayerMatching.ClosedRegionStays` | packages/domain/src/saena_domain/measurement/b_gate.py:299-308 | no later search disturbs the matches inside a closed region or frees a basis in it |
| `LayerMatching.RunKeepsInvariant` | packages/domain/src/saena_domain/measurement/b_gate.py:309-311 | over the loop of layers, the matching stays a matching and the closed region accounts for every layer left out |
| `LayerMatching.FailedLayerCertificate` | packages/domain/src/saena_domain/measurement/b_gate.py:299-311 | when `augment` fails for a layer, there is a set of layers holding it whose joint neighbourhood is smaller by one |
| `LayerMatching.FailedLayerStaysOut` | packages/domain/src/saena_domain/measurement/b_gate.py:299-311 | a layer whose `augment` failed is unmatched at the end of the run as well |
| `LayerMatching.NoMatchingIsLarger` | packages/domain/src/saena_domain/measurement/b_gate.py:281-311 | Koenig's bound: no matching of layers to bases is larger than one with such a closed region |
| `LayerMatching.FinalMatchIsMaximum` | packages/domain/src/saena_domain/measurement/b_gate.py:281-311 | for every edge set, the number of layers returned is the size of a maximum matching |
| `ServedLayers.ServedIffItHelps` | packages/domain/src/saena_domain/measurement/b_gate.py:281-311 | which layers are returned, not only how many: a layer is exactly when the layers before it in wire order can be matched better together with it than without it, so the order in which bases are tried does not matter |
| `BGate.DecideBVerdict` | packages/domain/src/saena_domain/measurement/b_gate.py:314-463 | the loop-built verdict, codes, layers and views are those of the decision function |
| `BGate.ClassifySignals` | packages/domain/src/saena_domain/measurement/b_gate.py:341-392 | the loop collects exactly the codes, raw layers, adjusted layers and qualifying edges of the batch |
| `BGate.RecordCodes` | packages/domain/src/saena_domain/measurement/b_gate.py:349-385 | one turn of the loop keeps the codes there are and adds a code exactly when the signal earns it: each code's condition on the signal and the bases seen is said apart from the others, without the branches' order |
| `BGate.CheckEvidenceAndDeployment` | packages/domain/src/saena_domain/measurement/b_gate.py:395-404 | exactly the codes of broken evidence, an incomplete window and a missing or late deployment are added |
| `BGate.CheckDesign` | packages/domain/src/saena_domain/measurement/b_gate.py:405-414 | exactly the codes of contamination, drift, a missing baseline or control and too few repeats are added |
| `BGate.SignalCodesMeaning` | packages/domain/src/saena_domain/measurement/b_gate.py:349-385 | a code is collected by the loop exactly when some signal, or pair of signals, of the batch deserves it |
| `BGate.InputCodesMeaning` | packages/domain/src/saena_domain/measurement/b_gate.py:341-414 | a code is recorded exactly when its condition on evidence, window or signals holds |
| `BGate.PassIffTwoIndependentSignals` | packages/domain/src/saena_domain/measurement/b_gate.py:314-463 | the verdict is PASS exactly when no fail-closed condition holds and two qualifying signals differ in layer and in evidence basis |
| `BGate.UndeterminedIffFailClosed` | packages/domain/src/saena_domain/measurement/b_gate.py:394-463 | the verdict is UNDETERMINED exactly when some fail-closed condition holds |
| `BGate.TwoIndependentEdges` | packages/domain/src/saena_domain/measurement/b_gate.py:281-311 | two layers can be matched exactly when two edges differ at both ends |
| `BGate.SingleLayerFails` | packages/domain/src/saena_domain/measurement/b_gate.py:416-463 | a sound input with one independent layer is FAIL with the single-layer code; PASS never carries it and FAIL always carries some code |
| `BGate.QualifyingLayersAreAdjusted` | packages/domain/src/saena_domain/measurement/b_gate.py:341-463 | every qualifying layer is in the control-adjusted view and comes from a qualifying signal |
| `BGate.OrderDoesNotMatter` | packages/domain/src/saena_domain/measurement/b_gate.py:314-463 | the whole decision is the same for every permutation of the signals |
| `BGate.ResubmissionAddsOnlyTheDuplicateCode` | packages/domain/src/saena_domain/measurement/b_gate.py:341-463 | submitting a present signal once more changes neither verdict, layers nor views; only the duplicate-basis code may be added |
| `BGate.NoCodeOnlyWhenNothingToExplain` | packages/domain/src/saena_domain/measurement/b_gate.py:341-463 | a nonempty batch without any code has a qualifying layer |
| `BGateDecision.ViewsAre` | packages/domain/src/saena_domain/measurement/b_gate.py:341-392 | by membership: the raw view holds the layers with a finite signal whose treatment moved up, the adjusted view those with a finite signal of positive control-adjusted lift; a layer that moved in both arms alike is in the first only |
| `BGateDecision.QualifyingLayersAre` | packages/domain/src/saena_domain/measurement/b_gate.py:341-463 | whatever the verdict, a layer qualifies exactly when it can be given an evidence basis of a signal that counts next to the layers before it, and no more layers could be |
| `BGateDecision.PassInFull` | packages/domain/src/saena_domain/measurement/b_gate.py:314-463 | PASS, told from every field of the evidence, the window and the signals |
| `BGateDecision.DecisionCodesAre` | packages/domain/src/saena_domain/measurement/b_gate.py:341-463 | each reason code of a decision is there exactly for its own condition on the inputs, and the single-layer code exactly on a FAIL with one layer or with nothing else to say |
| `BGateDecision.ConfidenceAndPolicy` | packages/domain/src/saena_domain/measurement/b_gate.py:429-463 | confidence is 1.0 exactly on PASS and else 0.0, the policy is passed on, and production is told exactly from its provenance |
| `BGateDecision.TuplesAscend` | packages/domain/src/saena_domain/measurement/b_gate.py:262-268 | codes and layers ascend strictly by wire value, the wire values given as strings |
| `AnalyticsStore.DedupTokenInjective` | packages/analytics-clickhouse/src/saena_analytics_clickhouse/store.py:251-286 | for owned tables and valid tenants, equal tokens mean equal table, tenant and key, whatever characters the key holds |
| `AnalyticsStore.Executor.InsertRows` | packages/analytics-clickhouse/src/saena_analytics_clickhouse/store.py:609-632 | an insert is dropped exactly when its token is in the server's window, and else appends a row and the token |
| `AnalyticsStore.Executor.AppendWithDedupToken` | packages/analytics-clickhouse/src/saena_analytics_clickhouse/store.py:609-632 | insert then witness read-back: the new table, and True exactly when the first row of the key carries this call's witness |
| `AnalyticsStore.Executor.AppendLegacyCheckThenInsert` | packages/analytics-clickhouse/src/saena_analytics_clickhouse/store.py:633-670 | True and one more row exactly when the key had no row |
| `AnalyticsStore.RunIsTraced` | packages/analytics-clickhouse/src/saena_analytics_clickhouse/store.py:609-684 | over every interleaving, each row in the table comes from a call that has inserted, with its own witness, and each token in the window was sent by one |
| `AnalyticsStore.RowCount` | packages/analytics-clickhouse/src/saena_analytics_clickhouse/store.py:609-632 | over every interleaving of any writers, the physical rows of a key number one, plus one for each replay made after its token was evicted |
| `AnalyticsStore.OneRowIffNoLateReplay` | packages/analytics-clickhouse/src/saena_analytics_clickhouse/store.py:609-632 | an attempted key has exactly one physical row exactly when no replay came after eviction |
| `AnalyticsStore.RunAnswersHold` | packages/analytics-clickhouse/src/saena_analytics_clickhouse/store.py:609-684 | in a run without a late replay of the key, a writer that has returned was answered True exactly when its own row is the first kept for its key |
| `AnalyticsStore.ExactlyOneWinner` | packages/analytics-clickhouse/src/saena_analytics_clickhouse/store.py:609-684 | once all writers of a key have finished and no replay was late, exactly one of their calls returned True |
| `AnalyticsStore.LateReplayCanWinTwice` | packages/analytics-clickhouse/src/saena_analytics_clickhouse/store.py:609-684 | for every table and tenant, a run of three valid calls with one late replay: the key has two rows, and both of its calls were told they won |
| `AnalyticsStore.WinnersAtMostLateReplays` | packages/analytics-clickhouse/src/saena_analytics_clickhouse/store.py:609-684 | over every interleaving, the calls of a key told that they won are at most one more than its late replays |
| `AnalyticsStore.LegacyPathAgrees` | packages/analytics-clickhouse/src/saena_analytics_clickhouse/store.py:633-670 | for any number of calls run one after another, the two paths keep the same business rows exactly when no replay is late, and then give every call the same answer |
| `AnalyticsStore.NoLateReplayIfTokensFit` | packages/analytics-clickhouse/src/saena_analytics_clickhouse/store.py:609-632 | over every interleaving, no replay is late when the window has room for every different token of the calls |
| `AnalyticsStore.NoneLateIfTokensFit` | packages/analytics-clickhouse/src/saena_analytics_clickhouse/store.py:609-632 | nor is one in a sequential run of calls whose different tokens fit |
| `AnalyticsStore.SequentialStep` | packages/analytics-clickhouse/src/saena_analytics_clickhouse/store.py:609-632 | a sequential append that is not a late replay wins and lands exactly when its key has no row yet |
| `AnalyticsRuns.AppendIsARun` | packages/analytics-clickhouse/src/saena_analytics_clickhouse/store.py:609-632 | one append is an insert and a read-back of the system of writers, with the same table and the same answer |
| `AnalyticsRuns.SequentialPathIsARun` | packages/analytics-clickhouse/src/saena_analytics_clickhouse/store.py:609-684 | so are any calls one after the other, with the same rows and answers |
| `AnalyticsRuns.ReadBackTells` | packages/analytics-clickhouse/src/saena_analytics_clickhouse/store.py:609-684 | the row a read-back goes by is one of the key with no earlier one beside it, and the answer is whether it carries the call's witness |
| `AnalyticsRuns.WindowHoldsTheLatest` | packages/analytics-clickhouse/src/saena_analytics_clickhouse/store.py:609-632 | over every interleaving, the window holds the tokens of the rows that landed last, as many as it has room for |
| `TenantPatterns.ValidTenantIsThePattern` | packages/analytics-clickhouse/src/saena_analytics_clickhouse/identifiers.py:22-43 | the store's tenant check is its pattern read as written, with the newline that `$` lets through, and the limit of 32 characters |
| `AnalyticsQuery.BuiltQuerySelects` | packages/analytics-clickhouse/src/saena_analytics_clickhouse/query.py:73-102 | along any chain of builder calls, the tenant predicate stays first and the query selects exactly the tenant's rows that pass every filter and the last bounds given |
| `AnalyticsQuery.BuiltQueryMeansSteps` | packages/analytics-clickhouse/src/saena_analytics_clickhouse/query.py:73-102 | the clauses and parameters of a built query mean the steps that built it |
| `AnalyticsQuery.FilterParametersSurvive` | packages/analytics-clickhouse/src/saena_analytics_clickhouse/query.py:73-83 | no equality filter's parameter is overwritten by any later call |
| `AnalyticsQuery.EqParamTellsCall` | packages/analytics-clickhouse/src/saena_analytics_clickhouse/query.py:73-83 | the parameter name of an equality filter determines the call that made it, even for columns ending in digits |
| `AnalyticsQuery.EqParamIsNew` | packages/analytics-clickhouse/src/saena_analytics_clickhouse/query.py:73-83 | the parameter name chosen is not in use |
| `AnalyticsQuery.SecondRangeNarrowsIffNotLooser` | packages/analytics-clickhouse/src/saena_analytics_clickhouse/query.py:84-98 | a further range call, one-sided or not, narrows the query if the bounds it gives are no looser than those it replaces or the range is then empty; and only then, when the filters leave the time free and some row passes them |
| `AnalyticsQuery.SecondRangeCanWiden` | packages/analytics-clickhouse/src/saena_analytics_clickhouse/query.py:84-98 | a chain and a row for which a second range call brings in a row the first shut out |
| `AnalyticsQuery.BuildSucceedsIff` | packages/analytics-clickhouse/src/saena_analytics_clickhouse/query.py:99-240 | a chain fails exactly for a foreign table, an invalid tenant or a limit below one, and else builds for that table under the limit given last |
| `AnalyticsPipeline.FirstIsMinimal` | packages/analytics-clickhouse/src/saena_analytics_clickhouse/query.py:174-190 | the first row per key of the rows sorted by id has the least id of every row of its key |
| `AnalyticsPipeline.PipelineIsDisplay` | packages/analytics-clickhouse/src/saena_analytics_clickhouse/query.py:174-190 | whatever order equal ids come in, the inner first-per-key and the outer sort deliver one row per key, each of minimal id, in display order |
| `AnalyticsPipeline.DisplayIsPipeline` | packages/analytics-clickhouse/src/saena_analytics_clickhouse/query.py:174-190 | and every such list is what the two nested queries may deliver |
| `AnalyticsPipeline.AnswersAreDisplays` | packages/analytics-clickhouse/src/saena_analytics_clickhouse/query.py:174-190 | the query returns exactly such lists cut to the limit, the limit taken of the outer query |
| `AnalyticsRead.AnswerIsDeduplicated` | packages/analytics-clickhouse/src/saena_analytics_clickhouse/query.py:119-190 | what the nested queries return has no key twice, is in display order, each row has the least id of its key among all matching rows, and the limit counts distinct logical rows |
| `AnalyticsRead.LimitIsAPrefix` | packages/analytics-clickhouse/src/saena_analytics_clickhouse/query.py:174-190 | a limited query returns exactly the first rows of an unlimited answer |
| `AnalyticsRead.CopiesChangeNothing` | packages/analytics-clickhouse/src/saena_analytics_clickhouse/query.py:119-190 | adding physical copies of present rows leaves what the nested queries return the same in every business column |
| `AnalyticsRead.AnswerExists` | packages/analytics-clickhouse/src/saena_analytics_clickhouse/query.py:119-190 | the nested queries return something for every table |
| `AnalyticsRead.ReadersSeeEachKeyOnce` | packages/analytics-clickhouse/src/saena_analytics_clickhouse/query.py:119-190 | after any interleaving of writers, late replays included, what the nested queries return to a reader holds each attempted key of its tenant that it asked for exactly once |
| `Outbox.OutboxDrainer.DrainOnce` | packages/domain/src/saena_domain/bus/drainer.py:172-272 | the loop leaves the marks, the published log and the four result lists that the drain function gives, and tells whether it was cut short by an exception |
| `Outbox.ListsPartitionTheBatch` | packages/domain/src/saena_domain/bus/drainer.py:172-272 | a drain that ends normally puts every pending row in exactly one of the four lists; it ends normally exactly when no row's checks raise |
| `Outbox.AbortBlocksTheRest` | packages/domain/src/saena_domain/bus/drainer.py:172-272 | a row whose checks raise ends the drain: on this drain the rows behind it are neither published nor marked |
| `OutboxBlocking.BadRowBlocksForGood` | packages/domain/src/saena_domain/bus/drainer.py:172-272 | over any run of drains of the whole outbox, concurrent and with crashes, a row recorded behind one whose checks raise is on no topic and never marked |
| `OutboxBlocking.TenantDrainNeverAborts` | packages/domain/src/saena_domain/bus/drainer.py:131-140 | a drain of one valid tenant is never ended by such a row: nothing in its batch raises |
| `OutboxBlocking.AggregateAbortsIffFloat` | packages/domain/src/saena_domain/privacy/gate.py:105-141 | an aggregate marked k-anonymized whose counts the schema accepts ends the drain exactly when one of them is written as a float |
| `OutboxBlocking.GateDecides` | packages/domain/src/saena_domain/privacy/gate.py:105-141 | the gate allows whole counts of at least one with a cohort no smaller than the threshold, blocks a smaller cohort, and raises for anything else |
| `OutboxBlocking.FloatCohortEndsTheDrain` | packages/domain/src/saena_domain/bus/drainer.py:172-272 | with the cohort size 5.0 in the first row, the drain ends there with nothing published or marked; the second row alone is published |
| `Outbox.RunIsSafe` | packages/domain/src/saena_domain/bus/drainer.py:172-272 | over every run of recordings and concurrent drains, with publish failures and crashes between any two steps, a marked row has been published, dead-lettered or suppressed, and the log holds only what the checks call for |
| `Outbox.DrainIsARun` | packages/domain/src/saena_domain/bus/drainer.py:172-272 | a call of `drain_once` is such a run, of one drainer without interruption |
| `Outbox.NothingIsLost` | packages/domain/src/saena_domain/bus/drainer.py:172-272 | an event no longer pending is on its main topic, on its dead-letter topic, or suppressed |
| `Outbox.SuppressedIsNeverPublished` | packages/domain/src/saena_domain/bus/drainer.py:172-272 | no message of a suppressed aggregate is on any topic in any run |
| `OutboxTopics.TopicsAre` | packages/domain/src/saena_domain/bus/drainer.py:172-294 | over every run, a valid envelope is on the topic of its type without reasons; any other is, with its reasons, on a topic that ends in `.dlq` and gives back the type without that ending, or on the fixed sink if it has no type |
| `OutboxTopics.OneTopicPerEvent` | packages/domain/src/saena_domain/bus/drainer.py:172-294 | over every run, all messages of one event are the same, so no event is on two topics |
| `OutboxTopics.MarkedHasGoneOut` | packages/domain/src/saena_domain/bus/drainer.py:172-272 | over every run, a marked event has gone out that way or is withheld, told from the checks themselves |
| `OutboxTopics.DrainDoes` | packages/domain/src/saena_domain/bus/drainer.py:172-272 | a drain puts each row in its list, in order; marks all but the retried; and sends what the broker takes, in that order |
| `OutboxTopics.PendingAre` | packages/domain/src/saena_domain/bus/drainer.py:172-180 | the batch is the recorded rows not marked, in order, and only a tenant's own if it asks |
| `OutboxTopics.StepsAre` | packages/domain/src/saena_domain/bus/drainer.py:172-272 | what recording, beginning a drain, and a crash do to the system |
| `TenantPatterns.TenantSlugIsThePattern` | packages/domain/src/saena_domain/identity/tenant.py:36-78 | the drainer's tenant check is its pattern read as written |
| `Consumer.IdempotentConsumer.Process` | packages/domain/src/saena_domain/bus/consumer.py:118-136 | one delivery: skipped, completed and marked, or left unmarked after a raising handler |
| `Consumer.HandledExactlyOnce` | packages/domain/src/saena_domain/bus/consumer.py:118-136 | over any sequence of deliveries, the handler completes for a scope and key once if some delivery of it had a handler that does not raise, and else never |
| `Consumer.DeliveryComesTo` | packages/domain/src/saena_domain/bus/consumer.py:102-136 | after any deliveries, one more is refused, skipped, run or raised exactly by its scope, what went well before, and its handler; the scope is the tenant's name or the system's |
| `Consumer.SystemScopeIsApart` | packages/domain/src/saena_domain/bus/consumer.py:102-108 | a tenant's dedup scope differs from the system scope exactly when the tenant is not named like it |
| `Consumer.EndToEnd` | packages/domain/src/saena_domain/bus/consumer.py:118-136 | composed with any run of the outbox: what is delivered off its topics is handled exactly once per scope and key if some attempt does not raise, and only recorded, unsuppressed events are handled |
| `Rounding.RoundsToNearest` | packages/domain/src/saena_domain/measurement/did.py:93-99 | half-even rounding gives a nearest integer, even on a tie (roundTiesToEven, section 4.3.1 of IEEE 754-2019) |
| `Rounding.NearestIsUnique` | packages/domain/src/saena_domain/measurement/did.py:93-99 | there is only one such integer |
| `Rounding.FinerFirstIsHarmless` | packages/domain/src/saena_domain/measurement/did.py:76-99 | rounding first to an even grid, at least as fine as the denominator is large, changes nothing |
| `Rounding.TwoRoundingsAreOneIffNoTieIsLost` | packages/domain/src/saena_domain/measurement/did.py:76-99 | rounding to a finer grid first changes the nearest integer exactly when the finer result is half-way although the value is not, and the even neighbour lies on the other side of it |
| `Rounding.LostTieNeedsALargeDenominator` | packages/domain/src/saena_domain/measurement/did.py:76-99 | a tie is lost only under a denominator larger than the grid is fine |
| `Rounding.RoundIsOneRoundingIffNoTieIsLost` | packages/domain/src/saena_domain/measurement/did.py:93-99 | for every fraction, dividing to 60 digits and quantising is one half-even rounding of the exact value, raising included, exactly when the 60 digits do not lose a tie |
| `Rounding.SmallDenominatorsRoundOnce` | packages/domain/src/saena_domain/measurement/did.py:93-99 | they are one rounding whenever the denominator is at most 10^(s-10), with s the place of the last of the 60 digits |
| `Rounding.RoundIsOneRounding` | packages/domain/src/saena_domain/measurement/did.py:76-99 | for lifts with denominators up to 10^31, dividing to 60 digits and quantising to 10 places is one half-even rounding of the exact value |
| `Rounding.RoundError` | packages/domain/src/saena_domain/measurement/did.py:76-99 | for any denominator the result is off by at most half a quantum plus 10^-41, and nothing is raised |
| `Rounding.LiftFits` | packages/domain/src/saena_domain/measurement/did.py:76-99 | the quantised coefficient of a number below 4 times 10^18 stays far below 60 digits |
| `Rounding.LargeDenominatorRoundsTwice` | packages/domain/src/saena_domain/measurement/did.py:76-99 | the guard is sharp: for every positive p, the fraction p / (2 * 10^10 * p - 1) rounds once to one unit, and `_round` gives that exactly when the denominator is below 10^60, and else zero |
| `Rounding.RaisesIffTooLong` | packages/domain/src/saena_domain/measurement/did.py:93-99 | quantising raises exactly when the quantised coefficient would need more than 60 digits |
| `Rounding.RaisesIffTooLarge` | packages/domain/src/saena_domain/measurement/did.py:93-99 | quantising a fraction raises exactly when its size is at least 10^50 less half a unit of the tenth place |
| `DiDRounding.LiftIsReported` | packages/domain/src/saena_domain/measurement/did.py:339-433 | every delta and lift of admitted values is small enough to be reported, off by at most half a quantum plus 10^-41, and rounded once if its denominator is at most 10^31 |
| `DiDRounding.MarginRaisesIffThresholdIsHuge` | packages/domain/src/saena_domain/measurement/did.py:400-414 | the margin of a judged signal raises exactly when the threshold exceeds the lift by 10^50 less half a unit; never below that threshold, always once the largest lift is added to it |
| `DiDRounding.MarginCanRaise` | packages/domain/src/saena_domain/measurement/did.py:400-414 | a policy and four one-repeat cells whose signal carries no code and whose margin raises |
| `DiD.DedupeRepeats` | packages/domain/src/saena_domain/measurement/did.py:266-293 | the repeats kept are the first of each id, and a conflict is reported exactly when two repeats of one id differ |
| `DiD.UniqueIsTheSet` | packages/domain/src/saena_domain/measurement/did.py:266-293 | without conflict, each different repeat remains exactly once |
| `DiD.ConflictStep` | packages/domain/src/saena_domain/measurement/did.py:266-293 | comparing with the first repeat of an id is enough to find every conflict |
| `DiD.PartitionInWindow` | packages/domain/src/saena_domain/measurement/did.py:296-328 | the values in the window in order, the count of late repeats, and whether any repeat is non-finite or not representable |
| `DiD.LeaveOneOutSignStable` | packages/domain/src/saena_domain/measurement/did.py:442-472 | True exactly when every leave-one-out lift has the sign of the lift |
| `DiD.ReadCell` | packages/domain/src/saena_domain/measurement/did.py:339-390 | reading one cell gives its values in the window, its late count and exactly its faults |
| `DiD.ComputeSignal` | packages/domain/src/saena_domain/measurement/did.py:339-433 | the loop-built result is that of the signal function: codes in order, deltas, lift, stability, margin and threshold |
| `DiD.ListCodes` | packages/domain/src/saena_domain/measurement/did.py:339-433 | a code is listed exactly when its condition on the series holds, each once, in the one order of first recording |
| `DiD.CodesOfMeaning` | packages/domain/src/saena_domain/measurement/did.py:339-433 | the codes of a signal are the one list in the source's order that holds exactly the codes whose conditions hold |
| `DiD.Judge` | packages/domain/src/saena_domain/measurement/did.py:339-433 | the deltas and the judgement of the signal |
| `DiD.SufficientHasAllMeans` | packages/domain/src/saena_domain/measurement/did.py:339-472 | a signal without a code has all four means, so the loop over removals never meets a missing arm |
| `DiDNumbers.ReadingsAre` | packages/domain/src/saena_domain/measurement/did.py:296-328 | each usable value in the window is used as often as it is there, each usable one outside is counted late, and the three counts add up to the repeats |
| `DiDNumbers.NumbersAre` | packages/domain/src/saena_domain/measurement/did.py:339-433 | sample counts, late count, deltas and lift, cell by cell and with their signs |
| `DiDNumbers.JudgementIs` | packages/domain/src/saena_domain/measurement/did.py:400-472 | a signal is judged exactly when it has no code; it meets the threshold exactly when its margin is not negative, and is stable exactly when no one repeat decides its sign |
| `DiDNumbers.CodesAre` | packages/domain/src/saena_domain/measurement/did.py:339-390 | each code is there exactly for its own condition on the cells, once, in the order of recording |
| `DiD.SumOfPermutation` | packages/domain/src/saena_domain/measurement/did.py:331-333 | a mean does not depend on the order of the repeats |
| `DiDLaws.StabilityIsDecidedByExtremes` | packages/domain/src/saena_domain/measurement/did.py:442-472 | checking every removal equals checking only the removal of each cell's least and greatest repeat |
| `DiDLaws.SwappingArmsNegatesTheLift` | packages/domain/src/saena_domain/measurement/did.py:339-472 | exchanging the arms of a sufficient signal negates the lift, exchanges the deltas, and keeps stability, margin and threshold |
| `DiDLaws.CommonTrendCancels` | packages/domain/src/saena_domain/measurement/did.py:436-441 | a trend added to all post values alike leaves the lift unchanged |
| `DiDLaws.OrderAndReplaysDoNotMatter` | packages/domain/src/saena_domain/measurement/did.py:266-472 | permuting repeats, and with ids inserting identical replays anywhere, leaves the result of the signal unchanged |
| `DiDLaws.OrderIsIrrelevantIffNoClash` | packages/domain/src/saena_domain/measurement/did.py:266-293 | for a cell with ids, every order of its repeats keeps the same repeats exactly when no id carries two different ones |
| `DiDLaws.ClashMovesTheLift` | packages/domain/src/saena_domain/measurement/did.py:266-433 | with two values under one id, exchanging them moves the lift by their difference; both signals carry the conflict code |
| `DiDLaws.ReadOfPermutation` | packages/domain/src/saena_domain/measurement/did.py:296-328 | what a cell reads as depends on its repeats, not on their order |
| `DiDReport.SortIsStable` | packages/domain/src/saena_domain/measurement/did.py:237-255 | the sort by identity is an ascending permutation that keeps the order of signals of one identity |
| `DiDReport.ReportIsOrderFreeIffNoClash` | packages/domain/src/saena_domain/measurement/did.py:237-255 | the canonical report is the same for every order of the signals exactly when no two of one identity come out differently |
| `DiDReport.ReportCanDependOnOrder` | packages/domain/src/saena_domain/measurement/did.py:237-255 | two signals of one identity, one with a repeat and one without: the report lists them in the order given |
| `DiDReport.DistinctSignalsHaveOneReport` | packages/domain/src/saena_domain/measurement/did.py:237-255 | signals with different identities have one report in whatever order they are given |
| `EvidenceManifest.ComputeEntryCommitments` | packages/domain/src/saena_domain/measurement/evidence.py:484-499 | the loop gives the chain of commitments |
| `EvidenceManifest.CommitmentsAt` | packages/domain/src/saena_domain/measurement/evidence.py:471-499 | each commitment binds the entry, its index and the commitment before it |
| `EvidenceManifest.VerifyManifest` | packages/domain/src/saena_domain/measurement/evidence.py:582-615 | the verdict is intact, the first index that diverges, or a forged head |
| `EvidenceManifest.VerdictIsUnique` | packages/domain/src/saena_domain/measurement/evidence.py:582-615 | only one verdict fits a manifest |
| `EvidenceManifest.SealedIsIntact` | packages/domain/src/saena_domain/measurement/evidence.py:556-615 | a sealed manifest verifies |
| `EvidenceManifest.TamperIsLocalised` | packages/domain/src/saena_domain/measurement/evidence.py:544-615 | a chain sealed for other entries fails at exactly the length of the longest common prefix, whether by tampering, reordering, splicing, appending or truncating; no index is given only for a forged head |
| `EvidenceManifest.HeadDeterminesEntries` | packages/domain/src/saena_domain/measurement/evidence.py:501-508 | equal heads mean equal entries and equal length |
| `ExperimentLedger.RegisterKeepsSound` | packages/domain/src/saena_domain/experiment/ledger.py:138-193 | a registration keeps the ledger verified and its ids unique, and only appends |
| `ExperimentLedger.NewEntryIs` | packages/domain/src/saena_domain/experiment/ledger.py:138-193 | a new registration is stored as given, hashed onto the entry before it, with the fingerprint of its content |
| `ExperimentLedger.VerifyLedger` | packages/domain/src/saena_domain/experiment/ledger.py:195-223 | None exactly when every entry links and hashes, else the first that does not |
| `ExperimentLedger.ReachableLedgerIsSound` | packages/domain/src/saena_domain/experiment/ledger.py:138-223 | every ledger reached by `register` from empty verifies and has unique ids |
| `ExperimentLedger.LedgerGrows` | packages/domain/src/saena_domain/experiment/ledger.py:138-193 | over any calls the ledger only grows by append |
| `ExperimentLedger.ReplayIsANoOp` | packages/domain/src/saena_domain/experiment/ledger.py:138-193 | registering accepted content again, at any later time, changes nothing and returns the stored entry |
| `ExperimentLedger.ChangedContentIsRefused` | packages/domain/src/saena_domain/experiment/ledger.py:131-193 | other content under a taken id is refused, as a changed design or as a conflict |
| `ExperimentLedger.RelinkedRearrangementFails` | packages/domain/src/saena_domain/experiment/ledger.py:110-223 | entries of a reachable ledger put in any order, repeated or dropped, relinked and with their hashes reused, verify only as a prefix of that ledger |
| `ExperimentLedger.OnlyTheIdentityPermutationVerifies` | packages/domain/src/saena_domain/experiment/ledger.py:110-223 | a relinked permutation of a reachable ledger verifies exactly when it is the identity |
| `AuditChain.VerifyChain` | packages/domain/src/saena_domain/audit/chain.py:187-211 | None exactly when folding `append_entry` from empty accepts the list, else an index whose prefix is accepted and whose entry is not |
| `AuditChain.AcceptedPrefix` | packages/domain/src/saena_domain/audit/chain.py:162-184 | every prefix of an accepted chain is accepted |
| `AuditChain.AppendsIff` | packages/domain/src/saena_domain/audit/chain.py:93-184 | an entry appends exactly when it links to the last and is hashed with that link; a built entry always does |
| `AuditChain.FailingIndexIsLongestPrefix` | packages/domain/src/saena_domain/audit/chain.py:187-211 | the failing index is the length of the longest accepted prefix |
| `AuditChain.TailDeterminesChain` | packages/domain/src/saena_domain/audit/chain.py:162-211 | two verified chains with equal tail hashes are the same chain |
| `AuditChain.TamperChangesTheTail` | packages/domain/src/saena_domain/audit/chain.py:162-211 | a changed chain that still verifies has another tail hash |
| `AuditChain.InMemoryAuditChain.Append` | packages/domain/src/saena_domain/audit/chain.py:237-264 | an entry is hashed onto the tail and appended; nothing before it changes |
| `AuditChain.InMemoryAuditChain.Verify` | packages/domain/src/saena_domain/audit/chain.py:266-268 | a chain built by `append` always verifies |
| `ShellScan.IsBalanced` | packages/hooks-runtime/src/saena_hooks_runtime/command_normalize.py:187-209 | True exactly when quotes close, parens balance, and no prefix closes more than it opened |
| `ShellScan.ScanGroup` | packages/hooks-runtime/src/saena_hooks_runtime/command_normalize.py:104-126 | the group scan stays in bounds and ends just after the first closing paren at level zero, or at the end of the text |
| `ShellScan.ExtractDollarParen` | packages/hooks-runtime/src/saena_hooks_runtime/command_normalize.py:96-129 | the text kept and the inner texts are those of the pieces the text falls into |
| `ShellScan.SplitTopLevel` | packages/hooks-runtime/src/saena_hooks_runtime/command_normalize.py:132-184 | the segments are the text cut at the first separator outside quotes and parens, again and again |
| `ShellScanLaws.ExtractionLosesNothing` | packages/hooks-runtime/src/saena_hooks_runtime/command_normalize.py:96-129 | the kept characters and the inner texts, put back with their markers, are the whole input |
| `ShellScanLaws.GroupsAreBalanced` | packages/hooks-runtime/src/saena_hooks_runtime/command_normalize.py:96-129 | every closed group has a balanced body, and only the last group can be left open |
| `ShellScanLaws.PeeledIffBalanced` | packages/hooks-runtime/src/saena_hooks_runtime/command_normalize.py:96-129 | a `$(r)` at the front is peeled as written exactly when `_balanced` accepts `r` |
| `ShellScanLaws.OuterQuotesDoNotProtect` | packages/hooks-runtime/src/saena_hooks_runtime/command_normalize.py:103-126 | a `$(r)` right after a quote character is peeled all the same: quotes are tracked inside a group only |
| `ShellScanLaws.QuotesAreHeededIffNoneProtects` | packages/hooks-runtime/src/saena_hooks_runtime/command_normalize.py:96-129 | whichever quote states are said to protect, the extraction is the one that heeds the quotes around a group exactly when no group it peels stands where the plain text before it is in such a state |
| `ShellScanLaws.SplittingLosesNothing` | packages/hooks-runtime/src/saena_hooks_runtime/command_normalize.py:132-184 | the segments interleaved with the separators are the whole text, and every separator is one of the five |
| `ShellScanLaws.ResplitIsIdentity` | packages/hooks-runtime/src/saena_hooks_runtime/command_normalize.py:132-184 | splitting any segment again gives just that segment |
| `ShellScanLaws.BalancedIffSegmentsAre` | packages/hooks-runtime/src/saena_hooks_runtime/command_normalize.py:132-209 | `_balanced` accepts a text exactly when it accepts every segment of it |
| `ShellScanLaws.SubshellIsOneSegment` | packages/hooks-runtime/src/saena_hooks_runtime/command_normalize.py:132-209 | if `r` is balanced, `(r)` is one segment and is balanced |
| `ShellQuoting.SingleQuoted` | packages/hooks-runtime/src/saena_hooks_runtime/command_normalize.py:132-209 | text in single quotes is one balanced segment whatever it holds, backslashes and separators included |
| `ShellQuoting.DoubleQuoted` | packages/hooks-runtime/src/saena_hooks_runtime/command_normalize.py:132-209 | so is text in double quotes where every backslash takes a character along; a backslash before the closing quote keeps the quotes open |
| `ShellQuoting.BareText` | packages/hooks-runtime/src/saena_hooks_runtime/command_normalize.py:187-209 | without quotes, the level is the opening parens less the closing ones |
| `ShellQuoting.NoSeparatorLeft` | packages/hooks-runtime/src/saena_hooks_runtime/command_normalize.py:132-184 | no segment holds a separator outside quotes and parens |
| `ShellQuoting.PipesAreGreedy` | packages/hooks-runtime/src/saena_hooks_runtime/command_normalize.py:160-184 | where a single pipe cuts, no pipe follows |
| `ShellQuoting.NothingLeftToPeel` | packages/hooks-runtime/src/saena_hooks_runtime/command_normalize.py:96-129 | no `$(` is left among the plain characters |
| `CommandNormalize.StripLeadingEnvAssignments` | packages/hooks-runtime/src/saena_hooks_runtime/command_normalize.py:212-216 | the loop drops exactly the leading assignments |
| `CommandNormalize.UnwrapEnv` | packages/hooks-runtime/src/saena_hooks_runtime/command_normalize.py:219-240 | the loop gives the tokens `env` runs, or the text of `-S` |
| `CommandNormalize.StripGitGlobalOpts` | packages/hooks-runtime/src/saena_hooks_runtime/command_normalize.py:243-260 | the loop drops exactly the leading global options |
| `CommandNormalize.NormalizeOneSegment` | packages/hooks-runtime/src/saena_hooks_runtime/command_normalize.py:263-303 | the commands of one segment are those of the specification, at every depth |
| `CommandNormalize.NormalizeCommand` | packages/hooks-runtime/src/saena_hooks_runtime/command_normalize.py:306-320 | the normaliser ends on every text, entering at most four levels below the root, with the commands of the specification |
| `CommandNormalizeLaws.GitStopsAtSubcommand` | packages/hooks-runtime/src/saena_hooks_runtime/command_normalize.py:243-260 | what is dropped is a run of global options with their arguments, and it stops at the subcommand |
| `CommandNormalizeLaws.GitOptionsAreInvisible` | packages/hooks-runtime/src/saena_hooks_runtime/command_normalize.py:243-260 | global options in front of any git command change nothing |
| `CommandNormalizeLaws.EnvRunsItsCommand` | packages/hooks-runtime/src/saena_hooks_runtime/command_normalize.py:219-240 | what is skipped after `env` is a run of its options, and what is left decides what it runs |
| `CommandNormalizeLaws.EnvOptionsAreInvisible` | packages/hooks-runtime/src/saena_hooks_runtime/command_normalize.py:219-240 | options and assignments after `env` change nothing |
| `CommandSegments.GitCommand` | packages/hooks-runtime/src/saena_hooks_runtime/command_normalize.py:263-303 | behind any assignments and `env` options, `git`, global options and a subcommand become `git` and the subcommand |
| `CommandSegments.ShellCommand` | packages/hooks-runtime/src/saena_hooks_runtime/command_normalize.py:263-303 | a shell with `-c` and words becomes the words joined, as a command of its own |
| `CommandSegments.EnvSplitString` | packages/hooks-runtime/src/saena_hooks_runtime/command_normalize.py:219-283 | `env -S` hands over its argument, or nothing, as a command of its own |
| `CommandSegments.OrdinaryCommand` | packages/hooks-runtime/src/saena_hooks_runtime/command_normalize.py:263-303 | any other command stays its tokens joined |
| `CommandSegments.NothingToRun` | packages/hooks-runtime/src/saena_hooks_runtime/command_normalize.py:263-303 | a prefix alone, or with a dangling `-u`, stands for nothing |
| `CommandSegments.OtherSegments` | packages/hooks-runtime/src/saena_hooks_runtime/command_normalize.py:263-280 | a blank segment stands for nothing, a balanced one in parens for its inside, and exactly what the tokenizer refuses is malformed |
| `CommandSegments.EveryTokenListHasAShape` | packages/hooks-runtime/src/saena_hooks_runtime/command_normalize.py:212-303 | every token list is one of these shapes |
| `CommandSegments.JoinedReadsBack` | packages/hooks-runtime/src/saena_hooks_runtime/command_normalize.py:300-303 | tokens without spaces are read back from their join by splitting at spaces |
| `CommandSegments.OptionsByName` | packages/hooks-runtime/src/saena_hooks_runtime/command_normalize.py:52-81 | the global options of git by name |
| `CommandSegments.StripTakesSpaceOnly` | packages/hooks-runtime/src/saena_hooks_runtime/command_normalize.py:263-267 | stripping takes off all white space at both ends and nothing else |
| `CommandSegments.GitCommandNormalizes` | packages/hooks-runtime/src/saena_hooks_runtime/command_normalize.py:306-320 | a whole command line of one segment with `git` and global options normalises to `git` and the subcommand |
| `CommandDepth.NestedIsShorter` | packages/hooks-runtime/src/saena_hooks_runtime/command_normalize.py:263-303 | every command found inside a wrapper is shorter than the segment it was in |
| `CommandDepth.LimitIsHonest` | packages/hooks-runtime/src/saena_hooks_runtime/command_normalize.py:263-320 | at any depth, the result is the meaning of the command without a limit if its nesting fits under the limit, and carries the sentinel if it does not |
| `CommandDepth.SentinelFreeIsExact` | packages/hooks-runtime/src/saena_hooks_runtime/command_normalize.py:263-320 | a result without the sentinel is the whole meaning of the command |
| `CommandDepth.OutputIsBounded` | packages/hooks-runtime/src/saena_hooks_runtime/command_normalize.py:306-320 | at most one segment more than the text has characters is given out, over all recursion |
| `CommandDepth.SubshellIsOneLevel` | packages/hooks-runtime/src/saena_hooks_runtime/command_normalize.py:268-272 | for balanced `r` without `$(`, `(r)` normalises to what `r` gives one level deeper, or to exactly the sentinel at the limit |
| `CommandDepth.SubshellsAreLevels` | packages/hooks-runtime/src/saena_hooks_runtime/command_normalize.py:263-320 | `k` pairs of parens are `k` levels |
| `CommandDepth.SubshellsDoNotMatter` | packages/hooks-runtime/src/saena_hooks_runtime/command_normalize.py:263-320 | a command whose own nesting leaves room keeps its normal form in `k` subshells, and four or more give exactly the sentinel |
| `VectorMemory.InMemoryVectorStore.UpsertRecord` | packages/vector-store/src/saena_vector_store/memory.py:72-109 | one record: refused without a change, answered with the stored active version, or stored with the version before it superseded |
| `VectorMemory.InMemoryVectorStore.UpsertRecords` | packages/vector-store/src/saena_vector_store/memory.py:65-110 | the loop leaves the state and gives the records or the error that the specification does, and keeps the store sound |
| `VectorMemory.InMemoryVectorStore.CandidatesIn` | packages/vector-store/src/saena_vector_store/memory.py:133-137 | the active records of the collection in insertion order, each with the established dimension |
| `VectorMemory.InMemoryVectorStore.Nearest` | packages/vector-store/src/saena_vector_store/memory.py:112-143 | the search of a sound store never meets vectors of different lengths and gives the hits of the specification |
| `VectorMemory.InMemoryVectorStore.GetRecord` | packages/vector-store/src/saena_vector_store/memory.py:145-153 | the latest version, or not found |
| `VectorMemory.InMemoryVectorStore.VersionsOf` | packages/vector-store/src/saena_vector_store/memory.py:155-162 | the history of the key, empty if there is none |
| `VectorMemory.InMemoryVectorStore.DeleteRecords` | packages/vector-store/src/saena_vector_store/memory.py:164-174 | the named keys are gone with all versions, the count says how many there were, and the dimensions stay |
| `VectorMemory.InMemoryVectorStore.InvalidateSnapshot` | packages/vector-store/src/saena_vector_store/memory.py:176-197 | exactly the active records of that snapshot are superseded, in place, and returned in order |
| `VectorStoreLaws.StepKeeps` | packages/vector-store/src/saena_vector_store/memory.py:65-197 | every call keeps the store sound, rewrites no history, changes no established dimension, and loses only keys a delete names |
| `VectorStoreLaws.ReachableIsSound` | packages/vector-store/src/saena_vector_store/memory.py:65-197 | in every reachable store all versions but the last are superseded, and every vector has the dimension established for its tenant and collection |
| `VectorStoreLaws.HistoryOnlyGrows` | packages/vector-store/src/saena_vector_store/memory.py:65-197 | over any run that does not delete a key, its history only grows at the end and a superseded version never changes again |
| `VectorStoreLaws.DimensionsLast` | packages/vector-store/src/saena_vector_store/memory.py:65-197 | an established dimension lasts over any run, deletes included |
| `VectorStoreLaws.DeleteKeeps` | packages/vector-store/src/saena_vector_store/memory.py:164-174 | a delete removes exactly the named keys of that tenant and collection |
| `VectorStoreLaws.RaisingBatchIsItsPrefix` | packages/vector-store/src/saena_vector_store/memory.py:65-110 | a batch that raises leaves exactly the state of its accepted prefix, and the error is that of the next record |
| `VectorStoreLaws.ReplayIsANoOp` | packages/vector-store/src/saena_vector_store/memory.py:92-99 | sending an accepted record again changes nothing and returns the stored one |
| `VectorCalls.OneRecordSent` | packages/vector-store/src/saena_vector_store/memory.py:65-110 | one record is refused without a change, answered with the active version of the same source, or lands: last and active under its key with its own content, the version before it superseded by its source, the dimension established, everything else as it was |
| `VectorCalls.SentIsRead` | packages/vector-store/src/saena_vector_store/memory.py:65-162 | what is answered is then read, as the record and as the end of its history |
| `VectorCalls.BatchIsOneByOne` | packages/vector-store/src/saena_vector_store/memory.py:65-110 | an accepted batch is the calls that send its records one by one |
| `VectorCalls.LastOfBatchIsFound` | packages/vector-store/src/saena_vector_store/memory.py:65-143 | after an accepted batch its last record is read back under its key and is among the records a search ranks |
| `VectorCalls.UnknownIsNotFound` | packages/vector-store/src/saena_vector_store/memory.py:145-162 | an unknown key is not found and has no history; an empty tenant is refused by every call |
| `VectorCalls.DeleteCallIs` | packages/vector-store/src/saena_vector_store/memory.py:164-174 | a delete takes exactly the named keys with all versions, counts them, and leaves every other history, the order of the keys and the dimensions |
| `VectorCalls.InvalidateCallIs` | packages/vector-store/src/saena_vector_store/memory.py:176-197 | exactly the active versions of that source in that collection are superseded in place and answered in the order of the keys |
| `VectorCalls.RunOneMore` | packages/vector-store/src/saena_vector_store/memory.py:65-197 | a run is its calls one after the other |
| `VectorCalls.DistanceAdds` | packages/vector-store/src/saena_vector_store/memory.py:41-45 | the squared distance adds up over the components |
| `VectorCalls.DistanceIsZeroIffEqual` | packages/vector-store/src/saena_vector_store/memory.py:41-45 | it is symmetric, not negative, and zero exactly between equal vectors |
| `VectorSearch.SearchedRecordsAreOwnActive` | packages/vector-store/src/saena_vector_store/memory.py:133-137 | the records searched are all and only the active ones of the tenant's own collection, each once |
| `VectorSearch.SearchFailsOnlyOnItsArguments` | packages/vector-store/src/saena_vector_store/memory.py:112-143 | a search of a sound store fails exactly for an empty tenant, a count below one, or a query of another dimension |
| `VectorSearch.SearchIsNearest` | packages/vector-store/src/saena_vector_store/memory.py:112-143 | exactly min(k, active) hits, nearest first, everything left out no nearer, ties in insertion order |
| `VectorSearch.SortIsStable` | packages/vector-store/src/saena_vector_store/memory.py:138-143 | the sort is a stable permutation in ascending distance |
| `VectorTenants.StepOwn` | packages/vector-store/src/saena_vector_store/memory.py:65-197 | a tenant's call does to its part of the store what it does to the whole, with the same answer |
| `VectorTenants.StepOther` | packages/vector-store/src/saena_vector_store/memory.py:65-197 | another tenant's call leaves that part as it was |
| `VectorTenants.TenantsDoNotInterfere` | packages/vector-store/src/saena_vector_store/memory.py:65-197 | any run gives a tenant the answers and the state that its own calls alone would have given |
| `SkillBundle.NormalizeRelpath` | packages/domain/src/saena_domain/execution/skill_bundle.py:81-112 | the path is refused as empty, absolute, escaping or naming nothing, or joined from its real segments |
| `SkillBundle.ComputeSkillBundleHash` | packages/domain/src/saena_domain/execution/skill_bundle.py:119-149 | the hash of the framed manifest over the sorted normalised paths, or the first error |
| `SkillBundle.RequireWellFormedExpected` | packages/domain/src/saena_domain/execution/skill_bundle.py:152-169 | accepted exactly when it is `sha256:` and 64 lower-case hexadecimal digits; absent and empty are told from malformed |
| `SkillBundle.VerifySkillBundle` | packages/domain/src/saena_domain/execution/skill_bundle.py:172-197 | accepted exactly when the pin is well formed, a bundle is given, and its hash is the pin; else the error of the first failing check |
| `SkillBundleLaws.NormalizedIsClean` | packages/domain/src/saena_domain/execution/skill_bundle.py:81-112 | an accepted path has no empty, `.` or `..` segment, no backslash, and is not absolute |
| `SkillBundleLaws.NormalizedIsIdempotent` | packages/domain/src/saena_domain/execution/skill_bundle.py:81-112 | normalising an accepted path again gives the same path |
| `SkillBundleLaws.SameFileIffSameSteps` | packages/domain/src/saena_domain/execution/skill_bundle.py:81-112 | two spellings give the same path exactly when they name the same steps |
| `SkillBundleFormat.PathBecomes` | packages/domain/src/saena_domain/execution/skill_bundle.py:81-112 | what a path becomes is decided by how it starts and the steps it is written with: each refusal exactly for its own reason, and else the steps that name something |
| `SkillBundleFormat.EveryPathHasSteps` | packages/domain/src/saena_domain/execution/skill_bundle.py:81-112 | every path is written with some steps |
| `SkillBundleLaws.ManifestDecodes` | packages/domain/src/saena_domain/execution/skill_bundle.py:141-148 | equal manifests come from equal lists of paths and digests, whatever characters the paths hold |
| `SkillBundleFormat.ManifestOneMore` | packages/domain/src/saena_domain/execution/skill_bundle.py:141-148 | the manifest is the frames of its entries, each field behind its length |
| `SkillBundleFormat.OneFile` | packages/domain/src/saena_domain/execution/skill_bundle.py:119-149 | one file in full: path, digest, lengths and the prefix of the pin |
| `SkillBundleFormat.WellFormedIs` | packages/domain/src/saena_domain/execution/skill_bundle.py:152-169 | a well-formed pin, character by character |
| `SkillBundleLaws.TreeIs` | packages/domain/src/saena_domain/execution/skill_bundle.py:127-140 | a bundle is accepted exactly when every path is and no two entries name one file, and is then the tree of its entries |
| `SkillBundleLaws.InsertionOrderDoesNotMatter` | packages/domain/src/saena_domain/execution/skill_bundle.py:119-149 | the order of the entries changes neither the tree nor the hash |
| `SkillBundleLaws.SameHashIffSameTree` | packages/domain/src/saena_domain/execution/skill_bundle.py:119-149 | two accepted bundles have one hash exactly when they hold the same contents under the same normalised paths |
| `Binding.RegisteredWeightFor` | packages/domain/src/saena_domain/measurement/binding.py:190-195 | the first weight registered for the metric, and none exactly when there is no such pair |
| `Binding.RejectMetricMutation` | packages/domain/src/saena_domain/measurement/binding.py:318-353 | no reject exactly when every metric agrees in id, content hash and weight; else the first that does not is named |
| `Binding.RejectCellMismatch` | packages/domain/src/saena_domain/measurement/binding.py:356-378 | no reject exactly when every cell is the registered one; else the first differing field of the first such observation |
| `Binding.RejectContamination` | packages/domain/src/saena_domain/measurement/binding.py:381-474 | the error of the first bad observation, else that of the least cluster seen under both roles |
| `Binding.ScanIsPairwise` | packages/domain/src/saena_domain/measurement/binding.py:381-474 | the stateful scan accepts exactly the observations that are assigned and pairwise compatible |
| `BindingReasons.ContaminationErrorIs` | packages/domain/src/saena_domain/measurement/binding.py:381-474 | the error is that of the first bad observation, with the reason and field of the first check it fails, and if none is bad, that of the least cluster under both roles |
| `BindingReasons.MetricAgreesIff` | packages/domain/src/saena_domain/measurement/binding.py:318-353 | a metric agrees exactly when the definition registered last under its id has its hash and, where enforced, its weight is the registered one |
| `BindingReasons.CellDifferenceIs` | packages/domain/src/saena_domain/measurement/binding.py:356-378 | the field named is the first in which the cells differ |
| `Binding.BindExperiment` | packages/domain/src/saena_domain/measurement/binding.py:486-544 | accepted exactly when the submission is bindable; absent and foreign registrations give one error; each reject reason is given exactly when the guards before it hold and its own fails, with the field of the first thing that fails |
| `BindingLaws.DroppingKeepsItBindable` | packages/domain/src/saena_domain/measurement/binding.py:318-474 | dropping metrics or observations from an accepted submission, in any order, leaves it accepted |
| `BindingLaws.OrderDoesNotDecide` | packages/domain/src/saena_domain/measurement/binding.py:318-474 | acceptance is the same for every order of metrics and observations |
| `BindingLaws.OrderDecidesTheReason` | packages/domain/src/saena_domain/measurement/binding.py:413-434 | the reason of a reject does depend on the order |
| `Confirmation.AcceptedIff` | packages/domain/src/saena_domain/measurement/confirmation.py:244-358 | a submission is accepted exactly when its key is new and every guard holds, said without their order |
| `Confirmation.KnownKey` | packages/domain/src/saena_domain/measurement/confirmation.py:301-310 | a known key is rejected or answered with what is stored, and nothing is raised |
| `ConfirmationLaws.VerdictsAre` | packages/domain/src/saena_domain/measurement/confirmation.py:244-358 | each verdict and each reject reason is given exactly when the guards before it hold and its own fails; a known key with equal fingerprint gets exactly its stored acceptance |
| `ConfirmationLaws.ReplayIsADuplicate` | packages/domain/src/saena_domain/measurement/confirmation.py:301-310 | over any run, sending an accepted claim again is answered with the acceptance it had |
| `ConfirmationLaws.OtherContentIsAConflict` | packages/domain/src/saena_domain/measurement/confirmation.py:301-310 | over any run, other content under an accepted key is a conflicting replay |
| `ConfirmationLaws.StrangersLearnNothing` | packages/domain/src/saena_domain/measurement/confirmation.py:283-299 | a claim of another tenant or run gets the same reject whatever is stored under its key, never a duplicate or a conflict |
| `Confirmation.AcceptedOnce` | packages/domain/src/saena_domain/measurement/confirmation.py:244-358 | over any run a key is accepted at most once, and every later submission with it is rejected or answered with that acceptance |
| `Confirmation.CarriedIsGenuine` | packages/domain/src/saena_domain/measurement/confirmation.py:244-358 | every acceptance a verdict carries met all guards when it was accepted, for the same key and content |
| `Confirmation.OneClockPerKey` | packages/domain/src/saena_domain/measurement/clock.py:175-225 | with one policy, all clocks a key starts over a run are the same window or the same late verdict |
| `Confirmation.ClocksOfARun` | packages/domain/src/saena_domain/measurement/clock.py:170-225 | a clock of a run is a window, anchored no later than approval plus the delay limit and ending `window_days` after, or a late verdict exactly when the anchor is later |
| `ConfirmationLaws.ClocksAre` | packages/domain/src/saena_domain/measurement/clock.py:170-225 | each outcome of starting a clock exactly by its condition, the default policy included, and every field of a window |
| `ConfirmationLaws.ResolvesIffSame` | packages/domain/src/saena_domain/measurement/clock.py:228-248 | a duplicate resolves to the window exactly when key and fingerprint agree, and is a conflict otherwise |
| `Confirmation.DuplicateResolvesToTheSameWindow` | packages/domain/src/saena_domain/measurement/clock.py:228-248 | a window opened in a run is what every later duplicate of its key resolves to |

## Left out

- AnalyticsStore.ExactlyOneWinner: for writers of one table, whose window is the table's own; the rows of other tables do not enter it.
- AnalyticsStore.LegacyPathAgrees: for calls made one after another; the legacy path makes no promise when calls interleave.
- AnalyticsRead.CopiesChangeNothing: says that each answer over the larger table is one over the smaller table except for `ingested_at`, because the server may choose either of two rows with equal ids and may break ties of the display order as it likes.
- Consumer.HandledExactlyOnce: for deliveries processed one at a time without a crash between handler and mark, because the code does not exclude double handling otherwise.
- Rounding.RoundIsOneRounding: from the exact rational to the quantised decimal; the conversion of that decimal to a float is not modelled.
- DiD.ComputeSignal: over admitted exact values; `limit_denominator`, the difference between 0.0 and -0.0, and the final floats are not modelled, and the raw view keeps its exact deltas.
- DiDRounding.MarginRaisesIffThresholdIsHuge: for finite thresholds; `effect_threshold` admits infinity, at which `Fraction` raises `OverflowError` when a sufficient signal is judged, and that error is not modelled.
- CommandNormalize.NormalizeCommand: the tokenizer is a parameter, so what quotes and backslashes do inside one segment's tokens is not modelled.
- VectorSearch.SearchIsNearest: vectors of reals under squared distance, which orders them as the distance does; non-finite components and rounding are not modelled.
- VectorMemory.InMemoryVectorStore.UpsertRecords: one call at a time, as under the lock; the lock itself is not modelled.
- SkillBundleLaws.SameHashIffSameTree: entries are text paths with bytes; entries that are not, and lone surrogates that UTF-8 refuses, are not modelled.
- Binding.RejectMetricMutation: weights are reals, so a weight that is not a number, which never agrees, is not modelled.
- Confirmation.ValidateConfirmation: the range of `datetime` is not modelled, so additions never overflow.
- DiDReport.ReportIsOrderFreeIffNoClash: the report is its sorted lines, with the dump of one signal a parameter; that `json.dumps` writes different lists differently is taken for granted.
- JSON Schema and pydantic validation, the k-anonymity guard beyond its gate, and the internals of SHA-256 and canonical JSON: arbitrary predicates and functions here.
- Executors, Kafka and Postgres adapters, the pgvector backend, async plumbing, logging, command lines and reading bundles off a disk: input and output.
- SQL text: a query is modelled as its clauses and parameters and what rows they select, not as the string sent.
- `has_pipe_to_interpreter`, redaction, secret and PII guards, role tables, job lifecycle, error messages and observability: straight-line checks and look-up tables that would only add easy members.
