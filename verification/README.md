# Mortris verification

Mortris is a self-hosted analytics server for game clients. Clients send batches of events with
at-least-once delivery; the server decides what to accept, stores it, and later folds the stored
events of a puzzle game into replays, retry ladders, funnels and timelines. This project models
the parts of it that carry state or fold over unbounded streams, and proves what they promise.

`dafny verify dfyconfig.toml` checks everything.

## The parts

**Retry-ladder engine** (`RetryLadder`, `RetryChains`, `RetryTrace`, `InsightExamples`, `InsightPass`,
`OrderStatistics`, `Sums`). One pass over interleaved gameplay events keeps a state per attempt and counters per block. Each
counter is specified by when one event of one attempt bumps it. The pass, with its maps and its
final flush, is proved to leave in every counter the sum of separate runs over each attempt's own
events. On that footing the ladder is tied to the raw trace: chains begun, pick-ups resolved, and
every counter read off the raw events without the engine's state.

**Ingestion** (`JsonGrammar`, `DecodeScan`, `BatchIntake`, `EventStore`, `IngestRuns`,
`IngestExamples`, `Durations`). The recursive-descent JSON scanner is proved to accept exactly the token streams of
trees with distinct member names and bounded nesting. Registration, batch commit, post-commit
statistics, retention and cleanup are methods over the tables and steps of a run; the run laws
cover every sequence of calls, retries and calls that stop after their commit.

**Attempt replay** (`AttemptEvents`, `Replay`, `ReplayLaws`, `Standing`). Both traversals of an
attempt, which blocks stand and what is missing as read off the events, the exact condition under
which the second mirrors the first, and the meaning of the gap, duplicate and orphan counters.

**Algorithms with a declarative specification** (`Funnel`, `DropAlignment`, `DropClustering`,
`DropOrder`). Greedy funnel matching against existence of a subsequence; median alignment against
its symmetry laws; breadth-first clustering against reachability.

**Timelines** (`Pacing`, `PacingInteractions`, `MemoryTimeline`). Spans tile the replay and account
for all of its time; clocks stay in order; interactions are paired exactly.

`Basics` holds the vocabulary they share. Code that the source writes as loops over mutable state
is written here as methods and classes, each specified by a function of its input or of the old
state; the laws are lemmas about those functions. Every lemma turns automatic induction off, so each
induction is written out in its proof.

## What the proofs found

- *Block id -1.* The engine uses -1 for "no block", and nothing keeps a catalogue from using it as
  an id. Chain and take conservation hold for every stream if and only if no known block has that
  id (`RetryChains.ConservationIff`); one pick-up of such a block is lost
  (`RetryChains.SentinelBlockLosesATake`). Under the same condition, and only then, every counter
  is the one the raw events call for (`RetryTrace.EngineReadsTraceIff`), and hints are charged only to
  blocks that fell (`RetryChains.HintsNeedFallsIff`): a hint with nothing fallen goes to block -1
  (`RetryChains.SentinelBlockTakesHints`).
- *Activation.* The comment at `internal/maintenance/retention.go:12-14` says an installation is
  activated by its first product event. `internal/ingest/batch_persist.go:70` activates on any
  inserted event: a session start alone activates (`IngestExamples.SystemEventActivates`). The
  documented rule holds of an installation if and only if it inserted a product event or none at all
  (`IngestRuns.ActivationRuleIff`).
- *Saturated skew.* When the client's send time is so far ahead that the 64-bit skew saturates, its
  absolute value is negative and the reading can be labelled "client". `BatchIntake.ClientQualityIff`
  gives the exact condition. The stored time is within its bounds even then.
- *The two attempt traversals differ* on an empty `placed_block_ids` list (one resets the carried set,
  the other keeps it) and on a missing city or house id (one falls back, the other does not).
  `ReplayLaws.TraversalsAgreeIff` gives the exact condition.
- *Gap counting* equals the span formula if and only if the indices never step back; otherwise it
  exceeds it (`ReplayLaws.GapFormulaIff`).
- *Clustering repeats drops.* A search does not consult what earlier searches visited, so a drop
  can be published twice (`DropClustering.BridgeDropAppearsTwice`). All drops are published once
  each, in every order, if and only if they are fewer than the threshold or no chain of hops, each
  within the radius and the cluster diameter, leads further than that diameter from its start
  (`DropOrder.PublishedOnceInEveryOrderIff`).
- *Statistics.* Recorded accepted counts equal rows inserted if and only if no call stopped before
  writing a row it owed (`IngestRuns.StatsAgainstInserts`); `IngestExamples.StopLosesTheCount` is
  such a call.
- *A refused retry.* A retry is authorised, whatever happened since the first call, if and only if
  the sender was activated before that call or the call inserted something
  (`IngestRuns.RetryAuthorisedIff`). Otherwise a cleanup can delete the sender first
  (`IngestExamples.RetryIsRefused`).
- *Open interactions.* The dashboard ends an interaction on any resolved placement, the server only
  on a successful one, so the dashboard's open ids are a subset of the server's orphans
  (`PacingInteractions.OpenOnBothSides`).

## Model

| member | source | states |
|---|---|---|
| `RetryLadder.PassedStep` | internal/analytics/puzzle_insights.go:190-242 | One more event of the mixed stream adds to each counter exactly what it bumps in its own attempt's run, and nothing for any other attempt. |
| `RetryLadder.InterleavingIndependence` | internal/analytics/puzzle_insights.go:114-143 | Two streams that give every attempt the same events in the same order give every counter (ladder, first-try, hint, wave, incomplete, and each sample value) the same total. |
| `RetryChains.StateReadsTrace` | internal/analytics/puzzle_insights.go:38-44 | The mutable per-attempt state is a reading of the trace: the open chain is the block last touched without success, a take is unresolved when the last mark is a pick-up, and an open chain always has tries or an unresolved take. |
| `RetryChains.ChainLaw` | internal/analytics/puzzle_insights.go:145-165 | At every point of an eligible attempt, chains begun on a block are those that ended in one success bucket, those that never succeeded, and the open one. |
| `RetryChains.TakeLaw` | internal/analytics/puzzle_insights.go:209-240 | At every point, pick-ups of a block are those resolved by a placement of it, those written off as incomplete, and the one in hand, across retakes, abandonment and block switches. |
| `RetryChains.HintsNeedFallsIff` | internal/analytics/puzzle_insights.go:244-249 | The hints charged to a block never exceed its falls, in every attempt and on every known block, if and only if no known block has the id -1. |
| `RetryChains.SentinelBlockTakesHints` | internal/analytics/puzzle_insights.go:244-249 | The failing input: one hint with nothing fallen is charged to block -1. |
| `RetryChains.ConservationIff` | internal/analytics/puzzle_insights.go:145-165 | After the final flush chain and take conservation hold for all streams and blocks if and only if no known block has the id -1. |
| `RetryChains.SentinelBlockLosesATake` | internal/analytics/puzzle_insights.go:146-148 | The failing input: one pick-up of block -1 is neither placed nor incomplete and its chain is in no bucket. |
| `RetryChains.IneligibleCountsNothing` | internal/analytics/puzzle_insights.go:150-159 | An attempt outside the eligible set adds nothing to any ladder or incomplete count. |
| `RetryChains.StreamConservation` | internal/analytics/puzzle_insights.go:114-143 | Over the whole mixed stream the ladder's sample count is the number of chains begun in eligible attempts, and placed plus incomplete pick-ups are all pick-ups. |
| `RetryChains.RungIsHistogram` | internal/analytics/puzzle_insights.go:300-310 | Ladder rung k counts the recorded tries equal to k, for k up to three. |
| `RetryChains.LadderIsHistogram` | internal/analytics/puzzle_insights.go:300-310 | The four rungs together count every recorded sample, so the last one holds all tries above three. |
| `RetryTrace.TriesReadTrace` | internal/analytics/puzzle_insights.go:209-240 | The tries of an attempt are the tries used up since its open chain began, counted on the raw events (failed placements, pieces picked up again, pieces abandoned), and none when no chain is open; for blocks other than -1. |
| `RetryTrace.TakenReadsTrace` | internal/analytics/puzzle_insights.go:226-239 | The pick-up time is the clock reading of the latest pick-up of the open chain, unless that piece was abandoned; otherwise there is none; for blocks other than -1. |
| `RetryTrace.FallReadsTrace` | internal/analytics/puzzle_insights.go:244-249 | A hint would be charged to a block if and only if something fell in the open chain, on that block, and no hint was used since; for blocks other than -1. |
| `RetryTrace.SoloReadsTrace` | internal/analytics/puzzle_insights.go:257-318 | Every counter of an attempt is the one read off its raw events: a success is recorded in the rung and sample of its own try number in its chain, with the elapsed time since that chain's pick-up; first tries, hints, chains given up and takes written off likewise; for blocks other than -1. |
| `RetryTrace.EngineReadsTraceIff` | internal/analytics/puzzle_insights.go:145-165 | For every attempt and counter the engine agrees with the raw events if and only if no known block has the id -1. |
| `RetryTrace.TotalReadsTrace` | internal/analytics/puzzle_insights.go:114-143 | Over the mixed stream every counter is the sum of what the raw events of each attempt say; for blocks other than -1. |
| `RetryTrace.ThirdTrySucceeds` | internal/analytics/puzzle_insights.go:300-310 | Two falls and a success are recorded as one success on the third try. |
| `InsightEngine.JudgeBlock` | internal/analytics/puzzle_insights.go:276-311 | Every block counter moves by exactly what the placement bumps in it, on each outcome and try number. |
| `InsightEngine.InsightPass.RecordExample` | internal/analytics/puzzle_insights.go:167-180 | The list of the block gains the attempt exactly when its id is not empty, it is not listed yet and fewer than five are; no other list changes. |
| `InsightExamples.ExamplesAreExemplars` | internal/analytics/puzzle_insights.go:167-180 | In whatever order the attempts are flushed, a block's examples are five different ones, or all, of the eligible attempts that placed it, gave it up or left a take of it unresolved. |
| `InsightEngine.InsightPass.FlushChain` | internal/analytics/puzzle_insights.go:145-165 | Closing the open chain adds at most one never-succeeded and one incomplete, to its own block and only for eligible attempts, and resets the state. |
| `InsightEngine.InsightPass.ApplyTake` | internal/analytics/puzzle_insights.go:226-240 | A pick-up flushes a chain on another block, writes off an unresolved take of the same block, and leaves every other counter alone. |
| `InsightEngine.InsightPass.ApplyPlacement` | internal/analytics/puzzle_insights.go:257-318 | A placement flushes, counts wave, block and samples exactly as its state demands, and moves the attempt to the specified next state. |
| `InsightEngine.InsightPass.ApplyEvent` | internal/analytics/puzzle_insights.go:190-242 | Events without payload or attempt id change nothing; any other changes only its own attempt's state and exactly the counters it bumps. |
| `InsightEngine.InsightPass.Run` | internal/analytics/puzzle_insights.go:114-134 | The single pass and final flush leave in every counter the sum of separate runs; waves are entered by exactly the eligible attempts with a placement there; the four buckets add up to the recorded tries. |
| `InsightEngine.InsightPass.Summarise` | internal/analytics/puzzle_insights.go:339-380 | The published sample counts and reliability flags come from the four success buckets and the never-succeeded chains, or from the recorded times, with the statistics of true rank of each sample list. |
| `InsightEngine.InsightPass.SortedWaves` | internal/analytics/puzzle_insights.go:408-418 | Every wave seen has exactly one summary, by strictly ascending wave index, with its own counters and number of entrants. |
| `InsightEngine.ApplyPuzzleInsights` | internal/analytics/puzzle_insights.go:114-143 | From the block list to the published figures: every counter of every block, the ladder's sample count and the very multisets of tries and times are those of separate runs over the attempts; the examples are five, or all, of the attempts that exemplify the block; the waves with a placement are listed once each, in order, with the placements, falls and entering attempts of separate runs. |
| `InsightEngine.PublishedReadsTrace` | internal/analytics/puzzle_insights.go:257-318 | Every published counter of a block, and how often each tries and time sample occurs, is what the raw events of the attempts say, when no block has the id -1; figures are marked reliable from five samples on. |
| `InsightEngine.PublishedSampleCount` | internal/analytics/puzzle_insights.go:346 | The published ladder sample count is the number of chains begun on the block in eligible attempts. |
| `InsightEngine.SpreadLaw` | internal/analytics/puzzle_insights.go:348-356 | The reported median is the true one on either branch; from five samples on p50 <= p75 <= p90 and each is the one value with at most floor(n*p/100) samples below it and more at or below it; with fewer, p75 and p90 are zero. |
| `InsightEngine.SpreadIgnoresOrder` | internal/analytics/puzzle_insights.go:348-375 | Samples collected in another order publish the same numbers. |
| `OrderStatistics.IntPercentile` | internal/analytics/puzzle_insights.go:382-393 | Indexing a sorted copy with a clamped index finds the value of that rank; no samples give zero. |
| `OrderStatistics.MedianInts` | internal/analytics/puzzle_insights.go:420-427 | Indexing a sorted copy in the middle finds the value of that rank. |
| `OrderStatistics.NthUnique` | internal/analytics/puzzle_insights.go:382-393 | The value of a rank is determined by counting alone, and it is what the sorted copy holds at that index. |
| `OrderStatistics.PercentileRank` | internal/analytics/puzzle_insights.go:388-392 | Below 100 percent a value is the percentile if and only if floor(n*p/100) lies between the samples below it and those at or below it. |
| `OrderStatistics.PercentileMonotone` | internal/analytics/puzzle_insights.go:382-393 | A greater percentage never gives a smaller percentile. |
| `OrderStatistics.MedianIsP50` | internal/analytics/puzzle_insights.go:349-353 | The median reported below the reliability threshold is the 50th percentile reported above it. |
| `OrderStatistics.OrderIrrelevant` | internal/analytics/puzzle_insights.go:386-387 | Percentiles and median depend on the multiset of samples only. |
| `JsonGrammar.ScanComplete` | internal/contracts/decode_scan.go:52-99 | On the tokens of a good tree the scan succeeds and leaves exactly what follows. |
| `JsonGrammar.ScanSound` | internal/contracts/decode_scan.go:52-99 | Whatever the scan accepts is the token stream of some good tree followed by what it left. |
| `JsonGrammar.TokensUnique` | internal/contracts/decode_scan.go:52-99 | A token stream starts with the tokens of at most one tree. |
| `JsonGrammar.ScanDecides` | internal/contracts/decode_scan.go:52-129 | On the stream of any tree, checked or skipped, the scan succeeds if and only if the tree is good, and then consumes exactly the tree's tokens. |
| `JsonGrammar.GoodIff` | internal/contracts/decode_scan.go:52-99 | A tree is good if and only if it is no more than 64 levels deep and, when names are checked, no object anywhere in it repeats one. |
| `DecodeScan.GoodEnvelopeIff` | internal/contracts/decode_scan.go:24-46 | The members of an envelope are good if and only if each value is no more than 64 levels deep and none outside "events" repeats a member name. |
| `DecodeScan.Decoder.Token` | internal/contracts/decode_scan.go:56-59 | The token decoder hands out tokens one by one and refuses one that its container stack does not allow. |
| `DecodeScan.ScanValueAtDepth` | internal/contracts/decode_scan.go:52-71 | The recursive scan over the decoder reports the same error, or stops at the same place, as the grammar. |
| `DecodeScan.SkipValueAtDepth` | internal/contracts/decode_scan.go:105-129 | The single-loop skip agrees with the grammar without the duplicate-name check. |
| `DecodeScan.RejectDuplicateKeys` | internal/contracts/decode_scan.go:13-22 | A body passes if and only if it is one JSON value, nothing after it, no object in it repeats a name, and nothing lies deeper than 64. |
| `DecodeScan.RejectBatchEnvelopeDuplicateKeys` | internal/contracts/decode_scan.go:24-46 | An envelope passes if and only if it is an object with distinct names whose members are good, where repeated names anywhere under "events" never count against it. |
| `BatchIntake.DecodeBatch` | internal/contracts/decode.go:48-87 | Out-of-range sizes and repeated probe ids refuse the whole batch, nothing else does; otherwise every raw event ends up decoded or rejected, in order, and the two add up to the event count. |
| `BatchIntake.DecodedIff` | internal/contracts/decode.go:48-87 | An event is among the decoded ones if and only if some raw event decodes to it. |
| `BatchIntake.UndecodedIff` | internal/contracts/decode.go:48-87 | A rejection is listed if and only if it is the probe of some raw event that does not decode. |
| `BatchIntake.DecodedInOrder` | internal/contracts/decode.go:48-87 | Decoded events and rejections both keep the order of the raw events. |
| `BatchIntake.ValidateEnvelope` | internal/contracts/validate.go:71-104 | An envelope passes if and only if its header is valid, its event count is between 1 and 100 and no event id repeats; otherwise the first of these that fails is named. |
| `BatchIntake.EffectiveTime` | internal/ingest/batch.go:20-43 | Whatever the client claims, the stored time is within 8 days before and 5 minutes after receipt; untrusted readings collapse to the receipt time. |
| `BatchIntake.PlausibleIff` | internal/ingest/batch.go:20-43 | The bounds of a stored time in nanoseconds: 8 days before and 5 minutes after receipt. |
| `BatchIntake.QualityIff` | internal/ingest/batch.go:20-43 | Exactly when a reading is labelled client, batch-adjusted or untrusted, in terms of the true disagreement of the clocks. |
| `BatchIntake.ClientQualityIff` | internal/ingest/batch.go:26-37 | A reading is labelled "client" against a disagreement of over 5 minutes if and only if the skew saturates low and the reading is plausible. |
| `BatchIntake.SaturatedSkewReadsClient` | internal/ingest/batch.go:26-37 | Such an input: a send time 2^63 nanoseconds ahead. |
| `BatchIntake.PrepareFacts` | internal/ingest/batch_processing.go:77-128 | Prepared and rejected events together are as many as came in, and prepared ones carry their own plausible time. |
| `BatchIntake.PrepareSplits` | internal/ingest/batch_processing.go:77-97 | Every event id is prepared and rejected together exactly as often as the batch carries it. |
| `BatchIntake.EachEventJudged` | internal/ingest/batch_processing.go:99-147 | An event is prepared if and only if it has no violation and, in a strict project and unless its name is reserved, its name is in the catalogue and all its keys are declared there (or none are); otherwise it is rejected with its violation, an unknown name or an undeclared key as the code. |
| `BatchIntake.PreparedAreClean` | internal/ingest/batch_processing.go:99-147 | Nothing is held against any prepared event, and it is a system event if and only if its name is reserved. |
| `BatchIntake.RejectionsHaveGrounds` | internal/ingest/batch_processing.go:130-147 | Every rejection names an event of the batch and a code that is held against it. |
| `BatchIntake.AllPrepared` | internal/ingest/batch_processing.go:77-97 | When nothing is held against any event, all are prepared, one for one. |
| `BatchIntake.PreparedInOrder` | internal/ingest/batch_processing.go:77-97 | Prepared events and rejections both keep the order of the batch. |
| `BatchIntake.PreparedIdsDistinct` | internal/ingest/batch_processing.go:77-97 | Distinct event ids stay distinct through preparation. |
| `BatchIntake.PrepareBatch` | internal/ingest/batch_processing.go:77-97 | Decode rejections come first, then this step's, and prepared plus rejected is everything that came in. |
| `EventStore.LeastProductIsLeast` | internal/ingest/batch_persist.go:106-113 | The tracked time is the least effective time among product events, and absent exactly when there are none. |
| `EventStore.InsertedKeys` | internal/ingest/batch_persist.go:78-104 | A commit changes no stored row and adds exactly the batch's absent ids, owned by the sender. |
| `EventStore.InsertedRows` | internal/ingest/batch_persist.go:78-104 | Each added row holds the first prepared event of the batch with its id, the sender and the receipt time. |
| `EventStore.AllNew` | internal/ingest/batch_persist.go:58-76 | Events with distinct ids that are not stored are all accepted, in order. |
| `EventStore.AcceptedOnce` | internal/ingest/batch_persist.go:58-76 | An id is reported accepted once if it was absent and is present afterwards, and otherwise not at all, even when the batch repeats it. |
| `EventStore.AcceptedAndDuplicatesSplit` | internal/ingest/batch_persist.go:58-76 | Accepted and duplicate ids are the prepared ids split without loss or overlap. |
| `EventStore.TallyAddsUp` | internal/ingest/batch_persist.go:137-171 | The per-build statistics rows of one call add up to the lengths of its three lists. |
| `EventStore.BuildOfEvent` | internal/ingest/batch_persist.go:137-171 | Among distinct ids, an id is counted under the build of its own event. |
| `EventStore.BuildsCount` | internal/ingest/batch_persist.go:137-171 | The count of a build is the number of listed events that were sent by that build. |
| `EventStore.Service.Register` | internal/ingest/register_helpers.go:46-89 | A new installation is created within the daily cap; one that is there has its credential compared and is left alone; over the cap nothing changes. |
| `EventStore.RegisteredIffAuthorised` | internal/ingest/register_helpers.go:46-66 | A registration succeeds if and only if its credential is good for sending batches afterwards. |
| `EventStore.NewInstallationIff` | internal/ingest/register_helpers.go:68-89 | A new installation of an enabled project is admitted if and only if the day's counter is below the cap; otherwise the answer is that the cap is exceeded. |
| `EventStore.Service.PersistPrepared` | internal/ingest/batch_persist.go:58-123 | The insert loop yields the accepted and duplicate ids in order, the extended table, and the least product time. |
| `EventStore.Service.PersistBatch` | internal/ingest/batch_persist.go:20-46 | One commit inserts the rows, notes the last build, and activates and dates the installation only when something was inserted. |
| `EventStore.CommitChanges` | internal/ingest/batch_persist.go:20-46 | A commit changes no other installation; of the sender's it sets the last build to that of the last prepared event, and dates only what was not dated, only on an insertion. |
| `EventStore.Service.RecordStats` | internal/ingest/batch_persist.go:137-171 | One row per build with its accepted, duplicate and rejected counts; a call that stops writes only some of them. |
| `EventStore.Service.Batch` | internal/ingest/batch.go:56-94 | Disk pressure, rate limiting, an invalid envelope, a disabled project and a missing or wrong credential each give their own refusal and change nothing; a processed call reports exactly the accepted, duplicate and rejected events, together all those it was given. |
| `EventStore.Service.ReceiveBatch` | internal/httpapi/handlers.go:67-81 | From raw body to response: a processed body has as many reports, accepted, duplicate or rejected, as raw events; one that does not decode changes nothing. |
| `EventStore.Service.DeleteExpiredEvents` | internal/maintenance/retention.go:43-66 | The bounded deletes, with a clock that moves between them, end with exactly the events expired at the last reading gone, and count each once. |
| `EventStore.ExpiredIff` | internal/maintenance/retention.go:43-66 | An event is taken if and only if it was received longer ago than its project's retention days. |
| `EventStore.Service.DeleteUnactivatedInstallations` | internal/maintenance/retention.go:15-37 | The same for installations never activated within seven days. |
| `EventStore.StaleIff` | internal/maintenance/retention.go:15-37 | An installation is taken if and only if it was never activated and was registered more than seven days ago. |
| `IngestRuns.AcceptLedger` | internal/ingest/batch_persist.go:58-104 | Over any run, every acceptance of a key is matched by a retention delete of it or by the row being there at the end. |
| `IngestRuns.AcceptedAtMostOnce` | README.md:20-21 | Retries are idempotent: until retention deletes a key at most one call of the whole run accepts it, and none if it was stored already. |
| `IngestRuns.StoredRowStays` | internal/ingest/batch_persist.go:93-94 | A stored row is never rewritten by anything in a run. |
| `IngestRuns.RetryIsHarmless` | README.md:20-21 | For the same request sent again, any time later and after any other calls: unless retention deleted its events meanwhile, they are all duplicates, in order, and no row changes; and it is authorised if the sender was activated before the first call, that call inserted something, or no cleanup deleted the sender. |
| `IngestRuns.RetryAuthorisedIff` | internal/ingest/batch_processing.go:38-64 | A retry is authorised after every possible run if and only if the sender was activated before the first call or that call inserted something. |
| `IngestRuns.RetryAfterCleanupIsRefused` | internal/maintenance/retention.go:15-37 | When the first call inserted nothing and the sender was never activated, a cleanup that deletes it makes the retry unauthorised. |
| `IngestExamples.RetryIsRefused` | internal/maintenance/retention.go:15-37 | Such an input: a batch whose only event did not decode, and a cleanup eight days later. |
| `IngestRuns.PreparedIdsAnyTime` | internal/ingest/batch_processing.go:77-128 | Which events survive preparation does not depend on when the batch arrives. |
| `IngestRuns.StatsAgainstInserts` | internal/ingest/batch.go:70-82 | Recorded accepted counts never exceed rows inserted, and equal them if and only if no call stopped before writing a row it owed. |
| `IngestExamples.StopLosesTheCount` | internal/ingest/batch.go:70-82 | Such a call: one row inserted and none recorded. |
| `IngestRuns.SoundRun` | internal/ingest/batch_persist.go:125-133 | In every run an installation that owns an event is activated, and only activated ones have a first product time. |
| `IngestRuns.DeclaredRun` | internal/ingest/batch_processing.go:130-147 | In every run nothing is held against any stored event: in a strict project its name is reserved or in the catalogue, and its keys are declared when any are. |
| `IngestRuns.ActivatedByFirstInsertion` | internal/ingest/batch_persist.go:58-76 | An installation is activated once, at the receipt of the first call by which it inserted any event, of whatever kind. |
| `IngestRuns.ActivationRuleIff` | internal/maintenance/retention.go:12-14 | Activated and having a product time are the same, for an installation not activated at the start, if and only if it inserted a product event or none at all. |
| `IngestExamples.SystemEventActivates` | internal/ingest/batch_persist.go:69-73 | The failing input: one session start activates the installation and sets no product time. |
| `IngestRuns.ActivatedForGood` | internal/maintenance/retention.go:15-37 | Once activated, an installation survives every cleanup and keeps its credential and dates. |
| `IngestRuns.CredentialFixed` | internal/ingest/register_helpers.go:46-66 | Until a cleanup deletes it, an installation stays and no call changes its stored credential hash. |
| `IngestRuns.DailyCounter` | internal/ingest/register_helpers.go:68-89 | The day's counter is the number of installations created that day and never exceeds the cap. |
| `IngestRuns.FirstProductSetOnce` | internal/ingest/batch_persist.go:125-133 | The first product time is set once, to the least effective time of the first call that inserted a product event. |
| `IngestRuns.FirstProductPlausible` | internal/ingest/batch.go:20-43 | The time one call contributes lies within 8 days before and 5 minutes after its receipt. |
| `IngestRuns.FirstProductPlausibleInRun` | internal/ingest/batch_persist.go:125-133 | A first product time set during a run lies within those bounds of the receipt of some call of that run by that installation. |
| `Funnel.GreedySpells` | internal/analytics/funnel.go:148-158 | The greedy scan's count is witnessed by rows that spell the steps in order within the window of the first opening row. |
| `Funnel.GreedyBest` | internal/analytics/funnel.go:148-158 | No choice of rows spells more steps than the greedy scan counts. |
| `Funnel.GreedyComplete` | internal/analytics/funnel.go:148-158 | A step is counted for an installation if and only if some subsequence of its rows reaches it. |
| `Funnel.CountRow` | internal/analytics/funnel.go:147-160 | One row moves the matched step and its counter together, and no other counter. |
| `Funnel.CountNext` | internal/analytics/funnel.go:145-161 | Each next row of an installation moves the counters exactly as the definition by subsequences moves. |
| `Funnel.CountSteps` | internal/analytics/funnel.go:128-161 | On grouped rows, counts[k] is the number of installations for which some subsequence reaches step k. |
| `Funnel.CountsNeverIncrease` | internal/analytics/funnel.go:163-174 | Later steps never count more installations. |
| `Funnel.TruncationOnlyLoses` | internal/analytics/funnel.go:123-126 | Counts over the truncated row list are at most those over the full list, step by step. |
| `AttemptEvents.SatisfiedGroup` | internal/analytics/puzzle_attempt.go:187-199 | A support group is reported with nothing missing if and only if all its blocks stand. |
| `AttemptEvents.MissingInOrder` | internal/analytics/puzzle_attempt.go:187-199 | What is missing from a group keeps the order of the group. |
| `AttemptEvents.FindMissingGroups` | internal/analytics/puzzle_attempt.go:167-185 | The nested search returns the groups of the first matching rule, reduced to what is missing, or none. |
| `AttemptEvents.PopulateMissingSupportGroups` | internal/analytics/puzzle_attempt.go:98-135 | In place, every event keeps its data and each readable placement gains the groups missing from what stood before it. |
| `Standing.AttemptStandingIff` | internal/analytics/puzzle_attempt.go:98-135 | The attempt traversal carries a block if and only if some event put it up (placed it, or listed it without returning it) and no later one took it down (returned it, or sent a list without it and did not place it); empty lists count. |
| `Standing.AttemptMissingIff` | internal/analytics/puzzle_attempt.go:121-135 | A placement is given, group by group of the first rule for its place and target, exactly the members that do not stand when it is judged. |
| `Standing.NoRuleFound` | internal/analytics/puzzle_attempt.go:167-185 | Without a rule for the place and target nothing is reported missing. |
| `Replay.PuzzleReplay.UpdateSequence` | internal/analytics/puzzle_replay.go:204-214 | An index repeats or skips relative to the last one counted; a missing index changes nothing. |
| `Replay.PuzzleReplay.ApplyEvent` | internal/analytics/puzzle_replay.go:227-276 | A placement is judged against the set before it and moves the set; a checkpoint with ids replaces it. |
| `Replay.PuzzleReplay.Build` | internal/analytics/puzzle_replay.go:117-154 | Steps are the readable events, each with an ascending snapshot of exactly the standing blocks and its missing groups; gaps, duplicates, mismatches and orphans are those of the whole list. |
| `Standing.ReplayStandingIff` | internal/analytics/puzzle_replay.go:227-276 | The replay carries a block, and so shows it in the snapshot, if and only if some event put it up and no later one took it down, where an empty list at a placement does not count. |
| `Standing.ReplayMissingIff` | internal/analytics/puzzle_replay.go:246-276 | The replay gives a placement exactly the members of each group that do not stand when it is judged, for the place it falls back on when its own is missing. |
| `Standing.PlaceIff` | internal/analytics/puzzle_replay.go:117-150 | The replay's city and house are those of the first readable event that names its city, or of the last readable event when none does. |
| `ReplayLaws.MismatchesCounted` | internal/analytics/puzzle_replay.go:234-241 | One mismatch is counted for each readable checkpoint that sent its blocks with a wrong hash. |
| `OrderStatistics.SortedKeys` | internal/analytics/puzzle_replay.go:281-288 | An ascending list of exactly the set's members, each once. |
| `ReplayLaws.TraversalsAgreeIff` | internal/analytics/puzzle_replay.go:244-276 | The replay gives the attempt traversal's missing groups at every event and under every catalogue if and only if no empty list arrives while something stands and no missing city or house has something else to fall back on. |
| `ReplayLaws.EmptyListTellsApart` | internal/analytics/puzzle_replay.go:246-276 | Such an input: after a checkpoint with block 5, a placement with an empty list gets block 5 reported missing by one traversal and not by the other. |
| `ReplayLaws.OrdinaryEventsAgree` | internal/analytics/puzzle_attempt.go:98-135 | Placements that name their own city and house and send no empty list always agree. |
| `ReplayLaws.CheckpointResynchronises` | internal/analytics/puzzle_replay.go:234-241 | After a checkpoint carrying ids, no later snapshot depends on what came before it. |
| `ReplayLaws.GapFormulaIff` | internal/analytics/puzzle_replay.go:204-214 | Gaps equal (last - first) - (n - 1) + duplicates if and only if the indices never step back, and exceed it otherwise. |
| `ReplayLaws.StepBackExceedsFormula` | internal/analytics/puzzle_replay.go:204-214 | Such an input: indices 1 then 0. |
| `ReplayLaws.GapsAreSkippedIndices` | internal/analytics/puzzle_replay.go:204-214 | On ordered indices the gap count is the number of integers between first and last that never occur. |
| `ReplayLaws.OrphanIff` | internal/analytics/puzzle_replay.go:216-225 | An interaction is orphaned if and only if some pick-up of it has no later return, abandonment or successful placement. |
| `DropAlignment.PuzzleDropMap.AlignDrops` | internal/analytics/puzzle_drops.go:141-198 | In place, the map takes one of five verdicts: trusted, mixed, too few, inconsistent, or moved by the median offset. |
| `DropAlignment.VerdictIff` | internal/analytics/puzzle_drops.go:141-202 | Exactly when each verdict is given: by the kinds of drops, the number of placed drops with a target (at least five), and the spread (at most 1500). |
| `DropAlignment.EstimateIsMedian` | internal/analytics/puzzle_drops.go:170-219 | The offset has the middle rank among the errors on each axis, and on some axis at most half of the samples deviate by less than the spread. |
| `DropAlignment.DeviationAt` | internal/analytics/puzzle_drops.go:213-226 | A deviation is the distance of the sample from the centre. |
| `DropAlignment.MovedAt` | internal/analytics/puzzle_drops.go:191-197 | The fit takes the offset from each release, measures the distance to the nearest slot anew when there is one, and changes nothing else of the drop. |
| `DropAlignment.TranslationInvariant` | internal/analytics/puzzle_drops.go:141-198 | In any map, shifting every legacy release by one vector gives the same verdict, drops and spread; a fitted offset moves by that vector and any other stays. |
| `DropAlignment.AlignmentIdempotent` | internal/analytics/puzzle_drops.go:141-198 | Aligning an aligned map again finds offset zero and changes nothing. |
| `DropAlignment.SpreadCoversMajority` | internal/analytics/puzzle_drops.go:204-219 | After a fit, at least floor(n/2)+1 of the placed drops lie within the spread of their target on each axis. |
| `DropClustering.GatherConnected` | dashboard/src/components/dropClustering.ts:74-98 | The search terminates with each drop reachable from the seed by bounded hops once, and no other. |
| `DropClustering.NoDropIsLost` | dashboard/src/components/dropClustering.ts:23-55 | Every drop is published at least once. |
| `DropClustering.PublishedOnceIff` | dashboard/src/components/dropClustering.ts:23-55 | In a given order every drop is published exactly once if and only if there are fewer than the threshold or no drop is reachable from two seeds. |
| `DropClustering.ExactlyOnceIff` | dashboard/src/components/dropClustering.ts:38-42 | The searches themselves return every drop exactly once if and only if no drop is reachable from two seeds. |
| `DropClustering.SmallClustersAppearOnce` | dashboard/src/components/dropClustering.ts:59-72 | For any radius, when drops chained by hops are never further apart than the cluster diameter, every drop is returned exactly once. |
| `DropOrder.PublishedOnceInEveryOrderIff` | dashboard/src/components/dropClustering.ts:20-98 | For every radius and threshold, every drop is published exactly once in every order of the drops if and only if there are fewer than the threshold or no chain of hops, each within the radius and the cluster diameter, leads further than that diameter from its start. |
| `DropOrder.OnceInEveryOrderIff` | dashboard/src/components/dropClustering.ts:38-98 | The same for what the searches return, where no threshold comes in. |
| `DropOrder.FourDropsArePublishedOnce` | dashboard/src/components/dropClustering.ts:28-30 | Four drops whose chain leads 1050 away are still published once each, being too few to cluster. |
| `DropOrder.LeavingChainRepeats` | dashboard/src/components/dropClustering.ts:38-54 | When a chain does lead further, an order that puts its start and the leaving drop first does not return every drop exactly once. |
| `DropOrder.WideReach` | dashboard/src/components/dropClustering.ts:59-72 | With a radius of at least the cluster diameter, a search returns its seed and exactly the drops with coordinates within that diameter of it. |
| `DropClustering.BridgeDropAppearsTwice` | dashboard/src/components/dropClustering.ts:20-54 | A layout of five drops in which, at the dashboard's radius and threshold, one is published twice. |
| `DropClustering.ClusterDrops` | dashboard/src/components/dropClustering.ts:23-55 | From the threshold on, the clusters are, in the order of their seeds, the drops reached from each seed that reaches at least the threshold of drops, each drop once; a drop is discrete as often as seeds that reach fewer reach it; below the threshold all drops are discrete, in order. |
| `DropClustering.BigSeedsListed` | dashboard/src/components/dropClustering.ts:36-52 | The seeds of the clusters are exactly the seeds that reach at least the threshold of drops, ascending. |
| `Pacing.ClocksAgree` | dashboard/src/components/pacingMath.ts:75-118 | Whatever the readings, active <= rendered <= active + wall at every step, all start at zero and rendered time never falls. |
| `Pacing.WallIsLatest` | dashboard/src/components/pacingMath.ts:92-99 | The wall offset is the latest clock seen so far, measured from the first readable one. |
| `Pacing.FirstTimeIs` | dashboard/src/components/pacingMath.ts:78-79 | The first clock is that of the first step with a readable one, or zero. |
| `Pacing.ObservedIsGreatest` | dashboard/src/components/pacingMath.ts:81-90 | Active time is the greatest usable reading so far less that of the first step. |
| `Pacing.GapLaw` | dashboard/src/components/pacingMath.ts:101-116 | How long a gap is rendered: a pause (backgrounded, or over two seconds of wall time without active time) at most 15 s beyond its active time, any other its active time, or without any at most one second. |
| `Pacing.ComputeStepTimes` | dashboard/src/components/pacingMath.ts:75-118 | The three passes compute the three clocks of every step. |
| `Pacing.BuildSpans` | dashboard/src/components/pacingMath.ts:120-167 | The spans tile steps 0 to the last: each starts where the one before ends, they alternate in kind, and every gap inside one is of its kind. |
| `Pacing.TilesMeet` | dashboard/src/components/pacingMath.ts:120-167 | Any two neighbouring spans share a step and differ in kind, the first starts at step 0, and a span is capped if and only if it is a pause of more than 30 minutes. |
| `Pacing.SpansAccountForTime` | dashboard/src/components/pacingMath.ts:120-167 | Span durations sum to total rendered time, wall durations to total wall time, and pauses to the wall time of the paused gaps. |
| `Pacing.BuildPacingTimeline` | dashboard/src/components/pacingMath.ts:233-256 | The published totals obey active <= rendered <= active + wall and pause <= wall; an empty replay gives an empty timeline. |
| `Pacing.MarkersInOrder` | dashboard/src/components/pacingMath.ts:169-184 | Markers stay between 0 and 100 percent and in step order. |
| `Pacing.PercentIsShare` | dashboard/src/components/pacingMath.ts:169-174 | When anything is rendered, a marker is at its share of the rendered time. |
| `Pacing.PercentEnds` | dashboard/src/components/pacingMath.ts:169-174 | The first marker is at 0 percent and, when anything is rendered, the last at 100. |
| `Pacing.PercentIsEven` | dashboard/src/components/pacingMath.ts:169-174 | When nothing is rendered, markers are spaced evenly by step number. |
| `Pacing.BuildMarkerPositions` | dashboard/src/components/pacingMath.ts:169-184 | One marker for each step, at those positions. |
| `Pacing.FindNearestStepIndex` | dashboard/src/components/pacingMath.ts:258-270 | The first marker at the least distance, and 0 when there is none. |
| `PacingInteractions.ExtractInteractions` | dashboard/src/components/pacingMath.ts:186-213 | The interactions are exactly the pairs of a pick-up and the step that ends it with nothing in between, each once, in the order in which they end. |
| `PacingInteractions.OpenOnBothSides` | dashboard/src/components/pacingMath.ts:189-195 | An id is left open by the dashboard if and only if the server counts it orphaned and no placement failed since some pick-up of it; so the dashboard's open ids are a subset. |
| `MemoryTimeline.TimelineState.UpdateActiveTime` | internal/analytics/puzzle_memory_timeline.go:106-125 | The first row starts the clock; later ones add their truncated, capped gap unless the app is away. |
| `MemoryTimeline.TimelineState.CreateTimelinePoint` | internal/analytics/puzzle_memory_timeline.go:128-164 | The point shows both clocks with this row read, and the row's own name takes effect only afterwards. |
| `MemoryTimeline.BuildTimelinePoints` | internal/analytics/puzzle_memory_timeline.go:167-186 | Point i shows the clocks as the first i+1 rows leave them, beside the greatest memory readings and the sample count. |
| `MemoryTimeline.ActiveIsSum` | internal/analytics/puzzle_memory_timeline.go:106-125 | Active time is the sum over the rows so far of the whole milliseconds since the row before, none if time went back and at most 30 minutes, leaving out every row before which the last switch was to the background or no row had a time. |
| `MemoryTimeline.WallIsSinceFirst` | internal/analytics/puzzle_memory_timeline.go:128-133 | Wall time is counted from the first row with a time, in whole milliseconds up to the 64-bit saturation, and is never negative. |
| `MemoryTimeline.BuildUpdateIff` | internal/analytics/puzzle_memory_timeline.go:135-138 | A point marks a build update if and only if its row names another build than the last one named. |
| `MemoryTimeline.SamplesCounted` | internal/analytics/puzzle_memory_timeline.go:179-181 | The sample count is the number of rows that are memory samples. |
| `MemoryTimeline.PeaksAreGreatest` | internal/analytics/puzzle_memory_timeline.go:172-178 | The memory figures bound every reading and are attained, or zero. |
| `MemoryTimeline.ClocksNeverFall` | internal/analytics/puzzle_memory_timeline.go:106-164 | For ordered rows neither clock ever runs backwards. |
| `MemoryTimeline.ClocksStayInOrder` | internal/analytics/puzzle_memory_timeline.go:106-164 | For ordered rows 0 <= active <= wall at every point of the first five million rows and at any point within 292 years of the first; in general if and only if active time itself is below that saturation. |
| `MemoryTimeline.OnlyTruncationIsLost` | internal/analytics/puzzle_memory_timeline.go:106-125 | While the app is never away and no gap exceeds the cap, active time misses elapsed time by at most one millisecond a row. |
| `Durations.Sub` | internal/analytics/puzzle_memory_timeline.go:112 | Subtracting instants is exact when the difference fits in 64 bits and otherwise saturates at the end it overflows. |

## Left out

- SQL aggregation (diagnostics, quality, houses, overview, retention, wave funnel) and the classification views: the logic is in PostgreSQL.
- HTTP handling, SDK test scenarios, sessions, CSRF, logging, gzip, the MCP proxy and all rendering: plumbing.
- JSON lexing and encoding/json decoding: the model starts from tokens, with one token standing for whatever the lexer refuses, and from decoded events; scanning with recursive=false is not used for batches and is not modelled.
- Field checks of one event and of the envelope's header (schema version, project, installation, SDK, send time; internal/contracts/validate.go:72-86): their verdicts are inputs.
- Credential hashes are opaque values; bearer syntax, hashing and constant-time comparison are not modelled. Rate limiters and the disk state are an arbitrary yes or no.
- Authorisation and commit are one step, as are the reads and writes of one transaction; calls interleave only between transactions. A failing policy lookup is a call that stops after its commit.
- Project settings (enabled, strict, catalogue, retention) do not change during a run.
- The event catalogue upsert, drift and rejection statistics, last-seen times and the environment column: bookkeeping beside the laws. Activation time is the receipt time, not the database clock.
- Rates, conversions and percent fields are quotients of the modelled counts; marker positions use exact reals. Rounded distances are an arbitrary function of the two coordinate differences, and milliseconds, coordinates and squared distances are integers.
- Whether a checkpoint state hash is wrong is an input; hash comparison is not modelled. The outcome label of an interaction is not modelled beyond whether it completed.
- Labels, icons, colours, wave boundaries, cluster centroids, dominant outcomes and radii: read off in one branch.
- Per-attempt state, block and wave records are values stored in map fields that the methods reassign; the source mutates them through pointers. Block ids of a house are taken to be distinct, as the primary key of puzzle_content_blocks makes them (migrations/0004_puzzle_gravity_diagnostics.sql:27).
- The order in which attempts are flushed at the end: the source sorts them, the model takes any order, so only the choice of five example attempts can differ.
- Outcome strings are read as classes (placed, returned, the named falls, any other fall, the rest), and the nested placement catalogue is a list of rules in search order.
- Integers are unbounded except for durations, where saturation and negation at 64 bits are modelled.
- DropClustering.ClusterDrops: the order of the drops inside a cluster, and of the discrete drops at or above the threshold, is left open; each is told how often it occurs.
- DropClustering.PublishedOnceIff: for one given order the condition speaks of reachability from two seeds, because which drops are seeds depends on the order; DropOrder.PublishedOnceInEveryOrderIff gives the condition on the layout alone that is exact over all orders.
