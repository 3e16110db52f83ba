# Verified model of the stock research platform's protocols

This project models five parts of the platform in which correctness depends on several functions,
workers or tables acting together, and proves what each part keeps over every run.

- **Agent runs.** `RunLedger` is one run: its `agent_run` row, its `agent_event` rows and the work it
  has committed, with one function per committed transaction (claim, emit, complete, fail, recover,
  requeue, cancel, audit, replacement links). `RunWorkers` runs any number of `execute_run` programs
  against it, transaction by transaction, with crashes and unacknowledged commits. `RunTable` adds
  admission, capacity and replacement over all runs; `RunStore` is the same operations as methods
  that update rows, `RunEffects` what each transaction leaves behind; `MarketSchedule` is the cutoff search and the schedule keys of catch-up.
- **Paper execution.** `PaperTables` holds four tables (risk decisions, intents, orders, fills) with
  the guards of their triggers and constraints, evaluated in SQL's three-valued logic (`SqlLogic`).
  `PaperAcceptance` says exactly what they let in, `PaperGuarantees` proves conservation and the risk
  bound; `PaperDatabase` is the statements as methods.
- **Event stream client.** `SseText` and `SseParser` are line-ending normalization, framing and the
  incremental parser, `SseFields` what is read off a frame; `SseDelivery` relates chunks to frames and the server's encoder to the client,
  `SseCut` says what a stream that ends early delivers; `SseStore` and `SseResume` are the durable store and the resumable stream.
- **Exact time and decimals.** `Calendar` and `Instant` are the day formula and the timestamp key;
  `Decimals` is comparison, rounded change and chart scaling on decimal text; `Performance`,
  `PerformancePass` and `PerformanceGuarantees` are the NAV series and its canonicalising pass.
- **Ingestion.** `Backfill` is the window planner with its scheduler and the reconnect gap; `Paging`,
  `PagingGuarantees`, `PagingProgress` and `PagingStore` are the leased job with its compare-and-set page cursor;
  `Outbox`, `OutboxGuarantees`, `OutboxEffects` and `OutboxStore` are the normalization outbox; `Revisions`,
  `RevisionStore` and `RevisionReader` are the corporate-action version chains.

`Wrappers`, `Digits` and `Quotients` are shared helpers.

Conventions. A database transaction is one atomic step; a step whose guard fails leaves the state as
it was. Concurrency is interleaving of such steps, a crash is a participant that takes no further
step, and clock readings are arbitrary parameters. Code that changes state is a class whose methods
are proved equal to specification functions; the lemmas are about those functions. Equal payloads
stand for equal hashes. Money and quantities in SQL are exact rationals.

## Findings

Places where the code does less than its design suggests, each proved with its exact condition:

- Normalizing the buffer again on every push makes frames and buffer depend on the chunking exactly when
  the stream contains CR CR LF (`SseText.ChunkingIsInvisibleExactlyWithoutCrCrLf`). That need not reach the
  events; a stream on which two chunkings deliver different events is shown
  (`SseDelivery.ChunkingChangesEvents`).
- A stream that ends inside a data line makes the last flush throw, and only there
  (`SseCut.EndedStreamDeliversPrefix`).
- The authorization CHECK and the intent trigger accept rows whose reference facts or authorized side
  are NULL, because unknown is not false. The quantity is pinned exactly when NAV and price are there,
  the side exactly when its column is (`PaperGuarantees.QuantityIsPinnedExactly`,
  `PaperGuarantees.SideIsPinnedExactly`).
- The order trigger lets an update point a filled order at another intent. The invariant survives such an
  update exactly when the new row is approved, on the same side and covers what is filled
  (`PaperGuarantees.UpdateKeepsValidExactly`); a history that breaks the bound is shown
  (`PaperGuarantees.RepointingIsReachable`).
- `decimalChange` prints a Decimal exactly when at least one fraction digit is asked for
  (`Decimals.ChangeIsDecimalExactly`).
- The market-data normalizer sets DISPATCHED without clearing the lease columns, so its transaction
  commits exactly when the row is not CLAIMED (`OutboxGuarantees.MarketDataCommitsExactlyOutsideClaims`).
- Two overlapping immutable conflicts file two rejections, after which no terminal failure is ever
  recorded (`OutboxGuarantees.TwoRejectionsBlockTerminalFailure`).
- A correction that moves a corporate action to another symbol leaves the superseded version on show;
  the reader shows the current version exactly when that version is about the symbol and in effect
  (`RevisionReader.ShownIsCurrentExactly`).
- A page cursor past the last page restarts at the first page when the completion was lost; the job then
  completes only after a second pass over the whole chain (`PagingGuarantees.RestartFetchesTheChainAgain`).
- `run.cancelled` is counted and appended in two unserialized steps, yet is written exactly once,
  because the cancel route commits the event with the status (`RunWorkers.CancellationIsRecordedOnce`).
- The status changes of a run number at most 3 * max_attempts - 1, and that many are reached
  (`RunGuarantees.StatusChangeBoundIsReached`).

## Model

| member | source | states |
|---|---|---|
| RunLedger.StepKeepsValid | backend/src/stock_platform/application/runs.py:170-370 | Every transaction, from any worker, stale or not, keeps the log faithful to the row, the work committed once, and no run stranded. |
| RunLedger.EveryRunIsValid | backend/src/stock_platform/application/runs.py:232-370 | Every interleaving of claims, emits, completions, failures, recoveries, requeues and cancels of a new run satisfies the invariant. |
| RunGuarantees.WorkCommitsExactlyOnce | backend/src/stock_platform/application/runs.py:315-345 | Work commits at most once, exactly when the run is COMPLETED, under the attempt claimed last. |
| RunGuarantees.TerminalIsNeverLeft | backend/src/stock_platform/application/runs.py:232-370 | From COMPLETED, CANCELLED or an exhausted FAILED no sequence of steps changes the row or commits more work. |
| RunGuarantees.HistoryOnlyGrows | backend/src/stock_platform/application/runs.py:170-200 | The event log is append-only and committed work stays committed over any run. |
| RunGuarantees.SupersededAttemptIsInert | backend/src/stock_platform/application/runs.py:214-225 | Once a later attempt was claimed, the earlier one can never again emit, complete or fail, whatever happens in between. |
| RunGuarantees.StatusChangesAreBounded | backend/src/stock_platform/workers/schedules.py:681-707 | A run changes status at most 3 * max_attempts - 1 times, operator requeues included. |
| RunGuarantees.LongestLifeSpendsAll | backend/src/stock_platform/workers/schedules.py:681-707 | The run that claims, fails for good and is requeued for every attempt spends the whole bound. |
| RunGuarantees.StatusChangeBoundIsReached | backend/src/stock_platform/workers/schedules.py:681-707 | The bound is exact: some run reaches it. |
| RunGuarantees.EveryUnfinishedRunCanMove | backend/src/stock_platform/application/runs.py:243-257 | A queued run can be claimed, an expired running run leaves RUNNING, a failed run with attempts left can be requeued. |
| RunGuarantees.LogNumbersAndAttributesEverything | backend/src/stock_platform/application/runs.py:170-225 | Sequences are exactly 1..n, the k-th run.started carries attempt k, and every emitted event belongs to the attempt of the latest run.started before it. |
| RunGuarantees.LogDecidesFinalStatus | backend/src/stock_platform/application/runs.py:278-297 | The row is COMPLETED, FAILED or CANCELLED if and only if the last lifecycle event says so. |
| RunGuarantees.LogDoesNotDecideRunning | backend/src/stock_platform/workers/schedules.py:635-643 | Two reachable ledgers share a log and differ in status, since lease recovery to QUEUED writes no event. |
| RunGuarantees.RecoveryRulesAgreeExceptAtExpiry | backend/src/stock_platform/infrastructure/recovery.py:18-34 | The sweep and recover_expired_run decide alike except at the very instant of expiry. |
| RunWorkers.EveryInterleavingIsValid | backend/src/stock_platform/application/runs.py:300-370 | Any number of execute_run programs, interleaved with every outside step, keep the ledger valid, tokens unique and outcomes honest. |
| RunWorkers.WorkersRefineLedger | backend/src/stock_platform/application/runs.py:300-370 | Whatever workers do, row and log are those of some run of ledger steps. |
| RunWorkers.AtMostOneWorkerSucceeds | backend/src/stock_platform/application/runs.py:300-349 | At most one worker returns True, and then the work is committed; no two hold the same attempt. |
| RunWorkers.WorkersStartAndStop | backend/src/stock_platform/application/runs.py:309-361 | A worker finds work exactly in a queued run; one that saw CANCELLED adds nothing and returns False. |
| RunWorkers.WorkersEndAsTheRunStands | backend/src/stock_platform/application/runs.py:329-366 | With its attempt held a worker completes the run and returns True, or records its error and raises it; otherwise it changes nothing and returns False. |
| RunWorkers.CancellationIsRecordedOnce | backend/src/stock_platform/application/runs.py:350-370 | A cancelled run has exactly one run.cancelled and any other run none. |
| RunEffects.ClaimEffect | backend/src/stock_platform/application/runs.py:243-264 | Exactly a queued run is claimed: RUNNING, one attempt more, a lease of fifteen minutes, and the next row run.started with that attempt. |
| RunEffects.EmitEffect | backend/src/stock_platform/application/runs.py:214-225 | An event enters the log, under its name and attempt, exactly while that attempt holds the run. |
| RunEffects.CompleteEffect | backend/src/stock_platform/application/runs.py:329-345 | Exactly a held attempt completes: status, work and row together, lease cleared. |
| RunEffects.FailureEffect | backend/src/stock_platform/application/runs.py:267-297 | A held attempt that fails is queued again if and only if the error is retryable and an attempt is left, otherwise FAILED; the lease is cleared, attempts stand, and one row says which. |
| RunEffects.RecoveryEffect | backend/src/stock_platform/workers/schedules.py:606-655 | A lease that ran out, its last instant included, ends the attempt: silently into QUEUED while an attempt is left, with run.failed otherwise. |
| RunEffects.RequeueEffect | backend/src/stock_platform/workers/schedules.py:681-707 | Exactly a failed run with an attempt left is requeued, with its row. |
| RunEffects.CancelEffect | backend/src/stock_platform/api/routes/rest.py:831-853 | Exactly an active run becomes CANCELLED, with its row and its lease column as it was. |
| RunTable.EveryTableIsValid | backend/src/stock_platform/application/runs.py:84-155 | Over every history of admissions, replacements, steps and sweeps, keys are unique, every run is valid and replacement chains are sound. |
| RunEffects.AdmissionIsExact | backend/src/stock_platform/application/runs.py:99-155 | A request is admitted if and only if key and id are free, active runs are below the cap and data is no later than the decision; each other answer has its exact condition and no effect. |
| RunEffects.AdmittedRunIsTheRequest | backend/src/stock_platform/application/runs.py:131-155 | The new run has the request's columns, no history and the first of three attempts; no other run changes. |
| RunEffects.AdmittedPins | backend/src/stock_platform/application/runs.py:116-130 | Explicit pins are kept; otherwise each policy kind fills its own pin, active version before built-in one, and prompt and model follow the run type. |
| RunTable.KeyBindingIsPermanent | backend/src/stock_platform/application/runs.py:100-108 | One run per idempotency key for ever, with unchanged pins, payload and times. |
| RunTable.BoundKeyIsReplayed | backend/src/stock_platform/application/runs.py:100-108 | A later admission under a bound key creates nothing: it replays exactly when the payload is equal and conflicts otherwise. |
| RunTable.ReplacementIsUniqueAndFaithful | backend/src/stock_platform/workers/schedules.py:710-764 | An exhausted run has at most one replacement, with every pin and input kept, and chains of replacements are acyclic. |
| RunEffects.ReplacementAnswer | backend/src/stock_platform/workers/schedules.py:710-764 | A replacement is attempted exactly for a failed run without attempts left, and answers as its admission does. |
| RunEffects.ReplacementLinks | backend/src/stock_platform/workers/schedules.py:710-764 | Of an admitted replacement and its source each logs the other, and no third run is touched. |
| RunEffects.ReplacementCopiesTheRun | backend/src/stock_platform/workers/schedules.py:710-764 | The replacement copies every input and pin under a key of its own. |
| RunTable.ActiveRunsAreBounded | backend/src/stock_platform/application/runs.py:109-115 | The active count never exceeds the cap plus the number of operator requeues so far. |
| RunTable.RequeueBypassesCapacity | backend/src/stock_platform/workers/schedules.py:681-707 | A requeue at or above the cap still activates its run. |
| RunStore.Store.AppendRunEvent | backend/src/stock_platform/application/runs.py:170-199 | The new row takes the greatest sequence plus one; nothing else changes. |
| RunStore.Store.AdmitRun | backend/src/stock_platform/application/runs.py:84-155 | The scan for the key, the capacity count and the insert do exactly the admission function, errors included. |
| RunStore.Store.ClaimRun | backend/src/stock_platform/application/runs.py:232-264 | Missing run and wrong type are errors; otherwise the row and log after a claim, and the attempt exactly when one was claimed. |
| RunStore.Store.CompleteRun | backend/src/stock_platform/application/runs.py:315-345 | Work, status and event change together and only under the attempt still held. |
| RunStore.Store.FinishFailedRun | backend/src/stock_platform/application/runs.py:267-297 | The outcome by status, attempt, retryability and attempts left, and for each the whole new row and log. |
| RunStore.Store.CancelRun | backend/src/stock_platform/api/routes/rest.py:831-853 | Only QUEUED and RUNNING are cancelled, with the event in the same step. |
| RunStore.Store.RecoverQueuedRuns | backend/src/stock_platform/workers/schedules.py:606-655 | One sweep over the table equals recovering every expired run at once. |
| RunStore.Store.RequeueFailedRun | backend/src/stock_platform/workers/schedules.py:681-707 | Requeues exactly a failed run with attempts left. |
| RunStore.Store.ReplaceExhaustedRun | backend/src/stock_platform/workers/schedules.py:710-764 | Admits the replacement and links both runs exactly when the run is exhausted. |
| RunStore.RunControl.EmitEvent | backend/src/stock_platform/application/runs.py:202-225 | Appends exactly while the attempt is held, and otherwise tells cancelled from lost. |
| MarketSchedule.LatestCompletedMarketCutoff | backend/src/stock_platform/workers/schedules.py:133-146 | The search returns the greatest completed session cutoff, and gives up exactly when the last eight days have none. |
| MarketSchedule.NoCutoffBetweenMeansSameCutoff | backend/src/stock_platform/workers/schedules.py:133-146 | Two searches with no session cutoff between them return the same cutoff. |
| MarketSchedule.ScheduleKeysAreInjective | backend/src/stock_platform/workers/schedules.py:127-130 | Keys coincide only for the same symbol and cutoff, and never across kinds. |
| MarketSchedule.ScheduledRunIsItsCutoff | backend/src/stock_platform/workers/schedules.py:439-473 | A scheduled run decides at its cutoff on data up to it, under a key that spells kind, symbol and cutoff, with the active policies. |
| MarketSchedule.RepeatedCatchUpAdmitsNothing | backend/src/stock_platform/workers/schedules.py:439-603 | A later catch-up with the same settings and no cutoff in between replays the run instead of creating one. |
| PaperGuarantees.TotalIsLiveTotal | backend/migrations/versions/0012_idempotent_fill_guard.py:92-107 | For every weight that reversals undo, the sum over all rows of an order is the sum over its unreversed fills. |
| PaperGuarantees.UpdateKeepsValidExactly | backend/migrations/versions/0010_paper_order_intent_guard.py:16-47 | An order update the trigger accepts keeps the invariant if and only if the order has no fills, or the new row is approved, on the same side and at least as large as what is filled. |
| PaperGuarantees.StepKeepsValidExactly | backend/migrations/versions/0012_idempotent_fill_guard.py:16-110 | Every other guarded write keeps the links, quantities and reversals of the four tables unconditionally; an update keeps them exactly under that condition. |
| PaperGuarantees.HistoryIsValidExactly | backend/migrations/versions/0012_idempotent_fill_guard.py:16-110 | A history stays valid throughout if and only if each of its updates fits the fills it finds. |
| PaperGuarantees.EveryStateIsValid | backend/migrations/versions/0012_idempotent_fill_guard.py:16-110 | From empty tables every history whose updates fit reaches a valid state. |
| PaperGuarantees.UpdateKeepingIntentChangesOnlyStatus | backend/migrations/versions/0010_paper_order_intent_guard.py:16-47 | An update of an order that keeps its intent can change nothing but the status. |
| PaperGuarantees.OrderIsConserved | backend/migrations/versions/0012_idempotent_fill_guard.py:92-107 | In a valid state net quantity and notional are those of the unreversed fills, 0 <= net <= order quantity, and the position is side sign times net. |
| PaperGuarantees.FittingHistoryConserves | backend/migrations/versions/0012_idempotent_fill_guard.py:92-107 | The same bounds and position after every fitting history from empty tables. |
| PaperGuarantees.EveryHistoryConserves | backend/migrations/versions/0012_idempotent_fill_guard.py:92-107 | After every history whatsoever from empty tables, quantity, position and notional of an order are those of its unreversed fills, and the net is never negative. |
| PaperGuarantees.MatchingReversalIsAccepted | backend/migrations/versions/0012_idempotent_fill_guard.py:55-107 | A matching reversal of a fill not yet reversed is never refused; in particular the negative-quantity guard cannot trip. |
| PaperGuarantees.RedeliveryIsIdempotent | backend/migrations/versions/0012_idempotent_fill_guard.py:32-53 | After every history whatsoever, redelivering an accepted fill changes nothing and its key with other facts is refused. |
| PaperAcceptance.OriginalIsAcceptedExactly | backend/migrations/versions/0012_idempotent_fill_guard.py:74-108 | A new original fill is accepted if and only if its order exists and is approved, both its times are after the decision, it agrees with the order, what stands plus it stays within the order, and it is well-formed under a new id. |
| PaperAcceptance.ReversalIsAcceptedExactly | backend/migrations/versions/0012_idempotent_fill_guard.py:55-108 | A new reversal is accepted if and only if it undoes a recorded fill that nothing has reversed, is well-formed under a new id, and leaves no more standing than the order allows. |
| PaperAcceptance.KnownKeyIsRedeliveredExactly | backend/migrations/versions/0012_idempotent_fill_guard.py:32-53 | Under a recorded key a fill is a redelivery if and only if it is the recorded one. |
| PaperAcceptance.RefusalNamesTheFirstCheck | backend/migrations/versions/0012_idempotent_fill_guard.py:24-107 | Each refusal of a fill and the check it names. |
| PaperAcceptance.IntentIsAcceptedExactly | backend/migrations/versions/0018_risk_authorization_lineage.py:47-73 | An intent goes in if and only if its decision has none yet, it copies portfolio, symbol, time and policy, is approved as the decision is, and takes the whole quantity on the authorized side if there is one. |
| PaperAcceptance.OrderIsWrittenExactly | backend/migrations/versions/0010_paper_order_intent_guard.py:16-47 | An order is written if and only if it copies an intent no other order has taken and is rejected exactly when not approved. |
| PaperAcceptance.OrderFollowsItsDecision | backend/migrations/versions/0018_risk_authorization_lineage.py:52-71 | In every valid state an order has its decision's portfolio, symbol, time, approval, quantity and frozen policy. |
| PaperGuarantees.NetStaysWithinMaximum | backend/migrations/versions/0018_risk_authorization_lineage.py:47-73 | The net filled quantity of an order is at most its decision's max_order_quantity in every reachable state. |
| PaperGuarantees.DirectionalExecution | backend/migrations/versions/0018_risk_authorization_lineage.py:12-27 | For a directional decision: with NAV and price present, net times price is at most approved delta times NAV; with the side present, the net is on the approved side. |
| PaperGuarantees.ExecutionStaysWithinRisk | backend/migrations/versions/0018_risk_authorization_lineage.py:12-73 | After every fitting history from empty tables, the net traced to a decision is within its maximum, within its delta of NAV when NAV and price are there, and on its side when the side is there. |
| PaperGuarantees.OneOrderPerRisk | backend/migrations/versions/0007_paper_execution_ledger.py:36-57 | At most one order ever traces to a risk decision. |
| PaperGuarantees.ConstraintsAdmitExactly | backend/migrations/versions/0018_risk_authorization_lineage.py:12-27 | The three-valued constraint accepts exactly the rows that satisfy a plain reading in which a NULL satisfies every comparison it enters. |
| PaperGuarantees.MissingReferenceFreesQuantity | backend/migrations/versions/0018_risk_authorization_lineage.py:21-24 | A directional row without NAV or without price is accepted with any non-negative quantity. |
| PaperGuarantees.QuantityIsPinnedExactly | backend/migrations/versions/0018_risk_authorization_lineage.py:21-24 | The other columns determine the quantity of a directional row if and only if NAV and price are both there. |
| PaperGuarantees.PinnedQuantity | backend/migrations/versions/0018_risk_authorization_lineage.py:21-24 | With both there, the quantity is worth exactly the approved delta of NAV. |
| PaperGuarantees.SideIsPinnedExactly | backend/migrations/versions/0018_risk_authorization_lineage.py:24-71 | Every intent accepted for a directional decision is on the approved side if and only if the side column is not NULL. |
| PaperGuarantees.AuthorizationBindsExactlyWithoutNulls | backend/migrations/versions/0018_risk_authorization_lineage.py:12-73 | All intents accepted under a directional decision, with any quantity the constraint lets it carry, agree on quantity and side if and only if none of the three nullable facts is NULL. |
| PaperGuarantees.RepointingAFilledOrderBreaksTheBound | backend/migrations/versions/0010_paper_order_intent_guard.py:16-47 | Moving a filled order to a smaller intent passes the trigger and leaves more filled than the order allows. |
| PaperGuarantees.RepointingIsReachable | backend/migrations/versions/0010_paper_order_intent_guard.py:16-47 | Seven accepted writes from empty tables leave ten shares traced to a decision for four. |
| PaperDatabase.Database.InsertRiskDecision | backend/migrations/versions/0018_risk_authorization_lineage.py:12-27 | A decision goes in exactly when its id is new and the plain reading admits it; then earlier decisions stand unchanged, and with NAV and price present its quantity is worth the approved delta of NAV. |
| PaperDatabase.Database.InsertOrderIntent | backend/migrations/versions/0018_risk_authorization_lineage.py:47-73 | Inserts exactly the intents that may enter, and changes nothing else. |
| PaperDatabase.Database.WritePaperOrder | backend/migrations/versions/0010_paper_order_intent_guard.py:16-47 | Inserts and updates write exactly the orders that may stand, and change nothing else. |
| PaperDatabase.Database.SumQuantity | backend/migrations/versions/0012_idempotent_fill_guard.py:92-97 | The scan computes the signed sum of one order. |
| PaperDatabase.Database.InsertPaperFill | backend/migrations/versions/0012_idempotent_fill_guard.py:16-110 | The trigger's checks in its order, then the append; on a sound table new fills are accepted exactly as stated for originals and reversals. |
| SseText.NormalizeAbsorbs | web/lib/sse.ts:40 | On clean text, normalizing a normalized buffer with more input is normalizing the whole. |
| SseText.CleanStreamFeedsAlike | web/lib/sse.ts:38-51 | Without CR CR LF, every chunking hands out the frames and keeps the buffer of one push. |
| SseText.ChunkingIsInvisibleExactlyWithoutCrCrLf | web/lib/sse.ts:38-60 | The frames handed out and the buffer kept are independent of the chunking if and only if the stream contains no CR CR LF. |
| SseParser.IncrementalSseParser.ParseFrame | web/lib/sse.ts:62-80 | The line loop reads exactly the event and data fields of a frame. |
| SseParser.IncrementalSseParser.Push | web/lib/sse.ts:38-51 | A push hands out the frames of the normalized buffer up to the first throw and keeps the rest. |
| SseParser.IncrementalSseParser.Finish | web/lib/sse.ts:53-60 | Finish parses what is left once; a second call returns nothing. |
| SseFields.FieldForms | web/lib/sse.ts:65-73 | A line is its name, a colon, at most one space and the value; event and data count, comments, empty lines and other names do not. |
| SseFields.LinesOfJoined | web/lib/sse.ts:65-75 | Lines joined by line feeds split back into themselves. |
| SseFields.JoinedLines | web/lib/sse.ts:65-75 | The lines of a text hold no line feed and join back into it. |
| SseFields.DataLinesRead | web/lib/sse.ts:64-75 | All data lines of a frame are kept, in order. |
| SseFields.FramesAreReadExactly | web/lib/sse.ts:74-79 | When a frame is silent, which event it is, and when it throws. |
| SseFields.ThrowLeavesTheTail | web/lib/sse.ts:43-49 | A throw delivers nothing, and takes the frames up to the one that caused it out of the buffer. |
| SseDelivery.ReceiveFollowsFrames | web/lib/sse.ts:38-51 | Pushing chunk by chunk delivers the events of the frames handed out, or a prefix when one throws. |
| SseDelivery.ChunkingDoesNotMatter | web/lib/sse.ts:38-80 | On a clean stream all chunkings throw or none does, and then events and last flush agree. |
| SseDelivery.FrameRoundTrip | backend/src/stock_platform/application/events/sse.py:65-72 | A frame the server encodes parses back to the same event. |
| SseDelivery.KeepaliveIsSilent | backend/src/stock_platform/application/events/sse.py:75-107 | A keepalive comment yields no event. |
| SseDelivery.EncodedStreamArrives | backend/src/stock_platform/application/events/sse.py:65-107 | Everything encoded arrives, in order, through every chunking, with an empty buffer left. |
| SseDelivery.ChunkingChangesEvents | web/lib/sse.ts:38-51 | Two data frames parted by CR CR LF CR CR LF deliver the first event when cut between them and no event in one push. |
| SseDelivery.CutStreamDeliversPrefix | web/lib/sse.ts:38-51 | Up to any cut, no push throws and the events pushed are a prefix. |
| SseCut.CutFrame | web/lib/sse.ts:53-80 | Flushing a cut frame is silent before the word data, throws while the data line is incomplete, and yields the event once it is whole. |
| SseCut.EndedStreamIsExact | web/lib/sse.ts:38-60 | A stream that ends anywhere has delivered exactly its whole frames, and where in the next frame it ends decides the flush. |
| SseCut.EndedStreamDeliversPrefix | web/components/trace/live-run-trace.tsx:54-63 | Pushes and flush together deliver a prefix; the flush throws if and only if the stream ends inside a data line. |
| SseStore.DurableEventStore.AppendEvent | web/lib/sse.ts:97-117 | The checks in order, repeats ignored, collisions refused, both indexes updated together. |
| SseStore.DurableEventStore.SortedEvents | web/lib/sse.ts:119-121 | Lists every stored event once in ascending sequence. |
| SseStore.DurableEventStore.LastEventId | web/lib/sse.ts:123-125 | The id of an event of greatest sequence, or nothing when empty. |
| SseResume.ArrivalsAreHeld | web/lib/sse.ts:97-117 | No arrival of a consistent stream is refused and each is stored once. |
| SseResume.StoreIsOrderIndependent | web/lib/sse.ts:97-125 | The same set of arrivals in any order, with repeats, gives the same store. |
| SseResume.ListingIsUnique | web/lib/sse.ts:119-121 | With distinct sequences the events getter has one possible value. |
| SseResume.CollisionIsMissedExactlyForEmptyIds | web/lib/sse.ts:107-115 | In any store, a new event on a taken sequence is let in if and only if the id stored there is empty, and only then do two stored events share a sequence. |
| SseResume.AppendIsExact | web/lib/sse.ts:97-117 | Each answer of append with its exact condition, and the store it leaves. |
| SseResume.UnknownIdOpensNothing | backend/src/stock_platform/application/events/sse.py:21-62 | Without an id the stream starts at the beginning; an id opens none if and only if the log does not hold it. |
| SseResume.StoreIsAlwaysAPrefix | backend/src/stock_platform/application/events/sse.py:21-62 | Across any disconnects and overlapping reconnects the client's events are a prefix of the server's growing log. |
| Calendar.NextDayAddsOne | web/lib/time.ts:14-32 | The successor date adds exactly one to the day number. |
| Calendar.ClosedFormIsTheCount | web/lib/time.ts:24-32 | The closed form equals the number of single-day steps for every valid date from year 1. |
| Calendar.CountedDays | web/lib/time.ts:18-32 | The n-th counted date is valid and has the day number n minus the offset of the first day. |
| Calendar.EpochIsZero | web/lib/time.ts:24-32 | 1970-01-01 is day zero. |
| Calendar.DayNumbersAreUnique | web/lib/time.ts:24-32 | Two valid dates with one day number are equal. |
| Calendar.DayNumbersAreChronological | web/lib/time.ts:24-32 | Day numbers order dates as year, month and day do, in both directions. |
| Instant.KeyOrderIsChronological | web/lib/time.ts:34-64 | At equal offsets keys order as date, time and nanoseconds do, in both directions. |
| Instant.MovingTheOffsetKeepsTheKey | web/lib/time.ts:56-64 | Moving local time and offset together leaves the key unchanged, across midnights and years. |
| Instant.PaddingTheFractionKeepsTheKey | web/lib/time.ts:34-64 | Padding the fraction with zeros, or adding one of zeros, changes neither acceptance nor the key. |
| Instant.RenderRoundTrip | web/lib/time.ts:34-64 | Every in-range timestamp written out parses back to the same fields. |
| Instant.EveryOffsetNamesTheSameInstant | web/lib/time.ts:34-64 | For every accepted text and offset, the same instant written at that offset has the same key. |
| Instant.OffsetShiftsTheKey | web/lib/time.ts:60-63 | East of Greenwich the key is the UTC reading's less hours and minutes in nanoseconds, west it is plus them. |
| Instant.UtcTextsAreExact | web/lib/time.ts:34-64 | A text in UTC is accepted if and only if its numbers are in range, with the nanoseconds since the epoch as key. |
| Instant.OffsetTextsAreExact | web/lib/time.ts:34-64 | The same for texts with an offset, whose key is shifted by it. |
| Instant.AcceptedTextsHaveTheShape | web/lib/time.ts:35-41 | Nothing but date, time, up to nine fraction digits and a zone is accepted. |
| Instant.MissingZoneIsNamed | web/lib/time.ts:35-37 | The missing time zone is reported exactly for texts that do not end in one. |
| Instant.EpochText | web/lib/time.ts:34-64 | 1970-01-01T00:00:00Z has key zero. |
| Decimals.CompareIsExact | web/lib/decimal.ts:28-37 | The comparison is the sign of the exact difference of the two decimals. |
| Decimals.DecimalTextsAreExact | web/lib/decimal.ts:1-8 | Decimals are exactly an optional sign, digits, and a point with digits, each read as its parts. |
| Decimals.RealIsPlaceValue | web/lib/decimal.ts:3-8 | The value of a decimal text by its digits, fraction and sign. |
| Decimals.FormatRoundTrip | web/lib/decimal.ts:23-25 | Printed text parses back to the signed quotient, with the asked fraction digits and never a negative zero. |
| Decimals.ChangeIsDefinedExactly | web/lib/decimal.ts:10-19 | A change is printed exactly for two decimals, a positive baseline and a non-negative precision. |
| Decimals.ChangeIsRounded | web/lib/decimal.ts:10-26 | The printed value is (current - baseline) / baseline rounded to nearest, ties away from zero, signed only below zero. |
| Decimals.ChangeIsWithinHalfUnit | web/lib/decimal.ts:10-26 | The printed value is within half a unit of the last place. |
| Decimals.ChangeIsMonotone | web/lib/decimal.ts:10-26 | A larger current value never prints a smaller change. |
| Decimals.ChangeSignAgrees | web/lib/decimal.ts:10-37 | The printed sign is the comparison's sign, and it prints zero exactly when the change is below half a unit. |
| Decimals.ChangeIsDecimalExactly | web/lib/decimal.ts:10-26 | A printed change is a Decimal if and only if at least one fraction digit was asked for. |
| Decimals.NormalizeDecimalSeries | web/lib/decimal.ts:39-60 | Fails exactly on a value that is not a Decimal and otherwise gives one height per value. |
| Decimals.SeriesIsOrderPreserving | web/lib/decimal.ts:39-60 | Heights stay within 0 and 10^6, never invert the exact order, and put least values at 0 and greatest at 10^6 unless all are equal. |
| Decimals.SeriesIsProportional | web/lib/decimal.ts:53-59 | Each height is the exact position between least and greatest value, cut to the millionth; equal values are at zero. |
| Performance.ToPerformanceSeries | web/components/portfolio/performance-series.ts:22-36 | The pass with the carried peak computes the series, or the error of the first failing point. |
| Performance.PeakIsMaximum | web/components/portfolio/performance-series.ts:25-27 | The carried peak is one of the values so far and none exceeds it. |
| Performance.SeriesIsDefinedExactly | web/components/portfolio/performance-series.ts:22-36 | The series succeeds if and only if all values are decimals and all but a later last one are positive. |
| Performance.DrawdownsAreFromTheMaximum | web/components/portfolio/performance-series.ts:25-34 | Every drawdown is the rounded change from the true running maximum, never above zero and zero at a maximum. |
| Performance.ReturnsAreFromThePreviousPoint | web/components/portfolio/performance-series.ts:25-34 | Every return after the first is the rounded change from the point before it; value and time are kept. |
| Performance.TextBeforeIs | web/components/portfolio/performance-series.ts:71 | One id is before another if it is the smaller at the first difference or ends there. |
| Performance.SupersedesExactlyTheOlder | web/components/portfolio/performance-series.ts:68-71 | A record supersedes another if and only if it was available later, or together with it and has the greater id. |
| Performance.KeysAreInstants | web/components/portfolio/performance-series.ts:46-47 | The keys compared are the instants that event time and availability name. |
| PerformancePass.CanonicalByEventTime | web/components/portfolio/performance-series.ts:83-101 | The loop keeps, for every earlier event time, the winner among its records, and throws exactly when two records of one time cannot be ranked. |
| PerformancePass.CanonicalMapGrows | web/components/portfolio/performance-series.ts:85-101 | One more record takes its event time's place exactly when the place is empty or it supersedes the holder, and reads availability exactly when the place is taken. |
| PerformancePass.EveryMatchesIs | web/components/portfolio/performance-series.ts:48-56 | Where the short-circuiting comparison does not throw, it says whether every record of that id matches. |
| PerformancePass.MatchThrowsExactly | web/components/portfolio/performance-series.ts:48-54 | The comparison with latestNav throws exactly where it reaches a text it cannot read. |
| PerformancePass.EveryMatchesThrowsExactly | web/components/portfolio/performance-series.ts:55-56 | Over a list it throws exactly when a record throws and all before it match. |
| PerformancePass.ReduceWinnerIs | web/components/portfolio/performance-series.ts:64-72 | The reduce throws exactly on two or more records of which one has an unreadable availability, and otherwise finds the winner. |
| PerformancePass.CheckEligible | web/components/portfolio/performance-series.ts:46-81 | The checks in their order, with the exact condition under which one throws. |
| PerformancePass.ToAuthoritativePerformanceSeries | web/components/portfolio/performance-series.ts:38-112 | For every input, readable or not: throws exactly on what is looked at and cannot be read, and otherwise computes the specified result. |
| PerformancePass.ReadableNeverThrows | web/components/portfolio/performance-series.ts:38-112 | Records with decimal values and readable times never make it throw. |
| PerformanceGuarantees.WinnerIsLatest | web/components/portfolio/performance-series.ts:64-72 | The winner of a bucket is one of its records and none was available later, or together with it under a greater id. |
| PerformanceGuarantees.EligibilityIsOrderIndependent | web/components/portfolio/performance-series.ts:48-81 | Whether the history vouches for latestNav never depends on order or repeats. |
| PerformanceGuarantees.AloneIsEligible | web/components/portfolio/performance-series.ts:48-81 | latestNav alone is a history that vouches for it. |
| PerformanceGuarantees.SeriesIsOrderIndependent | web/components/portfolio/performance-series.ts:38-112 | When event time, availability and id determine a record, the result depends on the set of records alone. |
| PerformanceGuarantees.ReadableSeriesIsOrderIndependent | web/components/portfolio/performance-series.ts:38-112 | On readable records the whole computation, throws included, depends on the set of records alone. |
| PerformanceGuarantees.ThrowingDependsOnOrder | web/components/portfolio/performance-series.ts:48-56 | On unreadable ones whether it throws depends on their order. |
| PerformanceGuarantees.FirstOfEqualRankWins | web/components/portfolio/performance-series.ts:64-101 | Of two different records of equal rank the earlier one wins, so that hypothesis is needed. |
| PerformanceGuarantees.ChartedRecordsAreCanonical | web/components/portfolio/performance-series.ts:83-112 | One record per distinct event time, strictly increasing, each the newest of its time by availability then id, ending in latestNav. |
| PerformanceGuarantees.ChartShowsTheRecords | web/components/portfolio/performance-series.ts:103-112 | Every point shows its charted record, the return from the record before and the drawdown from the highest value so far. |
| PerformanceGuarantees.EligibleExactly | web/components/portfolio/performance-series.ts:48-81 | A history vouches for latestNav if and only if it holds its id, all records of that id agree with it, none is of another portfolio or later, and none of its event time is newer. |
| PerformanceGuarantees.ChartEndsAtLatest | web/components/portfolio/performance-series.ts:106-112 | The last point carries latestNav's value and time, and `latest` is given exactly on success. |
| PerformanceGuarantees.FailsClosed | web/components/portfolio/performance-series.ts:42-45 | Otherwise there is the single latest point, no return, drawdown 0.00000000; it fails only on a value that is no positive Decimal. |
| Backfill.PlanAlpacaBackfill | backend/src/stock_platform/workers/ingestion_tasks.py:199-236 | Accepts exactly ordered, supported, bounded windows; the slices partition the window into chunks. |
| Backfill.InstantInOneSlice | backend/src/stock_platform/workers/ingestion_tasks.py:222-236 | Every instant of the window is in exactly one slice and no other instant in any. |
| Backfill.PlanCount | backend/src/stock_platform/workers/ingestion_tasks.py:222-236 | There are as many slices as chunks in the window, rounded up. |
| Backfill.PlansFitTheDefaultBound | backend/src/stock_platform/workers/ingestion_tasks.py:199-203 | No accepted plan exceeds eighteen slices, and ninety days of minute bars need all of them. |
| Backfill.DefaultBoundNeverRefuses | backend/src/stock_platform/workers/schedules.py:149-183 | A job bound of eighteen or more refuses no accepted plan, and every smaller bound refuses one. |
| Backfill.PlansAreUnique | backend/src/stock_platform/workers/ingestion_tasks.py:222-236 | The partition contract determines the plan. |
| Backfill.WindowsAreAcceptedExactly | backend/src/stock_platform/workers/ingestion_tasks.py:199-222 | Windows are accepted exactly up to 365 days of daily bars or news and 90 days of minute bars; the other answers have their exact conditions. |
| Backfill.SlicesAreChunks | backend/src/stock_platform/workers/ingestion_tasks.py:199-236 | Slice i starts i chunks into the window, of 30 days or 5 for minute bars. |
| Backfill.SchedulesAreRefusedExactly | backend/src/stock_platform/workers/schedules.py:165-183 | A schedule is refused for its job bound, its window or its length, in this order. |
| Backfill.GapFillIsTight | backend/src/stock_platform/workers/ingestion_tasks.py:249-264 | The fill ends at the reconnect, is at most the maximum, and reaches the last event exactly when not truncated. |
| Backfill.GapIsPlannedExactly | backend/src/stock_platform/workers/ingestion_tasks.py:255-264 | A gap is planned if and only if the reconnect is after the last event and the maximum positive. |
| Backfill.GapFillIsOneSlice | backend/src/stock_platform/workers/schedules.py:238-271 | A reconnect gap is always planned as exactly one slice. |
| Backfill.EnqueuedAllIsExact | backend/src/stock_platform/infrastructure/ingestion/job_store.py:63-105 | Queueing keeps active jobs, adds exactly the asked requests, and gives each request one job. |
| Backfill.ReschedulingCreatesNothing | backend/src/stock_platform/infrastructure/ingestion/job_store.py:76-84 | Scheduling the same window while its jobs are unfinished changes nothing. |
| Backfill.JobQueue.EnqueueWithResult | backend/src/stock_platform/infrastructure/ingestion/job_store.py:63-105 | Reuses the unfinished job of an equal request or adds one, and says which. |
| Backfill.JobQueue.ScheduleAlpacaBackfills | backend/src/stock_platform/workers/schedules.py:149-235 | Every refusal by name and without effect; otherwise one job per slice and the ids of the new ones. |
| Paging.JobStaysValid | backend/src/stock_platform/infrastructure/ingestion/job_store.py:107-487 | Every step keeps lease and state in agreement, attempts bounded, and one attempt row per ended attempt. |
| Paging.EveryRunIsValid | backend/src/stock_platform/workers/ingestion_tasks.py:490-668 | Every interleaving of workers, crashes, expiries, retries and cancels keeps the job, cursor, leases and pages consistent. |
| PagingGuarantees.CompletionMeansEveryPage | backend/src/stock_platform/workers/ingestion_tasks.py:563-668 | A completed job has stored every page of the chain, however often it was restarted. |
| PagingGuarantees.EndlessChainNeverCompletes | backend/src/stock_platform/workers/ingestion_tasks.py:650-668 | A chain without a last page never lets the job complete. |
| PagingGuarantees.CursorNeverSkips | backend/src/stock_platform/workers/ingestion_tasks.py:462-487 | A stored cursor at page k names page k, and pages 0 to k-1 are stored. |
| PagingGuarantees.OnlyChainPagesAreStored | backend/src/stock_platform/workers/ingestion_tasks.py:569-590 | Nothing but pages of the chain is ever stored. |
| PagingGuarantees.SupersededLeaseIsInert | backend/src/stock_platform/infrastructure/ingestion/job_store.py:404-412 | Once a later lease was granted, a worker changes neither job nor cursor at any later point. |
| PagingGuarantees.HolderNeverLosesTheCursor | backend/src/stock_platform/infrastructure/ingestion/job_store.py:338-402 | The holder of the lease never loses the compare-and-set. |
| PagingGuarantees.CursorMovesOnePage | backend/src/stock_platform/infrastructure/ingestion/job_store.py:338-402 | The cursor moves only to the next page, only by the lease holder, and only past a stored page. |
| PagingGuarantees.TerminalIsNeverLeft | backend/src/stock_platform/infrastructure/ingestion/job_store.py:414-487 | A terminal job and its cursor are never touched again. |
| PagingGuarantees.AttemptsAreAccountedFor | backend/src/stock_platform/infrastructure/ingestion/job_store.py:270-336 | Leases granted, generation and attempts agree and are bounded; each ended attempt has one row in order; a dead letter exactly when the job died. |
| PagingGuarantees.RestartBeginsAgain | backend/src/stock_platform/workers/ingestion_tasks.py:484-487 | A cursor past the last page makes the next attempt start at the first page. |
| PagingGuarantees.RestartFetchesTheChainAgain | backend/src/stock_platform/workers/ingestion_tasks.py:563-668 | From such a cursor a job completes only after its whole chain of pages has been passed again. |
| PagingProgress.ExpiryEffect | backend/src/stock_platform/infrastructure/ingestion/job_store.py:270-336 | An expired attempt ends as a retry due at once while attempts are left and as a dead letter otherwise, with its row. |
| PagingProgress.RequeueEffect | backend/src/stock_platform/infrastructure/ingestion/job_store.py:252-268 | Exactly a due retry goes back to the queue. |
| PagingProgress.CancelEffect | backend/src/stock_platform/infrastructure/ingestion/job_store.py:234-250 | Exactly waiting jobs are cancelled. |
| PagingProgress.ClaimEffect | backend/src/stock_platform/infrastructure/ingestion/job_store.py:107-146 | Exactly a queued job takes a new worker, under the next generation. |
| PagingProgress.HeldOrExpired | backend/src/stock_platform/infrastructure/ingestion/job_store.py:404-412 | At any time a running job is held by the lease it shows or is due for recovery, never both; no other lease holds it. |
| PagingProgress.LoadEffect | backend/src/stock_platform/workers/ingestion_tasks.py:462-487 | A worker starts from the stored cursor, or from the first page without one. |
| PagingProgress.HolderPassesOnePage | backend/src/stock_platform/workers/ingestion_tasks.py:569-664 | Renewal, storing and advance take the holder of the lease past exactly one page. |
| PagingProgress.HolderCompletes | backend/src/stock_platform/workers/ingestion_tasks.py:665-668 | Past the last page the holder completes the job, with or without gaps as asked. |
| PagingProgress.HolderGivesUp | backend/src/stock_platform/infrastructure/ingestion/job_store.py:414-487 | A holder that gives up ends the attempt as asked, a retry without attempts left as a dead letter. |
| PagingStore.IngestionStore.ClaimJob | backend/src/stock_platform/infrastructure/ingestion/job_store.py:107-146 | Grants a lease of the next generation exactly to a queued job with attempts left. |
| PagingStore.IngestionStore.Renew | backend/src/stock_platform/infrastructure/ingestion/job_store.py:148-167 | A renewed lease is held until leaseFor from now and no longer, by no other worker; a lost one stays lost at every later time; only the expiry changes. |
| PagingStore.IngestionStore.FinishAttempt | backend/src/stock_platform/infrastructure/ingestion/job_store.py:414-487 | Ends the attempt under a held lease with its row, a retry without attempts left as a dead letter; otherwise nothing changes. |
| PagingStore.IngestionStore.Advance | backend/src/stock_platform/infrastructure/ingestion/job_store.py:338-402 | Insert-if-absent at generation 0, compare-and-set otherwise, both only under the lease. |
| PagingStore.IngestionStore.ProcessPage | backend/src/stock_platform/workers/ingestion_tasks.py:569-661 | Per fault the state, retry time and attempt row it leaves, with cursor and pages untouched; without one the page is stored under a renewed lease before the cursor passes it. |
| PagingStore.IngestionStore.PassPages | backend/src/stock_platform/workers/ingestion_tasks.py:569-664 | The loop terminates on a finite chain, passes page after page up to the first fault or the end, and stores exactly those. |
| PagingStore.IngestionStore.Execute | backend/src/stock_platform/workers/ingestion_tasks.py:490-668 | It reports success exactly when it completes the job, then with every page stored; under a clock that stands still it ends at the first fault, in that fault's way, or completes with or without gaps as asked. |
| Outbox.EveryRunIsValid | backend/migrations/versions/0025_ingestion_foundation.py:431-436 | CLAIMED is exactly having token and expiry, generation counts the claims, and the newest dispatcher holds the lease. |
| Outbox.EveryHistoryIsValid | backend/migrations/versions/0025_ingestion_foundation.py:396-442 | The same for every history of a new row, whatever record is already under its key. |
| OutboxEffects.DueIsWaiting | backend/src/stock_platform/workers/ingestion_tasks.py:1807-1818 | A row is due exactly when it waits and its time has come or its lease has run out; a live claim, a published and a failed row never are. |
| OutboxEffects.ClaimedIsLeased | backend/migrations/versions/0025_ingestion_foundation.py:431-436 | In every history being CLAIMED, having a token and having an expiry are one and the same. |
| OutboxEffects.ClaimEffect | backend/src/stock_platform/workers/ingestion_tasks.py:1826-1849 | A claim takes exactly the due rows, for one attempt and one generation more under a new lease. |
| OutboxEffects.SettlementEffect | backend/src/stock_platform/workers/ingestion_tasks.py:1855-1891 | The newest dispatcher of a claimed row marks it published or puts it back for the retry time. |
| OutboxEffects.DefaultDeliveryEffect | backend/src/stock_platform/workers/ingestion_tasks.py:1526-1578 | On the default path an open row with a free key gets its record; an equal record is left, a different one rejected, a failed row refused. |
| OutboxEffects.MarketDataDeliveryEffect | backend/src/stock_platform/workers/ingestion_tasks.py:1653-1697 | On the market-data path record and state are written together unless the row is claimed; each other ending leaves the row. |
| OutboxEffects.FailureEffect | backend/src/stock_platform/workers/ingestion_tasks.py:1711-1760 | A recorded failure ends the row when terminal or after the fifth attempt and otherwise puts it back, clearing the lease. |
| OutboxGuarantees.DispatcherActsExactlyUnderItsLease | backend/src/stock_platform/workers/ingestion_tasks.py:1851-1893 | A dispatcher changes the row if and only if it still holds the newest lease. |
| OutboxGuarantees.SupersededDispatcherIsInert | backend/src/stock_platform/workers/ingestion_tasks.py:1851-1893 | Once a later claim exists, an older dispatcher never changes the row at any later point. |
| OutboxGuarantees.GenerationMovesOnlyByClaims | backend/src/stock_platform/workers/ingestion_tasks.py:1826-1840 | The generation rises by one exactly at a claim of a due row and never otherwise. |
| OutboxGuarantees.RecordIsImmutable | backend/src/stock_platform/workers/ingestion_tasks.py:1538-1578 | A normalized record never changes; one that appears is the row's own payload. |
| OutboxGuarantees.InsertedOnce | backend/src/stock_platform/workers/ingestion_tasks.py:1538-1551 | At most one delivery ever reports that it inserted the record. |
| OutboxGuarantees.RedeliveryIsIdempotent | backend/src/stock_platform/workers/ingestion_tasks.py:1538-1578 | Delivering again after the record is there changes nothing on the default path. |
| OutboxGuarantees.FailedIsLeftOnlyByMarketData | backend/src/stock_platform/workers/ingestion_tasks.py:1689-1697 | FAILED is left if and only if a market-data task writes its record, and then for DISPATCHED. |
| OutboxGuarantees.FailedIsFinalByDefault | backend/src/stock_platform/workers/ingestion_tasks.py:1528-1537 | On the default path a FAILED row and its record never move again. |
| OutboxGuarantees.BudgetIsSpentBeforeFailing | backend/src/stock_platform/workers/ingestion_tasks.py:1714-1741 | A row fails only on a terminal error, which leaves a rejection, or after five claims. |
| OutboxGuarantees.MarketDataCommitsExactlyOutsideClaims | backend/src/stock_platform/workers/ingestion_tasks.py:1689-1697 | The market-data write commits if and only if content and record agree and the row is not CLAIMED; otherwise nothing changes. |
| OutboxGuarantees.FastWorkerUndoesItsDispatcher | backend/src/stock_platform/workers/ingestion_tasks.py:1851-1893 | A worker faster than its dispatcher loses its write and puts the published row back to PENDING. |
| OutboxGuarantees.TwoRejectionsBlockTerminalFailure | backend/src/stock_platform/workers/ingestion_tasks.py:1743-1760 | With two rejections filed, recording a terminal failure raises for ever after. |
| OutboxGuarantees.TwoConflictsAreReachable | backend/src/stock_platform/workers/ingestion_tasks.py:1565-1577 | Two overlapping deliveries reach that state from a new row. |
| OutboxGuarantees.FirstTerminalFailureIsRecorded | backend/src/stock_platform/workers/ingestion_tasks.py:1714-1760 | A terminal failure ends in FAILED with exactly one rejection if and only if the row was open with at most one. |
| OutboxStore.OutboxTable.SelectDue | backend/src/stock_platform/workers/ingestion_tasks.py:1803-1825 | Distinct due rows, those due longest first, as many as the limit allows. |
| OutboxStore.OutboxTable.ClaimDue | backend/src/stock_platform/workers/ingestion_tasks.py:1803-1849 | One lease of the next generation per selected row and no other change. |
| OutboxStore.OutboxTable.SettleClaim | backend/src/stock_platform/workers/ingestion_tasks.py:1851-1893 | DISPATCHED or PENDING by the broker's answer, only under the lease. |
| OutboxStore.OutboxTable.DispatchPending | backend/src/stock_platform/workers/ingestion_tasks.py:1790-1893 | A whole pass settles exactly the selected rows and returns the number published. |
| OutboxStore.PublishedCountIsTheNumberTaken | backend/src/stock_platform/workers/ingestion_tasks.py:1851-1893 | The number returned counts the claimed rows the broker took, each once. |
| OutboxStore.OutboxTable.NormalizeRecord | backend/src/stock_platform/workers/ingestion_tasks.py:1526-1578 | The default path's transaction with its four endings. |
| OutboxStore.OutboxTable.NormalizeMarketData | backend/src/stock_platform/workers/ingestion_tasks.py:1653-1697 | The market-data transaction, undone whole when the row still carries a lease. |
| OutboxStore.OutboxTable.RecordNormalizationFailure | backend/src/stock_platform/workers/ingestion_tasks.py:1700-1760 | The state written, the rejection filed at most once, or a raise without effect. |
| OutboxStore.OutboxTable.RunNormalizationTask | backend/src/stock_platform/workers/ingestion_tasks.py:1763-1787 | A delivery touches one row: the attempt's own effect, and on failure the state, retry time and rejection recorded; it raises only on a FAILED row or more than one rejection. |
| Revisions.EveryHistoryIsValid | backend/migrations/versions/0034_corp_action_guards.py:33-62 | For every insert history each identity holds one chain in insertion order with strictly increasing availability. |
| Revisions.HeadIsChainEnd | backend/migrations/versions/0034_corp_action_guards.py:40-45 | The row the guard compares with is the end of the chain. |
| Revisions.AcceptedExactlyAtTheEnd | backend/migrations/versions/0034_corp_action_guards.py:46-56 | A version is accepted if and only if it continues its own chain with a new id. |
| Revisions.RefusalsAreExact | backend/migrations/versions/0034_corp_action_guards.py:46-56 | Each refusal of a version with its exact condition. |
| Revisions.NoForkNoCrossing | backend/migrations/versions/0034_corp_action_guards.py:46-56 | A superseded version has the same identity, is older, and is superseded once only. |
| Revisions.CurrentVersionIsUnique | backend/migrations/versions/0034_corp_action_guards.py:33-62 | At any time the current version of an identity is exactly the last of its chain available by then. |
| Revisions.PastStaysAsItWas | backend/migrations/versions/0034_corp_action_guards.py:50-52 | A new version changes nothing that was current before it became available. |
| RevisionStore.ActionTable.LatestVersion | backend/migrations/versions/0034_corp_action_guards.py:40-45 | The scan returns the newest version of the identity. |
| RevisionStore.ActionTable.InsertVersion | backend/migrations/versions/0033_ingestion_quality.py:189-224 | A row is appended or refused whole, each refusal by name, and the chains stay valid. |
| RevisionReader.Visible | backend/src/stock_platform/application/portfolio/corporate_actions.py:165-192 | Per identity, the eligible version that no eligible version follows. |
| RevisionReader.ShownIsUnique | backend/src/stock_platform/application/portfolio/corporate_actions.py:188-192 | At most one version of an identity can be shown. |
| RevisionReader.ShownIsCurrentExactly | backend/src/stock_platform/application/portfolio/corporate_actions.py:165-192 | The version shown is the current one if and only if the current one is about the symbol and in effect. |
| RevisionReader.CorrectionToAnotherSymbolKeepsTheOld | backend/src/stock_platform/application/portfolio/corporate_actions.py:165-192 | A correction to another symbol leaves the superseded version on show. |
| RevisionReader.SupersedesChain | backend/src/stock_platform/application/portfolio/corporate_actions.py:179-186 | The walk with its visited set computes the reachable ids and terminates on any rows. |
| RevisionReader.AncestorsAreTheChain | backend/src/stock_platform/application/portfolio/corporate_actions.py:179-186 | On a guarded table that set is exactly the ids of the chain before the version, and never its own. |

## Left out

- PaperGuarantees.ExecutionStaysWithinRisk: bounds histories whose order updates fit their fills, the exact condition of `PaperGuarantees.HistoryIsValidExactly`; what the other histories keep is conservation and redelivery.
- SseCut.EndedStreamDeliversPrefix: assumes that no proper prefix of an event's JSON text decodes, as for the objects the server sends.
- PerformancePass.ToAuthoritativePerformanceSeries: the different errors for unreadable timestamps and values are one error.
- PerformanceGuarantees.SeriesIsOrderIndependent: needs records determined by event time, availability and id; without that the first record of equal rank wins.
- PagingStore.IngestionStore.Execute: one worker without interference on a finite chain of pages; interference is covered by the interleaving model.
- OutboxStore.OutboxTable.DispatchPending: one pass without interference; interference is covered by the interleaving model, where selection by due time and limit is not modelled.
- Outbox.EveryRunIsValid: no bound on the attempt count and no eventual normalization is claimed; failed publications are claimed again without limit and a lost message leaves a row DISPATCHED.
- SseResume.ListingIsUnique: equal sequences, which the store refuses for non-empty ids, would be listed in insertion order by the original; the model leaves that order open.
- Decimals.NormalizeDecimalSeries: stops at the scaled integer; the conversion to floating point is left out.
- The watermark of the page cursor, which is the constant end of the job's window.
- The entitlement and provider checks before the first page, which only fail the job.
- Facts written with a normalized record (bars, news, quality) and the decoding of archived content; a task's content is readable, unreadable or unavailable.
- The record_events path of execute_run, which its workers do not use, and the emission of lifecycle names through RunControl.
- FIXTURE and LEGACY_BACKFILL risk rows beyond what the constraint says of them, and updates to intents.
- Numeric division is exact; rounding by PostgreSQL is not modelled.
- Ordering by created_at among rows of different runs, symbols or jobs.
- UUIDs, hashes, JSON, base64, time-zone tables, locales and string order beyond code units; identifiers are opaque values and local cutoffs increase with the day.
- Python's datetime range: instants are unbounded integers.
- The value constraint of corporate actions and the processor that applies them to positions.
- Page rendering, HTTP routes other than cancel, process supervision, retention, circuit breakers and plain response validators.
