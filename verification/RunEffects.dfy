/** What each transaction leaves behind, column by column, and when it leaves everything as it was. */
module RunEffects {
  import opened Wrappers
  import opened RunLedger
  import opened RunTable

  /* ---------- one run ---------- */

  // The log grows by one row, numbered next.
  ghost predicate Logged(before: Ledger, after: Ledger, body: EventBody) {
    after.events == before.events + [EventRow(|before.events| + 1, body)]
  }

  lemma AppendLogs(l: Ledger, run: Run, commits: seq<nat>, body: EventBody)
    requires Valid(l)
    ensures Logged(l, Append(Ledger(run, l.events, commits), body), body)
  {
    SequencedMax(l.events);
  }

  // A queued run is always claimed, for its next attempt and fifteen minutes.
  lemma ClaimEffect(l: Ledger, now: int)
    requires Valid(l)
    ensures var after := Apply(l, ClaimStep(now));
            if l.run.status == Queued then
              && after.run == Run(Running, l.run.attempts + 1, l.run.maxAttempts, Some(now + 900_000_000))
              && Logged(l, after, RunStarted(l.run.attempts + 1)) && after.commits == l.commits
            else after == l
  {
    SequencedMax(l.events);
  }

  // Whatever the row says otherwise, no attempt is claimed beyond the limit.
  lemma ClaimNeedsAnAttempt(l: Ledger, now: int)
    requires l.run.attempts >= l.run.maxAttempts
    ensures Apply(l, ClaimStep(now)) == l
  {
  }

  // An event is written, under its name, exactly while its attempt holds the run.
  lemma EmitEffect(l: Ledger, attempt: nat, name: string)
    requires Valid(l)
    ensures var after := Apply(l, EmitStep(attempt, name));
            if l.run.status == Running && l.run.attempts == attempt then
              after.run == l.run && after.commits == l.commits && Logged(l, after, Emitted(name, attempt))
            else after == l
  {
    SequencedMax(l.events);
  }

  lemma CompleteEffect(l: Ledger, attempt: nat)
    requires Valid(l)
    ensures var after := Apply(l, CompleteStep(attempt));
            if l.run.status == Running && l.run.attempts == attempt then
              && after.run == Run(Completed, attempt, l.run.maxAttempts, None)
              && after.commits == [attempt] && Logged(l, after, RunCompleted)
            else after == l
  {
    SequencedMax(l.events);
    assert [] + [attempt] == [attempt];
  }

  // A held attempt that fails goes back to the queue exactly when the error is retryable and an attempt is left;
  // either way the lease is cleared, the attempts stand, and one row says which.
  lemma FailureEffect(l: Ledger, attempt: nat, retryable: bool)
    requires Valid(l)
    ensures var after := Apply(l, FailStep(attempt, retryable));
            if l.run.status == Running && l.run.attempts == attempt then
              && (after.run.status == Queued <==> retryable && attempt < l.run.maxAttempts)
              && (after.run.status == Failed <==> !retryable || attempt >= l.run.maxAttempts)
              && after.run.lease == None && after.run.attempts == attempt && after.run.maxAttempts == l.run.maxAttempts
              && after.commits == l.commits
              && Logged(l, after, if after.run.status == Queued then RetryScheduled(attempt) else RunFailed)
            else after == l
  {
    SequencedMax(l.events);
  }

  // A lease that has run out, by its last instant included, ends the attempt: silently into the queue while an
  // attempt is left, with a row into FAILED otherwise.
  lemma RecoveryEffect(l: Ledger, now: int)
    requires Valid(l)
    ensures var after := Apply(l, RecoverStep(now));
            if l.run.status == Running && l.run.lease.value <= now then
              && after.run.lease == None && after.run.attempts == l.run.attempts && after.commits == l.commits
              && after.run.maxAttempts == l.run.maxAttempts
              && (l.run.attempts < l.run.maxAttempts ==> after.run.status == Queued && after.events == l.events)
              && (l.run.attempts == l.run.maxAttempts ==> after.run.status == Failed && Logged(l, after, RunFailed))
            else after == l
  {
    SequencedMax(l.events);
  }

  // The operator requeues exactly the failed runs with an attempt left.
  lemma RequeueEffect(l: Ledger)
    requires Valid(l)
    ensures var after := Apply(l, RequeueStep);
            if l.run.status == Failed && l.run.attempts < l.run.maxAttempts then
              && after.run == Run(Queued, l.run.attempts, l.run.maxAttempts, None) && after.commits == l.commits
              && Logged(l, after, OperatorRetryQueued(l.run.attempts))
            else after == l
  {
    SequencedMax(l.events);
  }

  // Every active run can be cancelled, and no other.
  lemma CancelEffect(l: Ledger)
    requires Valid(l)
    ensures var after := Apply(l, CancelStep);
            if l.run.status == Queued || l.run.status == Running then
              && after.run == Run(Cancelled, l.run.attempts, l.run.maxAttempts, l.run.lease) && after.commits == l.commits
              && Logged(l, after, RunCancelled)
            else after == l
  {
    SequencedMax(l.events);
  }

  // Audits and the links between a failed run and its replacement touch the log only.
  lemma NoteEffect(l: Ledger, step: Step)
    requires Valid(l)
    requires step.AuditStep? || step.ReplacementQueuedStep? || step.ReplacesFailedStep?
    ensures var after := Apply(l, step);
            && after.run == l.run && after.commits == l.commits
            && Logged(l, after, match step
                                case AuditStep(outcome) => ToolAudited(outcome)
                                case ReplacementQueuedStep(id) => ReplacementQueued(id)
                                case _ => ReplacesFailed(step.failedId))
  {
    SequencedMax(l.events);
  }

  /* ---------- admission ---------- */

  // A request is admitted exactly under a free key and id, below the cap, with data no later than the decision;
  // the first of these that fails is the answer.
  lemma AdmissionIsExact(t: Table, newId: RunId, cap: int, req: Request, policies: map<string, string>)
    requires TableValid(t)
    ensures var (after, admission) := Admit(t, newId, cap, req, policies);
            var bound := exists id :: id in t && t[id].identity.key == req.key;
            var active := set id | id in t && (t[id].ledger.run.status == Queued || t[id].ledger.run.status == Running);
            && (admission == Ok(Admitted(newId, false)) <==>
                  !bound && |active| < cap && req.dataCutoff <= req.decisionTime && newId !in t)
            && (admission == Err(RunAdmissionLimit) <==> !bound && |active| >= cap)
            && (admission == Err(CutoffAfterDecision) <==> !bound && |active| < cap && req.dataCutoff > req.decisionTime)
            && (admission == Err(IdempotencyConflict) <==>
                  exists id :: id in t && t[id].identity.key == req.key && t[id].identity.payload != req.payload)
            && (forall id :: admission == Ok(Admitted(id, true)) <==>
                  id in t && t[id].identity.key == req.key && t[id].identity.payload == req.payload)
            && (admission != Ok(Admitted(newId, false)) ==> after == t)
  {
    hide LedgersValid, ChainsValid;
    assert ActiveIds(t) == set id | id in t && (t[id].ledger.run.status == Queued || t[id].ledger.run.status == Running);
  }

  // An admitted run is the request: its columns, no history, and the first of three attempts.
  lemma AdmittedRunIsTheRequest(t: Table, newId: RunId, cap: int, req: Request, policies: map<string, string>)
    requires Admit(t, newId, cap, req, policies).1 == Ok(Admitted(newId, false))
    ensures var after := Admit(t, newId, cap, req, policies).0;
            && newId in after && (forall id :: id in t ==> id in after && after[id] == t[id]) && |after| == |t| + 1
            && var r := after[newId];
            && r.identity.runType == req.runType && r.identity.key == req.key && r.identity.payload == req.payload
            && r.identity.symbol == req.symbol && r.identity.correlation == req.correlation
            && r.identity.decisionTime == req.decisionTime && r.identity.dataCutoff == req.dataCutoff
            && r.ledger == Ledger(Run(Queued, 0, 3, None), [], [])
  {
    var after := Admit(t, newId, cap, req, policies).0;
    assert after.Keys == t.Keys + {newId};
  }

  // Explicit pins are kept as given; otherwise each policy kind fills its own pin, the active version if there is
  // one and the built-in one if not, and prompt and model follow the run type.
  lemma AdmittedPins(t: Table, newId: RunId, cap: int, req: Request, policies: map<string, string>)
    requires Admit(t, newId, cap, req, policies).1 == Ok(Admitted(newId, false))
    ensures var pins := Admit(t, newId, cap, req, policies).0[newId].identity.pins;
            && (req.pins.Some? ==> pins == req.pins.value)
            && (req.pins.None? ==>
                  && ("RESEARCH_SCORING" in policies ==> pins.researchScoring == policies["RESEARCH_SCORING"])
                  && ("RISK" in policies ==> pins.risk == policies["RISK"])
                  && ("EXECUTION" in policies ==> pins.execution == policies["EXECUTION"])
                  && ("CONFIDENCE" in policies ==> pins.confidence == policies["CONFIDENCE"])
                  && ("RESEARCH_SCORING" !in policies ==> pins.researchScoring == "research-v1")
                  && ("RISK" !in policies ==> pins.risk == "risk-v1")
                  && ("EXECUTION" !in policies ==> pins.execution == "execution-v1")
                  && ("CONFIDENCE" !in policies ==> pins.confidence == "confidence-v1")
                  && (req.runType == Research ==> pins.prompt == "prompt-v1" && pins.model == "fixture-v1")
                  && (req.runType == Portfolio ==>
                        pins.prompt == "portfolio-prompt-v1" && pins.model == "fixture-proposer-v1")
                  && (req.runType == AlertMonitor ==> pins.prompt == "deterministic-alert-v1" && pins.model == "none")
                  && (req.runType == WeeklyReview ==>
                        pins.prompt == "weekly-review-prompt-v1" && pins.model == "model-v1"))
  {
  }

  /* ---------- replacement ---------- */

  // What a request for the replacement of a run asks for: the run's inputs and pins, under a key of its own.
  lemma ReplacementAsksForTheSame(id: RunId, source: Identity)
    ensures var req := ReplacementRequest(id, source);
            && req.key == "replacement:" + id && req.payload == Payload(source.payload.body, Some(id))
            && req.runType == source.runType && req.symbol == source.symbol && req.pins == Some(source.pins)
            && req.decisionTime == source.decisionTime && req.dataCutoff == source.dataCutoff
            && req.correlation == source.correlation
  {
  }

  // Only an exhausted failed run is replaced; the answer is that of its admission, so a second request replays the
  // first replacement.
  lemma ReplacementAnswer(t: Table, newId: RunId, cap: int, id: RunId)
    ensures var (after, admission) := Replace(t, newId, cap, id);
            if id in t && t[id].ledger.run.status == Failed && t[id].ledger.run.attempts >= t[id].ledger.run.maxAttempts then
              && admission == Some(Admit(t, newId, cap, ReplacementRequest(id, t[id].identity), map[]).1)
              && (admission.value.Err? || admission.value.value.replayed ==> after == t)
            else admission == None && after == t
  {
    hide Admit, ReplacementRequest;
  }

  // The admitted replacement is linked: each of the two runs logs the other, and no third run is touched.
  lemma ReplacementLinks(t: Table, newId: RunId, cap: int, id: RunId)
    requires TableValid(t) && Replace(t, newId, cap, id).1 == Some(Ok(Admitted(newId, false)))
    ensures id in t && newId !in t
    ensures var after := Replace(t, newId, cap, id).0;
            var admitted := Admit(t, newId, cap, ReplacementRequest(id, t[id].identity), map[]).0;
            && newId in after && id in after && newId in admitted
            && (forall other :: other in t && other != id ==> other in after && after[other] == t[other])
            && after[id].identity == t[id].identity && after[newId].identity == admitted[newId].identity
            && Logged(t[id].ledger, after[id].ledger, ReplacementQueued(newId))
            && after[id].ledger.run == t[id].ledger.run
            && after[newId].ledger == Ledger(Run(Queued, 0, 3, None), [EventRow(1, ReplacesFailed(id))], [])
  {
    hide TableValid, ReplacementRequest, Admit, Logged;
    var req := ReplacementRequest(id, t[id].identity);
    var admitted := Admit(t, newId, cap, req, map[]).0;
    ReplacementAnswer(t, newId, cap, id);
    AdmittedUnderANewId(t, newId, cap, req, map[]);
    AdmittedRunIsTheRequest(t, newId, cap, req, map[]);
    SourceIsValid(t, id);
    AppendLogs(t[id].ledger, t[id].ledger.run, t[id].ledger.commits, ReplacementQueued(newId));
    FirstRow(ReplacesFailed(id));
  }

  lemma AdmittedUnderANewId(t: Table, newId: RunId, cap: int, req: Request, policies: map<string, string>)
    requires Admit(t, newId, cap, req, policies).1 == Ok(Admitted(newId, false))
    ensures newId !in t
  {
  }

  lemma SourceIsValid(t: Table, id: RunId)
    requires TableValid(t) && id in t
    ensures Valid(t[id].ledger)
  {
    hide Valid, KeysUnique, ChainsValid;
  }

  lemma FirstRow(body: EventBody)
    ensures Append(Ledger(Run(Queued, 0, 3, None), [], []), body) ==
            Ledger(Run(Queued, 0, 3, None), [EventRow(1, body)], [])
  {
    assert [] + [EventRow(1, body)] == [EventRow(1, body)];
  }

  // The replacement copies every input and pin.
  lemma ReplacementCopiesTheRun(t: Table, newId: RunId, cap: int, id: RunId)
    requires TableValid(t) && Replace(t, newId, cap, id).1 == Some(Ok(Admitted(newId, false)))
    ensures id in t && newId in Replace(t, newId, cap, id).0
    ensures var (source, next) := (t[id].identity, Replace(t, newId, cap, id).0[newId].identity);
            && next.key == "replacement:" + id && next.payload == Payload(source.payload.body, Some(id))
            && next.runType == source.runType && next.symbol == source.symbol && next.pins == source.pins
            && next.decisionTime == source.decisionTime && next.dataCutoff == source.dataCutoff
            && next.correlation == source.correlation
  {
    hide TableValid, Admit, ReplacementRequest, Replace, Logged;
    ReplacementAnswer(t, newId, cap, id);
    ReplacementLinks(t, newId, cap, id);
    var req := ReplacementRequest(id, t[id].identity);
    ReplacementAsksForTheSame(id, t[id].identity);
    AdmittedRunIsTheRequest(t, newId, cap, req, map[]);
    AdmittedPins(t, newId, cap, req, map[]);
  }
}
