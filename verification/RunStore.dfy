/** The imperative half: methods that update agent_run rows and append agent_event rows. */
module RunStore {
  import opened Wrappers
  import opened RunLedger
  import opened RunTable

  datatype ClaimError = RunNotFound | TypeMismatch

  datatype EmitOutcome = EventAppended | RunWasCancelled | LeaseLost

  datatype FailureOutcome = FoundCancelled | FoundLeaseLost | MarkedQueued | MarkedFailed

  function MarkedLost(r: Record): Record {
    r.(ledger := Append(r.ledger.(run := r.ledger.run.(status := Failed, lease := None)), RunFailed))
  }

  class Store {
    var runs: Table

    constructor ()
      ensures runs == map[]
    {
      runs := map[];
    }

    method AppendRunEvent(id: RunId, body: EventBody)
      requires id in runs
      modifies this
      ensures runs == old(runs)[id := old(runs)[id].(ledger := Append(old(runs)[id].ledger, body))]
    {
      var l := runs[id].ledger;
      var latest := 0;
      var i := 0;
      while i < |l.events|
        invariant i <= |l.events|
        invariant latest == MaxSequence(l.events[..i])
      {
        if l.events[i].sequence > latest {
          latest := l.events[i].sequence;
        }
        assert Front(l.events[..i + 1]) == l.events[..i];
        i := i + 1;
      }
      assert l.events[..i] == l.events;
      runs := runs[id := runs[id].(ledger := l.(events := l.events + [EventRow(latest + 1, body)]))];
    }

    method SetRun(id: RunId, run: Run)
      requires id in runs
      modifies this
      ensures runs == old(runs)[id := old(runs)[id].(ledger := old(runs)[id].ledger.(run := run))]
    {
      runs := runs[id := runs[id].(ledger := runs[id].ledger.(run := run))];
    }

    method FindByKey(key: string) returns (found: Option<RunId>)
      requires KeysUnique(runs)
      ensures found == Lookup(runs, key)
    {
      found := None;
      var rest := runs.Keys;
      while rest != {}
        invariant rest <= runs.Keys
        invariant found.None?
        invariant forall id :: id in runs && id !in rest ==> runs[id].identity.key != key
      {
        var id :| id in rest;
        if runs[id].identity.key == key {
          return Some(id);
        }
        rest := rest - {id};
      }
    }

    method AdmitRun(newId: RunId, maxActiveRuns: int, req: Request, policies: map<string, string>)
      returns (admission: Admission)
      requires KeysUnique(runs)
      modifies this
      ensures runs == Admit(old(runs), newId, maxActiveRuns, req, policies).0
      ensures admission == Admit(old(runs), newId, maxActiveRuns, req, policies).1
    {
      var existing := FindByKey(req.key);
      if existing.Some? {
        if runs[existing.value].identity.payload != req.payload {
          return Err(IdempotencyConflict);
        }
        return Ok(Admitted(existing.value, true));
      }
      var active := |set id | id in runs && runs[id].ledger.run.status in {Queued, Running}|;
      assert (set id | id in runs && runs[id].ledger.run.status in {Queued, Running}) == ActiveIds(runs);
      if active >= maxActiveRuns {
        return Err(RunAdmissionLimit);
      }
      if req.dataCutoff > req.decisionTime {
        return Err(CutoffAfterDecision);
      }
      if newId in runs {
        return Err(DuplicateId);
      }
      runs := runs[newId := NewRecord(runs, req, policies)];
      return Ok(Admitted(newId, false));
    }

    method ClaimRun(id: RunId, expectedType: RunType, now: int) returns (claim: Result<Option<nat>, ClaimError>)
      modifies this
      ensures id !in old(runs) ==> claim == Err(RunNotFound)
      ensures id in old(runs) && old(runs)[id].identity.runType != expectedType ==> claim == Err(TypeMismatch)
      ensures claim.Err? ==> runs == old(runs)
      ensures claim.Ok? ==>
                && runs == OnLedger(old(runs), id, ClaimStep(now))
                && claim.value == var run := old(runs)[id].ledger.run;
                                  if run.status == Queued && run.attempts < run.maxAttempts then Some(run.attempts + 1)
                                  else None
    {
      if id !in runs {
        return Err(RunNotFound);
      }
      if runs[id].identity.runType != expectedType {
        return Err(TypeMismatch);
      }
      var run := runs[id].ledger.run;
      if run.status != Queued || run.attempts >= run.maxAttempts {
        assert runs == runs[id := runs[id]];
        return Ok(None);
      }
      SetRun(id, run.(status := Running, attempts := run.attempts + 1, lease := Some(now + LEASE_DURATION)));
      AppendRunEvent(id, RunStarted(run.attempts + 1));
      return Ok(Some(run.attempts + 1));
    }

    // Work and the conditional COMPLETED update are one transaction: on refusal nothing of
    // either is kept.
    method CompleteRun(id: RunId, attempt: nat) returns (completed: bool)
      requires id in runs
      modifies this
      ensures runs == OnLedger(old(runs), id, CompleteStep(attempt))
      ensures completed <==> old(runs)[id].ledger.run.status == Running && old(runs)[id].ledger.run.attempts == attempt
    {
      var l := runs[id].ledger;
      if l.run.status != Running || l.run.attempts != attempt {
        assert runs == runs[id := runs[id]];
        return false;
      }
      runs := runs[id := runs[id].(ledger := l.(commits := l.commits + [attempt]))];
      SetRun(id, l.run.(status := Completed, lease := None));
      AppendRunEvent(id, RunCompleted);
      return true;
    }

    method FinishFailedRun(id: RunId, attempt: nat, retryable: bool) returns (outcome: FailureOutcome)
      requires id in runs
      modifies this
      ensures runs == OnLedger(old(runs), id, FailStep(attempt, retryable))
      ensures var run := old(runs)[id].ledger.run;
              outcome == if run.status == Cancelled then FoundCancelled
                         else if run.status != Running || run.attempts != attempt then FoundLeaseLost
                         else if retryable && attempt < run.maxAttempts then MarkedQueued
                         else MarkedFailed
      ensures outcome in {MarkedQueued, MarkedFailed} ==>
                var (before, after) := (old(runs)[id].ledger, runs[id].ledger);
                && after.run == before.run.(status := if outcome == MarkedQueued then Queued else Failed, lease := None)
                && after.commits == before.commits && |after.events| == |before.events| + 1
                && Last(after.events).body == if outcome == MarkedQueued then RetryScheduled(attempt) else RunFailed
      ensures outcome in {FoundCancelled, FoundLeaseLost} ==> runs == old(runs)
    {
      var run := runs[id].ledger.run;
      if run.status == Cancelled {
        assert runs == runs[id := runs[id]];
        return FoundCancelled;
      }
      if run.status != Running || run.attempts != attempt {
        assert runs == runs[id := runs[id]];
        return FoundLeaseLost;
      }
      var exhausted := run.attempts >= run.maxAttempts;
      var status := if retryable && !exhausted then Queued else Failed;
      SetRun(id, run.(status := status, lease := None));
      AppendRunEvent(id, if status == Queued then RetryScheduled(run.attempts) else RunFailed);
      outcome := if status == Queued then MarkedQueued else MarkedFailed;
    }

    method CancelRun(id: RunId) returns (cancelled: bool)
      modifies this
      ensures id !in old(runs) ==> !cancelled && runs == old(runs)
      ensures id in old(runs) ==>
                && runs == OnLedger(old(runs), id, CancelStep)
                && (cancelled <==> old(runs)[id].ledger.run.status in {Queued, Running})
    {
      if id !in runs || !(runs[id].ledger.run.status in {Queued, Running}) {
        assert id in runs ==> runs == runs[id := runs[id]];
        return false;
      }
      SetRun(id, runs[id].ledger.run.(status := Cancelled));
      AppendRunEvent(id, RunCancelled);
      return true;
    }

    method FailWithoutWorker(lost: set<RunId>)
      requires lost <= runs.Keys
      modifies this
      ensures runs == map id | id in old(runs) :: if id in lost then MarkedLost(old(runs)[id]) else old(runs)[id]
    {
      var rest := lost;
      ghost var start := runs;
      while rest != {}
        invariant rest <= lost
        invariant runs.Keys == start.Keys
        invariant forall id :: id in start ==>
                    runs[id] == if id in lost && id !in rest then MarkedLost(start[id]) else start[id]
      {
        var id :| id in rest;
        SetRun(id, runs[id].ledger.run.(status := Failed, lease := None));
        AppendRunEvent(id, RunFailed);
        rest := rest - {id};
      }
    }

    // The sweep: exhausted expired runs fail one by one with an event, the other expired runs
    // go back to the queue in one update; every claimable run is then dispatched again.
    method RecoverQueuedRuns(now: int) returns (dispatched: set<RunId>)
      modifies this
      ensures runs == RecoverAll(old(runs), now)
      ensures forall id :: id in dispatched <==> id in runs && runs[id].ledger.run.status == Queued
                                                 && runs[id].ledger.run.attempts < runs[id].ledger.run.maxAttempts
    {
      var lost := set id | id in runs && Expired(runs[id].ledger, now)
                           && runs[id].ledger.run.attempts >= runs[id].ledger.run.maxAttempts;
      FailWithoutWorker(lost);
      runs := map id | id in runs ::
        if Expired(runs[id].ledger, now) && runs[id].ledger.run.attempts < runs[id].ledger.run.maxAttempts
        then runs[id].(ledger := runs[id].ledger.(run := runs[id].ledger.run.(status := Queued, lease := None)))
        else runs[id];
      dispatched := set id | id in runs && runs[id].ledger.run.status == Queued
                             && runs[id].ledger.run.attempts < runs[id].ledger.run.maxAttempts;
    }

    method RequeueFailedRun(id: RunId) returns (requeued: bool)
      modifies this
      ensures id !in old(runs) ==> !requeued && runs == old(runs)
      ensures id in old(runs) ==>
                && runs == OnLedger(old(runs), id, RequeueStep)
                && (requeued <==> old(runs)[id].ledger.run.status == Failed
                                  && old(runs)[id].ledger.run.attempts < old(runs)[id].ledger.run.maxAttempts)
    {
      if id !in runs || runs[id].ledger.run.status != Failed
         || runs[id].ledger.run.attempts >= runs[id].ledger.run.maxAttempts {
        assert id in runs ==> runs == runs[id := runs[id]];
        return false;
      }
      var run := runs[id].ledger.run;
      SetRun(id, run.(status := Queued, lease := None));
      AppendRunEvent(id, OperatorRetryQueued(run.attempts));
      return true;
    }

    method ReplaceExhaustedRun(id: RunId, newId: RunId, maxActiveRuns: int) returns (replacement: Option<Admission>)
      requires KeysUnique(runs)
      modifies this
      ensures runs == Replace(old(runs), newId, maxActiveRuns, id).0
      ensures replacement == Replace(old(runs), newId, maxActiveRuns, id).1
    {
      if id !in runs || !Exhausted(runs[id].ledger) {
        return None;
      }
      var admission := AdmitRun(newId, maxActiveRuns, ReplacementRequest(id, runs[id].identity), map[]);
      if admission.Ok? && !admission.value.replayed {
        AppendRunEvent(id, ReplacementQueued(newId));
        AppendRunEvent(newId, ReplacesFailed(id));
      }
      return Some(admission);
    }
  }

  // The durable boundary handed to a worker: it can only write while its attempt is current.
  class RunControl {
    const store: Store
    const runId: RunId
    const attempt: nat

    constructor (store: Store, runId: RunId, attempt: nat)
      ensures this.store == store && this.runId == runId && this.attempt == attempt
    {
      this.store := store;
      this.runId := runId;
      this.attempt := attempt;
    }

    method EmitEvent(name: string) returns (outcome: EmitOutcome)
      requires runId in store.runs
      modifies store
      ensures store.runs == OnLedger(old(store.runs), runId, EmitStep(attempt, name))
      ensures outcome ==
              var l := old(store.runs)[runId].ledger;
              if l.run.status == Cancelled then RunWasCancelled
              else if l.run.status == Running && l.run.attempts == attempt then EventAppended else LeaseLost
    {
      var run := store.runs[runId].ledger.run;
      if run.status == Cancelled || run.status != Running || run.attempts != attempt {
        assert store.runs == store.runs[runId := store.runs[runId]];
        return if run.status == Cancelled then RunWasCancelled else LeaseLost;
      }
      store.AppendRunEvent(runId, Emitted(name, attempt));
      return EventAppended;
    }
  }
}
