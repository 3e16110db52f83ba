/** What every interleaving of RunLedger steps guarantees about one run. */
module RunGuarantees {
  import opened Wrappers
  import opened RunLedger

  ghost predicate Reachable(l: Ledger, maxAttempts: nat) {
    maxAttempts > 0 && exists steps :: l == Execute(Fresh(maxAttempts), steps)
  }

  lemma ReachableIsValid(l: Ledger, maxAttempts: nat)
    requires Reachable(l, maxAttempts)
    ensures Valid(l) && l.run.maxAttempts == maxAttempts
  {
    var steps :| l == Execute(Fresh(maxAttempts), steps);
    EveryRunIsValid(maxAttempts, steps);
  }

  /* ---------- exactly-once work ---------- */

  // Work commits at most once, exactly when the run is COMPLETED, under the attempt that was
  // claimed last and that some run.started announced.
  lemma WorkCommitsExactlyOnce(l: Ledger, maxAttempts: nat)
    requires Reachable(l, maxAttempts)
    ensures |l.commits| <= 1
    ensures l.run.status == Completed <==> |l.commits| == 1
    ensures l.run.status == Completed ==>
              l.commits == [l.run.attempts] && Starts(l.events) != [] && Last(Starts(l.events)) == l.commits[0]
  {
    ReachableIsValid(l, maxAttempts);
  }

  predicate Terminal(l: Ledger) {
    l.run.status in {Completed, Cancelled} || Exhausted(l)
  }

  // Terminal runs are never left: no later step changes the row or commits more work.
  lemma {:induction false} TerminalIsNeverLeft(l: Ledger, steps: seq<Step>)
    requires Terminal(l)
    ensures Execute(l, steps).run == l.run && Execute(l, steps).commits == l.commits
  {
    if steps != [] {
      TerminalIsNeverLeft(l, Front(steps));
    }
  }

  // agent_event is append-only and committed work stays committed.
  lemma {:induction false} HistoryOnlyGrows(l: Ledger, steps: seq<Step>)
    ensures l.events <= Execute(l, steps).events
    ensures l.commits <= Execute(l, steps).commits
  {
    if steps != [] {
      HistoryOnlyGrows(l, Front(steps));
      StepOnlyAppends(Execute(l, Front(steps)), Last(steps));
    }
  }

  lemma StepOnlyAppends(l: Ledger, step: Step)
    ensures var after := Apply(l, step);
            && (after.events == l.events || exists row :: after.events == l.events + [row])
            && (after.commits == l.commits || exists attempt :: after.commits == l.commits + [attempt])
  {
    var after := Apply(l, step);
    if |after.events| > |l.events| {
      assert after.events == l.events + [NewRow(l.events, Last(after.events).body)];
    }
  }

  // Fencing: once a later attempt has been claimed, the earlier attempt can never again emit,
  // complete or fail, whatever happens in between.
  lemma {:induction false} SupersededAttemptIsInert(l: Ledger, steps: seq<Step>, attempt: nat, name: string,
                                                    retryable: bool)
    requires attempt < l.run.attempts
    ensures var later := Execute(l, steps);
            && attempt < later.run.attempts
            && Emit(later, attempt, name) == later
            && Complete(later, attempt) == later
            && FinishFailure(later, attempt, retryable) == later
  {
    if steps != [] {
      SupersededAttemptIsInert(l, Front(steps), attempt, name, retryable);
    }
  }

  /* ---------- termination ---------- */

  // The most status changes still possible from here.
  function Potential(r: Run): int {
    match r.status
    case Queued => 3 * (r.maxAttempts - r.attempts) - 1
    case Running => 3 * (r.maxAttempts - r.attempts) + 1
    case Failed => 3 * (r.maxAttempts - r.attempts)
    case Completed => 0
    case Cancelled => 0
  }

  function StatusChanges(l: Ledger, steps: seq<Step>): nat {
    if steps == [] then 0
    else
      var before := Execute(l, Front(steps));
      StatusChanges(l, Front(steps)) + if Apply(before, Last(steps)).run.status != before.run.status then 1 else 0
  }

  lemma ChangeSpendsPotential(l: Ledger, step: Step)
    requires Valid(l)
    ensures 0 <= Potential(Apply(l, step).run)
    ensures Potential(Apply(l, step).run) <=
            Potential(l.run) - (if Apply(l, step).run.status != l.run.status then 1 else 0)
  {
    StepKeepsValid(l, step);
  }

  // Even with operator retries a run changes status at most 3 * maxAttempts - 1 times.
  lemma {:induction false} StatusChangesAreBounded(maxAttempts: nat, steps: seq<Step>)
    requires maxAttempts > 0
    ensures StatusChanges(Fresh(maxAttempts), steps) + Potential(Execute(Fresh(maxAttempts), steps).run)
            <= 3 * maxAttempts - 1
    ensures StatusChanges(Fresh(maxAttempts), steps) <= 3 * maxAttempts - 1
  {
    EveryRunIsValid(maxAttempts, steps);
    if steps != [] {
      StatusChangesAreBounded(maxAttempts, Front(steps));
      EveryRunIsValid(maxAttempts, Front(steps));
      ChangeSpendsPotential(Execute(Fresh(maxAttempts), Front(steps)), Last(steps));
    }
  }

  // The longest life: every attempt is claimed, fails for good and is put back by the operator.
  function LongestLife(attempts: nat): seq<Step>
    requires attempts > 0
  {
    (if attempts == 1 then [] else LongestLife(attempts - 1) + [RequeueStep])
    + [ClaimStep(0), FailStep(attempts, false)]
  }

  lemma ExecuteMore(l: Ledger, steps: seq<Step>, step: Step)
    ensures Execute(l, steps + [step]) == Apply(Execute(l, steps), step)
    ensures StatusChanges(l, steps + [step]) == StatusChanges(l, steps) +
              if Apply(Execute(l, steps), step).run.status != Execute(l, steps).run.status then 1 else 0
  {
    assert Front(steps + [step]) == steps;
  }

  lemma FailedRequeues(l: Ledger)
    ensures l.run.status == Failed && l.run.attempts < l.run.maxAttempts ==>
              Apply(l, RequeueStep).run == l.run.(status := Queued, lease := None)
  {
    hide Append, MaxSequence;
    AppendKeepsRun(l.(run := l.run.(status := Queued, lease := None)), OperatorRetryQueued(l.run.attempts));
  }

  lemma AppendKeepsRun(l: Ledger, body: EventBody)
    ensures Append(l, body).run == l.run
  {
  }

  lemma ClaimedFails(l: Ledger, attempt: nat)
    ensures l.run.status == Queued && l.run.attempts < l.run.maxAttempts && attempt == l.run.attempts + 1 ==>
              var claimed := Apply(l, ClaimStep(0));
              var failed := Apply(claimed, FailStep(attempt, false));
              && claimed.run.status == Running && claimed.run.attempts == attempt
              && failed.run.status == Failed && failed.run.attempts == attempt
              && failed.run.maxAttempts == l.run.maxAttempts
  {
  }

  lemma {:induction false} LongestLifeSpendsAll(maxAttempts: nat, attempts: nat)
    requires 0 < attempts <= maxAttempts
    ensures StatusChanges(Fresh(maxAttempts), LongestLife(attempts)) == 3 * attempts - 1
    ensures var run := Execute(Fresh(maxAttempts), LongestLife(attempts)).run;
            run.status == Failed && run.attempts == attempts && run.maxAttempts == maxAttempts
  {
    var l := Fresh(maxAttempts);
    var prefix := [];
    if attempts > 1 {
      FailedRequeues(Execute(l, LongestLife(attempts - 1)));
    }
    ClaimedFails(Execute(l, if attempts > 1 then LongestLife(attempts - 1) + [RequeueStep] else []), attempts);
    hide Apply;
    if attempts > 1 {
      LongestLifeSpendsAll(maxAttempts, attempts - 1);
      ExecuteMore(l, LongestLife(attempts - 1), RequeueStep);
      prefix := LongestLife(attempts - 1) + [RequeueStep];
    }
    ExecuteMore(l, prefix, ClaimStep(0));
    ExecuteMore(l, prefix + [ClaimStep(0)], FailStep(attempts, false));
    assert LongestLife(attempts) == prefix + [ClaimStep(0)] + [FailStep(attempts, false)];
  }

  // The bound is exact.
  lemma StatusChangeBoundIsReached(maxAttempts: nat)
    requires maxAttempts > 0
    ensures exists steps :: StatusChanges(Fresh(maxAttempts), steps) == 3 * maxAttempts - 1
  {
    LongestLifeSpendsAll(maxAttempts, maxAttempts);
  }

  // No stranding: a queued run can always be claimed, an expired running run always leaves
  // RUNNING, and a failed run that is not exhausted can always be retried.
  lemma EveryUnfinishedRunCanMove(l: Ledger, maxAttempts: nat, now: int)
    requires Reachable(l, maxAttempts)
    ensures l.run.status == Queued ==> Claim(l, now).run.status == Running
    ensures l.run.status == Running ==> l.run.lease.Some?
    ensures l.run.status == Running && l.run.lease.value <= now ==> Recover(l, now).run.status in {Queued, Failed}
    ensures l.run.status == Failed && !Exhausted(l) ==> Requeue(l).run.status == Queued
    ensures l.run.attempts <= maxAttempts
  {
    ReachableIsValid(l, maxAttempts);
  }

  /* ---------- the event log ---------- */

  lemma LogNumbersAndAttributesEverything(l: Ledger, maxAttempts: nat)
    requires Reachable(l, maxAttempts)
    ensures forall i :: 0 <= i < |l.events| ==> l.events[i].sequence == i + 1
    ensures |Starts(l.events)| == l.run.attempts
    ensures forall k :: 0 <= k < l.run.attempts ==> Starts(l.events)[k] == k + 1
    ensures forall i :: 0 <= i < |l.events| && l.events[i].body.Emitted? ==>
              && Replay(l.events[..i]) == Running
              && Starts(l.events[..i]) != []
              && l.events[i].body.author == Last(Starts(l.events[..i]))
  {
    ReachableIsValid(l, maxAttempts);
    forall i | 0 <= i < |l.events| && l.events[i].body.Emitted?
      ensures && Replay(l.events[..i]) == Running
              && Starts(l.events[..i]) != []
              && l.events[i].body.author == Last(Starts(l.events[..i]))
    {
      AuthoredPrefix(l.events, i);
    }
  }

  lemma {:induction false} AuthoredPrefix(events: seq<EventRow>, i: nat)
    requires Authored(events) && i < |events|
    ensures events[i].body.Emitted? ==>
              && Replay(events[..i]) == Running
              && Starts(events[..i]) != []
              && events[i].body.author == Last(Starts(events[..i]))
    decreases |events|
  {
    if i < |events| - 1 {
      AuthoredPrefix(Front(events), i);
      assert Front(events)[..i] == events[..i];
    } else {
      assert Front(events) == events[..i];
    }
  }

  // The last lifecycle event decides COMPLETED, FAILED and CANCELLED in both directions.
  lemma LogDecidesFinalStatus(l: Ledger, maxAttempts: nat)
    requires Reachable(l, maxAttempts)
    ensures l.run.status == Completed <==> Replay(l.events) == Completed
    ensures l.run.status == Failed <==> Replay(l.events) == Failed
    ensures l.run.status == Cancelled <==> Replay(l.events) == Cancelled
    ensures Replay(l.events) != Running ==> Replay(l.events) == l.run.status
    ensures Replay(l.events) == Running ==> l.run.status in {Queued, Running}
  {
    ReachableIsValid(l, maxAttempts);
  }

  // The log cannot decide between QUEUED and RUNNING: lease recovery writes no event, so two
  // reachable ledgers share a log and differ in status.
  lemma LogDoesNotDecideRunning(maxAttempts: nat, now: int)
    requires maxAttempts > 1
    ensures var claimed := Execute(Fresh(maxAttempts), [ClaimStep(now)]);
            var lapsed := Execute(Fresh(maxAttempts), [ClaimStep(now), RecoverStep(now + LEASE_DURATION)]);
            && claimed.events == lapsed.events
            && claimed.run.status == Running && lapsed.run.status == Queued
  {
    ExecuteMore(Fresh(maxAttempts), [], ClaimStep(now));
    ExecuteMore(Fresh(maxAttempts), [ClaimStep(now)], RecoverStep(now + LEASE_DURATION));
    assert [] + [ClaimStep(now)] == [ClaimStep(now)];
    assert [ClaimStep(now)] + [RecoverStep(now + LEASE_DURATION)]
        == [ClaimStep(now), RecoverStep(now + LEASE_DURATION)];
  }

  /* ---------- the stand-alone recovery decision ---------- */

  datatype RecoveryDecision = NoAction | RequeueRun | FailRun

  function RecoverExpiredRun(r: Run, now: int): RecoveryDecision {
    if r.status != Running || r.lease.None? then NoAction
    else if r.lease.value >= now then NoAction
    else if r.attempts >= r.maxAttempts then FailRun
    else RequeueRun
  }

  function Decided(d: RecoveryDecision, before: Status): Status {
    match d
    case NoAction => before
    case RequeueRun => Queued
    case FailRun => Failed
  }

  // recovery.py and the scheduler's sweep agree except at the very instant the lease expires.
  lemma RecoveryRulesAgreeExceptAtExpiry(l: Ledger, now: int)
    ensures Recover(l, now).run.status == Decided(RecoverExpiredRun(l.run, now), l.run.status)
            <==> !(l.run.status == Running && l.run.lease == Some(now))
  {
  }
}
