/**
  One agent run: its row in agent_run, its rows in agent_event, and the work it has committed.

  Every function below is one committed database transaction. A guard that does not hold
  leaves the ledger as it is, which is what the row lock plus the guard amount to.
*/
module RunLedger {
  import opened Wrappers

  datatype Status = Queued | Running | Completed | Failed | Cancelled

  datatype EventBody =
    | RunStarted(attempt: nat)
    | RetryScheduled(attempt: nat)
    | RunFailed
    | RunCompleted
    | RunCancelled
    | OperatorRetryQueued(previousAttempt: nat)
    | ReplacementQueued(replacementId: string)
    | ReplacesFailed(failedId: string)
    | Emitted(name: string, author: nat)  // author: the attempt held by the emitting RunControl
    | ToolAudited(outcome: string)

  datatype EventRow = EventRow(sequence: nat, body: EventBody)

  datatype Run = Run(status: Status, attempts: nat, maxAttempts: nat, lease: Option<int>)

  // commits lists the attempts whose work transaction reached COMMIT.
  datatype Ledger = Ledger(run: Run, events: seq<EventRow>, commits: seq<nat>)

  // Fifteen minutes in microseconds.
  const LEASE_DURATION: int := 15 * 60 * 1_000_000

  function Fresh(maxAttempts: nat): Ledger {
    Ledger(Run(Queued, 0, maxAttempts, None), [], [])
  }

  function Front<T>(s: seq<T>): seq<T>
    requires s != []
  {
    s[..|s| - 1]
  }

  function Last<T>(s: seq<T>): T
    requires s != []
  {
    s[|s| - 1]
  }

  // COALESCE(MAX(sequence), 0)
  function MaxSequence(events: seq<EventRow>): nat {
    if events == [] then 0
    else
      var rest := MaxSequence(Front(events));
      if Last(events).sequence > rest then Last(events).sequence else rest
  }

  function NewRow(events: seq<EventRow>, body: EventBody): EventRow {
    EventRow(MaxSequence(events) + 1, body)
  }

  function Append(l: Ledger, body: EventBody): Ledger {
    l.(events := l.events + [NewRow(l.events, body)])
  }

  /* ---------- transactions ---------- */

  predicate Claimable(l: Ledger) {
    l.run.status == Queued && l.run.attempts < l.run.maxAttempts
  }

  function Claim(l: Ledger, now: int): Ledger {
    if !Claimable(l) then l
    else
      var attempt := l.run.attempts + 1;
      Append(l.(run := l.run.(status := Running, attempts := attempt, lease := Some(now + LEASE_DURATION))),
             RunStarted(attempt))
  }

  predicate Holds(l: Ledger, attempt: nat) {
    l.run.status == Running && l.run.attempts == attempt
  }

  function Emit(l: Ledger, attempt: nat, name: string): Ledger {
    if Holds(l, attempt) then Append(l, Emitted(name, attempt)) else l
  }

  // The work of an attempt and the conditional COMPLETED update commit together or not at all.
  function Complete(l: Ledger, attempt: nat): Ledger {
    if !Holds(l, attempt) then l
    else
      Append(l.(run := l.run.(status := Completed, lease := None), commits := l.commits + [attempt]),
             RunCompleted)
  }

  function FinishFailure(l: Ledger, attempt: nat, retryable: bool): Ledger {
    if !Holds(l, attempt) then l
    else if retryable && l.run.attempts < l.run.maxAttempts then
      Append(l.(run := l.run.(status := Queued, lease := None)), RetryScheduled(l.run.attempts))
    else
      Append(l.(run := l.run.(status := Failed, lease := None)), RunFailed)
  }

  predicate Expired(l: Ledger, now: int) {
    l.run.status == Running && l.run.lease.Some? && l.run.lease.value <= now
  }

  // Exhausted runs fail with an event; the others return to the queue without one.
  function Recover(l: Ledger, now: int): Ledger {
    if !Expired(l, now) then l
    else if l.run.attempts >= l.run.maxAttempts then
      Append(l.(run := l.run.(status := Failed, lease := None)), RunFailed)
    else
      l.(run := l.run.(status := Queued, lease := None))
  }

  function Requeue(l: Ledger): Ledger {
    if l.run.status != Failed || l.run.attempts >= l.run.maxAttempts then l
    else
      Append(l.(run := l.run.(status := Queued, lease := None)), OperatorRetryQueued(l.run.attempts))
  }

  // The cancel route leaves the lease column alone.
  function Cancel(l: Ledger): Ledger {
    if l.run.status != Queued && l.run.status != Running then l
    else Append(l.(run := l.run.(status := Cancelled)), RunCancelled)
  }

  predicate Exhausted(l: Ledger) {
    l.run.status == Failed && l.run.attempts >= l.run.maxAttempts
  }

  /* ---------- runs of the protocol ---------- */

  datatype Step =
    | ClaimStep(now: int)
    | EmitStep(attempt: nat, name: string)
    | CompleteStep(attempt: nat)
    | FailStep(attempt: nat, retryable: bool)
    | RecoverStep(now: int)
    | RequeueStep
    | CancelStep
    | AuditStep(outcome: string)
    | ReplacementQueuedStep(replacementId: string)
    | ReplacesFailedStep(failedId: string)

  function Apply(l: Ledger, step: Step): Ledger {
    match step
    case ClaimStep(now) => Claim(l, now)
    case EmitStep(attempt, name) => Emit(l, attempt, name)
    case CompleteStep(attempt) => Complete(l, attempt)
    case FailStep(attempt, retryable) => FinishFailure(l, attempt, retryable)
    case RecoverStep(now) => Recover(l, now)
    case RequeueStep => Requeue(l)
    case CancelStep => Cancel(l)
    case AuditStep(outcome) => Append(l, ToolAudited(outcome))
    case ReplacementQueuedStep(id) => Append(l, ReplacementQueued(id))
    case ReplacesFailedStep(id) => Append(l, ReplacesFailed(id))
  }

  function Execute(l: Ledger, steps: seq<Step>): Ledger {
    if steps == [] then l else Apply(Execute(l, Front(steps)), Last(steps))
  }

  /* ---------- what a log says ---------- */

  // The status a reader of the log alone would report.
  function Replay(events: seq<EventRow>): Status {
    if events == [] then Queued
    else Announced(Last(events).body, Replay(Front(events)))
  }

  // Lifecycle events announce a status; the others leave it as it was.
  function Announced(body: EventBody, before: Status): Status {
    match body
    case RunStarted(_) => Running
    case RetryScheduled(_) => Queued
    case RunFailed => Failed
    case RunCompleted => Completed
    case RunCancelled => Cancelled
    case OperatorRetryQueued(_) => Queued
    case _ => before
  }

  // The attempts announced by run.started events, oldest first.
  function Starts(events: seq<EventRow>): seq<nat> {
    if events == [] then []
    else Starts(Front(events)) + (if Last(events).body.RunStarted? then [Last(events).body.attempt] else [])
  }

  function Cancellations(events: seq<EventRow>): nat {
    if events == [] then 0
    else Cancellations(Front(events)) + if Last(events).body.RunCancelled? then 1 else 0
  }

  ghost predicate Sequenced(events: seq<EventRow>) {
    forall i :: 0 <= i < |events| ==> events[i].sequence == i + 1
  }

  // An emitted event sits inside the segment of the attempt that wrote it: the log before it
  // replays to RUNNING and the latest run.started names its author.
  ghost predicate Authored(events: seq<EventRow>)
    decreases |events|
  {
    events == [] ||
    (var before := Front(events);
     Authored(before) &&
     (Last(events).body.Emitted? ==>
        Replay(before) == Running && Starts(before) != [] && Last(events).body.author == Last(Starts(before))))
  }

  ghost predicate CountsUpTo(s: seq<nat>, n: nat) {
    |s| == n && forall k :: 0 <= k < n ==> s[k] == k + 1
  }

  ghost predicate LogFaithful(l: Ledger) {
    && Sequenced(l.events)
    && CountsUpTo(Starts(l.events), l.run.attempts)
    && Authored(l.events)
    && Cancellations(l.events) == (if l.run.status == Cancelled then 1 else 0)
    // The only gap between log and row: an expired lease returns to QUEUED silently.
    && (Replay(l.events) == l.run.status || (Replay(l.events) == Running && l.run.status == Queued))
  }

  ghost predicate CommittedOnce(l: Ledger) {
    l.commits == if l.run.status == Completed then [l.run.attempts] else []
  }

  ghost predicate NotStranded(l: Ledger) {
    && l.run.attempts <= l.run.maxAttempts
    && (l.run.status == Queued ==> l.run.attempts < l.run.maxAttempts)
    && (l.run.status == Running ==> l.run.attempts > 0 && l.run.lease.Some?)
    && (l.run.status in {Queued, Failed, Completed} ==> l.run.lease.None?)
    && (l.run.status in {Failed, Completed} ==> l.run.attempts > 0)
  }

  ghost predicate Valid(l: Ledger) {
    LogFaithful(l) && CommittedOnce(l) && NotStranded(l)
  }

  /* ---------- proofs ---------- */

  lemma {:induction false} SequencedMax(events: seq<EventRow>)
    requires Sequenced(events)
    ensures MaxSequence(events) == |events|
  {
    if events != [] {
      SequencedMax(Front(events));
    }
  }

  // What one appended row does to every reading of the log.
  lemma AppendReads(events: seq<EventRow>, body: EventBody)
    requires Sequenced(events)
    ensures var after := events + [NewRow(events, body)];
            && Sequenced(after)
            && Starts(after) == Starts(events) + (if body.RunStarted? then [body.attempt] else [])
            && Cancellations(after) == Cancellations(events) + (if body.RunCancelled? then 1 else 0)
            && Replay(after) == Announced(body, Replay(events))
            && (Authored(after) <==> Authored(events) && (body.Emitted? ==>
                  Replay(events) == Running && Starts(events) != [] && body.author == Last(Starts(events))))
  {
    SequencedMax(events);
    assert Front(events + [NewRow(events, body)]) == events;
  }

  // Appending body while the row becomes run keeps the log faithful when body announces
  // the new status and the attempt counter moves exactly with run.started.
  lemma AppendKeepsFaithful(l: Ledger, run: Run, commits: seq<nat>, body: EventBody)
    requires LogFaithful(l)
    requires run.attempts == l.run.attempts + (if body.RunStarted? then 1 else 0)
    requires body.RunStarted? ==> body.attempt == run.attempts
    requires body.Emitted? ==>
               l.run.status == Running && body.author == l.run.attempts && l.run.attempts > 0
    requires if Announced(body, Queued) == Announced(body, Running) then run.status == Announced(body, Queued)
             else run.status == l.run.status
    requires l.run.status != Cancelled || run.status == Cancelled
    requires body.RunCancelled? ==> l.run.status != Cancelled
    ensures LogFaithful(Ledger(run, l.events + [NewRow(l.events, body)], commits))
  {
    AppendReads(l.events, body);
  }

  // A transaction that appends one row to a valid ledger leaves the log faithful; what it does to the row and
  // the commits is the rest of the invariant.
  lemma AppendedIsValid(l: Ledger, run: Run, commits: seq<nat>, body: EventBody)
    requires Valid(l)
    requires run.attempts == l.run.attempts + (if body.RunStarted? then 1 else 0)
    requires body.RunStarted? ==> body.attempt == run.attempts
    requires body.Emitted? ==>
               l.run.status == Running && body.author == l.run.attempts && l.run.attempts > 0
    requires if Announced(body, Queued) == Announced(body, Running) then run.status == Announced(body, Queued)
             else run.status == l.run.status
    requires l.run.status != Cancelled || run.status == Cancelled
    requires body.RunCancelled? ==> l.run.status != Cancelled
    requires NotStranded(Ledger(run, l.events, commits)) && CommittedOnce(Ledger(run, l.events, commits))
    ensures Valid(Ledger(run, l.events + [NewRow(l.events, body)], commits))
  {
    hide LogFaithful, NewRow, Announced;
    AppendKeepsFaithful(l, run, commits, body);
  }

  // An event that announces nothing changes nothing but the log.
  lemma NoteKeepsValid(l: Ledger, body: EventBody)
    requires Valid(l) && (body.ToolAudited? || body.ReplacementQueued? || body.ReplacesFailed?)
    ensures Valid(Append(l, body))
  {
    hide LogFaithful, NewRow;
    AppendedIsValid(l, l.run, l.commits, body);
  }

  lemma ClaimKeepsValid(l: Ledger, now: int)
    requires Valid(l)
    ensures Valid(Claim(l, now))
  {
    hide LogFaithful, NewRow;
    if Claimable(l) {
      var attempt := l.run.attempts + 1;
      AppendedIsValid(l, l.run.(status := Running, attempts := attempt, lease := Some(now + LEASE_DURATION)), l.commits,
                      RunStarted(attempt));
    }
  }

  lemma EmitKeepsValid(l: Ledger, attempt: nat, name: string)
    requires Valid(l)
    ensures Valid(Emit(l, attempt, name))
  {
    hide LogFaithful, NewRow;
    if Holds(l, attempt) {
      AppendedIsValid(l, l.run, l.commits, Emitted(name, attempt));
    }
  }

  lemma CompleteKeepsValid(l: Ledger, attempt: nat)
    requires Valid(l)
    ensures Valid(Complete(l, attempt))
  {
    hide LogFaithful, NewRow;
    if Holds(l, attempt) {
      assert l.commits == [] && [] + [attempt] == [attempt];
      AppendedIsValid(l, l.run.(status := Completed, lease := None), l.commits + [attempt], RunCompleted);
    }
  }

  lemma FailKeepsValid(l: Ledger, attempt: nat, retryable: bool)
    requires Valid(l)
    ensures Valid(FinishFailure(l, attempt, retryable))
  {
    hide LogFaithful, NewRow;
    if Holds(l, attempt) {
      if retryable && l.run.attempts < l.run.maxAttempts {
        AppendedIsValid(l, l.run.(status := Queued, lease := None), l.commits, RetryScheduled(l.run.attempts));
      } else {
        AppendedIsValid(l, l.run.(status := Failed, lease := None), l.commits, RunFailed);
      }
    }
  }

  lemma RecoverKeepsValid(l: Ledger, now: int)
    requires Valid(l)
    ensures Valid(Recover(l, now))
  {
    hide Sequenced, Starts, CountsUpTo, Authored, Cancellations, Replay, NewRow;
    if Expired(l, now) && l.run.attempts >= l.run.maxAttempts {
      AppendedIsValid(l, l.run.(status := Failed, lease := None), l.commits, RunFailed);
    }
  }

  lemma RequeueKeepsValid(l: Ledger)
    requires Valid(l)
    ensures Valid(Requeue(l))
  {
    hide LogFaithful, NewRow;
    if l.run.status == Failed && l.run.attempts < l.run.maxAttempts {
      AppendedIsValid(l, l.run.(status := Queued, lease := None), l.commits, OperatorRetryQueued(l.run.attempts));
    }
  }

  lemma CancelKeepsValid(l: Ledger)
    requires Valid(l)
    ensures Valid(Cancel(l))
  {
    hide LogFaithful, NewRow;
    if l.run.status in {Queued, Running} {
      AppendedIsValid(l, l.run.(status := Cancelled), l.commits, RunCancelled);
    }
  }

  lemma StepKeepsLimit(l: Ledger, step: Step)
    ensures Apply(l, step).run.maxAttempts == l.run.maxAttempts
  {
  }

  lemma StepKeepsValid(l: Ledger, step: Step)
    requires Valid(l)
    ensures Valid(Apply(l, step))
    ensures Apply(l, step).run.maxAttempts == l.run.maxAttempts
  {
    StepKeepsLimit(l, step);
    hide Valid, Claim, Emit, Complete, FinishFailure, Recover, Requeue, Cancel, Append;
    match step {
      case ClaimStep(now) => ClaimKeepsValid(l, now);
      case EmitStep(attempt, name) => EmitKeepsValid(l, attempt, name);
      case CompleteStep(attempt) => CompleteKeepsValid(l, attempt);
      case FailStep(attempt, retryable) => FailKeepsValid(l, attempt, retryable);
      case RecoverStep(now) => RecoverKeepsValid(l, now);
      case RequeueStep => RequeueKeepsValid(l);
      case CancelStep => CancelKeepsValid(l);
      case AuditStep(outcome) => NoteKeepsValid(l, ToolAudited(outcome));
      case ReplacementQueuedStep(id) => NoteKeepsValid(l, ReplacementQueued(id));
      case ReplacesFailedStep(id) => NoteKeepsValid(l, ReplacesFailed(id));
    }
  }

  // Every interleaving of claims, stale emits, stale completions, failures, recoveries,
  // operator retries and cancellations keeps the whole invariant.
  lemma {:induction false} EveryRunIsValid(maxAttempts: nat, steps: seq<Step>)
    requires maxAttempts > 0
    ensures Valid(Execute(Fresh(maxAttempts), steps))
    ensures Execute(Fresh(maxAttempts), steps).run.maxAttempts == maxAttempts
  {
    if steps != [] {
      EveryRunIsValid(maxAttempts, Front(steps));
      StepKeepsValid(Execute(Fresh(maxAttempts), Front(steps)), Last(steps));
    }
  }
}
