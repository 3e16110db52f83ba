/**
  One ingestion job and its page cursor: a leased job row, a cursor advanced by compare-and-set,
  and workers that fetch, persist and advance page by page. A crash is a worker that stops.
*/
module Paging {
  import opened Wrappers

  datatype JobState =
    | Queued | Running | RetryScheduled
    | Succeeded | CompletedWithGaps | Failed | DeadLetter | Cancelled

  datatype Lease = Lease(token: nat, generation: nat)

  // The columns that are set exactly while the job runs.
  datatype Hold = Hold(token: nat, startedAt: int, expiresAt: int)

  datatype Attempt = Attempt(number: nat, generation: nat, outcome: JobState)

  datatype Job = Job(state: JobState, maxAttempts: nat, attempts: nat, generation: nat, hold: Option<Hold>,
                     nextAttemptAt: Option<int>, ended: seq<Attempt>, deadLetters: seq<nat>)

  type Token = Option<string>

  datatype Cursor = Cursor(token: Token, generation: nat)

  // The token of the page that follows the page named by a token.
  type Pages = Token -> Token

  predicate Finished(state: JobState) {
    state in {Succeeded, CompletedWithGaps}
  }

  predicate Terminal(state: JobState) {
    state in {Succeeded, CompletedWithGaps, Failed, DeadLetter, Cancelled}
  }

  /* ---------- the job row ---------- */

  predicate LeaseHeld(j: Job, l: Lease, now: int) {
    && j.state == Running && j.generation == l.generation
    && j.hold.Some? && j.hold.value.token == l.token && j.hold.value.expiresAt > now
  }

  predicate Claimable(j: Job) {
    j.state == Queued && j.attempts < j.maxAttempts
  }

  function Claim(j: Job, token: nat, now: int, leaseFor: int): Job {
    if Claimable(j) then
      j.(state := Running, attempts := j.attempts + 1, generation := j.generation + 1,
         hold := Some(Hold(token, now, now + leaseFor)))
    else j
  }

  function Heartbeat(j: Job, l: Lease, now: int, leaseFor: int): Job {
    if LeaseHeld(j, l, now) then j.(hold := Some(j.hold.value.(expiresAt := now + leaseFor))) else j
  }

  // A retry asked of a job without attempts left becomes a dead letter.
  function Outcome(j: Job, target: JobState): JobState {
    if target == RetryScheduled && j.attempts >= j.maxAttempts then DeadLetter else target
  }

  function Ended(j: Job, outcome: JobState, retryAt: int): Job {
    j.(state := outcome, hold := None,
       nextAttemptAt := if outcome == RetryScheduled then Some(retryAt) else None,
       ended := j.ended + [Attempt(j.attempts, j.generation, outcome)],
       deadLetters := j.deadLetters + if outcome == DeadLetter then [j.attempts] else [])
  }

  // The attempt is over: its row is recorded with its number, generation and outcome, the lease is gone, and a dead
  // letter is written exactly for that outcome.
  ghost predicate EndedAs(before: Job, after: Job, outcome: JobState, retryAt: Option<int>) {
    && after.state == outcome && after.hold == None && after.nextAttemptAt == retryAt
    && after.attempts == before.attempts && after.generation == before.generation
    && after.maxAttempts == before.maxAttempts
    && after.ended == before.ended + [Attempt(before.attempts, before.generation, outcome)]
    && after.deadLetters == before.deadLetters + if outcome == DeadLetter then [before.attempts] else []
  }

  // An attempt may not end before it started: the row check aborts the transaction.
  predicate MayFinish(j: Job, l: Lease, now: int) {
    LeaseHeld(j, l, now) && j.hold.value.startedAt <= now
  }

  function Finish(j: Job, l: Lease, target: JobState, now: int, retryAt: int): Job {
    if MayFinish(j, l, now) then Ended(j, Outcome(j, target), retryAt) else j
  }

  function RecoverExpired(j: Job, now: int): Job {
    if j.state == Running && j.hold.Some? && j.hold.value.expiresAt <= now && j.hold.value.startedAt <= now then
      Ended(j, Outcome(j, RetryScheduled), now)
    else j
  }

  function RequeueDue(j: Job, now: int): Job {
    if j.state == RetryScheduled && j.nextAttemptAt.Some? && j.nextAttemptAt.value <= now && j.attempts < j.maxAttempts
    then j.(state := Queued, nextAttemptAt := None)
    else j
  }

  function Cancel(j: Job): Job {
    if j.state in {Queued, RetryScheduled} then j.(state := Cancelled, nextAttemptAt := None) else j
  }

  function NewJob(maxAttempts: nat): Job {
    Job(Queued, maxAttempts, 0, 0, None, None, [], [])
  }

  /* ---------- the cursor row ---------- */

  function Generation(c: Option<Cursor>): nat {
    if c.None? then 0 else c.value.generation
  }

  function TokenOf(c: Option<Cursor>): Token {
    if c.None? then None else c.value.token
  }

  // Generation 0 inserts unless a row exists; any other updates the row of exactly that generation.
  predicate MayAdvance(j: Job, c: Option<Cursor>, l: Lease, expected: nat, now: int) {
    LeaseHeld(j, l, now) && if expected == 0 then c.None? else c.Some? && c.value.generation == expected
  }

  function AdvanceCursor(j: Job, c: Option<Cursor>, l: Lease, expected: nat, token: Token, now: int): Option<Cursor> {
    if MayAdvance(j, c, l, expected, now) then Some(Cursor(token, expected + 1)) else c
  }

  /* ---------- workers ---------- */

  datatype Phase =
    | Claimed                                    // holds a lease, cursor not read
    | Ready(generation: nat, page: Token)        // about to fetch
    | Persisting(generation: nat, page: Token)   // fetched, lease renewed, not yet stored
    | Stored(generation: nat, page: Token)       // stored, cursor not advanced
    | Exhausted(generation: nat)                 // the last page had no successor
    | Gone

  datatype Worker = Worker(lease: Lease, phase: Phase)

  datatype System = System(job: Job, cursor: Option<Cursor>, persisted: set<Token>, workers: seq<Worker>)

  datatype Step =
    | ClaimStep(token: nat, now: int, leaseFor: int)
    | LoadStep(w: nat)
    | BeatStep(w: nat, now: int, leaseFor: int)
    | PersistStep(w: nat)
    | AdvanceStep(w: nat, now: int)
    | CompleteStep(w: nat, now: int, withGaps: bool)
    | GiveUpStep(w: nat, target: JobState, now: int, retryAt: int)
    | CrashStep(w: nat)
    | RecoverStep(now: int)
    | RequeueStep(now: int)
    | CancelStep

  function Put(s: System, w: nat, phase: Phase): System
    requires w < |s.workers|
  {
    s.(workers := s.workers[w := s.workers[w].(phase := phase)])
  }

  // A worker's own step; out of turn it does nothing.
  function WorkerStep(next: Pages, s: System, w: nat, step: Step): System
    requires w < |s.workers|
  {
    var Worker(lease, phase) := s.workers[w];
    match step
    case LoadStep(_) =>
      if phase.Claimed? then Put(s, w, Ready(Generation(s.cursor), TokenOf(s.cursor))) else s
    case BeatStep(_, now, leaseFor) =>
      if !phase.Ready? then s
      else
        Put(s, w, if LeaseHeld(s.job, lease, now) then Persisting(phase.generation, phase.page) else Gone)
          .(job := Heartbeat(s.job, lease, now, leaseFor))
    case PersistStep(_) =>
      if !phase.Persisting? then s
      else Put(s, w, Stored(phase.generation, phase.page)).(persisted := s.persisted + {phase.page})
    case AdvanceStep(_, now) =>
      if !phase.Stored? then s
      else
        var token := next(phase.page);
        var after := if !MayAdvance(s.job, s.cursor, lease, phase.generation, now) then Gone
                     else if token.None? then Exhausted(phase.generation + 1)
                     else Ready(phase.generation + 1, token);
        Put(s, w, after).(cursor := AdvanceCursor(s.job, s.cursor, lease, phase.generation, token, now))
    case CompleteStep(_, now, withGaps) =>
      if !phase.Exhausted? then s
      else Put(s, w, Gone).(job := Finish(s.job, lease, if withGaps then CompletedWithGaps else Succeeded, now, now))
    case GiveUpStep(_, target, now, retryAt) =>
      if phase.Exhausted? || phase.Gone? || target !in {RetryScheduled, Failed, DeadLetter} then s
      else Put(s, w, Gone).(job := Finish(s.job, lease, target, now, retryAt))
    case CrashStep(_) => Put(s, w, Gone)
    case _ => s
  }

  function StepWorker(step: Step): Option<nat> {
    match step
    case LoadStep(w) => Some(w)
    case BeatStep(w, _, _) => Some(w)
    case PersistStep(w) => Some(w)
    case AdvanceStep(w, _) => Some(w)
    case CompleteStep(w, _, _) => Some(w)
    case GiveUpStep(w, _, _, _) => Some(w)
    case CrashStep(w) => Some(w)
    case _ => None
  }

  function Next(next: Pages, s: System, step: Step): System {
    match step
    case ClaimStep(token, now, leaseFor) =>
      if !Claimable(s.job) then s
      else
        s.(job := Claim(s.job, token, now, leaseFor),
           workers := s.workers + [Worker(Lease(token, s.job.generation + 1), Claimed)])
    case RecoverStep(now) => s.(job := RecoverExpired(s.job, now))
    case RequeueStep(now) => s.(job := RequeueDue(s.job, now))
    case CancelStep => s.(job := Cancel(s.job))
    case _ =>
      var w := StepWorker(step);
      if w.Some? && w.value < |s.workers| then WorkerStep(next, s, w.value, step) else s
  }

  function Run(next: Pages, maxAttempts: nat, steps: seq<Step>): System {
    if steps == [] then System(NewJob(maxAttempts), None, {}, [])
    else Next(next, Run(next, maxAttempts, steps[..|steps| - 1]), steps[|steps| - 1])
  }

  /* ---------- invariants ---------- */

  // The page after k fetches from the beginning; after a page without successor it starts over.
  function PageAt(next: Pages, k: nat): Token {
    if k == 0 then None else next(PageAt(next, k - 1))
  }

  ghost predicate StoredBelow(next: Pages, persisted: set<Token>, k: nat) {
    forall i :: 0 <= i < k ==> PageAt(next, i) in persisted
  }

  // Terminal by the outcome of an attempt.
  predicate EndedForGood(state: JobState) {
    Terminal(state) && state != Cancelled
  }

  // Every ended attempt has one row, numbered in order; all are retries but the one that ended the job.
  predicate AttemptsRecorded(j: Job) {
    && |j.ended| == (if j.state == Running then j.attempts - 1 else j.attempts)
    && (forall i :: 0 <= i < |j.ended| ==> j.ended[i].number == i + 1 && j.ended[i].generation == i + 1)
    && (forall i :: 0 <= i < |j.ended| ==>
          j.ended[i].outcome == if i == |j.ended| - 1 && EndedForGood(j.state) then j.state else RetryScheduled)
    && (EndedForGood(j.state) ==> j.ended != [])
    && j.deadLetters == if j.state == DeadLetter then [j.attempts] else []
  }

  predicate JobValid(j: Job) {
    && j.generation == j.attempts <= j.maxAttempts
    && (j.hold.Some? <==> j.state == Running)
    && (j.nextAttemptAt.Some? <==> j.state == RetryScheduled)
    && (j.state == Running ==> j.attempts > 0)
    && (j.state in {Queued, RetryScheduled} && j.maxAttempts > 0 ==> j.attempts < j.maxAttempts)
    && AttemptsRecorded(j)
  }

  // A cursor of generation k names page k, and every page before it is stored.
  ghost predicate CursorValid(next: Pages, c: Option<Cursor>, persisted: set<Token>) {
    c.Some? ==>
      c.value.generation > 0 && c.value.token == PageAt(next, c.value.generation)
      && StoredBelow(next, persisted, c.value.generation)
  }

  ghost predicate PhaseValid(next: Pages, phase: Phase, persisted: set<Token>) {
    match phase
    case Ready(k, page) => page == PageAt(next, k) && StoredBelow(next, persisted, k)
    case Persisting(k, page) => page == PageAt(next, k) && StoredBelow(next, persisted, k)
    case Stored(k, page) => page == PageAt(next, k) && StoredBelow(next, persisted, k + 1)
    case Exhausted(k) => k > 0 && PageAt(next, k) == None && StoredBelow(next, persisted, k)
    case _ => true
  }

  // The generation a worker will compare the cursor with, or has just written.
  function Expected(phase: Phase): Option<nat> {
    match phase
    case Ready(k, _) => Some(k)
    case Persisting(k, _) => Some(k)
    case Stored(k, _) => Some(k)
    case Exhausted(k) => Some(k)
    case _ => None
  }

  // Leases were granted in order; the one of the current generation agrees with the cursor.
  ghost predicate LeasesValid(generation: nat, cursorGeneration: nat, workers: seq<Worker>) {
    && (forall i :: 0 <= i < |workers| ==> 0 < workers[i].lease.generation <= generation)
    && (forall i, j :: 0 <= i < j < |workers| ==> workers[i].lease.generation < workers[j].lease.generation)
    && (forall i :: 0 <= i < |workers| && workers[i].lease.generation == generation && Expected(workers[i].phase).Some?
          ==> Expected(workers[i].phase).value == cursorGeneration)
  }

  ghost predicate PhasesValid(next: Pages, workers: seq<Worker>, persisted: set<Token>) {
    forall i :: 0 <= i < |workers| ==> PhaseValid(next, workers[i].phase, persisted)
  }

  ghost predicate CompletionValid(next: Pages, state: JobState, persisted: set<Token>) {
    Finished(state) ==> exists k :: k > 0 && PageAt(next, k) == None && StoredBelow(next, persisted, k)
  }

  ghost predicate Valid(next: Pages, s: System) {
    && JobValid(s.job)
    && CursorValid(next, s.cursor, s.persisted)
    && LeasesValid(s.job.generation, Generation(s.cursor), s.workers)
    && PhasesValid(next, s.workers, s.persisted)
    && CompletionValid(next, s.job.state, s.persisted)
  }

  lemma EndedStaysValid(j: Job, outcome: JobState, retryAt: int)
    requires JobValid(j) && j.state == Running
    requires outcome in {Succeeded, CompletedWithGaps, Failed, DeadLetter, RetryScheduled}
    requires outcome == RetryScheduled ==> j.attempts < j.maxAttempts
    ensures JobValid(Ended(j, outcome, retryAt))
  {
  }

  // Whatever the step, the job row stays well-formed.
  lemma JobStaysValid(next: Pages, s: System, step: Step)
    requires JobValid(s.job)
    ensures JobValid(Next(next, s, step).job)
  {
    forall outcome: JobState, retryAt: int | && s.job.state == Running
                                             && outcome in {Succeeded, CompletedWithGaps, Failed, DeadLetter, RetryScheduled}
                                             && (outcome == RetryScheduled ==> s.job.attempts < s.job.maxAttempts)
      ensures JobValid(Ended(s.job, outcome, retryAt))
    {
      EndedStaysValid(s.job, outcome, retryAt);
    }
    hide Ended;
  }

  lemma StoredGrows(next: Pages, before: set<Token>, after: set<Token>)
    requires before <= after
    ensures forall k: nat :: StoredBelow(next, before, k) ==> StoredBelow(next, after, k)
  {
  }

  lemma PagesStayValid(next: Pages, s: System, step: Step)
    requires Valid(next, s)
    ensures var t := Next(next, s, step);
            CursorValid(next, t.cursor, t.persisted) && PhasesValid(next, t.workers, t.persisted)
  {
    var t := Next(next, s, step);
    StoredGrows(next, s.persisted, t.persisted);
    hide JobValid, LeasesValid, CompletionValid, Finish, Heartbeat, StoredBelow;
    if step.PersistStep? && step.w < |s.workers| && s.workers[step.w].phase.Persisting? {
      var phase := s.workers[step.w].phase;
      StoredOneMore(next, s.persisted, phase.generation);
    }
  }

  lemma StoredOneMore(next: Pages, persisted: set<Token>, k: nat)
    requires StoredBelow(next, persisted, k)
    ensures StoredBelow(next, persisted + {PageAt(next, k)}, k + 1)
  {
  }

  // One worker moves to another phase; if the cursor moves with it, the worker holds the current lease.
  lemma PhaseMovesKeepLeases(generation: nat, before: nat, after: nat, workers: seq<Worker>, w: nat, phase: Phase)
    requires LeasesValid(generation, before, workers) && w < |workers|
    requires after == before || workers[w].lease.generation == generation
    requires Expected(phase).Some? && workers[w].lease.generation == generation ==> Expected(phase).value == after
    ensures LeasesValid(generation, after, workers[w := workers[w].(phase := phase)])
  {
  }

  lemma ClaimKeepsLeases(s: System, token: nat)
    requires LeasesValid(s.job.generation, Generation(s.cursor), s.workers)
    ensures LeasesValid(s.job.generation + 1, Generation(s.cursor),
                        s.workers + [Worker(Lease(token, s.job.generation + 1), Claimed)])
  {
  }

  lemma LeasesStayValid(next: Pages, s: System, step: Step)
    requires Valid(next, s)
    ensures var t := Next(next, s, step); LeasesValid(t.job.generation, Generation(t.cursor), t.workers)
  {
    hide JobValid, PhasesValid, CompletionValid, CursorValid;
    GenerationMovesOnlyByClaims(next, s, step);
    var t := Next(next, s, step);
    var w := StepWorker(step);
    if step.ClaimStep? {
      ClaimKeepsLeases(s, step.token);
    } else if w.Some? && w.value < |s.workers| {
      WorkerStepMovesOne(next, s, w.value, step);
      hide WorkerStep, LeasesValid;
      PhaseMovesKeepLeases(s.job.generation, Generation(s.cursor), Generation(t.cursor), s.workers, w.value,
                           t.workers[w.value].phase);
    }
  }

  // A worker's step changes its own phase only, and what the phase expects of the cursor stays right.
  lemma WorkerStepMovesOne(next: Pages, s: System, w: nat, step: Step)
    requires w < |s.workers| && LeasesValid(s.job.generation, Generation(s.cursor), s.workers)
    ensures var t := WorkerStep(next, s, w, step);
            && |t.workers| == |s.workers|
            && t.workers == s.workers[w := s.workers[w].(phase := t.workers[w].phase)]
            && (Generation(t.cursor) == Generation(s.cursor) || s.workers[w].lease.generation == s.job.generation)
            && (Expected(t.workers[w].phase).Some? && s.workers[w].lease.generation == s.job.generation ==>
                  Expected(t.workers[w].phase).value == Generation(t.cursor))
  {
    hide Finish, Heartbeat;
    assert s.workers == s.workers[w := s.workers[w]];
    assert Expected(s.workers[w].phase).Some? && s.workers[w].lease.generation == s.job.generation ==>
             Expected(s.workers[w].phase).value == Generation(s.cursor);
    hide LeasesValid;
  }

  lemma GenerationMovesOnlyByClaims(next: Pages, s: System, step: Step)
    ensures Next(next, s, step).job.generation ==
            s.job.generation + if step.ClaimStep? && Claimable(s.job) then 1 else 0
  {
  }

  lemma CompletionStaysValid(next: Pages, s: System, step: Step)
    requires Valid(next, s)
    ensures var t := Next(next, s, step); CompletionValid(next, t.job.state, t.persisted)
  {
    var t := Next(next, s, step);
    StoredGrows(next, s.persisted, t.persisted);
    hide AttemptsRecorded, LeasesValid, StoredBelow, PageAt;
  }

  // Every interleaving of claims, workers, crashes, expiries, retries and cancels keeps the invariants.
  lemma {:induction false} EveryRunIsValid(next: Pages, maxAttempts: nat, steps: seq<Step>)
    ensures Valid(next, Run(next, maxAttempts, steps))
  {
    if steps != [] {
      var s, step := Run(next, maxAttempts, steps[..|steps| - 1]), steps[|steps| - 1];
      EveryRunIsValid(next, maxAttempts, steps[..|steps| - 1]);
      hide *;
      JobStaysValid(next, s, step);
      PagesStayValid(next, s, step);
      LeasesStayValid(next, s, step);
      CompletionStaysValid(next, s, step);
    }
  }
}
