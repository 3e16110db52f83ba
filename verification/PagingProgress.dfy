/** What each step of the paging protocol does to the job, and how the holder of the lease gets on. */
module PagingProgress {
  import opened Wrappers
  import opened Paging
  import opened PagingGuarantees

  /* ---------- the job row ---------- */

  // An expired attempt ends with a row: a retry due at once while attempts are left, a dead letter otherwise.
  lemma ExpiryEffect(next: Pages, s: System, now: int)
    requires JobValid(s.job)
    ensures var after := Next(next, s, RecoverStep(now)).job;
            if s.job.state == Running && s.job.hold.value.expiresAt <= now && s.job.hold.value.startedAt <= now then
              if s.job.attempts < s.job.maxAttempts then EndedAs(s.job, after, RetryScheduled, Some(now))
              else EndedAs(s.job, after, DeadLetter, None)
            else after == s.job
  {
  }

  // A due retry goes back to the queue, and only a due one.
  lemma RequeueEffect(next: Pages, s: System, now: int)
    requires JobValid(s.job) && s.job.maxAttempts > 0
    ensures Next(next, s, RequeueStep(now)).job ==
            if s.job.state == RetryScheduled && s.job.nextAttemptAt.value <= now then
              s.job.(state := Queued, nextAttemptAt := None)
            else s.job
  {
  }

  // Waiting jobs can be cancelled, running and finished ones cannot.
  lemma CancelEffect(next: Pages, s: System)
    requires JobValid(s.job)
    ensures Next(next, s, CancelStep).job ==
            if s.job.state == Queued || s.job.state == RetryScheduled then
              s.job.(state := Cancelled, nextAttemptAt := None)
            else s.job
  {
  }

  // A queued job takes a new worker under the next generation; any other takes none.
  lemma ClaimEffect(next: Pages, s: System, token: nat, now: int, leaseFor: int)
    requires JobValid(s.job) && s.job.maxAttempts > 0
    ensures var after := Next(next, s, ClaimStep(token, now, leaseFor));
            if s.job.state == Queued then
              && after.job.state == Running && after.job.attempts == s.job.attempts + 1
              && after.job.hold == Some(Hold(token, now, now + leaseFor))
              && after.workers == s.workers + [Worker(Lease(token, s.job.generation + 1), Claimed)]
              && after.cursor == s.cursor && after.persisted == s.persisted
            else after == s
  {
  }

  // At any time a running job is held by the lease it shows or is due for recovery, never both, and no other lease
  // ever holds it.
  lemma HeldOrExpired(next: Pages, s: System, l: Lease, now: int)
    requires JobValid(s.job)
    ensures s.job.state == Running && s.job.hold.value.startedAt <= now ==>
              var own := Lease(s.job.hold.value.token, s.job.generation);
              && (LeaseHeld(s.job, own, now) <==> now < s.job.hold.value.expiresAt)
              && (LeaseHeld(s.job, own, now) <==> Next(next, s, RecoverStep(now)).job == s.job)
              && (l != own ==> !LeaseHeld(s.job, l, now))
    ensures s.job.state != Running ==> !LeaseHeld(s.job, l, now)
  {
  }

  /* ---------- the holder of the lease ---------- */

  // The holder of a live lease: the only worker that can move the job.
  predicate HeldBy(s: System, w: nat, now: int) {
    w < |s.workers| && LeaseHeld(s.job, s.workers[w].lease, now)
  }

  // A worker starts from the stored cursor, or from the first page if there is none.
  lemma LoadEffect(next: Pages, s: System, w: nat)
    requires w < |s.workers| && s.workers[w].phase == Claimed
    ensures Next(next, s, LoadStep(w)) ==
            s.(workers := s.workers[w := s.workers[w].(phase :=
                if s.cursor.None? then Ready(0, None) else Ready(s.cursor.value.generation, s.cursor.value.token))])
  {
  }

  // Renewal, storing and advance in turn take the holder past exactly one page: the page is stored, the cursor names
  // its successor, and the worker goes on with it or knows that there is none.
  lemma HolderPassesOnePage(next: Pages, s: System, w: nat, now: int, leaseFor: int, then': int)
    requires Valid(next, s) && HeldBy(s, w, now) && then' < now + leaseFor && s.workers[w].phase.Ready?
    ensures var page := s.workers[w].phase.page;
            var k := s.workers[w].phase.generation;
            var after := RunFrom(next, s, [BeatStep(w, now, leaseFor), PersistStep(w), AdvanceStep(w, then')]);
            && after.persisted == s.persisted + {page}
            && after.cursor == Some(Cursor(next(page), k + 1))
            && |after.workers| == |s.workers|
            && after.workers[w].phase == (if next(page) == None then Exhausted(k + 1) else Ready(k + 1, next(page)))
            && after.job == s.job.(hold := Some(s.job.hold.value.(expiresAt := now + leaseFor)))
  {
    hide AttemptsRecorded, PhasesValid, CompletionValid, PageAt, StoredBelow;
    var a, b, c := BeatStep(w, now, leaseFor), PersistStep(w), AdvanceStep(w, then');
    assert [a, b, c][..2] == [a, b] && [a, b][..1] == [a] && [a][..0] == [];
    var one := Next(next, s, a);
    var two := Next(next, one, b);
    assert RunFrom(next, s, [a]) == one && RunFrom(next, s, [a, b]) == two;
    assert Expected(s.workers[w].phase) == Some(s.workers[w].phase.generation);
    assert s.workers[w].phase.generation == Generation(s.cursor);
    assert two.workers[w] == s.workers[w].(phase := Stored(s.workers[w].phase.generation, s.workers[w].phase.page));
    assert LeaseHeld(two.job, two.workers[w].lease, then');
    hide JobValid, LeasesValid;
  }

  // Past the last page the holder completes the job, with or without gaps as asked.
  lemma HolderCompletes(next: Pages, s: System, w: nat, now: int, withGaps: bool)
    requires HeldBy(s, w, now) && s.workers[w].phase.Exhausted? && s.job.hold.value.startedAt <= now
    ensures EndedAs(s.job, Next(next, s, CompleteStep(w, now, withGaps)).job,
                    if withGaps then CompletedWithGaps else Succeeded, None)
  {
  }

  // A holder that gives up ends the attempt as it asks, but for a retry without attempts left, which is a dead letter.
  lemma HolderGivesUp(next: Pages, s: System, w: nat, target: JobState, now: int, retryAt: int)
    requires HeldBy(s, w, now) && s.job.hold.value.startedAt <= now
    requires var phase := s.workers[w].phase; phase.Claimed? || phase.Ready? || phase.Persisting? || phase.Stored?
    requires target == RetryScheduled || target == Failed || target == DeadLetter
    ensures var after := Next(next, s, GiveUpStep(w, target, now, retryAt)).job;
            if target == RetryScheduled && s.job.attempts < s.job.maxAttempts then
              EndedAs(s.job, after, RetryScheduled, Some(retryAt))
            else EndedAs(s.job, after, if target == RetryScheduled then DeadLetter else target, None)
  {
  }
}
