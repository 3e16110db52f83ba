/** The job and cursor rows as mutable state, and one worker's page loop over them. */
module PagingStore {
  import opened Wrappers
  import opened Paging
  import opened PagingGuarantees

  // What goes wrong with a page before it is stored, if anything. A retry delay of zero reads as none given.
  datatype Fault = NoFault | ProviderRetryable(retryAfter: int) | ProviderPermanent | WriteFailed | SchemaDrift

  datatype FinishResult = Recorded | Refused | Aborted

  datatype WorkResult = Done | NotDone | RaisedError

  datatype PageResult = Advanced(next: Token) | Stopped(result: WorkResult)

  // Ten minutes and one minute in microseconds.
  const LEASE: int := 600_000_000
  const RETRY: int := 60_000_000

  class IngestionStore {
    var job: Job
    var cursor: Option<Cursor>
    var persisted: set<Token>

    // A queued job with attempts left gets its next attempt, the next generation and a lease; any other is left alone.
    method ClaimJob(token: nat, now: int, leaseFor: int) returns (lease: Option<Lease>)
      modifies this`job
      ensures job == Claim(old(job), token, now, leaseFor)
      ensures if old(job).state == Queued && old(job).attempts < old(job).maxAttempts then
                && lease == Some(Lease(token, old(job).generation + 1))
                && job == Job(Running, old(job).maxAttempts, old(job).attempts + 1, old(job).generation + 1,
                              Some(Hold(token, now, now + leaseFor)), old(job).nextAttemptAt, old(job).ended,
                              old(job).deadLetters)
              else lease == None && job == old(job)
    {
      if job.state != Queued || job.attempts >= job.maxAttempts {
        return None;
      }
      job := job.(state := Running, attempts := job.attempts + 1, generation := job.generation + 1,
                  hold := Some(Hold(token, now, now + leaseFor)));
      lease := Some(Lease(token, job.generation));
    }

    // A renewed lease is held until leaseFor from now and no longer; a lost one stays lost at every later time.
    method Renew(l: Lease, now: int, leaseFor: int) returns (ok: bool)
      modifies this`job
      ensures job == Heartbeat(old(job), l, now, leaseFor) && ok == LeaseHeld(old(job), l, now)
      ensures ok ==> forall t :: LeaseHeld(job, l, t) <==> t < now + leaseFor
      ensures !ok ==> job == old(job) && forall t :: t >= now ==> !LeaseHeld(job, l, t)
      ensures ok ==> forall other: Lease, t :: other != l ==> !LeaseHeld(job, other, t)
      ensures job.hold.Some? && old(job).hold.Some? ==> job.hold.value.startedAt == old(job).hold.value.startedAt
      ensures job.(hold := old(job).hold) == old(job)
    {
      ok := LeaseHeld(job, l, now);
      if ok {
        job := job.(hold := Some(job.hold.value.(expiresAt := now + leaseFor)));
      }
    }

    method FinishAttempt(l: Lease, target: JobState, now: int, retryAt: int) returns (r: FinishResult)
      modifies this`job
      ensures job == Finish(old(job), l, target, now, retryAt)
      ensures r == Recorded <==> MayFinish(old(job), l, now)
      ensures r == Refused <==> !LeaseHeld(old(job), l, now)
      ensures r != Recorded ==> job == old(job)
      ensures r == Recorded ==>
                if target == RetryScheduled && old(job).attempts < old(job).maxAttempts then
                  EndedAs(old(job), job, RetryScheduled, Some(retryAt))
                else EndedAs(old(job), job, if target == RetryScheduled then DeadLetter else target, None)
    {
      if !LeaseHeld(job, l, now) {
        return Refused;
      }
      if now < job.hold.value.startedAt {
        return Aborted;
      }
      var outcome := target;
      if target == RetryScheduled && job.attempts >= job.maxAttempts {
        outcome := DeadLetter;
      }
      var ended := job.ended + [Attempt(job.attempts, l.generation, outcome)];
      var deadLetters := job.deadLetters;
      if outcome == DeadLetter {
        deadLetters := deadLetters + [job.attempts];
      }
      job := job.(state := outcome, hold := None, ended := ended, deadLetters := deadLetters,
                  nextAttemptAt := if outcome == RetryScheduled then Some(retryAt) else None);
      assert old(job).deadLetters + [] == old(job).deadLetters;
      r := Recorded;
    }

    method Advance(l: Lease, expected: nat, token: Token, now: int) returns (ok: bool)
      modifies this`cursor
      ensures cursor == AdvanceCursor(job, old(cursor), l, expected, token, now)
      ensures ok == MayAdvance(job, old(cursor), l, expected, now)
      ensures ok <==> LeaseHeld(job, l, now) && if expected == 0 then old(cursor) == None
                                                else old(cursor).Some? && old(cursor).value.generation == expected
      ensures cursor == if ok then Some(Cursor(token, expected + 1)) else old(cursor)
    {
      if !LeaseHeld(job, l, now) {
        return false;
      }
      if expected == 0 {
        ok := cursor.None?;
        if ok {
          cursor := Some(Cursor(token, 1));
        }
        return ok;
      }
      ok := cursor.Some? && cursor.value.generation == expected;
      if ok {
        cursor := Some(Cursor(token, cursor.value.generation + 1));
      }
    }

    // One page: fetch it, renew the lease, store it, advance the cursor past it.
    method ProcessPage(next: Pages, lease: Lease, generation: nat, page: Token, fault: Fault,
                       fetchedAt: int, storedAt: int, advancedAt: int)
      returns (r: PageResult)
      requires JobValid(job) && CursorValid(next, cursor, persisted) && !Finished(job.state)
      requires page == PageAt(next, generation) && StoredBelow(next, persisted, generation)
      modifies this
      ensures JobValid(job) && CursorValid(next, cursor, persisted) && !Finished(job.state)
      ensures old(persisted) <= persisted
      ensures r.Advanced? ==> StoredBelow(next, persisted, generation + 1) && job == Heartbeat(old(job), lease, storedAt, LEASE)
                              && r.next == next(page) && cursor == Some(Cursor(r.next, generation + 1))
      ensures r.Stopped? ==> r.result != Done
      // A provider error ends the attempt at the time of the fetch, if the lease is still held then.
      ensures fault.ProviderPermanent? || fault.ProviderRetryable? ==>
                && r.Stopped? && cursor == old(cursor) && persisted == old(persisted)
                && if MayFinish(old(job), lease, fetchedAt) then
                     r.result == NotDone
                     && if fault.ProviderPermanent? then EndedAs(old(job), job, Failed, None)
                        else if old(job).attempts >= old(job).maxAttempts then EndedAs(old(job), job, DeadLetter, None)
                        else EndedAs(old(job), job, RetryScheduled,
                                     Some(fetchedAt + if fault.retryAfter > 0 then fault.retryAfter else 60_000_000))
                   else r.result == RaisedError && job == old(job)
      // A lease lost by the time of storing leaves no trace.
      ensures !fault.ProviderPermanent? && !fault.ProviderRetryable? && !LeaseHeld(old(job), lease, storedAt) ==>
                r == Stopped(NotDone) && job == old(job) && cursor == old(cursor) && persisted == old(persisted)
      // A failed write is retried in a minute, a malformed page never; neither stores anything.
      ensures (fault == WriteFailed || fault == SchemaDrift) && MayFinish(old(job), lease, storedAt) ==>
                && r == Stopped(NotDone) && cursor == old(cursor) && persisted == old(persisted)
                && if fault == SchemaDrift || old(job).attempts >= old(job).maxAttempts then
                     EndedAs(old(job), job, DeadLetter, None)
                   else EndedAs(old(job), job, RetryScheduled, Some(storedAt + 60_000_000))
      ensures fault == WriteFailed || fault == SchemaDrift ==>
                r.Stopped? && cursor == old(cursor) && persisted == old(persisted)
      // Otherwise the page is stored under a lease of ten more minutes.
      ensures fault == NoFault && LeaseHeld(old(job), lease, storedAt) ==>
                && persisted == old(persisted) + {page}
                && job == old(job).(hold := Some(old(job).hold.value.(expiresAt := storedAt + 600_000_000)))
      ensures fault == NoFault && LeaseHeld(old(job), lease, storedAt) && advancedAt < storedAt + LEASE
              && (if generation == 0 then old(cursor).None? else Generation(old(cursor)) == generation)
              ==> r.Advanced?
    {
      hide JobValid, StoredBelow, Finish, PageAt;
      FinishesKeepValid(job, lease);
      if fault.ProviderRetryable? || fault.ProviderPermanent? {
        var delay := if fault.ProviderRetryable? && fault.retryAfter > 0 then fault.retryAfter else RETRY;
        var finish := FinishAttempt(lease, if fault.ProviderPermanent? then Failed else RetryScheduled, fetchedAt,
                                    fetchedAt + delay);
        return Stopped(if finish == Recorded then NotDone else RaisedError);
      }
      HeartbeatKeepsValid(job, lease, storedAt);
      var renewed := Renew(lease, storedAt, LEASE);
      if !renewed {
        return Stopped(NotDone);
      }
      FinishesKeepValid(job, lease);
      if fault == WriteFailed || fault == SchemaDrift {
        var finish := FinishAttempt(lease, if fault == SchemaDrift then DeadLetter else RetryScheduled, storedAt,
                                    storedAt + RETRY);
        return Stopped(if finish == Aborted then RaisedError else NotDone);
      }
      StoredOneMore(next, persisted, generation);
      StoredGrows(next, persisted, persisted + {page});
      persisted := persisted + {page};
      PageFollows(next, generation);
      var advanced := Advance(lease, generation, next(page), advancedAt);
      r := if advanced then Advanced(next(page)) else Stopped(NotDone);
    }

    // Page after page, without interference, until one has no successor (None) or the attempt stops. The chain is
    // finite (its length is `last`); `clock` gives the successive readings of the time.
    method PassPages(next: Pages, lease: Lease, faults: nat -> Fault, clock: nat -> int, ghost now: int, ghost last: nat)
      returns (stopped: Option<WorkResult>, tick: nat, ghost k: nat)
      requires last > 0 && PageAt(next, last) == None
      requires JobValid(job) && CursorValid(next, cursor, persisted) && !Finished(job.state)
      modifies this
      ensures JobValid(job) && CursorValid(next, cursor, persisted) && !Finished(job.state)
      ensures old(persisted) <= persisted
      ensures stopped.Some? ==> stopped.value != Done
      ensures forall i :: 0 <= i < k ==> faults(i) == NoFault
      ensures stopped.None? ==>
                && k > 0 && PageAt(next, Generation(old(cursor)) + k) == None
                && StoredBelow(next, persisted, Generation(old(cursor)) + k)
                && Passed(next, old(cursor), old(persisted), cursor, persisted, k)
      ensures Steady(old(job), lease, clock, now) ==>
                && Passed(next, old(cursor), old(persisted), cursor, persisted, k)
                && if stopped.None? then job == old(job)
                   else stopped.value == NotDone && faults(k) != NoFault && EndedBy(faults(k), old(job), job, now)
    {
      hide JobValid, StoredBelow, Finish, PageAt, Passed, EndedAs;
      ghost var start, stored, held := cursor, persisted, job;
      ghost var steady := Steady(held, lease, clock, now);
      var generation, page := Generation(cursor), TokenOf(cursor);
      CursorIsAStart(next, cursor, persisted);
      var attempt := 0;
      tick, k := 0, 0;
      ghost var stop := (generation + 1) * last;
      StopIsAhead(next, generation, last);
      NothingPassed(next, start, stored);
      var more := true;
      while more
        invariant JobValid(job) && CursorValid(next, cursor, persisted) && stored <= persisted && !Finished(job.state)
        invariant page == PageAt(next, generation) && StoredBelow(next, persisted, generation)
        invariant more ==> generation < stop
        invariant !more ==> attempt > 0 && page == None
        invariant attempt > 0 ==> more == (page != None)
        invariant PageAt(next, stop) == None
        invariant if generation == 0 then cursor.None? else Generation(cursor) == generation
        invariant steady ==> job == held
        invariant generation == Generation(start) + attempt && Passed(next, start, stored, cursor, persisted, attempt)
        invariant forall i :: 0 <= i < attempt ==> faults(i) == NoFault
        decreases stop - generation, more
      {
        k := attempt;
        OneMorePassed(next, start, stored, cursor, persisted, attempt);
        var result := ProcessPage(next, lease, generation, page, faults(attempt),
                                  clock(tick), clock(tick + 1), clock(tick + 2));
        if result.Stopped? {
          return Some(result.result), tick, k;
        }
        PageFollows(next, generation);
        generation, page := generation + 1, result.next;
        attempt, tick := attempt + 1, tick + 3;
        more := page != None;
      }
      k := attempt;
      stopped := None;
    }

    // A whole attempt without interference: claim, page after page, completion.
    method Execute(next: Pages, faults: nat -> Fault, clock: nat -> int, now: int, token: nat, withGaps: bool,
                   ghost last: nat)
      returns (r: WorkResult)
      requires last > 0 && PageAt(next, last) == None
      requires JobValid(job) && CursorValid(next, cursor, persisted)
      modifies this
      ensures JobValid(job) && CursorValid(next, cursor, persisted) && old(persisted) <= persisted
      ensures !Claimable(old(job)) ==> r == NotDone && job == old(job) && cursor == old(cursor)
      ensures r == Done ==> job.state == (if withGaps then CompletedWithGaps else Succeeded)
                            && forall k: nat :: PageAt(next, k) in persisted
      ensures Finished(job.state) && !Finished(old(job).state) ==> r == Done
      ensures Claimable(old(job)) && (forall i :: clock(i) == now && faults(i) == NoFault) ==> r == Done
      // Under a clock that stands still the attempt passes page after page up to the first fault, which ends it its
      // own way, or up to the end of the chain, which completes it.
      ensures Claimable(old(job)) && (forall i :: clock(i) == now) ==>
                exists k: nat ::
                  && Passed(next, old(cursor), old(persisted), cursor, persisted, k)
                  && (forall i :: 0 <= i < k ==> faults(i) == NoFault)
                  && if r == Done then
                       && k > 0 && PageAt(next, Generation(old(cursor)) + k) == None
                       && EndedAs(Claim(old(job), token, now, 600_000_000), job,
                                  if withGaps then CompletedWithGaps else Succeeded, None)
                     else
                       && r == NotDone && faults(k) != NoFault
                       && EndedBy(faults(k), Claim(old(job), token, now, 600_000_000), job, now)
    {
      hide JobValid, StoredBelow, Finish, PageAt, Passed, EndedBy, EndedAs;
      ClaimKeepsValid(job, token, now);
      var claimed := ClaimJob(token, now, LEASE);
      if claimed.None? {
        return NotDone;
      }
      var lease := claimed.value;
      ghost var generation := Generation(cursor);
      ghost var steady := forall i :: clock(i) == now;
      assert steady ==> Steady(job, lease, clock, now);
      var stopped, tick, k := PassPages(next, lease, faults, clock, now, last);
      if stopped.Some? {
        return stopped.value;
      }
      FinishesKeepValid(job, lease);
      var finish := FinishAttempt(lease, if withGaps then CompletedWithGaps else Succeeded, clock(tick), clock(tick));
      if finish != Recorded {
        assert !steady;
        return RaisedError;
      }
      forall n: nat
        ensures PageAt(next, n) in persisted
      {
        ChainRepeats(next, generation + k, n, persisted);
      }
      r := Done;
    }
  }

  // A clock that stands still during a lease of ten minutes granted at that time.
  ghost predicate Steady(j: Job, lease: Lease, clock: nat -> int, now: int) {
    && (forall i :: clock(i) == now)
    && LeaseHeld(j, lease, now) && j.hold.value.startedAt <= now && j.hold.value.expiresAt == now + 600_000_000
  }

  ghost predicate IsPageBetween(next: Pages, from: nat, to: nat, p: Token) {
    exists i: nat :: from <= i < to && PageAt(next, i) == p
  }

  lemma OnePageMore(next: Pages, from: nat, to: nat, p: Token)
    requires from <= to
    ensures IsPageBetween(next, from, to + 1, p) <==> IsPageBetween(next, from, to, p) || p == PageAt(next, to)
  {
    if p == PageAt(next, to) {
      assert from <= to < to + 1 && PageAt(next, to) == p;
    }
    if IsPageBetween(next, from, to, p) {
      var i: nat :| from <= i < to && PageAt(next, i) == p;
      assert from <= i < to + 1;
    }
  }

  // What a worker without interference has done after k pages: the cursor is k pages on and exactly those are stored.
  ghost predicate Passed(next: Pages, start: Option<Cursor>, stored: set<Token>, cursor: Option<Cursor>,
                         persisted: set<Token>, k: nat)
  {
    && (if k == 0 then cursor == start
        else cursor == Some(Cursor(PageAt(next, Generation(start) + k), Generation(start) + k)))
    && (forall p :: p in persisted <==> p in stored || IsPageBetween(next, Generation(start), Generation(start) + k, p))
    && (forall i: nat :: Generation(start) < i < Generation(start) + k ==> PageAt(next, i) != None)
  }

  // How a fault ends the attempt.
  ghost predicate EndedBy(fault: Fault, before: Job, after: Job, now: int) {
    match fault
    case NoFault => false
    case ProviderPermanent => EndedAs(before, after, Failed, None)
    case SchemaDrift => EndedAs(before, after, DeadLetter, None)
    case ProviderRetryable(retryAfter) =>
      if before.attempts >= before.maxAttempts then EndedAs(before, after, DeadLetter, None)
      else EndedAs(before, after, RetryScheduled, Some(now + if retryAfter > 0 then retryAfter else 60_000_000))
    case WriteFailed =>
      if before.attempts >= before.maxAttempts then EndedAs(before, after, DeadLetter, None)
      else EndedAs(before, after, RetryScheduled, Some(now + 60_000_000))
  }

  lemma NothingPassed(next: Pages, start: Option<Cursor>, stored: set<Token>)
    ensures Passed(next, start, stored, start, stored, 0)
  {
  }

  lemma OneMorePassed(next: Pages, start: Option<Cursor>, stored: set<Token>, cursor: Option<Cursor>, persisted: set<Token>,
                      k: nat)
    requires Passed(next, start, stored, cursor, persisted, k)
    requires k > 0 ==> PageAt(next, Generation(start) + k) != None
    ensures var g := Generation(start) + k;
            Passed(next, start, stored, Some(Cursor(PageAt(next, g + 1), g + 1)), persisted + {PageAt(next, g)}, k + 1)
  {
    hide PageAt;
    var g := Generation(start);
    var after := persisted + {PageAt(next, g + k)};
    forall p
      ensures p in after <==> p in stored || IsPageBetween(next, g, g + k + 1, p)
    {
      OnePageMore(next, g, g + k, p);
    }
    hide IsPageBetween;
  }

  lemma CursorIsAStart(next: Pages, c: Option<Cursor>, persisted: set<Token>)
    requires CursorValid(next, c, persisted)
    ensures TokenOf(c) == PageAt(next, Generation(c)) && StoredBelow(next, persisted, Generation(c))
    ensures Generation(c) == 0 <==> c.None?
  {
  }

  lemma PageFollows(next: Pages, k: nat)
    ensures PageAt(next, k + 1) == next(PageAt(next, k))
  {
  }

  lemma ClaimKeepsValid(j: Job, token: nat, now: int)
    requires JobValid(j)
    ensures JobValid(Claim(j, token, now, LEASE))
  {
  }

  lemma HeartbeatKeepsValid(j: Job, l: Lease, now: int)
    requires JobValid(j)
    ensures JobValid(Heartbeat(j, l, now, LEASE))
  {
  }

  lemma FinishesKeepValid(j: Job, l: Lease)
    requires JobValid(j)
    ensures forall target: JobState, now: int, retryAt: int ::
              target in {Succeeded, CompletedWithGaps, Failed, DeadLetter, RetryScheduled}
              ==> (var after := Finish(j, l, target, now, retryAt);
                   && JobValid(after)
                   && (MayFinish(j, l, now) ==> (Finished(after.state) <==> Finished(target)))
                   && (!MayFinish(j, l, now) ==> after == j))
  {
    forall target: JobState, now: int, retryAt: int
      | target in {Succeeded, CompletedWithGaps, Failed, DeadLetter, RetryScheduled}
      ensures var after := Finish(j, l, target, now, retryAt);
              && JobValid(after)
              && (MayFinish(j, l, now) ==> (Finished(after.state) <==> Finished(target)))
              && (!MayFinish(j, l, now) ==> after == j)
    {
      if MayFinish(j, l, now) {
        EndedStaysValid(j, Outcome(j, target), retryAt);
      }
    }
  }

  // Past any generation there is a later point where the chain has ended again.
  lemma StopIsAhead(next: Pages, generation: nat, last: nat)
    requires last > 0 && PageAt(next, last) == None
    ensures generation < (generation + 1) * last && PageAt(next, (generation + 1) * last) == None
  {
    EndsAtMultiples(next, last, generation + 1);
    assert generation * (last - 1) >= 0;
  }

  lemma {:induction false} EndsAtMultiples(next: Pages, last: nat, m: nat)
    requires last > 0 && PageAt(next, last) == None
    ensures PageAt(next, m * last) == None
  {
    if m > 0 {
      EndsAtMultiples(next, last, m - 1);
      ShiftByChain(next, (m - 1) * last, last);
      assert (m - 1) * last + last == m * last;
    }
  }
}
