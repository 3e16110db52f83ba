/** What every interleaving over an outbox row guarantees, and where a guarantee stops. */
module OutboxGuarantees {
  import opened Wrappers
  import opened Outbox

  /* ---------- fencing ---------- */

  // A dispatcher changes the row exactly when it still holds the newest lease.
  lemma DispatcherActsExactlyUnderItsLease(s: System, d: nat, retryAt: int)
    requires Valid(s) && d < |s.dispatchers| && !s.dispatchers[d].done
    ensures var newest := d == |s.dispatchers| - 1 && s.store.row.state == Claimed;
            && (Next(s, PublishedStep(d)).store != s.store <==> newest)
            && (Next(s, UnpublishedStep(d, retryAt)).store != s.store <==> newest)
            && (newest ==> Next(s, PublishedStep(d)).store.row.state == Dispatched
                           && Next(s, UnpublishedStep(d, retryAt)).store.row.state == Pending)
  {
  }

  // The dispatcher a step belongs to.
  function Acting(step: Step): Option<nat> {
    match step
    case PublishedStep(d) => Some(d)
    case UnpublishedStep(d, _) => Some(d)
    case _ => None
  }

  // Once a later claim exists, an older dispatcher can never change the row again, at any later point.
  lemma SupersededDispatcherIsInert(s: System, steps: seq<Step>, step: Step)
    requires Valid(s) && Acting(step).Some? && Acting(step).value < |s.dispatchers| - 1
    ensures Next(RunFrom(s, steps), step).store == RunFrom(s, steps).store
  {
    EveryRunIsValid(s, steps);
    ClaimsOnlyGrow(s, steps);
  }

  // Claims are numbered 1, 2, 3, ... and never forgotten; every claim raises the generation by one.
  lemma {:induction false} ClaimsOnlyGrow(s: System, steps: seq<Step>)
    requires Valid(s)
    ensures var t := RunFrom(s, steps);
            && |s.dispatchers| <= |t.dispatchers|
            && s.store.row.generation <= t.store.row.generation
  {
    if steps != [] {
      var before, step := RunFrom(s, steps[..|steps| - 1]), steps[|steps| - 1];
      ClaimsOnlyGrow(s, steps[..|steps| - 1]);
      EveryRunIsValid(s, steps[..|steps| - 1]);
      GenerationMovesOnlyByClaims(before, step);
    }
  }

  lemma GenerationMovesOnlyByClaims(s: System, step: Step)
    requires Valid(s)
    ensures var t := Next(s, step);
            && (step.ClaimStep? && Due(s.store.row, step.now) <==> t.store.row.generation == s.store.row.generation + 1)
            && (!(step.ClaimStep? && Due(s.store.row, step.now)) ==> t.store.row.generation == s.store.row.generation)
  {
  }

  /* ---------- the record ---------- */

  // A record, once there, never changes; one that appears is the row's own payload, which never changes either.
  lemma {:induction false} RecordIsImmutable(s: System, steps: seq<Step>)
    ensures var t := RunFrom(s, steps);
            && t.store.payload == s.store.payload
            && (s.store.record.Some? ==> t.store.record == s.store.record)
            && (s.store.record.None? ==> t.store.record in {None, Some(s.store.payload)})
  {
    if steps != [] {
      RecordIsImmutable(s, steps[..|steps| - 1]);
    }
  }

  // At most one delivery ever reports that it inserted the record.
  lemma {:induction false} InsertedOnce(s: System, steps: seq<Step>)
    requires Valid(s) && forall i :: 0 <= i < |s.tasks| ==> s.tasks[i] != Ended(true)
    ensures var t := RunFrom(s, steps);
            && (forall i, j :: 0 <= i < j < |t.tasks| ==> t.tasks[i] != Ended(true) || t.tasks[j] != Ended(true))
            && ((exists i :: 0 <= i < |t.tasks| && t.tasks[i] == Ended(true)) ==>
                  s.store.record.None? && t.store.record == Some(t.store.payload))
  {
    if steps != [] {
      InsertedOnce(s, steps[..|steps| - 1]);
      EveryRunIsValid(s, steps[..|steps| - 1]);
      InsertionStep(RunFrom(s, steps[..|steps| - 1]), steps[|steps| - 1]);
      RecordIsImmutable(s, steps[..|steps| - 1]);
    }
  }

  lemma InsertionStep(s: System, step: Step)
    requires Valid(s)
    ensures var t := Next(s, step);
            && |s.tasks| <= |t.tasks|
            && (forall i :: 0 <= i < |t.tasks| && t.tasks[i] == Ended(true) ==>
                  || (i < |s.tasks| && s.tasks[i] == Ended(true))
                  || (step.NormalizeStep? && i == step.t && s.store.record.None?))
            && (s.store.record.Some? ==> t.store.record == s.store.record)
            && (forall i :: 0 <= i < |t.tasks| && t.tasks[i] == Ended(true) ==>
                  (i < |s.tasks| && s.tasks[i] == Ended(true)) || t.store.record == Some(t.store.payload))
            && t.store.payload == s.store.payload
  {
  }

  // Delivering the message again after the record is there changes nothing at all on the default path.
  lemma RedeliveryIsIdempotent(s: System, t: nat, content: Content)
    requires !s.alpaca && s.store.record == Some(s.store.payload) && t < |s.tasks|
    ensures Next(s, NormalizeStep(t, content)).store == s.store
  {
  }

  /* ---------- FAILED ---------- */

  // FAILED is left only by a market-data task whose content is readable, and then with the record in place.
  lemma FailedIsLeftOnlyByMarketData(s: System, step: Step)
    requires Valid(s) && s.store.row.state == Failed
    ensures Next(s, step).store.row != s.store.row <==>
            (&& s.alpaca && step.NormalizeStep? && step.t < |s.tasks| && s.tasks[step.t] == Waiting
             && step.content == Readable && s.store.record in {None, Some(s.store.payload)})
    ensures Next(s, step).store.row != s.store.row ==>
              Next(s, step).store.row.state == Dispatched && Next(s, step).store.record == Some(s.store.payload)
  {
  }

  // On the default path FAILED is final: neither the row nor the record moves again.
  lemma {:induction false} FailedIsFinalByDefault(s: System, steps: seq<Step>)
    requires Valid(s) && !s.alpaca && s.store.row.state == Failed
    ensures RunFrom(s, steps).store == s.store && !RunFrom(s, steps).alpaca
  {
    if steps != [] {
      FailedIsFinalByDefault(s, steps[..|steps| - 1]);
    }
  }

  // A non-terminal failure gives up only after the attempt budget is spent on claims.
  lemma BudgetIsSpentBeforeFailing(s: System, step: Step)
    requires Valid(s) && s.store.row.state != Failed && Next(s, step).store.row.state == Failed
    ensures step.FailureStep? && step.t < |s.tasks| && s.tasks[step.t].Failing?
    ensures s.tasks[step.t].terminal || |s.dispatchers| >= MAX_ATTEMPTS
    ensures s.tasks[step.t].terminal ==> Next(s, step).store.rejections != []
  {
  }

  /* ---------- where it breaks down ---------- */

  // The market-data write commits exactly when the content is readable, no other record is there and the row is not
  // CLAIMED: a worker faster than the dispatcher that woke it loses its whole transaction.
  lemma MarketDataCommitsExactlyOutsideClaims(s: System, t: nat, content: Content)
    requires Valid(s) && s.alpaca && t < |s.tasks| && s.tasks[t].Waiting?
    ensures var n := Next(s, NormalizeStep(t, content));
            && (n.tasks[t].Ended? <==>
                 (&& content == Readable && s.store.record in {None, Some(s.store.payload)}
                  && s.store.row.state != Claimed))
            && (n.tasks[t].Ended? ==> n.store.record == Some(s.store.payload) && n.store.row.state == Dispatched)
            && (!n.tasks[t].Ended? ==> n.store == s.store)
  {
  }

  // The lost write also takes the lease from its dispatcher: the row goes back to PENDING although it was published.
  lemma FastWorkerUndoesItsDispatcher(s: System, t: nat, now: int, retryAfter: int)
    requires Valid(s) && s.alpaca && s.store.row.state == Claimed && s.store.row.attempts < MAX_ATTEMPTS
    requires s.store.record.None? && t < |s.tasks| && s.tasks[t].Waiting?
    ensures var d := |s.dispatchers| - 1;
            var after := RunFrom(s, [NormalizeStep(t, Readable), FailureStep(t, now, retryAfter), PublishedStep(d)]);
            after.store.row.state == Pending && after.store.record.None?
  {
    var a, b, c := NormalizeStep(t, Readable), FailureStep(t, now, retryAfter), PublishedStep(|s.dispatchers| - 1);
    assert [a, b, c][..2] == [a, b] && [a, b][..1] == [a] && [a][..0] == [];
    assert RunFrom(s, [a]) == Next(s, a);
    assert RunFrom(s, [a, b]) == Next(Next(s, a), b);
  }

  // A terminal failure takes effect exactly while at most one rejection exists, so once two overlapping
  // deliveries have each filed a conflict, no terminal failure is ever recorded again.
  lemma {:induction false} TwoRejectionsBlockTerminalFailure(s: System, steps: seq<Step>, t: nat, now: int, retryAfter: int)
    requires |s.store.rejections| >= 2
    ensures var u := RunFrom(s, steps);
            && |u.store.rejections| >= 2
            && (t < |u.tasks| && u.tasks[t] == Failing(true) ==>
                  Next(u, FailureStep(t, now, retryAfter)).store == u.store
                  && Next(u, FailureStep(t, now, retryAfter)).tasks[t] == Raised)
  {
    if steps != [] {
      TwoRejectionsBlockTerminalFailure(s, steps[..|steps| - 1], t, now, retryAfter);
    }
  }

  // Two deliveries against another writer's record reach that point from a new row.
  lemma TwoConflictsAreReachable(payload: string, other: string, now: int)
    requires payload != other
    ensures var s := Run(false, payload, Some(other), now,
                         [DeliverStep, DeliverStep, NormalizeStep(0, Readable), NormalizeStep(1, Readable)]);
            && |s.store.rejections| == 2 && s.tasks == [Failing(true), Failing(true)]
            && s.store.row.state == Pending
  {
    var a, b, c := DeliverStep, NormalizeStep(0, Readable), NormalizeStep(1, Readable);
    var s0 := System(false, NewStore(payload, Some(other), now), [], []);
    assert [a, a, b, c][..3] == [a, a, b] && [a, a, b][..2] == [a, a] && [a, a][..1] == [a] && [a][..0] == [];
    assert RunFrom(s0, [a]).tasks == [Waiting];
    assert RunFrom(s0, [a, a]).tasks == [Waiting, Waiting];
    assert RunFrom(s0, [a, a, b]).tasks == [Failing(true), Waiting];
  }

  // Without an overlap the first terminal failure is recorded: the row is FAILED with exactly one rejection.
  lemma FirstTerminalFailureIsRecorded(s: System, t: nat, now: int, retryAfter: int)
    requires Valid(s) && t < |s.tasks| && s.tasks[t] == Failing(true)
    ensures var n := Next(s, FailureStep(t, now, retryAfter));
            (n.tasks[t] == Ended(false) && n.store.row.state == Failed && |n.store.rejections| == 1)
            <==> s.store.row.state != Failed && |s.store.rejections| <= 1
  {
  }
}
