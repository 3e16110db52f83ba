/** What each transaction on an outbox row does to it, column by column. */
module OutboxEffects {
  import opened Wrappers
  import opened Outbox

  // A row is due when it waits and its time has come, or when it was claimed and the lease has run out; a row under a
  // live lease, a published one and a failed one never are.
  predicate WaitsFor(r: Row, now: int) {
    || (r.state == Pending && r.nextAttemptAt <= now)
    || (r.state == Claimed && r.expiresAt.Some? && r.expiresAt.value <= now)
  }

  lemma DueIsWaiting(r: Row, now: int)
    requires LeaseCheck(r)
    ensures Due(r, now) <==> WaitsFor(r, now)
    ensures r.state == Claimed && r.expiresAt.value > now ==> !Due(r, now)
    ensures r.state == Pending && r.nextAttemptAt > now ==> !Due(r, now)
    ensures r.state == Dispatched || r.state == Failed ==> !Due(r, now)
  {
  }

  // In every history of a row, being CLAIMED, having a token and having an expiry are one and the same.
  lemma ClaimedIsLeased(alpaca: bool, payload: string, record: Option<string>, now: int, steps: seq<Step>)
    ensures var r := Run(alpaca, payload, record, now, steps).store.row;
            && (r.state == Claimed <==> r.token.Some?)
            && (r.state == Claimed <==> r.expiresAt.Some?)
            && r.attempts == r.generation
  {
    EveryHistoryIsValid(alpaca, payload, record, now, steps);
  }

  // A claim takes exactly the due rows: one attempt and one generation more, under a new lease.
  lemma ClaimEffect(s: System, token: nat, now: int, leaseFor: int)
    requires Valid(s)
    ensures var (r, after) := (s.store.row, Next(s, ClaimStep(token, now, leaseFor)));
            if WaitsFor(r, now) then
              && after.store == s.store.(row := Row(Claimed, r.attempts + 1, Some(token), r.generation + 1,
                                                    Some(now + leaseFor), r.nextAttemptAt))
              && after.dispatchers == s.dispatchers + [Dispatcher(token, r.generation + 1, false)]
              && after.tasks == s.tasks
            else after == s
  {
  }

  // The newest dispatcher of a claimed row settles it once: published, or back to wait for another attempt.
  lemma SettlementEffect(s: System, d: nat, retryAt: int)
    requires Valid(s) && d < |s.dispatchers| && !s.dispatchers[d].done
    ensures var r := s.store.row;
            var live := r.state == Claimed && d == |s.dispatchers| - 1;
            && Next(s, PublishedStep(d)).store ==
               (if live then s.store.(row := Row(Dispatched, r.attempts, None, r.generation, None, r.nextAttemptAt))
                else s.store)
            && Next(s, UnpublishedStep(d, retryAt)).store ==
               (if live then s.store.(row := Row(Pending, r.attempts, None, r.generation, None, retryAt)) else s.store)
  {
  }

  // On the default path a delivery inserts the payload exactly when the row is open and the key is free, is content
  // with an equal record, files a rejection beside a different one, and fails for now on anything else.
  lemma DefaultDeliveryEffect(s: System, t: nat, content: Content)
    requires Valid(s) && !s.alpaca && t < |s.tasks| && s.tasks[t] == Waiting
    ensures var (store, after) := (s.store, Next(s, NormalizeStep(t, content)));
            if store.row.state == Failed || content == Unavailable then
              after.store == store && after.tasks[t] == Failing(false)
            else if store.record == None then
              after.store == store.(record := Some(store.payload)) && after.tasks[t] == Ended(true)
            else if store.record == Some(store.payload) then
              after.store == store && after.tasks[t] == Ended(false)
            else
              after.store == store.(rejections := store.rejections + [ImmutableConflict]) && after.tasks[t] == Failing(true)
  {
  }

  // On the market-data path it writes record and state together, unless the row is claimed; unreadable content and a
  // different record are terminal.
  lemma MarketDataDeliveryEffect(s: System, t: nat, content: Content)
    requires Valid(s) && s.alpaca && t < |s.tasks| && s.tasks[t] == Waiting
    ensures var (store, after) := (s.store, Next(s, NormalizeStep(t, content)));
            if content == Unavailable then after.store == store && after.tasks[t] == Failing(false)
            else if content == Unreadable || (store.record.Some? && store.record.value != store.payload) then
              after.store == store && after.tasks[t] == Failing(true)
            else if store.row.state == Claimed then after.store == store && after.tasks[t] == Failing(false)
            else
              && after.store == store.(record := Some(store.payload), row := store.row.(state := Dispatched))
              && after.tasks[t] == Ended(store.record == None)
  {
  }

  // A recorded failure ends the row when it is terminal or the fifth attempt is spent, and otherwise puts it back for
  // a later one; the lease goes either way, and a terminal one leaves a rejection.
  lemma FailureEffect(s: System, t: nat, now: int, retryAfter: int)
    requires Valid(s) && t < |s.tasks| && s.tasks[t].Failing?
    ensures var (store, after, terminal) := (s.store, Next(s, FailureStep(t, now, retryAfter)), s.tasks[t].terminal);
            var r := store.row;
            if r.state == Failed || (terminal && |store.rejections| > 1) then
              after.store == store && after.tasks[t] == Raised
            else
              && after.tasks[t] == Ended(false) && after.store.record == store.record && after.store.payload == store.payload
              && after.store.rejections == (if terminal && store.rejections == [] then [SchemaDrift] else store.rejections)
              && after.store.row == (if terminal || r.attempts >= 5 then
                                       Row(Failed, r.attempts, None, r.generation, None, r.nextAttemptAt)
                                     else Row(Pending, r.attempts, None, r.generation, None, now + retryAfter))
  {
  }
}
