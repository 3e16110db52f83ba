/** The outbox table as mutable state: the dispatch pass and the two transactions of a normalization task. */
module OutboxStore {
  import opened Wrappers
  import opened Outbox

  type RowId = nat

  datatype Lease = Lease(id: RowId, token: nat, generation: nat)

  datatype InputError = NotPositive

  // The rows that wait and whose time has come, and the claimed ones whose lease has run out.
  function DueRows(rows: map<RowId, Store>, now: int): (due: set<RowId>)
    ensures forall id :: id in due <==>
              id in rows && var r := rows[id].row;
              || (r.state == Pending && r.nextAttemptAt <= now)
              || (r.state == Claimed && r.expiresAt.Some? && r.expiresAt.value <= now)
  {
    set id | id in rows && Due(rows[id].row, now)
  }

  // ORDER BY next_attempt_at: nothing left is due for longer.
  predicate IsNext(rows: map<RowId, Store>, rest: set<RowId>, id: RowId)
    requires rest <= rows.Keys
  {
    id in rest && forall other :: other in rest ==> rows[id].row.nextAttemptAt <= rows[other].row.nextAttemptAt
  }

  lemma {:induction false} NextExists(rows: map<RowId, Store>, rest: set<RowId>)
    requires rest <= rows.Keys && rest != {}
    ensures exists id :: IsNext(rows, rest, id)
  {
    var first := HasMember(rest);
    var others := rest - {first};
    assert rest == others + {first};
    if others != {} {
      NextExists(rows, others);
      var best :| IsNext(rows, others, best);
      if rows[best].row.nextAttemptAt <= rows[first].row.nextAttemptAt {
        assert IsNext(rows, rest, best);
      } else {
        assert IsNext(rows, rest, first);
      }
    } else {
      assert IsNext(rows, rest, first);
    }
  }

  // Distinct due rows, those due longest and in that order, as many as the limit allows.
  ghost predicate IsSelection(ids: seq<RowId>, rows: map<RowId, Store>, now: int, limit: int) {
    && |ids| <= limit
    && (forall i, j :: 0 <= i < j < |ids| ==> ids[i] != ids[j])
    && (forall i :: 0 <= i < |ids| ==> ids[i] in DueRows(rows, now))
    && (forall i, j :: 0 <= i < j < |ids| ==> rows[ids[i]].row.nextAttemptAt <= rows[ids[j]].row.nextAttemptAt)
    && (forall i, id :: 0 <= i < |ids| && id in DueRows(rows, now) && id !in ids ==>
          rows[ids[i]].row.nextAttemptAt <= rows[id].row.nextAttemptAt)
    && (|ids| < limit ==> forall id :: id in DueRows(rows, now) ==> id in ids)
  }

  function PublishedCount(ids: seq<RowId>, published: RowId -> bool): nat {
    if ids == [] then 0
    else PublishedCount(ids[..|ids| - 1], published) + if published(ids[|ids| - 1]) then 1 else 0
  }

  // It counts the ids the broker took, each once.
  lemma {:induction false} PublishedCountIsTheNumberTaken(ids: seq<RowId>, published: RowId -> bool)
    requires forall i, j :: 0 <= i < j < |ids| ==> ids[i] != ids[j]
    ensures PublishedCount(ids, published) == |set id | id in ids && published(id)|
  {
    if ids != [] {
      var front, last := ids[..|ids| - 1], ids[|ids| - 1];
      assert ids == front + [last];
      PublishedCountIsTheNumberTaken(front, published);
      var before, after := set id | id in front && published(id), set id | id in ids && published(id);
      assert after == if published(last) then before + {last} else before;
      assert last !in before;
    } else {
      assert (set id | id in ids && published(id)) == {};
    }
  }

  // A row after its claim was settled: no lease, one attempt and one generation further.
  function AfterPass(s: Store, now: int, retryAfter: int, published: bool): Store {
    s.(row := Row(if published then Dispatched else Pending, s.row.attempts + 1, None, s.row.generation + 1, None,
                  if published then s.row.nextAttemptAt else now + retryAfter))
  }

  ghost predicate IsPass(ids: seq<RowId>, before: map<RowId, Store>, after: map<RowId, Store>, now: int,
                         retryAfter: int, published: RowId -> bool)
  {
    && after.Keys == before.Keys
    && (forall id :: id in ids ==> id in before && after[id] == AfterPass(before[id], now, retryAfter, published(id)))
    && (forall id :: id in before && id !in ids ==> after[id] == before[id])
  }

  lemma SelectedOnce(ids: seq<RowId>, rows: map<RowId, Store>, now: int, limit: int)
    requires IsSelection(ids, rows, now, limit)
    ensures Selected(ids, rows)
  {
  }

  function Settle(s: Store, c: Lease, published: bool, retryAt: int): Store {
    s.(row := if published then MarkDispatched(s.row, c.token, c.generation)
              else MarkUnpublished(s.row, c.token, c.generation, retryAt))
  }

  // The k-th selected row gets the k-th token.
  function LeaseOf(rows: map<RowId, Store>, ids: seq<RowId>, tokens: nat -> nat, k: nat): Lease
    requires k < |ids| && ids[k] in rows
  {
    Lease(ids[k], tokens(k), rows[ids[k]].row.generation + 1)
  }

  function ClaimedStore(s: Store, token: nat, now: int, leaseFor: int): Store {
    s.(row := Claim(s.row, token, now, leaseFor))
  }

  function ClaimWith(tokens: nat -> nat, now: int, leaseFor: int): (nat, Store) -> Store {
    (i: nat, s: Store) => ClaimedStore(s, tokens(i), now, leaseFor)
  }

  function SettleWith(claims: seq<Lease>, published: RowId -> bool, retryAt: int): (nat, Store) -> Store {
    (i: nat, s: Store) => if i < |claims| then Settle(s, claims[i], published(claims[i].id), retryAt) else s
  }

  ghost predicate Selected(ids: seq<RowId>, rows: map<RowId, Store>) {
    && (forall i :: 0 <= i < |ids| ==> ids[i] in rows)
    && (forall i, j :: 0 <= i < j < |ids| ==> ids[i] != ids[j])
  }

  // The first k selected rows hold f of what they held before; every other row is as it was.
  ghost predicate Replaced(before: map<RowId, Store>, after: map<RowId, Store>, ids: seq<RowId>, k: nat,
                           f: (nat, Store) -> Store)
    requires Selected(ids, before) && k <= |ids|
  {
    && after.Keys == before.Keys
    && (forall i :: 0 <= i < k ==> after[ids[i]] == f(i, before[ids[i]]))
    && (forall id :: id in before && id !in ids[..k] ==> after[id] == before[id])
  }

  // The k-th selected row is claimed under the k-th token until leaseFor from now, for its next attempt and generation.
  ghost predicate ClaimedRows(before: map<RowId, Store>, after: map<RowId, Store>, ids: seq<RowId>, tokens: nat -> nat,
                              now: int, leaseFor: int)
    requires Selected(ids, before)
  {
    forall i :: 0 <= i < |ids| ==>
      ids[i] in after
      && var r := before[ids[i]].row;
      after[ids[i]] == before[ids[i]].(row := Row(Claimed, r.attempts + 1, Some(tokens(i)), r.generation + 1,
                                                  Some(now + leaseFor), r.nextAttemptAt))
  }

  lemma ReplacedRowsAreClaimed(before: map<RowId, Store>, after: map<RowId, Store>, ids: seq<RowId>, tokens: nat -> nat,
                               now: int, leaseFor: int)
    requires Selected(ids, before) && Replaced(before, after, ids, |ids|, ClaimWith(tokens, now, leaseFor))
    ensures ClaimedRows(before, after, ids, tokens, now, leaseFor)
  {
  }

  lemma NothingReplaced(before: map<RowId, Store>, ids: seq<RowId>, f: (nat, Store) -> Store)
    requires Selected(ids, before)
    ensures Replaced(before, before, ids, 0, f)
  {
  }

  lemma ReplacedOneMore(before: map<RowId, Store>, after: map<RowId, Store>, ids: seq<RowId>, k: nat,
                        f: (nat, Store) -> Store)
    requires Selected(ids, before) && k < |ids| && Replaced(before, after, ids, k, f)
    ensures ids[k] in after && after[ids[k]] == before[ids[k]]
    ensures Replaced(before, after[ids[k] := f(k, before[ids[k]])], ids, k + 1, f)
  {
    assert ids[..k + 1] == ids[..k] + [ids[k]];
  }

  // Settling a fresh claim ends the pass for its row.
  lemma SettledClaim(s: Store, id: RowId, token: nat, now: int, leaseFor: int, published: bool, retryAfter: int)
    ensures var claimed := ClaimedStore(s, token, now, leaseFor);
            && Settle(claimed, Lease(id, token, s.row.generation + 1), published, now + retryAfter) ==
               AfterPass(s, now, retryAfter, published)
            && Holds(claimed.row, token, s.row.generation + 1)
  {
  }

  // Claiming the selected rows and then settling every claim is one pass over them.
  lemma PassComposes(before: map<RowId, Store>, claimed: map<RowId, Store>, ids: seq<RowId>, claims: seq<Lease>, now: int,
                     leaseFor: int, retryAfter: int, tokens: nat -> nat, published: RowId -> bool)
    requires Selected(ids, before) && Selected(ids, claimed) && |claims| == |ids|
    requires forall i :: 0 <= i < |ids| ==> claims[i] == LeaseOf(before, ids, tokens, i)
    requires Replaced(before, claimed, ids, |ids|, ClaimWith(tokens, now, leaseFor))
    ensures forall i :: 0 <= i < |ids| ==> Holds(claimed[ids[i]].row, claims[i].token, claims[i].generation)
    ensures forall after ::
              Replaced(claimed, after, ids, |ids|, SettleWith(claims, published, now + retryAfter))
              ==> IsPass(ids, before, after, now, retryAfter, published)
  {
    forall i | 0 <= i < |ids|
      ensures Settle(claimed[ids[i]], claims[i], published(ids[i]), now + retryAfter) ==
              AfterPass(before[ids[i]], now, retryAfter, published(ids[i]))
      ensures Holds(claimed[ids[i]].row, claims[i].token, claims[i].generation)
    {
      SettledClaim(before[ids[i]], ids[i], tokens(i), now, leaseFor, published(ids[i]), retryAfter);
    }
    hide Settle, AfterPass, Holds, ClaimedStore;
    assert ids[..|ids|] == ids;
  }

  // What a selection under way has taken, and what it has left.
  ghost predicate IsPrefixOfSelection(ids: seq<RowId>, rest: set<RowId>, rows: map<RowId, Store>, now: int) {
    && (forall id :: id in DueRows(rows, now) <==> id in rest || id in ids)
    && (forall i :: 0 <= i < |ids| ==> ids[i] !in rest)
    && (forall i, j :: 0 <= i < j < |ids| ==> ids[i] != ids[j])
    && (forall i :: 0 <= i < |ids| ==> ids[i] in rows)
    && (forall i, j :: 0 <= i < j < |ids| ==> rows[ids[i]].row.nextAttemptAt <= rows[ids[j]].row.nextAttemptAt)
    && (forall i, id :: 0 <= i < |ids| && id in rest && id in rows ==>
          rows[ids[i]].row.nextAttemptAt <= rows[id].row.nextAttemptAt)
  }

  lemma SelectNext(ids: seq<RowId>, rest: set<RowId>, rows: map<RowId, Store>, now: int, id: RowId)
    requires IsPrefixOfSelection(ids, rest, rows, now) && rest <= rows.Keys && IsNext(rows, rest, id)
    ensures id in rest && IsPrefixOfSelection(ids + [id], rest - {id}, rows, now)
  {
    hide Due;
    var more := ids + [id];
    assert forall other :: other in more <==> other in ids || other == id;
  }

  class OutboxTable {
    var rows: map<RowId, Store>

    method SetRow(id: RowId, row: Row)
      requires id in rows
      modifies this
      ensures rows == old(rows)[id := old(rows)[id].(row := row)]
    {
      rows := rows[id := rows[id].(row := row)];
    }

    method SelectDue(now: int, limit: int) returns (ids: seq<RowId>)
      requires limit >= 1
      ensures IsSelection(ids, rows, now, limit)
    {
      hide Due, IsNext;
      ids := [];
      var rest := DueRows(rows, now);
      while |ids| < limit && rest != {}
        invariant |ids| <= limit && IsPrefixOfSelection(ids, rest, rows, now)
        decreases |rest|
      {
        NextExists(rows, rest);
        var id :| IsNext(rows, rest, id);
        SelectNext(ids, rest, rows, now, id);
        ids, rest := ids + [id], rest - {id};
      }
    }

    // One lease per selected row, of its next generation.
    method ClaimDue(now: int, leaseFor: int, limit: int, tokens: nat -> nat) returns (ids: seq<RowId>, claims: seq<Lease>)
      requires limit >= 1
      modifies this
      ensures IsSelection(ids, old(rows), now, limit) && Selected(ids, old(rows))
      ensures |claims| == |ids| && forall i :: 0 <= i < |ids| ==> claims[i] == LeaseOf(old(rows), ids, tokens, i)
      ensures Replaced(old(rows), rows, ids, |ids|, ClaimWith(tokens, now, leaseFor))
      ensures ClaimedRows(old(rows), rows, ids, tokens, now, leaseFor)
    {
      ghost var before := rows;
      ids := SelectDue(now, limit);
      SelectedOnce(ids, rows, now, limit);
      ghost var f := ClaimWith(tokens, now, leaseFor);
      hide IsSelection, DueRows, Claim, Replaced, ClaimedRows;
      claims := [];
      NothingReplaced(before, ids, f);
      while |claims| < |ids|
        invariant |claims| <= |ids|
        invariant forall i :: 0 <= i < |claims| ==> claims[i] == LeaseOf(before, ids, tokens, i)
        invariant Replaced(before, rows, ids, |claims|, f)
      {
        var i := |claims|;
        ReplacedOneMore(before, rows, ids, i, f);
        var id := ids[i];
        var lease := Lease(id, tokens(i), rows[id].row.generation + 1);
        SetRow(id, Claim(rows[id].row, tokens(i), now, leaseFor));
        claims := claims + [lease];
      }
      ReplacedRowsAreClaimed(before, rows, ids, tokens, now, leaseFor);
    }

    // Publishing one claimed row: DISPATCHED if the broker took it, PENDING with a later retry if not.
    method SettleClaim(c: Lease, published: bool, retryAt: int) returns (dispatched: bool)
      requires c.id in rows
      modifies this
      ensures rows == old(rows)[c.id := Settle(old(rows)[c.id], c, published, retryAt)]
      ensures dispatched <==> published && Holds(old(rows)[c.id].row, c.token, c.generation)
    {
      var row := rows[c.id].row;
      var held := row.state == Claimed && row.token == Some(c.token) && row.generation == c.generation;
      if held {
        row := row.(state := if published then Dispatched else Pending, token := None, expiresAt := None);
        if !published {
          row := row.(nextAttemptAt := retryAt);
        }
      }
      SetRow(c.id, row);
      dispatched := published && held;
    }

    method SettleClaims(ids: seq<RowId>, claims: seq<Lease>, published: RowId -> bool, retryAt: int) returns (count: nat)
      requires Selected(ids, rows) && |claims| == |ids|
      requires forall i :: 0 <= i < |ids| ==>
                 claims[i].id == ids[i] && Holds(rows[ids[i]].row, claims[i].token, claims[i].generation)
      modifies this
      ensures Replaced(old(rows), rows, ids, |ids|, SettleWith(claims, published, retryAt))
      ensures count == PublishedCount(ids, published)
    {
      hide Replaced, Holds, Settle;
      ghost var before := rows;
      ghost var g := SettleWith(claims, published, retryAt);
      var i := 0;
      count := 0;
      assert ids[..0] == [];
      NothingReplaced(before, ids, g);
      while i < |ids|
        invariant 0 <= i <= |ids| && count == PublishedCount(ids[..i], published)
        invariant Replaced(before, rows, ids, i, g)
      {
        ReplacedOneMore(before, rows, ids, i, g);
        assert ids[..i + 1][..i] == ids[..i];
        var dispatched := SettleClaim(claims[i], published(claims[i].id), retryAt);
        if dispatched {
          count := count + 1;
        }
        i := i + 1;
      }
      assert ids[..|ids|] == ids;
    }

    // A pass without interference settles every row it claimed and touches no other.
    method DispatchPending(now: int, leaseFor: int, retryAfter: int, limit: int, tokens: nat -> nat,
                           published: RowId -> bool)
      returns (r: Result<nat, InputError>)
      modifies this
      ensures r.Err? <==> leaseFor <= 0 || retryAfter <= 0 || limit < 1
      ensures r.Err? ==> rows == old(rows)
      ensures r.Ok? ==> exists ids ::
                IsSelection(ids, old(rows), now, limit) && r.value == PublishedCount(ids, published)
                && IsPass(ids, old(rows), rows, now, retryAfter, published)
    {
      if leaseFor <= 0 || retryAfter <= 0 || limit < 1 {
        return Err(NotPositive);
      }
      ghost var before := rows;
      hide ClaimedRows, DueRows, IsSelection;
      var ids, claims := ClaimDue(now, leaseFor, limit, tokens);
      ghost var claimed := rows;
      PassComposes(before, claimed, ids, claims, now, leaseFor, retryAfter, tokens, published);
      hide IsSelection, DueRows, Claim, Replaced, Holds, IsPass, Settle, Selected, PublishedCount, ClaimedRows;
      var count := SettleClaims(ids, claims, published, now + retryAfter);
      assert IsPass(ids, before, rows, now, retryAfter, published);
      r := Ok(count);
    }

    method NormalizeRecord(id: RowId, content: Content) returns (r: Attempted)
      requires id in rows && LeaseCheck(rows[id].row)
      modifies this
      ensures rows == old(rows)[id := Normalize(old(rows)[id], content).0]
      ensures r == Normalize(old(rows)[id], content).1
    {
      var store := rows[id];
      if store.row.state == Failed || content == Unavailable {
        r := OtherError;
      } else if store.record.None? {
        store := store.(record := Some(store.payload));
        r := Inserted;
      } else if store.record.value == store.payload {
        r := AlreadyThere;
      } else {
        store := store.(rejections := store.rejections + [ImmutableConflict]);
        r := TerminalError;
      }
      rows := rows[id := store];
    }

    // The record and the state change are one transaction, undone together when the row still carries a lease.
    method NormalizeMarketData(id: RowId, content: Content) returns (r: Attempted)
      requires id in rows && LeaseCheck(rows[id].row)
      modifies this
      ensures rows == old(rows)[id := NormalizeAlpaca(old(rows)[id], content).0]
      ensures r == NormalizeAlpaca(old(rows)[id], content).1
    {
      if content == Unavailable {
        return OtherError;
      }
      if content == Unreadable {
        return TerminalError;
      }
      var store := rows[id];
      r := AlreadyThere;
      if store.record.None? {
        store := store.(record := Some(store.payload));
        r := Inserted;
      } else if store.record.value != store.payload {
        return TerminalError;
      }
      store := store.(row := store.row.(state := Dispatched));
      if store.row.token.Some? || store.row.expiresAt.Some? {
        return OtherError;
      }
      rows := rows[id := store];
    }

    // The state written, or None when the transaction raises.
    method RecordNormalizationFailure(id: RowId, now: int, retryAfter: int, terminal: bool) returns (r: Option<State>)
      requires id in rows
      modifies this
      ensures rows == old(rows)[id := RecordFailure(old(rows)[id], now, retryAfter, terminal)]
      ensures r.Some? <==> FailureIsRecorded(old(rows)[id], terminal)
      ensures r.Some? ==> r.value == rows[id].row.state
    {
      var store := rows[id];
      if store.row.state == Failed {
        return None;
      }
      var row := store.row.(token := None, expiresAt := None);
      if terminal || row.attempts >= MAX_ATTEMPTS {
        row := row.(state := Failed);
      } else {
        row := row.(state := Pending, nextAttemptAt := now + retryAfter);
      }
      var rejections := store.rejections;
      if terminal {
        if |rejections| > 1 {
          return None;
        }
        if rejections == [] {
          rejections := [SchemaDrift];
        }
      }
      rows := rows[id := store.(row := row, rejections := rejections)];
      r := Some(row.state);
    }

    // A delivered task: normalize, and record what went wrong in a second transaction.
    method RunNormalizationTask(id: RowId, marketData: bool, content: Content, now: int, retryAfter: int)
      returns (inserted: bool, raised: bool)
      requires id in rows && LeaseCheck(rows[id].row)
      modifies this
      ensures rows.Keys == old(rows).Keys && forall other :: other in rows && other != id ==> rows[other] == old(rows)[other]
      ensures var (attempted, outcome) := if marketData then NormalizeAlpaca(old(rows)[id], content)
                                          else Normalize(old(rows)[id], content);
              var failed := outcome in {TerminalError, OtherError};
              && inserted == (outcome == Inserted)
              && raised == (failed && !FailureIsRecorded(attempted, outcome == TerminalError))
              && (!failed || raised ==> rows[id] == attempted)
              && (failed && !raised ==>
                    && rows[id].record == attempted.record
                    && rows[id].rejections == (if outcome == TerminalError && attempted.rejections == [] then [SchemaDrift]
                                               else attempted.rejections)
                    && rows[id].row.token.None? && rows[id].row.expiresAt.None?
                    && rows[id].row.attempts == attempted.row.attempts && rows[id].row.generation == attempted.row.generation
                    && (if outcome == TerminalError || attempted.row.attempts >= MAX_ATTEMPTS then
                          rows[id].row.state == Failed && rows[id].row.nextAttemptAt == attempted.row.nextAttemptAt
                        else rows[id].row.state == Pending && rows[id].row.nextAttemptAt == now + retryAfter))
      ensures inserted ==> old(rows)[id].record.None? && rows[id].record == Some(rows[id].payload)
      ensures old(rows)[id].record.Some? ==> rows[id].record == old(rows)[id].record
      ensures rows[id].payload == old(rows)[id].payload && LeaseCheck(rows[id].row)
      ensures raised ==> rows[id].row == old(rows)[id].row && (old(rows)[id].row.state == Failed || |rows[id].rejections| > 1)
      ensures content == Readable && old(rows)[id].record == Some(old(rows)[id].payload)
              && old(rows)[id].row.state in {Pending, Dispatched} ==>
                !inserted && !raised && rows[id] == old(rows)[id].(row := rows[id].row)
                && rows[id].row.state == if marketData then Dispatched else old(rows)[id].row.state
    {
      var outcome;
      if marketData {
        outcome := NormalizeMarketData(id, content);
      } else {
        outcome := NormalizeRecord(id, content);
      }
      inserted, raised := outcome == Inserted, false;
      if outcome == TerminalError || outcome == OtherError {
        var recorded := RecordNormalizationFailure(id, now, retryAfter, outcome == TerminalError);
        raised := recorded.None?;
      }
    }
  }
}
