/** What a client's store holds after any arrivals and any number of reconnects. */
module SseResume {
  import opened Wrappers
  import opened SseParser
  import opened SseStore

  function AppendAll(rules: Rules, s: State, arrivals: seq<AgentEvent>): State {
    if arrivals == [] then s
    else Append(rules, AppendAll(rules, s, arrivals[..|arrivals| - 1]), arrivals[|arrivals| - 1]).0
  }

  predicate Wellformed(rules: Rules, e: AgentEvent) {
    e.runId == rules.runId && rules.validTime(e.eventTime) && PositiveInteger(e.sequence) && e.eventId != ""
  }

  // Arrivals of one run's log: an id always names the same event and a sequence one id.
  ghost predicate Consistent(rules: Rules, arrivals: seq<AgentEvent>) {
    && (forall e :: e in arrivals ==> Wellformed(rules, e))
    && (forall e, f :: e in arrivals && f in arrivals && e.eventId == f.eventId ==> e == f)
    && (forall e, f :: e in arrivals && f in arrivals && e.sequence == f.sequence ==> e.eventId == f.eventId)
  }

  // The store holds exactly the arrived events, indexed both ways.
  ghost predicate HoldsExactly(s: State, arrivals: seq<AgentEvent>) {
    && (forall e :: e in arrivals ==> e.eventId in s.byId && s.byId[e.eventId] == e)
    && (forall id :: id in s.byId ==> s.byId[id] in arrivals && s.byId[id].eventId == id)
    && (forall e :: e in arrivals ==> e.sequence in s.bySequence && s.bySequence[e.sequence] == e.eventId)
    && (forall n :: n in s.bySequence ==> s.bySequence[n] in s.byId && s.byId[s.bySequence[n]].sequence == n)
  }

  lemma AppendHolds(rules: Rules, s: State, seen: seq<AgentEvent>, e: AgentEvent)
    requires HoldsExactly(s, seen) && Consistent(rules, seen + [e])
    ensures HoldsExactly(Append(rules, s, e).0, seen + [e])
    ensures Append(rules, s, e).1 == Ok(e !in seen)
  {
    assert e in seen + [e];
    assert forall x :: x in seen ==> x in seen + [e];
    if e in seen {
      assert Append(rules, s, e).0 == s;
      MembersStay(s, seen, e);
    } else {
      NewEventHolds(rules, s, seen, e);
    }
  }

  lemma MembersStay(s: State, seen: seq<AgentEvent>, e: AgentEvent)
    requires HoldsExactly(s, seen) && e in seen
    ensures HoldsExactly(s, seen + [e])
  {
    assert forall x :: x in seen + [e] <==> x in seen;
  }

  lemma NewEventHolds(rules: Rules, s: State, seen: seq<AgentEvent>, e: AgentEvent)
    requires HoldsExactly(s, seen) && Consistent(rules, seen + [e]) && e !in seen
    ensures HoldsExactly(Append(rules, s, e).0, seen + [e])
    ensures Append(rules, s, e).1 == Ok(true)
  {
    var all := seen + [e];
    assert e in all;
    assert forall x :: x in seen ==> x in all && x.eventId != e.eventId && x.sequence != e.sequence;
    assert forall x :: x in all <==> x in seen || x == e;
    assert e.eventId !in s.byId && e.sequence !in s.bySequence;
    hide Consistent, PositiveInteger;
    assert Append(rules, s, e) == (State(s.byId[e.eventId := e], s.bySequence[e.sequence := e.eventId]), Ok(true));
    hide Append;
  }

  // No arrival of a consistent stream is refused, and the store ends up holding each once.
  lemma {:induction false} ArrivalsAreHeld(rules: Rules, arrivals: seq<AgentEvent>)
    requires Consistent(rules, arrivals)
    ensures HoldsExactly(AppendAll(rules, EMPTY, arrivals), arrivals)
  {
    if arrivals != [] {
      var seen, e := arrivals[..|arrivals| - 1], arrivals[|arrivals| - 1];
      assert arrivals == seen + [e];
      ArrivalsAreHeld(rules, seen);
      AppendHolds(rules, AppendAll(rules, EMPTY, seen), seen, e);
    }
  }

  lemma HeldStoresAgree(a: State, b: State, x: seq<AgentEvent>, y: seq<AgentEvent>)
    requires HoldsExactly(a, x) && HoldsExactly(b, y)
    requires forall e :: e in x <==> e in y
    ensures a == b
  {
    assert forall id :: id in a.byId ==> id in b.byId && a.byId[id] == b.byId[id];
    assert forall id :: id in b.byId ==> id in a.byId;
    assert forall n :: n in a.bySequence ==> a.byId[a.bySequence[n]] in y;
    assert forall n :: n in b.bySequence ==> b.byId[b.bySequence[n]] in x;
    assert forall n :: n in a.bySequence ==> n in b.bySequence && a.bySequence[n] == b.bySequence[n];
    assert forall n :: n in b.bySequence ==> n in a.bySequence;
    assert a.byId == b.byId && a.bySequence == b.bySequence;
  }

  // Order and repetition of arrivals do not matter.
  lemma StoreIsOrderIndependent(rules: Rules, x: seq<AgentEvent>, y: seq<AgentEvent>)
    requires Consistent(rules, x) && Consistent(rules, y) && forall e :: e in x <==> e in y
    ensures AppendAll(rules, EMPTY, x) == AppendAll(rules, EMPTY, y)
  {
    ArrivalsAreHeld(rules, x);
    ArrivalsAreHeld(rules, y);
    HeldStoresAgree(AppendAll(rules, EMPTY, x), AppendAll(rules, EMPTY, y), x, y);
  }

  ghost predicate DistinctSequences(byId: map<string, AgentEvent>) {
    forall a, b :: a in byId && b in byId && byId[a].sequence == byId[b].sequence ==> a == b
  }

  ghost predicate Strict(events: seq<AgentEvent>) {
    forall i, j :: 0 <= i < j < |events| ==> events[i].sequence < events[j].sequence
  }

  lemma FrontMembers(events: seq<AgentEvent>)
    requires Strict(events) && events != []
    ensures Strict(events[..|events| - 1])
    ensures forall e :: e in events[..|events| - 1] <==> e in events && e != events[|events| - 1]
    ensures forall e :: e in events ==> e == events[|events| - 1] || e.sequence < events[|events| - 1].sequence
  {
  }

  // Two strictly ascending listings of the same events are equal.
  lemma {:induction false} StrictListingIsUnique(a: seq<AgentEvent>, b: seq<AgentEvent>)
    requires Strict(a) && Strict(b) && forall e :: e in a <==> e in b
    ensures a == b
    decreases |a|
  {
    hide Strict;
    if a == [] {
      assert forall i :: 0 <= i < |b| ==> b[i] in a;
    } else {
      assert a[0] in b;
      var m, n := |a| - 1, |b| - 1;
      FrontMembers(a);
      FrontMembers(b);
      assert a[m] in b && b[n] in a;
      assert a[m] == b[n];
      forall e ensures e in a[..m] <==> e in b[..n] {
        assert e in a[..m] <==> e in a && e != a[m];
        assert e in b[..n] <==> e in b && e != b[n];
      }
      StrictListingIsUnique(a[..m], b[..n]);
      assert a == a[..m] + [a[m]] && b == b[..n] + [b[n]];
    }
  }

  // With distinct sequences the events getter has one possible value.
  lemma ListingIsUnique(a: seq<AgentEvent>, b: seq<AgentEvent>)
    requires Ascending(a) && AllDistinct(a) && Ascending(b) && AllDistinct(b)
    requires forall e :: e in a <==> e in b
    requires forall e, f :: e in a && f in a && e.sequence == f.sequence ==> e == f
    ensures a == b
  {
    assert Strict(a) by {
      forall i, j | 0 <= i < j < |a| ensures a[i].sequence < a[j].sequence {
        assert a[i] in a && a[j] in a;
      }
    }
    assert Strict(b) by {
      forall i, j | 0 <= i < j < |b| ensures b[i].sequence < b[j].sequence {
        assert b[i] in a && b[j] in a;
      }
    }
    StrictListingIsUnique(a, b);
  }

  // In any store, a new event whose sequence is taken is let in exactly when the id stored there is empty,
  // and only then do two stored events share a sequence.
  lemma CollisionIsMissedExactlyForEmptyIds(rules: Rules, s: State, e: AgentEvent)
    requires e.runId == rules.runId && rules.validTime(e.eventTime) && PositiveInteger(e.sequence)
    requires e.eventId !in s.byId && e.sequence in s.bySequence
    requires Keyed(s) && DistinctSequences(s.byId)
    requires forall n :: n in s.bySequence ==> s.bySequence[n] in s.byId && s.byId[s.bySequence[n]].sequence == n
    ensures var (after, result) := Append(rules, s, e);
            && result == (if s.bySequence[e.sequence] == "" then Ok(true) else Err(SequenceCollision))
            && (s.bySequence[e.sequence] == "" <==> !DistinctSequences(after.byId))
  {
    var prior := s.bySequence[e.sequence];
    var after := Append(rules, s, e).0;
    if prior == "" {
      assert after.byId[prior].sequence == after.byId[e.eventId].sequence;
    }
  }

  // An event is taken in exactly when it is of this run, dated with a zone, numbered by a positive integer, and new in
  // id and sequence; a known id is acknowledged without a change, and each refusal names the first check that fails.
  lemma AppendIsExact(rules: Rules, s: State, e: AgentEvent)
    ensures var (after, result) := Append(rules, s, e);
            var proper := e.runId == rules.runId && rules.validTime(e.eventTime)
                          && e.sequence >= 1.0 && e.sequence == e.sequence.Floor as real;
            var taken := e.sequence in s.bySequence && s.bySequence[e.sequence] != "";
            && (result == Ok(true) <==> proper && e.eventId !in s.byId && !taken)
            && (result == Ok(false) <==> proper && e.eventId in s.byId)
            && (result == Err(SequenceCollision) <==> proper && e.eventId !in s.byId && taken)
            && (result == Err(RunMismatch) <==> e.runId != rules.runId)
            && (result == Err(MissingTimezone) <==> e.runId == rules.runId && !rules.validTime(e.eventTime))
            && (result == Ok(true) ==>
                  after.byId == s.byId[e.eventId := e] && after.bySequence == s.bySequence[e.sequence := e.eventId])
            && (result != Ok(true) ==> after == s)
  {
  }

  /* ---------- resuming ---------- */

  // The server's append-only log of one run, the client's store, and the open connections with
  // the position each will send next. Several may overlap while a client reconnects.
  datatype World = World(log: seq<AgentEvent>, store: State, connections: map<nat, nat>)

  datatype Move =
    | ServerAppends(e: AgentEvent)
    | Connect(c: nat, lastEventId: Option<string>)
    | Receive(c: nat)
    | Disconnect(c: nat)

  // load_events: the position after the named event; an unknown id opens no stream.
  function ResumeAt(log: seq<AgentEvent>, id: Option<string>): Option<nat> {
    if id.None? then Some(0)
    else if log == [] then None
    else if log[|log| - 1].eventId == id.value then Some(|log|)
    else ResumeAt(log[..|log| - 1], id)
  }

  ghost predicate LogValid(rules: Rules, log: seq<AgentEvent>) {
    && Consistent(rules, log)
    && (forall i :: 0 <= i < |log| ==> log[i].sequence == (i + 1) as real)
  }

  ghost predicate Enabled(rules: Rules, w: World, m: Move) {
    match m
    case ServerAppends(e) => LogValid(rules, w.log + [e])
    case Connect(_, id) => IsLast(w.store.byId, id)
    case Receive(c) => c in w.connections && w.connections[c] < |w.log|
    case Disconnect(_) => true
  }

  function Next(rules: Rules, w: World, m: Move): World {
    match m
    case ServerAppends(e) => w.(log := w.log + [e])
    case Connect(c, id) =>
      var at := ResumeAt(w.log, id);
      if at.None? then w else w.(connections := w.connections[c := at.value])
    case Receive(c) =>
      if c !in w.connections || w.connections[c] >= |w.log| then w
      else
        w.(store := Append(rules, w.store, w.log[w.connections[c]]).0,
           connections := w.connections[c := w.connections[c] + 1])
    case Disconnect(c) => w.(connections := w.connections - {c})
  }

  // The store is the first k events of the log, and no connection is ahead of it.
  ghost predicate IsPrefix(rules: Rules, w: World, k: nat) {
    && LogValid(rules, w.log) && k <= |w.log|
    && HoldsExactly(w.store, w.log[..k])
    && (forall c :: c in w.connections ==> w.connections[c] <= k)
  }

  lemma {:induction false} ResumeFindsPosition(rules: Rules, log: seq<AgentEvent>, k: nat)
    requires LogValid(rules, log) && 0 < k <= |log|
    ensures ResumeAt(log, Some(log[k - 1].eventId)) == Some(k)
  {
    if k < |log| {
      assert log[|log| - 1] in log && log[k - 1] in log;
      assert log[|log| - 1].sequence != log[k - 1].sequence;
      var front := log[..|log| - 1];
      assert forall e :: e in front ==> e in log;
      assert LogValid(rules, front);
      ResumeFindsPosition(rules, front, k);
      assert front[k - 1] == log[k - 1];
    }
  }

  // A client without an id starts at the beginning, and an id the log does not hold opens no stream.
  lemma {:induction false} UnknownIdOpensNothing(log: seq<AgentEvent>, id: string)
    ensures ResumeAt(log, None) == Some(0)
    ensures ResumeAt(log, Some(id)) == None <==> forall e :: e in log ==> e.eventId != id
  {
    if log != [] {
      var front, last := log[..|log| - 1], log[|log| - 1];
      assert forall e :: e in log <==> e in front || e == last;
      UnknownIdOpensNothing(front, id);
    }
  }

  lemma LastOfPrefix(rules: Rules, w: World, k: nat, id: Option<string>)
    requires IsPrefix(rules, w, k) && IsLast(w.store.byId, id)
    ensures ResumeAt(w.log, id) == Some(k)
  {
    if k == 0 {
      assert w.store.byId == map[] by {
        assert forall x :: x in w.store.byId ==> w.store.byId[x] in w.log[..0];
      }
    } else {
      var last := w.log[k - 1];
      assert last == w.log[..k][k - 1];
      assert last in w.log[..k];
      assert last.eventId in w.store.byId;
      var found := w.store.byId[id.value];
      assert found in w.log[..k];
      var i :| 0 <= i < k && w.log[i] == found;
      assert found.sequence == (i + 1) as real && last.sequence == k as real;
      assert i == k - 1;
      ResumeFindsPosition(rules, w.log, k);
    }
  }

  lemma ReceiveKeepsPrefix(rules: Rules, w: World, k: nat, at: nat)
    requires IsPrefix(rules, w, k) && at <= k && at < |w.log|
    ensures var k' := if at == k then k + 1 else k;
            HoldsExactly(Append(rules, w.store, w.log[at]).0, w.log[..k'])
  {
    var e := w.log[at];
    assert e in w.log;
    if at == k {
      assert w.log[..k + 1] == w.log[..k] + [e];
      assert forall x :: x in w.log[..k] + [e] ==> x in w.log;
      AppendHolds(rules, w.store, w.log[..k], e);
    } else {
      assert w.log[..k][at] == e;
      assert e in w.log[..k];
    }
  }

  lemma MoveKeepsPrefix(rules: Rules, w: World, m: Move, k: nat) returns (k': nat)
    requires IsPrefix(rules, w, k) && Enabled(rules, w, m)
    ensures IsPrefix(rules, Next(rules, w, m), k') && k <= k' <= k + 1
  {
    k' := k;
    match m {
      case ServerAppends(e) => assert (w.log + [e])[..k] == w.log[..k];
      case Connect(c, id) => LastOfPrefix(rules, w, k, id);
      case Receive(c) =>
        ReceiveKeepsPrefix(rules, w, k, w.connections[c]);
        if w.connections[c] == k { k' := k + 1; }
      case Disconnect(c) =>
    }
  }

  ghost predicate AllEnabled(rules: Rules, w: World, moves: seq<Move>)
    decreases |moves|
  {
    moves == [] ||
    (AllEnabled(rules, w, moves[..|moves| - 1])
     && Enabled(rules, RunMoves(rules, w, moves[..|moves| - 1]), moves[|moves| - 1]))
  }

  function RunMoves(rules: Rules, w: World, moves: seq<Move>): World {
    if moves == [] then w
    else Next(rules, RunMoves(rules, w, moves[..|moves| - 1]), moves[|moves| - 1])
  }

  // Across any number of disconnects and overlapping reconnects, while the log keeps growing,
  // the client's events are exactly a prefix of the server's log, in order, without gaps.
  lemma {:induction false} StoreIsAlwaysAPrefix(rules: Rules, moves: seq<Move>) returns (k: nat)
    requires AllEnabled(rules, World([], EMPTY, map[]), moves)
    ensures var w := RunMoves(rules, World([], EMPTY, map[]), moves);
            && IsPrefix(rules, w, k)
            && forall events :: Lists(events, w.store.byId) ==> events == w.log[..k]
  {
    var start := World([], EMPTY, map[]);
    if moves == [] {
      k := 0;
    } else {
      var before := StoreIsAlwaysAPrefix(rules, moves[..|moves| - 1]);
      k := MoveKeepsPrefix(rules, RunMoves(rules, start, moves[..|moves| - 1]), moves[|moves| - 1], before);
    }
    PrefixIsListed(rules, RunMoves(rules, start, moves), k);
  }

  lemma PrefixIsListed(rules: Rules, w: World, k: nat)
    requires IsPrefix(rules, w, k)
    ensures forall events :: Lists(events, w.store.byId) ==> events == w.log[..k]
  {
    var prefix := w.log[..k];
    assert forall i :: 0 <= i < k ==> prefix[i].sequence == (i + 1) as real;
    forall events | Lists(events, w.store.byId) ensures events == prefix {
      forall e ensures e in events <==> e in prefix {
      }
      ListingIsUnique(prefix, events);
    }
  }
}
