/** DurableEventStore: an idempotent, ordered store, and the resumable stream built on it. */
module SseStore {
  import opened Wrappers
  import opened SseParser

  datatype StoreError = RunMismatch | MissingTimezone | BadSequence | SequenceCollision

  datatype State = State(byId: map<string, AgentEvent>, bySequence: map<real, string>)

  const EMPTY := State(map[], map[])

  // validTime: the timezone pattern and Date.parse accept the text.
  datatype Rules = Rules(runId: string, validTime: string -> bool)

  predicate PositiveInteger(x: real) {
    x >= 1.0 && x.Floor as real == x
  }

  function Append(rules: Rules, s: State, e: AgentEvent): (State, Result<bool, StoreError>) {
    if e.runId != rules.runId then (s, Err(RunMismatch))
    else if !rules.validTime(e.eventTime) then (s, Err(MissingTimezone))
    else if !PositiveInteger(e.sequence) then (s, Err(BadSequence))
    else if e.eventId in s.byId then (s, Ok(false))
    // An empty prior id is falsy and goes unnoticed.
    else if e.sequence in s.bySequence && s.bySequence[e.sequence] != "" then (s, Err(SequenceCollision))
    else (State(s.byId[e.eventId := e], s.bySequence[e.sequence := e.eventId]), Ok(true))
  }

  // events lists the stored events in ascending sequence, each once.
  ghost predicate Lists(events: seq<AgentEvent>, byId: map<string, AgentEvent>) {
    && Ascending(events)
    && AllDistinct(events)
    && (forall e :: e in events <==> e.eventId in byId && byId[e.eventId] == e)
  }

  // Each stored event sits under its own id.
  ghost predicate Keyed(s: State) {
    forall id :: id in s.byId ==> s.byId[id].eventId == id
  }

  class DurableEventStore {
    const rules: Rules
    var byId: map<string, AgentEvent>
    var bySequence: map<real, string>

    function Contents(): State
      reads this
    {
      State(byId, bySequence)
    }

    constructor (rules: Rules)
      ensures this.rules == rules && Contents() == EMPTY
    {
      this.rules := rules;
      byId, bySequence := map[], map[];
    }

    method AppendEvent(e: AgentEvent) returns (result: Result<bool, StoreError>)
      modifies this
      ensures Contents() == Append(rules, old(Contents()), e).0
      ensures result == Append(rules, old(Contents()), e).1
    {
      if e.runId != rules.runId {
        return Err(RunMismatch);
      }
      if !rules.validTime(e.eventTime) {
        return Err(MissingTimezone);
      }
      if !PositiveInteger(e.sequence) {
        return Err(BadSequence);
      }
      if e.eventId in byId {
        return Ok(false);
      }
      if e.sequence in bySequence && bySequence[e.sequence] != "" {
        return Err(SequenceCollision);
      }
      byId := byId[e.eventId := e];
      bySequence := bySequence[e.sequence := e.eventId];
      return Ok(true);
    }

    // The events getter: the map's values, sorted by sequence.
    method SortedEvents() returns (events: seq<AgentEvent>)
      requires Keyed(Contents())
      ensures Lists(events, byId)
    {
      events := [];
      var rest := byId.Keys;
      while rest != {}
        invariant rest <= byId.Keys
        invariant Lists(events, map id | id in byId && id !in rest :: byId[id])
      {
        var id :| id in rest;
        InsertKeepsOrder(events, byId[id]);
        events := InsertSorted(events, byId[id]);
        rest := rest - {id};
      }
      assert (map id | id in byId && id !in rest :: byId[id]) == byId;
    }

    method LastEventId() returns (id: Option<string>)
      requires Keyed(Contents())
      ensures IsLast(byId, id)
    {
      var events := SortedEvents();
      assert forall other :: other in byId ==> byId[other] in events;
      if events == [] {
        return None;
      }
      var last := events[|events| - 1];
      return Some(last.eventId);
    }
  }

  ghost predicate IsLast(byId: map<string, AgentEvent>, id: Option<string>) {
    if byId == map[] then id.None?
    else id.Some? && id.value in byId && forall other :: other in byId ==> byId[other].sequence <= byId[id.value].sequence
  }

  function InsertSorted(events: seq<AgentEvent>, e: AgentEvent): (r: seq<AgentEvent>)
    ensures forall x :: x in r <==> x in events || x == e
  {
    if events == [] then [e]
    else if e.sequence < events[0].sequence then [e] + events
    else
      assert events == [events[0]] + events[1..];
      [events[0]] + InsertSorted(events[1..], e)
  }

  ghost predicate Ascending(events: seq<AgentEvent>) {
    forall i, j :: 0 <= i < j < |events| ==> events[i].sequence <= events[j].sequence
  }

  ghost predicate AllDistinct(events: seq<AgentEvent>) {
    forall i, j :: 0 <= i < j < |events| ==> events[i] != events[j]
  }

  lemma PrependAscending(e: AgentEvent, events: seq<AgentEvent>)
    requires Ascending(events) && forall x :: x in events ==> e.sequence <= x.sequence
    ensures Ascending([e] + events)
    ensures AllDistinct(events) && e !in events ==> AllDistinct([e] + events)
  {
  }

  lemma {:induction false} InsertKeepsOrder(events: seq<AgentEvent>, e: AgentEvent)
    requires Ascending(events)
    ensures Ascending(InsertSorted(events, e))
    ensures AllDistinct(events) && e !in events ==> AllDistinct(InsertSorted(events, e))
  {
    if events != [] && e.sequence >= events[0].sequence {
      InsertKeepsOrder(events[1..], e);
      PrependAscending(events[0], InsertSorted(events[1..], e));
    } else {
      PrependAscending(e, events);
    }
  }
}
