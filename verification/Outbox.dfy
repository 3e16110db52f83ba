/**
  One row of the normalization outbox with its dispatchers and its delivered tasks. Each transaction
  is one step; one that would break the row's lease check aborts and leaves no trace. A message may be
  delivered any number of times, and a crash is a participant that takes no further step.
*/
module Outbox {
  import opened Wrappers

  datatype State = Pending | Claimed | Dispatched | Failed

  datatype Row = Row(state: State, attempts: nat, token: Option<nat>, generation: nat, expiresAt: Option<int>,
                     nextAttemptAt: int)

  datatype Rejection = ImmutableConflict | SchemaDrift

  // The outbox row, the payload it carries, the record under its key, and the rejections filed for it.
  datatype Store = Store(row: Row, payload: string, record: Option<string>, rejections: seq<Rejection>)

  const MAX_ATTEMPTS: nat := 5

  predicate LeaseCheck(r: Row) {
    if r.state == Claimed then r.token.Some? && r.expiresAt.Some? else r.token.None? && r.expiresAt.None?
  }

  predicate Open(r: Row) {
    r.state != Failed
  }

  function Commit(before: Store, after: Store): Store {
    if LeaseCheck(after.row) then after else before
  }

  /* ---------- dispatchers ---------- */

  predicate Due(r: Row, now: int) {
    || (r.state == Pending && r.nextAttemptAt <= now)
    || (r.state == Claimed && r.expiresAt.Some? && r.expiresAt.value <= now)
  }

  function Claim(r: Row, token: nat, now: int, leaseFor: int): Row {
    r.(state := Claimed, attempts := r.attempts + 1, token := Some(token), generation := r.generation + 1,
       expiresAt := Some(now + leaseFor))
  }

  predicate Holds(r: Row, token: nat, generation: nat) {
    r.state == Claimed && r.token == Some(token) && r.generation == generation
  }

  function MarkDispatched(r: Row, token: nat, generation: nat): Row {
    if Holds(r, token, generation) then r.(state := Dispatched, token := None, expiresAt := None) else r
  }

  function MarkUnpublished(r: Row, token: nat, generation: nat, retryAt: int): Row {
    if Holds(r, token, generation) then
      r.(state := Pending, token := None, expiresAt := None, nextAttemptAt := retryAt)
    else r
  }

  /* ---------- normalization tasks ---------- */

  // How a normalization ends: a value, an error that counts as terminal, or another exception.
  datatype Attempted = Inserted | AlreadyThere | TerminalError | OtherError

  // The stored content parses into facts, does not, or cannot be read right now.
  datatype Content = Readable | Unreadable | Unavailable

  // The default path: insert if absent, file a rejection when a different record is there.
  function Normalize(s: Store, content: Content): (Store, Attempted) {
    if !Open(s.row) || content == Unavailable then (s, OtherError)
    else if s.record.None? then (Commit(s, s.(record := Some(s.payload))), Inserted)
    else if s.record.value == s.payload then (s, AlreadyThere)
    else (Commit(s, s.(rejections := s.rejections + [ImmutableConflict])), TerminalError)
  }

  // The market-data path sets DISPATCHED whatever the state, and leaves the lease columns alone.
  function AlpacaWrite(s: Store): Store {
    s.(record := Some(s.payload), row := s.row.(state := Dispatched))
  }

  function NormalizeAlpaca(s: Store, content: Content): (Store, Attempted) {
    if content == Unavailable then (s, OtherError)
    else if content == Unreadable || (s.record.Some? && s.record.value != s.payload) then (s, TerminalError)
    else if !LeaseCheck(AlpacaWrite(s).row) then (s, OtherError)
    else (AlpacaWrite(s), if s.record.None? then Inserted else AlreadyThere)
  }

  function FailedRow(r: Row, now: int, retryAfter: int, terminal: bool): Row {
    if terminal || r.attempts >= MAX_ATTEMPTS then r.(state := Failed, token := None, expiresAt := None)
    else r.(state := Pending, token := None, expiresAt := None, nextAttemptAt := now + retryAfter)
  }

  // Recording a failure raises, and changes nothing, when the row is FAILED already or when a terminal
  // error finds more than one rejection.
  predicate FailureIsRecorded(s: Store, terminal: bool) {
    Open(s.row) && (terminal ==> |s.rejections| <= 1)
  }

  function RecordFailure(s: Store, now: int, retryAfter: int, terminal: bool): Store {
    if FailureIsRecorded(s, terminal) then
      Commit(s, s.(row := FailedRow(s.row, now, retryAfter, terminal),
                   rejections := if terminal && s.rejections == [] then [SchemaDrift] else s.rejections))
    else s
  }

  /* ---------- interleavings ---------- */

  datatype Dispatcher = Dispatcher(token: nat, generation: nat, done: bool)

  datatype Task = Waiting | Failing(terminal: bool) | Ended(result: bool) | Raised

  // Whether the market-data path applies is fixed by the row's version.
  datatype System = System(alpaca: bool, store: Store, dispatchers: seq<Dispatcher>, tasks: seq<Task>)

  datatype Step =
    | ClaimStep(token: nat, now: int, leaseFor: int)
    | PublishedStep(d: nat)
    | UnpublishedStep(d: nat, retryAt: int)
    | DeliverStep
    | NormalizeStep(t: nat, content: Content)
    | FailureStep(t: nat, now: int, retryAfter: int)

  function WithRow(s: System, row: Row): System {
    s.(store := Commit(s.store, s.store.(row := row)))
  }

  function AfterAttempt(outcome: Attempted): Task {
    match outcome
    case Inserted => Ended(true)
    case AlreadyThere => Ended(false)
    case TerminalError => Failing(true)
    case OtherError => Failing(false)
  }

  function Next(s: System, step: Step): System {
    match step
    case ClaimStep(token, now, leaseFor) =>
      if !Due(s.store.row, now) then s
      else
        WithRow(s, Claim(s.store.row, token, now, leaseFor))
          .(dispatchers := s.dispatchers + [Dispatcher(token, s.store.row.generation + 1, false)])
    case PublishedStep(d) =>
      if d >= |s.dispatchers| || s.dispatchers[d].done then s
      else
        WithRow(s, MarkDispatched(s.store.row, s.dispatchers[d].token, s.dispatchers[d].generation))
          .(dispatchers := s.dispatchers[d := s.dispatchers[d].(done := true)])
    case UnpublishedStep(d, retryAt) =>
      if d >= |s.dispatchers| || s.dispatchers[d].done then s
      else
        WithRow(s, MarkUnpublished(s.store.row, s.dispatchers[d].token, s.dispatchers[d].generation, retryAt))
          .(dispatchers := s.dispatchers[d := s.dispatchers[d].(done := true)])
    case DeliverStep => s.(tasks := s.tasks + [Waiting])
    case NormalizeStep(t, content) =>
      if t >= |s.tasks| || !s.tasks[t].Waiting? then s
      else
        var (store, outcome) := if s.alpaca then NormalizeAlpaca(s.store, content) else Normalize(s.store, content);
        s.(store := store, tasks := s.tasks[t := AfterAttempt(outcome)])
    case FailureStep(t, now, retryAfter) =>
      if t >= |s.tasks| || !s.tasks[t].Failing? then s
      else
        s.(store := RecordFailure(s.store, now, retryAfter, s.tasks[t].terminal),
           tasks := s.tasks[t := if FailureIsRecorded(s.store, s.tasks[t].terminal) then Ended(false) else Raised])
  }

  function NewStore(payload: string, record: Option<string>, now: int): Store {
    Store(Row(Pending, 0, None, 0, None, now), payload, record, [])
  }

  function RunFrom(s: System, steps: seq<Step>): System {
    if steps == [] then s else Next(RunFrom(s, steps[..|steps| - 1]), steps[|steps| - 1])
  }

  // `record` is what another writer may already have stored under the key.
  function Run(alpaca: bool, payload: string, record: Option<string>, now: int, steps: seq<Step>): System {
    RunFrom(System(alpaca, NewStore(payload, record, now), [], []), steps)
  }

  ghost predicate Valid(s: System) {
    && LeaseCheck(s.store.row)
    && s.store.row.attempts == s.store.row.generation == |s.dispatchers|
    && (forall i :: 0 <= i < |s.dispatchers| ==> s.dispatchers[i].generation == i + 1)
    && (s.store.row.state == Claimed ==>
          s.dispatchers != [] && s.store.row.token == Some(s.dispatchers[|s.dispatchers| - 1].token))
  }

  // Every claim takes the next generation, the newest dispatcher holds the lease, and CLAIMED is exactly
  // having a token and an expiry.
  lemma {:induction false} EveryRunIsValid(s: System, steps: seq<Step>)
    requires Valid(s)
    ensures Valid(RunFrom(s, steps))
  {
    if steps != [] {
      EveryRunIsValid(s, steps[..|steps| - 1]);
      StepStaysValid(RunFrom(s, steps[..|steps| - 1]), steps[|steps| - 1]);
    }
  }

  lemma StepStaysValid(s: System, step: Step)
    requires Valid(s)
    ensures Valid(Next(s, step))
  {
  }

  // In particular for a new row, whatever record is already under its key.
  lemma EveryHistoryIsValid(alpaca: bool, payload: string, record: Option<string>, now: int, steps: seq<Step>)
    ensures Valid(Run(alpaca, payload, record, now, steps))
  {
    EveryRunIsValid(System(alpaca, NewStore(payload, record, now), [], []), steps);
  }
}
