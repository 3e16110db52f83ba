/** The agent_run table as a value: admission, replacement, and every history of both. */
module RunTable {
  import opened Wrappers
  import opened RunLedger

  type RunId = string

  datatype RunType = Research | Portfolio | AlertMonitor | WeeklyReview

  datatype Pins = Pins(researchScoring: string, risk: string, execution: string, confidence: string,
                       prompt: string, model: string)

  // Equal payloads stand for equal request hashes.
  datatype Payload = Payload(body: string, replaced: Option<RunId>)

  datatype Request = Request(runType: RunType, key: string, payload: Payload, symbol: Option<string>,
                             decisionTime: int, dataCutoff: int, correlation: string, pins: Option<Pins>)

  // The columns an admitted row never changes.
  datatype Identity = Identity(runType: RunType, key: string, payload: Payload, symbol: Option<string>,
                               decisionTime: int, dataCutoff: int, correlation: string, pins: Pins, born: nat)

  datatype Record = Record(identity: Identity, ledger: Ledger)

  type Table = map<RunId, Record>

  datatype AdmitError = IdempotencyConflict | RunAdmissionLimit | CutoffAfterDecision | DuplicateId

  datatype Admitted = Admitted(id: RunId, replayed: bool)

  type Admission = Result<Admitted, AdmitError>

  const DEFAULT_MAX_ATTEMPTS: nat := 3

  function RunPins(t: RunType): (string, string) {
    match t
    case Research => ("prompt-v1", "fixture-v1")
    case Portfolio => ("portfolio-prompt-v1", "fixture-proposer-v1")
    case AlertMonitor => ("deterministic-alert-v1", "none")
    case WeeklyReview => ("weekly-review-prompt-v1", "model-v1")
  }

  function PolicyPin(policies: map<string, string>, kind: string, default: string): string {
    if kind in policies then policies[kind] else default
  }

  // The pins given explicitly, or else the active policies over the built-in defaults.
  function ResolvePins(req: Request, policies: map<string, string>): Pins {
    if req.pins.Some? then req.pins.value
    else
      Pins(PolicyPin(policies, "RESEARCH_SCORING", "research-v1"),
           PolicyPin(policies, "RISK", "risk-v1"),
           PolicyPin(policies, "EXECUTION", "execution-v1"),
           PolicyPin(policies, "CONFIDENCE", "confidence-v1"),
           RunPins(req.runType).0, RunPins(req.runType).1)
  }

  predicate Active(r: Record) {
    r.ledger.run.status in {Queued, Running}
  }

  function ActiveIds(t: Table): set<RunId> {
    set id | id in t && Active(t[id])
  }

  ghost function Lookup(t: Table, key: string): Option<RunId> {
    if exists id :: id in t && t[id].identity.key == key then
      var id :| id in t && t[id].identity.key == key; Some(id)
    else None
  }

  function NewRecord(t: Table, req: Request, policies: map<string, string>): Record {
    Record(Identity(req.runType, req.key, req.payload, req.symbol, req.decisionTime, req.dataCutoff,
                    req.correlation, ResolvePins(req, policies), |t|),
           Fresh(DEFAULT_MAX_ATTEMPTS))
  }

  ghost function Admit(t: Table, newId: RunId, cap: int, req: Request, policies: map<string, string>)
    : (Table, Admission)
  {
    var existing := Lookup(t, req.key);
    if existing.Some? then
      (t, if t[existing.value].identity.payload != req.payload then Err(IdempotencyConflict)
          else Ok(Admitted(existing.value, true)))
    else if |ActiveIds(t)| >= cap then (t, Err(RunAdmissionLimit))
    else if req.dataCutoff > req.decisionTime then (t, Err(CutoffAfterDecision))
    else if newId in t then (t, Err(DuplicateId))
    else (t[newId := NewRecord(t, req, policies)], Ok(Admitted(newId, false)))
  }

  function ReplacementKey(id: RunId): string {
    "replacement:" + id
  }

  function ReplacementRequest(id: RunId, source: Identity): Request {
    Request(source.runType, ReplacementKey(id), source.payload.(replaced := Some(id)), source.symbol,
            source.decisionTime, source.dataCutoff, source.correlation, Some(source.pins))
  }

  function OnLedger(t: Table, id: RunId, step: Step): Table
    requires id in t
  {
    t[id := t[id].(ledger := Apply(t[id].ledger, step))]
  }

  ghost function Replace(t: Table, newId: RunId, cap: int, id: RunId): (Table, Option<Admission>) {
    if id !in t || !Exhausted(t[id].ledger) then (t, None)
    else
      var (t', admitted) := Admit(t, newId, cap, ReplacementRequest(id, t[id].identity), map[]);
      if admitted.Err? || admitted.value.replayed then (t, Some(admitted))
      else
        assert id in t' && newId in t';
        (OnLedger(OnLedger(t', id, ReplacementQueuedStep(newId)), newId, ReplacesFailedStep(id)), Some(admitted))
  }

  function RecoverAll(t: Table, now: int): Table {
    map id | id in t :: t[id].(ledger := Apply(t[id].ledger, RecoverStep(now)))
  }

  /* ---------- histories ---------- */

  datatype TableStep =
    | AdmitStep(newId: RunId, cap: int, req: Request, policies: map<string, string>)
    | ReplaceStep(newId: RunId, cap: int, id: RunId)
    | RunStep(id: RunId, step: Step)
    | SweepStep(now: int)

  // Only replace_exhausted_run writes replacement payloads and the two linking events.
  predicate Legal(s: TableStep) {
    && (s.AdmitStep? ==> s.req.payload.replaced.None?)
    && (s.RunStep? ==> !s.step.ReplacementQueuedStep? && !s.step.ReplacesFailedStep?)
  }

  ghost function ApplyTable(t: Table, s: TableStep): Table {
    match s
    case AdmitStep(newId, cap, req, policies) => Admit(t, newId, cap, req, policies).0
    case ReplaceStep(newId, cap, id) => Replace(t, newId, cap, id).0
    case RunStep(id, step) => if id in t then OnLedger(t, id, step) else t
    case SweepStep(now) => RecoverAll(t, now)
  }

  ghost function ExecuteTable(t: Table, steps: seq<TableStep>): Table {
    if steps == [] then t else ApplyTable(ExecuteTable(t, Front(steps)), Last(steps))
  }

  ghost predicate KeysUnique(t: Table) {
    forall a, b :: a in t && b in t && t[a].identity.key == t[b].identity.key ==> a == b
  }

  ghost predicate LedgersValid(t: Table) {
    forall id :: id in t ==> Valid(t[id].ledger) && t[id].ledger.run.maxAttempts == DEFAULT_MAX_ATTEMPTS
  }

  // b is the one replacement of a: a stays exhausted, b keeps its pins and inputs and is younger.
  ghost predicate IsReplacementOf(t: Table, b: RunId, a: RunId) {
    && a in t && b in t
    && Exhausted(t[a].ledger)
    && var source, next := t[a].identity, t[b].identity;
    && next.key == ReplacementKey(a)
    && next.pins == source.pins && next.runType == source.runType && next.symbol == source.symbol
    && next.decisionTime == source.decisionTime && next.dataCutoff == source.dataCutoff
    && next.correlation == source.correlation && next.payload.body == source.payload.body
    && source.born < next.born
  }

  ghost predicate ChainsValid(t: Table) {
    && (forall id :: id in t ==> t[id].identity.born < |t|)
    && (forall b :: b in t && t[b].identity.payload.replaced.Some? ==>
          IsReplacementOf(t, b, t[b].identity.payload.replaced.value))
  }

  ghost predicate TableValid(t: Table) {
    KeysUnique(t) && LedgersValid(t) && ChainsValid(t)
  }

  /* ---------- proofs ---------- */

  lemma ExhaustedStays(l: Ledger, step: Step)
    requires Exhausted(l)
    ensures Exhausted(Apply(l, step))
  {
  }

  // Chains survive any change that keeps every row's identity and every exhausted run.
  lemma ChainsSurvive(t: Table, after: Table)
    requires ChainsValid(t) && after.Keys == t.Keys
    requires forall id :: id in t ==> after[id].identity == t[id].identity
    requires forall id :: id in t && Exhausted(t[id].ledger) ==> Exhausted(after[id].ledger)
    ensures ChainsValid(after)
  {
    assert |after| == |after.Keys| == |t.Keys| == |t|;
    forall b | b in after && after[b].identity.payload.replaced.Some?
      ensures IsReplacementOf(after, b, after[b].identity.payload.replaced.value)
    {
      assert IsReplacementOf(t, b, t[b].identity.payload.replaced.value);
    }
  }

  lemma LedgerKeepsKeys(t: Table, id: RunId, l: Ledger)
    requires KeysUnique(t) && id in t
    ensures KeysUnique(t[id := t[id].(ledger := l)])
  {
  }

  lemma LedgerKeepsLedgers(t: Table, id: RunId, l: Ledger)
    requires LedgersValid(t) && id in t && Valid(l) && l.run.maxAttempts == DEFAULT_MAX_ATTEMPTS
    ensures LedgersValid(t[id := t[id].(ledger := l)])
  {
    hide Valid;
  }

  lemma LedgerKeepsChains(t: Table, id: RunId, l: Ledger)
    requires ChainsValid(t) && id in t && (Exhausted(t[id].ledger) ==> Exhausted(l))
    ensures ChainsValid(t[id := t[id].(ledger := l)])
  {
    hide ChainsValid, Exhausted;
    var after := t[id := t[id].(ledger := l)];
    assert after.Keys == t.Keys;
    ChainsSurvive(t, after);
  }

  lemma OnLedgerKeepsValid(t: Table, id: RunId, step: Step)
    requires TableValid(t) && id in t
    ensures TableValid(OnLedger(t, id, step))
  {
    hide Valid, Apply, ChainsValid, KeysUnique;
    var l := Apply(t[id].ledger, step);
    StepKeepsValid(t[id].ledger, step);
    if Exhausted(t[id].ledger) { ExhaustedStays(t[id].ledger, step); }
    LedgerKeepsKeys(t, id, l);
    LedgerKeepsLedgers(t, id, l);
    LedgerKeepsChains(t, id, l);
  }

  lemma SweepKeepsValid(t: Table, now: int)
    requires TableValid(t)
    ensures TableValid(RecoverAll(t, now))
  {
    hide Valid, Apply, ChainsValid;
    var after := RecoverAll(t, now);
    forall id | id in t
      ensures Valid(after[id].ledger) && after[id].ledger.run.maxAttempts == DEFAULT_MAX_ATTEMPTS
      ensures Exhausted(t[id].ledger) ==> Exhausted(after[id].ledger)
    {
      StepKeepsValid(t[id].ledger, RecoverStep(now));
      if Exhausted(t[id].ledger) { ExhaustedStays(t[id].ledger, RecoverStep(now)); }
    }
    assert after.Keys == t.Keys;
    ChainsSurvive(t, after);
  }

  lemma FreshIsValid()
    ensures Valid(Fresh(DEFAULT_MAX_ATTEMPTS)) && Fresh(DEFAULT_MAX_ATTEMPTS).run.maxAttempts == DEFAULT_MAX_ATTEMPTS
  {
    EveryRunIsValid(DEFAULT_MAX_ATTEMPTS, []);
  }

  lemma InsertKeepsChains(t: Table, newId: RunId, r: Record)
    requires ChainsValid(t) && newId !in t && r.identity.born == |t|
    requires r.identity.payload.replaced.Some? ==>
               r.identity.payload.replaced.value in t
               && IsReplacementOf(t[newId := r], newId, r.identity.payload.replaced.value)
    ensures ChainsValid(t[newId := r])
  {
    var after := t[newId := r];
    assert after.Keys == t.Keys + {newId};
    assert |after| == |after.Keys| == |t| + 1;
    forall b | b in after && after[b].identity.payload.replaced.Some?
      ensures IsReplacementOf(after, b, after[b].identity.payload.replaced.value)
    {
      if b != newId {
        assert IsReplacementOf(t, b, t[b].identity.payload.replaced.value);
      }
    }
  }

  lemma InsertKeepsValid(t: Table, newId: RunId, r: Record)
    requires TableValid(t) && newId !in t
    requires forall id :: id in t ==> t[id].identity.key != r.identity.key
    requires r.identity.born == |t| && r.ledger == Fresh(DEFAULT_MAX_ATTEMPTS)
    requires r.identity.payload.replaced.Some? ==>
               r.identity.payload.replaced.value in t
               && IsReplacementOf(t[newId := r], newId, r.identity.payload.replaced.value)
    ensures TableValid(t[newId := r])
  {
    hide Valid, Fresh, ChainsValid;
    FreshIsValid();
    InsertKeepsChains(t, newId, r);
  }

  lemma AdmitKeepsValid(t: Table, newId: RunId, cap: int, req: Request, policies: map<string, string>)
    requires TableValid(t)
    requires req.payload.replaced.Some? ==>
               && req.payload.replaced.value in t && Exhausted(t[req.payload.replaced.value].ledger)
               && req == ReplacementRequest(req.payload.replaced.value, t[req.payload.replaced.value].identity)
    ensures TableValid(Admit(t, newId, cap, req, policies).0)
  {
    hide Valid;
    var (after, admitted) := Admit(t, newId, cap, req, policies);
    if admitted.Ok? && !admitted.value.replayed {
      InsertKeepsValid(t, newId, NewRecord(t, req, policies));
    }
  }

  lemma ReplaceKeepsValid(t: Table, newId: RunId, cap: int, id: RunId)
    requires TableValid(t)
    ensures TableValid(Replace(t, newId, cap, id).0)
  {
    hide Valid, Apply;
    if id in t && Exhausted(t[id].ledger) {
      var req := ReplacementRequest(id, t[id].identity);
      var (t', admitted) := Admit(t, newId, cap, req, map[]);
      AdmitKeepsValid(t, newId, cap, req, map[]);
      if admitted.Ok? && !admitted.value.replayed {
        OnLedgerKeepsValid(t', id, ReplacementQueuedStep(newId));
        OnLedgerKeepsValid(OnLedger(t', id, ReplacementQueuedStep(newId)), newId, ReplacesFailedStep(id));
      }
    }
  }

  lemma TableStepKeepsValid(t: Table, s: TableStep)
    requires TableValid(t) && Legal(s)
    ensures TableValid(ApplyTable(t, s))
  {
    hide Valid, Apply, TableValid, Admit, OnLedger, RecoverAll, Replace;
    match s {
      case AdmitStep(newId, cap, req, policies) => AdmitKeepsValid(t, newId, cap, req, policies);
      case ReplaceStep(newId, cap, id) => ReplaceKeepsValid(t, newId, cap, id);
      case RunStep(id, step) => if id in t { OnLedgerKeepsValid(t, id, step); }
      case SweepStep(now) => SweepKeepsValid(t, now);
    }
  }

  ghost predicate AllLegal(steps: seq<TableStep>) {
    forall i :: 0 <= i < |steps| ==> Legal(steps[i])
  }

  lemma {:induction false} EveryTableIsValid(steps: seq<TableStep>)
    requires AllLegal(steps)
    ensures TableValid(ExecuteTable(map[], steps))
  {
    if steps != [] {
      EveryTableIsValid(Front(steps));
      TableStepKeepsValid(ExecuteTable(map[], Front(steps)), Last(steps));
    }
  }

  lemma StepKeepsIdentity(t: Table, s: TableStep, id: RunId)
    requires id in t
    ensures id in ApplyTable(t, s) && ApplyTable(t, s)[id].identity == t[id].identity
  {
  }

  lemma LookupFinds(t: Table, id: RunId)
    requires KeysUnique(t) && id in t
    ensures Lookup(t, t[id].identity.key) == Some(id)
  {
  }

  // One run per idempotency key over every history, and the key keeps its run and that run
  // keeps its pins, payload and times forever.
  lemma {:induction false} KeyBindingIsPermanent(t: Table, steps: seq<TableStep>, id: RunId)
    requires TableValid(t) && AllLegal(steps) && id in t
    ensures var later := ExecuteTable(t, steps);
            && TableValid(later)
            && id in later && later[id].identity == t[id].identity
            && Lookup(later, t[id].identity.key) == Some(id)
  {
    hide ApplyTable, LedgersValid, ChainsValid, Lookup, KeysUnique;
    if steps != [] {
      KeyBindingIsPermanent(t, Front(steps), id);
      TableStepKeepsValid(ExecuteTable(t, Front(steps)), Last(steps));
      StepKeepsIdentity(ExecuteTable(t, Front(steps)), Last(steps), id);
    }
    LookupFinds(ExecuteTable(t, steps), id);
  }

  // A later admission under a bound key creates nothing: it replays the run or conflicts, and
  // it replays exactly when the payload is the admitted one.
  lemma BoundKeyIsReplayed(t: Table, steps: seq<TableStep>, id: RunId, newId: RunId, cap: int, req: Request,
                           policies: map<string, string>)
    requires TableValid(t) && AllLegal(steps) && id in t && req.key == t[id].identity.key
    ensures var later := ExecuteTable(t, steps);
            && Admit(later, newId, cap, req, policies).0 == later
            && Admit(later, newId, cap, req, policies).1 ==
                 if req.payload == t[id].identity.payload then Ok(Admitted(id, true)) else Err(IdempotencyConflict)
  {
    KeyBindingIsPermanent(t, steps, id);
  }

  // An exhausted run has at most one replacement; replacements keep every pin and input, and a
  // chain of them is acyclic because each link is younger.
  lemma ReplacementIsUniqueAndFaithful(steps: seq<TableStep>, a: RunId, b: RunId, c: RunId)
    requires AllLegal(steps)
    requires var t := ExecuteTable(map[], steps);
             && b in t && t[b].identity.payload.replaced == Some(a)
             && c in t && t[c].identity.payload.replaced == Some(a)
    ensures b == c && IsReplacementOf(ExecuteTable(map[], steps), b, a)
  {
    EveryTableIsValid(steps);
  }

  /* ---------- capacity ---------- */

  lemma SubsetSize<T>(a: set<T>, b: set<T>)
    requires a <= b
    ensures |a| <= |b|
  {
    assert b == a + (b - a);
  }

  predicate Requeues(t: Table, s: TableStep) {
    s.RunStep? && s.step.RequeueStep? && s.id in t && Requeue(t[s.id].ledger) != t[s.id].ledger
  }

  ghost function OperatorRequeues(t: Table, steps: seq<TableStep>): nat {
    if steps == [] then 0
    else OperatorRequeues(t, Front(steps)) + if Requeues(ExecuteTable(t, Front(steps)), Last(steps)) then 1 else 0
  }

  ghost predicate CapsWithin(steps: seq<TableStep>, cap: int) {
    forall i :: 0 <= i < |steps| ==>
      && (steps[i].AdmitStep? ==> steps[i].cap <= cap)
      && (steps[i].ReplaceStep? ==> steps[i].cap <= cap)
  }

  lemma LedgerStepActivatesNothing(l: Ledger, step: Step)
    requires !step.RequeueStep? || Requeue(l) == l
    ensures Apply(l, step).run.status in {Queued, Running} ==> l.run.status in {Queued, Running}
  {
  }

  lemma OnLedgerActivatesNothing(t: Table, id: RunId, step: Step)
    requires id in t && (!step.RequeueStep? || Requeue(t[id].ledger) == t[id].ledger)
    ensures ActiveIds(OnLedger(t, id, step)) <= ActiveIds(t)
  {
    hide Apply;
    LedgerStepActivatesNothing(t[id].ledger, step);
  }

  lemma ReplaceActivates(t: Table, newId: RunId, cap: int, id: RunId)
    ensures var after := Replace(t, newId, cap, id).0;
            after == t || (ActiveIds(after) <= ActiveIds(t) + {newId} && |ActiveIds(t)| < cap)
  {
    hide Apply;
    if id in t && Exhausted(t[id].ledger) {
      var (admittedTable, admitted) := Admit(t, newId, cap, ReplacementRequest(id, t[id].identity), map[]);
      if admitted.Ok? && !admitted.value.replayed {
        var linked := OnLedger(admittedTable, id, ReplacementQueuedStep(newId));
        OnLedgerActivatesNothing(admittedTable, id, ReplacementQueuedStep(newId));
        OnLedgerActivatesNothing(linked, newId, ReplacesFailedStep(id));
      }
    }
  }

  lemma AdmitActivates(t: Table, newId: RunId, cap: int, req: Request, policies: map<string, string>)
    ensures var after := Admit(t, newId, cap, req, policies).0;
            after == t || (ActiveIds(after) <= ActiveIds(t) + {newId} && |ActiveIds(t)| < cap)
  {
  }

  lemma SweepActivatesNothing(t: Table, now: int)
    ensures ActiveIds(RecoverAll(t, now)) <= ActiveIds(t)
  {
    hide Apply;
    forall id | id in t
      ensures id in ActiveIds(RecoverAll(t, now)) ==> id in ActiveIds(t)
    {
      LedgerStepActivatesNothing(t[id].ledger, RecoverStep(now));
    }
  }

  lemma RunStepActivates(t: Table, id: RunId, step: Step)
    requires id in t
    ensures ActiveIds(OnLedger(t, id, step)) <= ActiveIds(t) + {id}
    ensures !Requeues(t, RunStep(id, step)) ==> ActiveIds(OnLedger(t, id, step)) <= ActiveIds(t)
  {
    hide Apply;
    if !Requeues(t, RunStep(id, step)) {
      OnLedgerActivatesNothing(t, id, step);
    }
  }

  lemma StepActivates(t: Table, s: TableStep, cap: int)
    requires s.AdmitStep? || s.ReplaceStep? ==> s.cap <= cap
    ensures |ActiveIds(ApplyTable(t, s))| <= |ActiveIds(t)| + (if Requeues(t, s) then 1 else 0)
            || |ActiveIds(ApplyTable(t, s))| <= cap
  {
    hide Apply, Admit, Replace, RecoverAll, OnLedger, ActiveIds;
    var before, after := ActiveIds(t), ActiveIds(ApplyTable(t, s));
    match s {
      case AdmitStep(newId, admitCap, req, policies) =>
        AdmitActivates(t, newId, admitCap, req, policies);
        if after <= before + {newId} { SubsetSize(after, before + {newId}); }
      case ReplaceStep(newId, replaceCap, id) =>
        ReplaceActivates(t, newId, replaceCap, id);
        if after <= before + {newId} { SubsetSize(after, before + {newId}); }
      case RunStep(id, step) =>
        if id in t {
          RunStepActivates(t, id, step);
          SubsetSize(after, if Requeues(t, s) then before + {id} else before);
        }
      case SweepStep(now) =>
        SweepActivatesNothing(t, now);
        SubsetSize(after, before);
    }
  }

  // Admission keeps the number of active runs within the cap; only operator requeues exceed it,
  // by at most one each.
  lemma {:induction false} ActiveRunsAreBounded(steps: seq<TableStep>, cap: nat)
    requires CapsWithin(steps, cap)
    ensures |ActiveIds(ExecuteTable(map[], steps))| <= cap + OperatorRequeues(map[], steps)
  {
    if steps != [] {
      ActiveRunsAreBounded(Front(steps), cap);
      StepActivates(ExecuteTable(map[], Front(steps)), Last(steps), cap);
    } else {
      assert ActiveIds(map[]) == {};
    }
  }

  lemma RequeueQueues(l: Ledger)
    requires l.run.status == Failed && !Exhausted(l)
    ensures Apply(l, RequeueStep).run.status == Queued
  {
  }

  // The cap really is bypassed: a requeue at or above capacity still activates its run.
  lemma RequeueBypassesCapacity(t: Table, id: RunId, cap: nat)
    requires TableValid(t) && |ActiveIds(t)| >= cap
    requires id in t && t[id].ledger.run.status == Failed && !Exhausted(t[id].ledger)
    ensures |ActiveIds(ApplyTable(t, RunStep(id, RequeueStep)))| == |ActiveIds(t)| + 1 > cap
  {
    hide Valid, Append, TableValid;
    assert Apply(t[id].ledger, RequeueStep).run.status == Queued by { RequeueQueues(t[id].ledger); }
    assert ActiveIds(ApplyTable(t, RunStep(id, RequeueStep))) == ActiveIds(t) + {id};
  }
}
