/**
  The four paper-trading tables and the guards the database runs before every write:
  risk_decision (0015, 0018), order_intent (0013, 0018), paper_order (0007, 0010) and
  paper_fill (0007, 0011, 0012). Numbers are exact; every guarded statement is one atomic step.
*/
module PaperTables {
  import opened Wrappers
  import opened SqlLogic

  type Id = string

  datatype Side = Buy | Sell

  datatype RiskStatus = Approved | Clipped | Rejected

  datatype Source = Deterministic | LegacyBackfill

  datatype Risk = Risk(portfolioId: Id, symbol: string, status: RiskStatus, approvedDelta: real,
                       referenceNav: Option<real>, referencePrice: Option<real>, maxOrderQuantity: real,
                       source: Source, authorizedSide: Option<Side>, decidedAt: int,
                       researchDecisionId: Option<Id>)

  datatype Intent = Intent(riskId: Id, portfolioId: Id, symbol: string, side: Side, quantity: real,
                           decisionTime: int, policyId: Id, riskApproved: bool)

  datatype OrderStatus = OrderRejected | Pending | PartiallyFilled | Filled

  datatype Order = Order(intentId: Id, portfolioId: Id, symbol: string, side: Side, quantity: real,
                         decisionTime: int, policyId: Id, riskApproved: bool, status: OrderStatus)

  datatype Fill = Fill(id: Id, key: string, orderId: Id, portfolioId: Id, symbol: string, side: Side,
                       quantity: real, price: real, fee: real, currency: string, filledAt: int,
                       sourceBarTime: int, policyId: Id, reversalOf: Option<Id>)

  // snapshots: the execution policy pinned by each frozen research decision.
  datatype Tables = Tables(snapshots: map<Id, Id>, risks: map<Id, Risk>, intents: map<Id, Intent>,
                           orders: map<Id, Order>, fills: seq<Fill>)

  function Abs(x: real): real {
    if x < 0.0 then -x else x
  }

  function SideOf(delta: real): Side {
    if delta > 0.0 then Buy else Sell
  }

  /* ---------- risk_decision ---------- */

  // max_order_quantity = abs(approved_delta) * reference_nav / reference_price; a zero price
  // raises, which refuses the row like a false condition.
  function QuantityMatches(r: Risk): Tri {
    if r.referenceNav.None? || r.referencePrice.None? then Unknown
    else if r.referencePrice.value == 0.0 then No
    else Known(r.maxOrderQuantity == Abs(r.approvedDelta) * r.referenceNav.value / r.referencePrice.value)
  }

  function NothingAuthorized(r: Risk): Tri {
    And(Known(r.maxOrderQuantity == 0.0), Known(r.authorizedSide.None?))
  }

  function AuthorizationFacts(r: Risk): Tri {
    var rejected := Known(r.status == Rejected);
    var kept := Known(r.status != Rejected);
    Or(And(Known(r.source == LegacyBackfill),
           Or(And(rejected, NothingAuthorized(r)),
              And(kept, And(Known(r.maxOrderQuantity > 0.0),
                            if r.authorizedSide.Some? then Yes else Unknown)))),
       And(Known(r.source == Deterministic),
           Or(And(rejected, NothingAuthorized(r)),
              And(kept,
                  Or(And(Known(r.approvedDelta == 0.0), NothingAuthorized(r)),
                     And(Known(r.approvedDelta != 0.0),
                         And(And(Positive(r.referenceNav), Positive(r.referencePrice)),
                             And(QuantityMatches(r), Equals(r.authorizedSide, Some(SideOf(r.approvedDelta)))))))))))
  }

  predicate RiskAccepted(snapshots: map<Id, Id>, r: Risk) {
    && CheckPasses(AuthorizationFacts(r))
    && r.maxOrderQuantity >= 0.0
    && (r.researchDecisionId.None? || r.researchDecisionId.value in snapshots)
  }

  function InsertRisk(t: Tables, id: Id, r: Risk): Tables {
    if id !in t.risks && RiskAccepted(t.snapshots, r) then t.(risks := t.risks[id := r]) else t
  }

  /* ---------- order_intent ---------- */

  // The condition under which the trigger raises "exceeds risk decision authorization".
  function ExceedsAuthorization(r: Risk, i: Intent): Tri {
    And(Known(i.riskApproved),
        Or(Or(Known(i.quantity != r.maxOrderQuantity), Differs(Some(i.side), r.authorizedSide)),
           And(Known(r.source == Deterministic), Known(r.approvedDelta == 0.0))))
  }

  predicate IntentAccepted(snapshots: map<Id, Id>, r: Risk, i: Intent) {
    && i.portfolioId == r.portfolioId && i.symbol == r.symbol && i.decisionTime == r.decidedAt
    && i.riskApproved == (r.status != Rejected)
    && !IfTaken(ExceedsAuthorization(r, i))
    && (r.researchDecisionId.Some? ==>
          r.researchDecisionId.value in snapshots && snapshots[r.researchDecisionId.value] == i.policyId)
    && i.quantity > 0.0
  }

  function InsertIntent(t: Tables, id: Id, i: Intent): Tables {
    if id !in t.intents && i.riskId in t.risks && IntentAccepted(t.snapshots, t.risks[i.riskId], i)
       && forall other :: other in t.intents ==> t.intents[other].riskId != i.riskId
    then t.(intents := t.intents[id := i])
    else t
  }

  /* ---------- paper_order ---------- */

  predicate MatchesIntent(o: Order, i: Intent) {
    && o.portfolioId == i.portfolioId && o.symbol == i.symbol && o.side == i.side && o.quantity == i.quantity
    && o.decisionTime == i.decisionTime && o.policyId == i.policyId && o.riskApproved == i.riskApproved
  }

  // The trigger runs before every insert and every update.
  predicate OrderAccepted(intents: map<Id, Intent>, o: Order) {
    && o.intentId in intents
    && MatchesIntent(o, intents[o.intentId])
    && (o.status == OrderRejected <==> !o.riskApproved)
  }

  predicate IntentFree(orders: map<Id, Order>, intentId: Id, except: Id) {
    forall other :: other in orders && other != except ==> orders[other].intentId != intentId
  }

  function InsertOrder(t: Tables, id: Id, o: Order): Tables {
    if id !in t.orders && OrderAccepted(t.intents, o) && IntentFree(t.orders, o.intentId, id)
    then t.(orders := t.orders[id := o])
    else t
  }

  function UpdateOrder(t: Tables, id: Id, o: Order): Tables {
    if id in t.orders && OrderAccepted(t.intents, o) && IntentFree(t.orders, o.intentId, id)
    then t.(orders := t.orders[id := o])
    else t
  }

  /* ---------- paper_fill ---------- */

  function FindKey(fills: seq<Fill>, key: string): Option<Fill> {
    if fills == [] then None
    else if fills[|fills| - 1].key == key then Some(fills[|fills| - 1])
    else FindKey(fills[..|fills| - 1], key)
  }

  function FindId(fills: seq<Fill>, id: Id): Option<Fill> {
    if fills == [] then None
    else if fills[|fills| - 1].id == id then Some(fills[|fills| - 1])
    else FindId(fills[..|fills| - 1], id)
  }

  // SUM(CASE WHEN reversal_of_id IS NULL THEN quantity ELSE -quantity END) over one order
  function NetQuantity(fills: seq<Fill>, orderId: Id): real {
    if fills == [] then 0.0
    else
      var f := fills[|fills| - 1];
      NetQuantity(fills[..|fills| - 1], orderId)
      + if f.orderId != orderId then 0.0 else if f.reversalOf.None? then f.quantity else -f.quantity
  }

  datatype Rejection =
    | NoOrder | KeyReused | NoOriginal | NotAnInverse | NotApproved | NotAfterDecision | PolicyMismatch
    | IdentityMismatch | ExceedsOrder | ExceedsFilled | ConstraintViolated

  datatype Verdict = Accept | Redelivered | Reject(reason: Rejection)

  predicate Inverts(g: Fill, f: Fill) {
    && f.reversalOf.None?
    && g.orderId == f.orderId && g.portfolioId == f.portfolioId && g.symbol == f.symbol
    && g.quantity == f.quantity && g.price == f.price && g.currency == f.currency && g.policyId == f.policyId
    && g.side != f.side && g.fee == 0.0 && g.filledAt > f.filledAt
  }

  // The part of the trigger before the cumulative quantity, once the order is known to exist.
  function IdentityVerdict(t: Tables, o: Order, f: Fill): Verdict {
    if f.reversalOf.Some? then
      var original := FindId(t.fills, f.reversalOf.value);
      if original.None? then Reject(NoOriginal)
      else if !Inverts(f, original.value) then Reject(NotAnInverse)
      else Accept
    else if !o.riskApproved then Reject(NotApproved)
    else if f.filledAt <= o.decisionTime || f.sourceBarTime <= o.decisionTime then Reject(NotAfterDecision)
    else if f.policyId != o.policyId then Reject(PolicyMismatch)
    else if f.portfolioId != o.portfolioId || f.symbol != o.symbol || f.side != o.side then Reject(IdentityMismatch)
    else Accept
  }

  predicate Constraints(t: Tables, f: Fill) {
    && f.quantity > 0.0 && f.price > 0.0 && f.fee >= 0.0 && f.filledAt >= f.sourceBarTime
    && FindId(t.fills, f.id).None?
    && (f.reversalOf.Some? ==> forall g :: g in t.fills ==> g.reversalOf != f.reversalOf)
  }

  function FillVerdict(t: Tables, f: Fill): Verdict {
    if f.orderId !in t.orders then Reject(NoOrder)
    else
      var existing := FindKey(t.fills, f.key);
      if existing.Some? then (if existing.value == f then Redelivered else Reject(KeyReused))
      else
        var o := t.orders[f.orderId];
        var identity := IdentityVerdict(t, o, f);
        if identity != Accept then identity
        else
          var proposed := NetQuantity(t.fills, f.orderId) + if f.reversalOf.None? then f.quantity else -f.quantity;
          if proposed > o.quantity then Reject(ExceedsOrder)
          else if proposed < 0.0 then Reject(ExceedsFilled)
          else if !Constraints(t, f) then Reject(ConstraintViolated)
          else Accept
  }

  // INSERT .. ON CONFLICT (idempotency_key) DO NOTHING
  function InsertFill(t: Tables, f: Fill): Tables {
    if FillVerdict(t, f) == Accept then t.(fills := t.fills + [f]) else t
  }
}
