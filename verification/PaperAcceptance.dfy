/** Exactly which intents, orders and fills the guards let in, and why they refuse the others. */
module PaperAcceptance {
  import opened Wrappers
  import opened PaperTables
  import opened PaperGuarantees

  /* ---------- fills ---------- */

  predicate Fresh(fills: seq<Fill>, f: Fill) {
    forall g :: g in fills ==> g.key != f.key
  }

  // What fills of the order stand, as a quantity: the unreversed originals.
  function Standing(t: Tables, orderId: Id): real {
    LiveTotal(t.fills, t.fills, orderId, Quantity)
  }

  predicate OriginalMayEnter(t: Tables, f: Fill) {
    && f.orderId in t.orders
    && var o := t.orders[f.orderId];
    && o.riskApproved
    && f.filledAt > o.decisionTime && f.sourceBarTime > o.decisionTime
    && f.policyId == o.policyId && f.portfolioId == o.portfolioId && f.symbol == o.symbol && f.side == o.side
    && Standing(t, f.orderId) + f.quantity <= o.quantity
    && f.quantity > 0.0 && f.price > 0.0 && f.fee >= 0.0 && f.filledAt >= f.sourceBarTime
    && forall g :: g in t.fills ==> g.id != f.id
  }

  // A new original fill is accepted exactly when its order is approved and it is strictly after the decision, agrees
  // with the order, keeps what stands within the order, and is well-formed under a new id.
  lemma OriginalIsAcceptedExactly(t: Tables, f: Fill)
    requires FillsSound(t.fills) && f.reversalOf == None && Fresh(t.fills, f)
    ensures FillVerdict(t, f) == Accept <==> OriginalMayEnter(t, f)
  {
    FindKeyFinds(t.fills, f.key);
    FindIdIsNoneExactly(t.fills, f.id);
    SoundFillsConserve(t.fills, f.orderId);
    hide FillsSound, FindKey, FindId, NetQuantity, LiveTotal, Total;
  }

  lemma FindIdIsNoneExactly(fills: seq<Fill>, id: Id)
    ensures FindId(fills, id).None? <==> forall g :: g in fills ==> g.id != id
  {
    FindIdFinds(fills, id);
  }

  // The original a reversal names, with everything but the side copied, no fee, and a later time.
  predicate Undoes(g: Fill, f: Fill) {
    && f.reversalOf == None && g.reversalOf == Some(f.id)
    && g.orderId == f.orderId && g.portfolioId == f.portfolioId && g.symbol == f.symbol && g.policyId == f.policyId
    && g.quantity == f.quantity && g.price == f.price && g.currency == f.currency
    && ((f.side == Buy && g.side == Sell) || (f.side == Sell && g.side == Buy))
    && g.fee == 0.0 && g.filledAt > f.filledAt
  }

  predicate ReversalMayEnter(t: Tables, g: Fill) {
    && g.orderId in t.orders
    && (exists f :: f in t.fills && Undoes(g, f))
    && (forall h :: h in t.fills ==> h.reversalOf != g.reversalOf)
    && Standing(t, g.orderId) - g.quantity <= t.orders[g.orderId].quantity
    && g.quantity > 0.0 && g.price > 0.0 && g.filledAt >= g.sourceBarTime
    && forall h :: h in t.fills ==> h.id != g.id
  }

  // A new reversal is accepted exactly when it undoes a recorded fill that nothing has reversed, is well-formed under
  // a new id, and leaves no more standing than the order allows.
  lemma ReversalIsAcceptedExactly(t: Tables, g: Fill)
    requires FillsSound(t.fills) && g.reversalOf.Some? && Fresh(t.fills, g)
    ensures FillVerdict(t, g) == Accept <==> ReversalMayEnter(t, g)
  {
    FindKeyFinds(t.fills, g.key);
    FindIdIsNoneExactly(t.fills, g.id);
    SoundFillsConserve(t.fills, g.orderId);
    OriginalFound(t.fills, g);
    if exists f :: f in t.fills && Undoes(g, f) {
      var f :| f in t.fills && Undoes(g, f);
      if forall h :: h in t.fills ==> h.reversalOf != g.reversalOf {
        UnreversedStands(t.fills, f);
      }
    }
    hide FillsSound, FindKey, FindId, NetQuantity, LiveTotal, Total;
  }

  // The lookup by id finds the fill a reversal undoes, if there is one.
  lemma OriginalFound(fills: seq<Fill>, g: Fill)
    requires FillsSound(fills) && g.reversalOf.Some?
    ensures (exists f :: f in fills && Undoes(g, f)) <==>
              (FindId(fills, g.reversalOf.value).Some? && Inverts(g, FindId(fills, g.reversalOf.value).value))
  {
    FindIdFinds(fills, g.reversalOf.value);
    if exists f :: f in fills && Undoes(g, f) {
      var f :| f in fills && Undoes(g, f);
      FindIdIsExact(fills, f);
    }
    if FindId(fills, g.reversalOf.value).Some? && Inverts(g, FindId(fills, g.reversalOf.value).value) {
      assert Undoes(g, FindId(fills, g.reversalOf.value).value);
    }
  }

  lemma UnreversedStands(fills: seq<Fill>, f: Fill)
    requires FillsSound(fills) && f in fills && f.reversalOf == None
    requires forall h :: h in fills ==> h.reversalOf != Some(f.id)
    ensures NetQuantity(fills, f.orderId) >= f.quantity
  {
    SoundFillsConserve(fills, f.orderId);
    assert !Reversed(fills, f);
    LiveCovers(fills, fills, f);
  }

  // A fill under a recorded key is a redelivery exactly when it is the recorded fill.
  lemma KnownKeyIsRedeliveredExactly(t: Tables, f: Fill)
    requires FillsSound(t.fills) && f.orderId in t.orders && !Fresh(t.fills, f)
    ensures FillVerdict(t, f) == if f in t.fills then Redelivered else Reject(KeyReused)
  {
    FindKeyFinds(t.fills, f.key);
    if f in t.fills {
      FindKeyIsExact(t.fills, f);
    }
    hide FillsSound, FindKey, FindId, NetQuantity;
  }

  // A refusal names the first check that fails.
  lemma RefusalNamesTheFirstCheck(t: Tables, f: Fill)
    requires FillsSound(t.fills) && Fresh(t.fills, f)
    ensures var verdict := FillVerdict(t, f);
            && (verdict == Reject(NoOrder) <==> f.orderId !in t.orders)
            && verdict != Reject(KeyReused)
            && (f.orderId in t.orders ==>
                  var o := t.orders[f.orderId];
                  && (f.reversalOf.Some? ==>
                        && (verdict == Reject(NoOriginal) <==> forall g :: g in t.fills ==> Some(g.id) != f.reversalOf)
                        && (verdict == Reject(NotAnInverse) <==>
                              (exists g :: g in t.fills && Some(g.id) == f.reversalOf)
                              && forall g :: g in t.fills ==> !Undoes(f, g)))
                  && (f.reversalOf == None ==>
                        && (verdict == Reject(NotApproved) <==> !o.riskApproved)
                        && (verdict == Reject(NotAfterDecision) <==>
                              o.riskApproved && (f.filledAt <= o.decisionTime || f.sourceBarTime <= o.decisionTime))
                        && (verdict == Reject(PolicyMismatch) ==> f.policyId != o.policyId)
                        && (verdict == Reject(IdentityMismatch) ==>
                              f.portfolioId != o.portfolioId || f.symbol != o.symbol || f.side != o.side)
                        && (verdict == Reject(ExceedsOrder) ==> Standing(t, f.orderId) + f.quantity > o.quantity)))
  {
    FindKeyFinds(t.fills, f.key);
    SoundFillsConserve(t.fills, f.orderId);
    if f.reversalOf.Some? {
      FindIdIsNoneExactly(t.fills, f.reversalOf.value);
      OriginalFound(t.fills, f);
    }
    hide FillsSound, FindKey, FindId, NetQuantity, LiveTotal, Total;
  }

  /* ---------- intents ---------- */

  // An intent goes in exactly when its decision exists and has no intent yet, it copies the decision's portfolio,
  // symbol and time, is approved exactly when the decision is not rejected, follows the frozen execution policy, and,
  // if approved, takes the whole quantity on the authorized side, where a NULL side excludes neither.
  lemma IntentIsAcceptedExactly(t: Tables, id: Id, i: Intent)
    ensures InsertIntent(t, id, i) == (if IntentMayEnter(t, id, i) then t.(intents := t.intents[id := i]) else t)
  {
  }

  predicate IntentMayEnter(t: Tables, id: Id, i: Intent) {
    && id !in t.intents && i.riskId in t.risks
    && (forall other :: other in t.intents ==> t.intents[other].riskId != i.riskId)
    && var r := t.risks[i.riskId];
    && i.portfolioId == r.portfolioId && i.symbol == r.symbol && i.decisionTime == r.decidedAt
    && (i.riskApproved <==> r.status == Approved || r.status == Clipped)
    && (i.riskApproved ==>
          && i.quantity == r.maxOrderQuantity
          && (r.authorizedSide.Some? ==> i.side == r.authorizedSide.value)
          && (r.source == Deterministic ==> r.approvedDelta != 0.0))
    && (r.researchDecisionId.Some? ==>
          r.researchDecisionId.value in t.snapshots && t.snapshots[r.researchDecisionId.value] == i.policyId)
    && i.quantity > 0.0
  }

  /* ---------- orders ---------- */

  // An order is written exactly as a copy of an intent that no other order has taken, rejected exactly when it is
  // not approved.
  predicate OrderMayStand(t: Tables, id: Id, o: Order) {
    && o.intentId in t.intents
    && (forall other :: other in t.orders && other != id ==> t.orders[other].intentId != o.intentId)
    && var i := t.intents[o.intentId];
    && o.portfolioId == i.portfolioId && o.symbol == i.symbol && o.side == i.side && o.quantity == i.quantity
    && o.decisionTime == i.decisionTime && o.policyId == i.policyId && o.riskApproved == i.riskApproved
    && (o.status == OrderRejected <==> !o.riskApproved)
  }

  lemma OrderIsWrittenExactly(t: Tables, id: Id, o: Order)
    ensures InsertOrder(t, id, o) ==
              (if id !in t.orders && OrderMayStand(t, id, o) then t.(orders := t.orders[id := o]) else t)
    ensures UpdateOrder(t, id, o) ==
              (if id in t.orders && OrderMayStand(t, id, o) then t.(orders := t.orders[id := o]) else t)
  {
  }

  // So in every valid state an order is its decision's: portfolio, symbol, time, approval and frozen policy.
  lemma OrderFollowsItsDecision(t: Tables, riskId: Id, orderId: Id)
    requires Valid(t) && riskId in t.risks && TracesTo(t, orderId, riskId)
    ensures var (o, r) := (t.orders[orderId], t.risks[riskId]);
            && o.portfolioId == r.portfolioId && o.symbol == r.symbol && o.decisionTime == r.decidedAt
            && (o.status == OrderRejected <==> r.status == Rejected)
            && (r.researchDecisionId.Some? ==>
                  r.researchDecisionId.value in t.snapshots && t.snapshots[r.researchDecisionId.value] == o.policyId)
            && (r.status != Rejected ==> o.quantity == r.maxOrderQuantity)
  {
    hide FillsValid, RiskAccepted;
    var i := t.intents[t.orders[orderId].intentId];
    assert IntentAccepted(t.snapshots, t.risks[riskId], i) && OrderAccepted(t.intents, t.orders[orderId]);
  }
}
