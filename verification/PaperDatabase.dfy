/** The tables as mutable state: each method is one guarded statement. */
module PaperDatabase {
  import opened Wrappers
  import opened PaperTables
  import PaperGuarantees
  import PaperAcceptance

  class Database {
    const snapshots: map<Id, Id>
    var risks: map<Id, Risk>
    var intents: map<Id, Intent>
    var orders: map<Id, Order>
    var fills: seq<Fill>

    function State(): Tables
      reads this
    {
      Tables(snapshots, risks, intents, orders, fills)
    }

    constructor (snapshots: map<Id, Id>)
      ensures State() == Tables(snapshots, map[], map[], map[], [])
    {
      this.snapshots := snapshots;
      risks, intents, orders, fills := map[], map[], map[], [];
    }

    // A new decision goes in exactly when its id is new and it is admissible read without unknowns, and then
    // stands beside every earlier one; a refused one leaves no trace.
    method InsertRiskDecision(id: Id, r: Risk) returns (inserted: bool)
      modifies this`risks
      ensures State() == InsertRisk(old(State()), id, r)
      ensures inserted <==> id !in old(risks) && PaperGuarantees.Admitted(snapshots, r)
      ensures risks == if inserted then old(risks)[id := r] else old(risks)
      ensures inserted && PaperGuarantees.Directional(r) && r.referenceNav.Some? && r.referencePrice.Some? ==>
                r.maxOrderQuantity * r.referencePrice.value == Abs(r.approvedDelta) * r.referenceNav.value
    {
      PaperGuarantees.ConstraintsAdmitExactly(snapshots, r);
      inserted := id !in risks && RiskAccepted(snapshots, r);
      hide RiskAccepted, PaperGuarantees.Admitted;
      if inserted {
        risks := risks[id := r];
        if PaperGuarantees.Directional(r) && r.referenceNav.Some? && r.referencePrice.Some? {
          PaperGuarantees.PinnedQuantity(snapshots, r);
        }
      }
    }

    method InsertOrderIntent(id: Id, i: Intent) returns (inserted: bool)
      modifies this`intents
      ensures State() == InsertIntent(old(State()), id, i)
      ensures inserted <==> PaperAcceptance.IntentMayEnter(old(State()), id, i)
      ensures intents == if inserted then old(intents)[id := i] else old(intents)
    {
      if i.riskId !in risks || !IntentAccepted(snapshots, risks[i.riskId], i) || id in intents {
        return false;
      }
      var rest := intents.Keys;
      while rest != {}
        invariant rest <= intents.Keys
        invariant forall other :: other in intents && other !in rest ==> intents[other].riskId != i.riskId
      {
        var other :| other in rest;
        if intents[other].riskId == i.riskId {
          return false;
        }
        rest := rest - {other};
      }
      intents := intents[id := i];
      return true;
    }

    // Inserts and updates of paper_order pass the same trigger and the same unique index.
    method WritePaperOrder(id: Id, o: Order, update: bool) returns (written: bool)
      modifies this`orders
      ensures State() == if update then UpdateOrder(old(State()), id, o) else InsertOrder(old(State()), id, o)
      ensures written <==> (id in old(orders) <==> update) && PaperAcceptance.OrderMayStand(old(State()), id, o)
      ensures orders == if written then old(orders)[id := o] else old(orders)
    {
      if (id in orders) != update || !OrderAccepted(intents, o) {
        return false;
      }
      var rest := orders.Keys - {id};
      while rest != {}
        invariant rest <= orders.Keys - {id}
        invariant forall other :: other in orders && other != id && other !in rest ==> orders[other].intentId != o.intentId
      {
        var other :| other in rest;
        if orders[other].intentId == o.intentId {
          return false;
        }
        rest := rest - {other};
      }
      orders := orders[id := o];
      return true;
    }

    method SelectByKey(key: string) returns (found: Option<Fill>)
      ensures found == FindKey(fills, key)
    {
      found := None;
      for n := 0 to |fills|
        invariant found == FindKey(fills[..n], key)
      {
        assert fills[..n + 1][..n] == fills[..n];
        if fills[n].key == key {
          found := Some(fills[n]);
        }
      }
      assert fills[..|fills|] == fills;
    }

    method SelectById(id: Id) returns (found: Option<Fill>)
      ensures found == FindId(fills, id)
    {
      found := None;
      for n := 0 to |fills|
        invariant found == FindId(fills[..n], id)
      {
        assert fills[..n + 1][..n] == fills[..n];
        if fills[n].id == id {
          found := Some(fills[n]);
        }
      }
      assert fills[..|fills|] == fills;
    }

    method SumQuantity(orderId: Id) returns (currentQuantity: real)
      ensures currentQuantity == NetQuantity(fills, orderId)
    {
      currentQuantity := 0.0;
      for n := 0 to |fills|
        invariant currentQuantity == NetQuantity(fills[..n], orderId)
      {
        assert fills[..n + 1][..n] == fills[..n];
        if fills[n].orderId == orderId {
          if fills[n].reversalOf.None? {
            currentQuantity := currentQuantity + fills[n].quantity;
          } else {
            currentQuantity := currentQuantity - fills[n].quantity;
          }
        }
      }
      assert fills[..|fills|] == fills;
    }

    // validate_paper_fill_insert, then the table's constraints, then the append.
    method InsertPaperFill(f: Fill) returns (verdict: Verdict)
      modifies this`fills
      ensures verdict == FillVerdict(old(State()), f)
      ensures State() == InsertFill(old(State()), f)
      ensures fills == if verdict == Accept then old(fills) + [f] else old(fills)
      ensures PaperGuarantees.FillsSound(old(fills)) && PaperAcceptance.Fresh(old(fills), f) ==>
                (verdict == Accept <==> if f.reversalOf.None? then PaperAcceptance.OriginalMayEnter(old(State()), f)
                                        else PaperAcceptance.ReversalMayEnter(old(State()), f))
    {
      ghost var before := State();
      if PaperGuarantees.FillsSound(fills) && PaperAcceptance.Fresh(fills, f) {
        if f.reversalOf.None? {
          PaperAcceptance.OriginalIsAcceptedExactly(before, f);
        } else {
          PaperAcceptance.ReversalIsAcceptedExactly(before, f);
        }
      }
      hide PaperGuarantees.FillsSound, PaperAcceptance.OriginalMayEnter, PaperAcceptance.ReversalMayEnter,
           PaperAcceptance.Fresh;
      if f.orderId !in orders {
        return Reject(NoOrder);
      }
      var sourceOrder := orders[f.orderId];
      var existing := SelectByKey(f.key);
      if existing.Some? {
        return if existing.value == f then Redelivered else Reject(KeyReused);
      }
      if f.reversalOf.Some? {
        var original := SelectById(f.reversalOf.value);
        if original.None? {
          return Reject(NoOriginal);
        }
        if !Inverts(f, original.value) {
          return Reject(NotAnInverse);
        }
      } else {
        if !sourceOrder.riskApproved {
          return Reject(NotApproved);
        }
        if f.filledAt <= sourceOrder.decisionTime || f.sourceBarTime <= sourceOrder.decisionTime {
          return Reject(NotAfterDecision);
        }
        if f.policyId != sourceOrder.policyId {
          return Reject(PolicyMismatch);
        }
        if f.portfolioId != sourceOrder.portfolioId || f.symbol != sourceOrder.symbol || f.side != sourceOrder.side {
          return Reject(IdentityMismatch);
        }
      }
      var currentQuantity := SumQuantity(f.orderId);
      var proposedQuantity := currentQuantity + if f.reversalOf.None? then f.quantity else -f.quantity;
      if proposedQuantity > sourceOrder.quantity {
        return Reject(ExceedsOrder);
      }
      if proposedQuantity < 0.0 {
        return Reject(ExceedsFilled);
      }
      if !Constraints(State(), f) {
        return Reject(ConstraintViolated);
      }
      fills := fills + [f];
      return Accept;
    }
  }
}
