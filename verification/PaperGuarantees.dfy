/** What the guards keep in every reachable state, and where a NULL lets them down. */
module PaperGuarantees {
  import opened Wrappers
  import opened PaperTables

  /* ---------- the shape of an append-only fill table ---------- */

  function Front(fills: seq<Fill>): seq<Fill>
    requires fills != []
  {
    fills[..|fills| - 1]
  }

  // The last row was legitimate when it was inserted: new id, and a reversal inverts an earlier
  // fill nobody has reversed yet.
  ghost predicate LastIsSound(fills: seq<Fill>)
    requires fills != []
  {
    var before, f := Front(fills), fills[|fills| - 1];
    && f.quantity > 0.0
    && (forall g :: g in before ==> g.id != f.id && g.key != f.key)
    && (f.reversalOf.Some? ==>
          && (exists g :: g in before && g.id == f.reversalOf.value && Inverts(f, g))
          && (forall g :: g in before ==> g.reversalOf != f.reversalOf))
  }

  ghost predicate FillsSound(fills: seq<Fill>)
    decreases |fills|
  {
    fills == [] || (FillsSound(Front(fills)) && LastIsSound(fills))
  }

  predicate Reversed(fills: seq<Fill>, f: Fill) {
    exists g :: g in fills && g.reversalOf == Some(f.id)
  }

  // Sum of a weight over the rows of one order.
  function Total(fills: seq<Fill>, orderId: Id, weight: Fill -> real): real {
    if fills == [] then 0.0
    else
      var f := fills[|fills| - 1];
      Total(Front(fills), orderId, weight) + if f.orderId == orderId then weight(f) else 0.0
  }

  // The same sum over the fills that are neither reversals nor reversed in table `all`.
  function LiveTotal(fills: seq<Fill>, all: seq<Fill>, orderId: Id, weight: Fill -> real): real {
    if fills == [] then 0.0
    else
      var f := fills[|fills| - 1];
      LiveTotal(Front(fills), all, orderId, weight)
      + if f.orderId == orderId && f.reversalOf.None? && !Reversed(all, f) then weight(f) else 0.0
  }

  // A weight under which every legitimate reversal undoes its original.
  ghost predicate Antisymmetric(weight: Fill -> real) {
    forall f, g :: Inverts(g, f) && g.reversalOf.Some? ==> weight(g) == -weight(f)
  }

  lemma {:induction false} SoundIds(fills: seq<Fill>, i: int, j: int)
    requires FillsSound(fills) && 0 <= i < j < |fills|
    ensures fills[i].id != fills[j].id && fills[i].key != fills[j].key
  {
    if j < |fills| - 1 {
      SoundIds(Front(fills), i, j);
    } else {
      assert fills[i] in Front(fills);
    }
  }

  // Appending a row that reverses nothing among `fills` changes no live sum over `fills`.
  lemma {:induction false} LiveIgnores(fills: seq<Fill>, all: seq<Fill>, g: Fill, orderId: Id, weight: Fill -> real)
    requires forall f :: f in fills ==> g.reversalOf != Some(f.id)
    ensures LiveTotal(fills, all + [g], orderId, weight) == LiveTotal(fills, all, orderId, weight)
  {
    if fills != [] {
      LiveIgnores(Front(fills), all, g, orderId, weight);
      var f := fills[|fills| - 1];
      assert Reversed(all + [g], f) == Reversed(all, f);
    }
  }

  // Appending the first reversal of f takes exactly f out of the live sum.
  lemma {:induction false} LiveLoses(fills: seq<Fill>, all: seq<Fill>, f: Fill, g: Fill, orderId: Id,
                                     weight: Fill -> real)
    requires FillsSound(fills) && f in fills && f.reversalOf.None? && !Reversed(all, f)
    requires g.reversalOf == Some(f.id)
    ensures LiveTotal(fills, all + [g], orderId, weight)
         == LiveTotal(fills, all, orderId, weight) - if f.orderId == orderId then weight(f) else 0.0
  {
    var last := fills[|fills| - 1];
    var i :| 0 <= i < |fills| && fills[i] == f;
    if i == |fills| - 1 {
      forall h | h in Front(fills) ensures g.reversalOf != Some(h.id) {
        assert LastIsSound(fills);
      }
      LiveIgnores(Front(fills), all, g, orderId, weight);
      assert g in all + [g];
      assert Reversed(all + [g], f);
    } else {
      assert f == Front(fills)[i];
      LiveLoses(Front(fills), all, f, g, orderId, weight);
      SoundIds(fills, i, |fills| - 1);
      assert Reversed(all + [g], last) == Reversed(all, last);
    }
  }

  lemma {:induction false} OriginalsComeFirst(fills: seq<Fill>, g: Fill)
    requires FillsSound(fills) && g in fills && g.reversalOf.Some?
    ensures exists f :: f in fills && f.id == g.reversalOf.value
  {
    var last := fills[|fills| - 1];
    if g == last {
      assert LastIsSound(fills);
    } else {
      assert g in Front(fills);
      OriginalsComeFirst(Front(fills), g);
    }
  }

  // Conservation: for every weight that reversals undo, the whole table of an order sums to the
  // fills still standing.
  lemma {:induction false} TotalIsLiveTotal(fills: seq<Fill>, orderId: Id, weight: Fill -> real)
    requires FillsSound(fills) && Antisymmetric(weight)
    ensures Total(fills, orderId, weight) == LiveTotal(fills, fills, orderId, weight)
  {
    if fills != [] {
      var before, g := Front(fills), fills[|fills| - 1];
      TotalIsLiveTotal(before, orderId, weight);
      assert fills == before + [g];
      assert LastIsSound(fills);
      if g.reversalOf.Some? {
        var f :| f in before && f.id == g.reversalOf.value && Inverts(g, f);
        assert !Reversed(before, f);
        LiveLoses(before, before, f, g, orderId, weight);
      } else {
        LiveIgnores(before, before, g, orderId, weight);
        if Reversed(fills, g) {
          var h :| h in fills && h.reversalOf == Some(g.id);
          assert h in before;
          OriginalsComeFirst(before, h);
          assert false;
        }
      }
    }
  }

  /* ---------- the three weights ---------- */

  function Quantity(f: Fill): real {
    if f.reversalOf.None? then f.quantity else -f.quantity
  }

  function Signed(side: Side): real {
    if side == Buy then 1.0 else -1.0
  }

  // What a row does to the position: the side of a reversal is already flipped.
  function PositionChange(f: Fill): real {
    Signed(f.side) * f.quantity
  }

  function Notional(f: Fill): real {
    Signed(f.side) * (f.quantity * f.price)
  }

  lemma WeightsAreAntisymmetric()
    ensures Antisymmetric(Quantity) && Antisymmetric(PositionChange) && Antisymmetric(Notional)
  {
  }

  lemma {:induction false} NetIsTotal(fills: seq<Fill>, orderId: Id)
    ensures NetQuantity(fills, orderId) == Total(fills, orderId, Quantity)
  {
    if fills != [] {
      NetIsTotal(Front(fills), orderId);
    }
  }

  /* ---------- the state invariant ---------- */

  // Every fill names an approved order; an original has the order's own side.
  ghost predicate FillFits(orders: map<Id, Order>, f: Fill) {
    && f.orderId in orders
    && f.quantity > 0.0
    && orders[f.orderId].riskApproved
    && (f.side == orders[f.orderId].side <==> f.reversalOf.None?)
  }

  ghost predicate OrdersValid(t: Tables) {
    && (forall o :: o in t.orders ==> OrderAccepted(t.intents, t.orders[o]))
    && (forall a, b :: a in t.orders && b in t.orders && t.orders[a].intentId == t.orders[b].intentId ==> a == b)
  }

  ghost predicate IntentsValid(t: Tables) {
    && (forall r :: r in t.risks ==> RiskAccepted(t.snapshots, t.risks[r]))
    && (forall i :: i in t.intents ==>
          t.intents[i].riskId in t.risks && IntentAccepted(t.snapshots, t.risks[t.intents[i].riskId], t.intents[i]))
    && (forall a, b :: a in t.intents && b in t.intents && t.intents[a].riskId == t.intents[b].riskId ==> a == b)
  }

  ghost predicate FillsValid(t: Tables) {
    && FillsSound(t.fills)
    && (forall f :: f in t.fills ==> FillFits(t.orders, f))
    && (forall o :: o in t.orders ==> 0.0 <= NetQuantity(t.fills, o) <= t.orders[o].quantity)
  }

  ghost predicate Valid(t: Tables) {
    IntentsValid(t) && OrdersValid(t) && FillsValid(t)
  }

  datatype Step =
    | RiskStep(id: Id, risk: Risk)
    | IntentStep(id: Id, intent: Intent)
    | OrderStep(id: Id, order: Order)
    | UpdateStep(id: Id, order: Order)
    | FillStep(fill: Fill)

  function Apply(t: Tables, s: Step): Tables {
    match s
    case RiskStep(id, r) => InsertRisk(t, id, r)
    case IntentStep(id, i) => InsertIntent(t, id, i)
    case OrderStep(id, o) => InsertOrder(t, id, o)
    case UpdateStep(id, o) => UpdateOrder(t, id, o)
    case FillStep(f) => InsertFill(t, f)
  }

  predicate HasFills(t: Tables, orderId: Id) {
    exists f :: f in t.fills && f.orderId == orderId
  }

  // What the fills of an order ask of a row that replaces it: approval, the same side, and room for
  // what is filled.
  predicate CoversFills(t: Tables, id: Id, o: Order)
    requires id in t.orders
  {
    !HasFills(t, id) ||
    (o.riskApproved && o.side == t.orders[id].side && NetQuantity(t.fills, id) <= o.quantity)
  }

  // The condition under which a step keeps the invariant: only an update that the trigger and the unique
  // index let through can fail it.
  predicate Fits(t: Tables, s: Step) {
    s.UpdateStep? && s.id in t.orders && OrderAccepted(t.intents, s.order) && IntentFree(t.orders, s.order.intentId, s.id)
    ==> CoversFills(t, s.id, s.order)
  }

  // Under the guard, an update that keeps its intent can change nothing but the status.
  lemma UpdateKeepingIntentChangesOnlyStatus(t: Tables, id: Id, o: Order)
    requires Valid(t) && id in t.orders && o.intentId == t.orders[id].intentId
    ensures UpdateOrder(t, id, o).orders[id] == t.orders[id].(status := UpdateOrder(t, id, o).orders[id].status)
  {
  }

  lemma {:induction false} NoFillsNoNet(fills: seq<Fill>, orderId: Id)
    requires forall f :: f in fills ==> f.orderId != orderId
    ensures NetQuantity(fills, orderId) == 0.0
  {
    if fills != [] {
      NoFillsNoNet(Front(fills), orderId);
    }
  }

  lemma {:induction false} FindIdFinds(fills: seq<Fill>, id: Id)
    ensures FindId(fills, id).Some? ==> FindId(fills, id).value in fills && FindId(fills, id).value.id == id
    ensures FindId(fills, id).None? ==> forall f :: f in fills ==> f.id != id
  {
    if fills != [] {
      FindIdFinds(Front(fills), id);
    }
  }

  lemma {:induction false} FindKeyFinds(fills: seq<Fill>, key: string)
    ensures FindKey(fills, key).Some? ==> FindKey(fills, key).value in fills && FindKey(fills, key).value.key == key
    ensures FindKey(fills, key).None? ==> forall f :: f in fills ==> f.key != key
  {
    if fills != [] {
      FindKeyFinds(Front(fills), key);
    }
  }

  // Whatever the orders say, an accepted fill leaves the fill table sound.
  lemma AcceptedFillIsSound(t: Tables, f: Fill)
    requires FillsSound(t.fills) && FillVerdict(t, f) == Accept
    ensures FillsSound(t.fills + [f])
  {
    assert Front(t.fills + [f]) == t.fills;
    FindIdFinds(t.fills, f.id);
    FindKeyFinds(t.fills, f.key);
    if f.reversalOf.Some? {
      FindIdFinds(t.fills, f.reversalOf.value);
    }
    assert LastIsSound(t.fills + [f]);
  }

  lemma AcceptedFillFits(t: Tables, f: Fill)
    requires FillsValid(t) && FillVerdict(t, f) == Accept
    ensures FillFits(t.orders, f)
  {
    if f.reversalOf.Some? {
      FindIdFinds(t.fills, f.reversalOf.value);
      var original := FindId(t.fills, f.reversalOf.value).value;
      assert FillFits(t.orders, original);
    }
  }

  lemma AcceptedFillKeepsNet(t: Tables, f: Fill, orderId: Id)
    requires FillsValid(t) && FillVerdict(t, f) == Accept && orderId in t.orders
    ensures 0.0 <= NetQuantity(t.fills + [f], orderId) <= t.orders[orderId].quantity
  {
    assert (t.fills + [f])[..|t.fills|] == t.fills;
  }

  lemma AcceptedFillKeepsValid(t: Tables, f: Fill)
    requires Valid(t) && FillVerdict(t, f) == Accept
    ensures Valid(InsertFill(t, f))
  {
    hide FillsSound, AuthorizationFacts, NetQuantity, IntentAccepted, RiskAccepted, OrderAccepted;
    AcceptedFillIsSound(t, f);
    AcceptedFillFits(t, f);
    forall o | o in t.orders ensures 0.0 <= NetQuantity(t.fills + [f], o) <= t.orders[o].quantity {
      AcceptedFillKeepsNet(t, f, o);
    }
  }

  lemma OrderWriteKeepsFills(t: Tables, id: Id, o: Order)
    requires Valid(t) && OrderAccepted(t.intents, o)
    requires id in t.orders ==> CoversFills(t, id, o)
    ensures FillsValid(t.(orders := t.orders[id := o]))
  {
    hide FillsSound, NetQuantity, RiskAccepted, IntentAccepted, FillFits, OrderAccepted;
    assert o.quantity > 0.0 by { AcceptedOrderHasQuantity(t, o); }
    if id !in t.orders || !HasFills(t, id) {
      UnfilledOrderWrite(t, id, o);
    } else {
      FilledOrderWrite(t, id, o);
    }
  }

  lemma AcceptedOrderHasQuantity(t: Tables, o: Order)
    requires IntentsValid(t) && OrderAccepted(t.intents, o)
    ensures o.quantity > 0.0
  {
    hide RiskAccepted;
    assert t.intents[o.intentId].quantity > 0.0;
  }

  lemma UnfilledOrderWrite(t: Tables, id: Id, o: Order)
    requires FillsValid(t) && o.quantity > 0.0 && (id !in t.orders || !HasFills(t, id))
    ensures FillsValid(t.(orders := t.orders[id := o]))
  {
    hide FillsSound, NetQuantity;
    assert forall f :: f in t.fills ==> FillFits(t.orders, f) && f.orderId != id;
    NoFillsNoNet(t.fills, id);
  }

  lemma FilledOrderWrite(t: Tables, id: Id, o: Order)
    requires FillsValid(t) && id in t.orders
    requires o.riskApproved && o.side == t.orders[id].side && NetQuantity(t.fills, id) <= o.quantity
    ensures FillsValid(t.(orders := t.orders[id := o]))
  {
    hide FillsSound, NetQuantity;
  }

  lemma OrderWriteKeepsValid(t: Tables, id: Id, o: Order)
    requires Valid(t) && OrderAccepted(t.intents, o) && IntentFree(t.orders, o.intentId, id)
    requires id in t.orders ==> CoversFills(t, id, o)
    ensures Valid(t.(orders := t.orders[id := o]))
  {
    hide FillsValid, RiskAccepted, IntentAccepted, CoversFills;
    OrderWriteKeepsFills(t, id, o);
  }

  // Each fill of an order fixes the order's side.
  lemma FillsFixTheOrder(before: map<Id, Order>, after: map<Id, Order>, f: Fill)
    requires FillFits(before, f) && FillFits(after, f)
    ensures after[f.orderId].riskApproved && after[f.orderId].side == before[f.orderId].side
  {
  }

  // An update that the trigger accepts keeps the invariant exactly when the order has no fills yet, or
  // stays approved on its side with room for what is filled.
  lemma UpdateKeepsValidExactly(t: Tables, id: Id, o: Order)
    requires Valid(t) && id in t.orders && OrderAccepted(t.intents, o) && IntentFree(t.orders, o.intentId, id)
    ensures Valid(UpdateOrder(t, id, o)) <==> CoversFills(t, id, o)
  {
    hide OrderAccepted, IntentFree, FillsSound, NetQuantity, IntentsValid, OrdersValid, FillFits;
    if CoversFills(t, id, o) {
      OrderWriteKeepsValid(t, id, o);
    } else {
      var f :| f in t.fills && f.orderId == id;
      var after := t.(orders := t.orders[id := o]);
      if FillsValid(after) {
        FillsFixTheOrder(t.orders, after.orders, f);
      }
    }
  }

  lemma RiskWriteKeepsValid(t: Tables, id: Id, r: Risk)
    requires Valid(t) && id !in t.risks && RiskAccepted(t.snapshots, r)
    ensures Valid(t.(risks := t.risks[id := r]))
  {
    hide FillsSound, NetQuantity, AuthorizationFacts, IntentAccepted, OrderAccepted;
  }

  lemma IntentWriteKeepsValid(t: Tables, id: Id, i: Intent)
    requires Valid(t) && id !in t.intents && i.riskId in t.risks && IntentAccepted(t.snapshots, t.risks[i.riskId], i)
    requires forall other :: other in t.intents ==> t.intents[other].riskId != i.riskId
    ensures Valid(t.(intents := t.intents[id := i]))
  {
    hide FillsSound, NetQuantity, RiskAccepted, IntentAccepted;
  }

  // From a valid state a step keeps the invariant exactly when it fits.
  lemma StepKeepsValidExactly(t: Tables, s: Step)
    requires Valid(t)
    ensures Valid(Apply(t, s)) <==> Fits(t, s)
  {
    hide Valid, AuthorizationFacts, FillVerdict, CoversFills;
    if Apply(t, s) != t || s.UpdateStep? {
      match s {
        case RiskStep(id, r) => RiskWriteKeepsValid(t, id, r);
        case IntentStep(id, i) => IntentWriteKeepsValid(t, id, i);
        case OrderStep(id, o) => OrderWriteKeepsValid(t, id, o);
        case UpdateStep(id, o) =>
          if id in t.orders && OrderAccepted(t.intents, o) && IntentFree(t.orders, o.intentId, id) {
            UpdateKeepsValidExactly(t, id, o);
          }
        case FillStep(f) => AcceptedFillKeepsValid(t, f);
      }
    }
  }

  function Empty(snapshots: map<Id, Id>): Tables {
    Tables(snapshots, map[], map[], map[], [])
  }

  function Execute(t: Tables, steps: seq<Step>): Tables {
    if steps == [] then t else Apply(Execute(t, steps[..|steps| - 1]), steps[|steps| - 1])
  }

  ghost predicate AllFit(t: Tables, steps: seq<Step>)
    decreases |steps|
  {
    steps == [] || (AllFit(t, steps[..|steps| - 1]) && Fits(Execute(t, steps[..|steps| - 1]), steps[|steps| - 1]))
  }

  ghost predicate AlwaysValid(t: Tables, steps: seq<Step>)
    decreases |steps|
  {
    Valid(Execute(t, steps)) && (steps == [] || AlwaysValid(t, steps[..|steps| - 1]))
  }

  // A history stays valid throughout exactly when each of its order updates fits the fills it finds.
  lemma {:induction false} HistoryIsValidExactly(t: Tables, steps: seq<Step>)
    requires Valid(t)
    ensures AlwaysValid(t, steps) <==> AllFit(t, steps)
  {
    hide Valid, Fits;
    if steps != [] {
      HistoryIsValidExactly(t, steps[..|steps| - 1]);
      if AlwaysValid(t, steps[..|steps| - 1]) {
        StepKeepsValidExactly(Execute(t, steps[..|steps| - 1]), steps[|steps| - 1]);
      }
    }
  }

  lemma EmptyIsValid(snapshots: map<Id, Id>)
    ensures Valid(Empty(snapshots))
  {
  }

  // Every table state a fitting history can reach from empty tables.
  lemma EveryStateIsValid(snapshots: map<Id, Id>, steps: seq<Step>)
    requires AllFit(Empty(snapshots), steps)
    ensures Valid(Execute(Empty(snapshots), steps))
  {
    hide Valid;
    EmptyIsValid(snapshots);
    HistoryIsValidExactly(Empty(snapshots), steps);
  }

  /* ---------- conservation over the fills of one order ---------- */

  lemma {:induction false} PositionFollowsNet(t: Tables, fills: seq<Fill>, orderId: Id)
    requires orderId in t.orders && forall f :: f in fills ==> FillFits(t.orders, f)
    ensures Total(fills, orderId, PositionChange)
         == Signed(t.orders[orderId].side) * Total(fills, orderId, Quantity)
  {
    if fills != [] {
      var f := fills[|fills| - 1];
      assert FillFits(t.orders, f);
      PositionFollowsNet(t, Front(fills), orderId);
    }
  }

  // Net quantity and notional of an order are those of its unreversed fills, the net stays
  // between nothing and the order, and the position is the order's side times the net.
  lemma OrderIsConserved(t: Tables, orderId: Id)
    requires Valid(t) && orderId in t.orders
    ensures 0.0 <= NetQuantity(t.fills, orderId) <= t.orders[orderId].quantity
    ensures NetQuantity(t.fills, orderId) == LiveTotal(t.fills, t.fills, orderId, Quantity)
    ensures Total(t.fills, orderId, Notional) == LiveTotal(t.fills, t.fills, orderId, Notional)
    ensures Total(t.fills, orderId, PositionChange)
         == Signed(t.orders[orderId].side) * NetQuantity(t.fills, orderId)
  {
    SoundFillsConserve(t.fills, orderId);
    NetIsTotal(t.fills, orderId);
    PositionFollowsNet(t, t.fills, orderId);
  }

  // After every fitting history from empty tables.
  lemma FittingHistoryConserves(snapshots: map<Id, Id>, steps: seq<Step>, orderId: Id)
    requires AllFit(Empty(snapshots), steps) && orderId in Execute(Empty(snapshots), steps).orders
    ensures var t := Execute(Empty(snapshots), steps);
            && 0.0 <= NetQuantity(t.fills, orderId) <= t.orders[orderId].quantity
            && Total(t.fills, orderId, PositionChange)
            == Signed(t.orders[orderId].side) * NetQuantity(t.fills, orderId)
  {
    hide Valid, AllFit, Execute, NetQuantity, Total;
    EveryStateIsValid(snapshots, steps);
    OrderIsConserved(Execute(Empty(snapshots), steps), orderId);
  }

  lemma SoundFillsConserve(fills: seq<Fill>, orderId: Id)
    requires FillsSound(fills)
    ensures NetQuantity(fills, orderId) == LiveTotal(fills, fills, orderId, Quantity)
    ensures Total(fills, orderId, PositionChange) == LiveTotal(fills, fills, orderId, PositionChange)
    ensures Total(fills, orderId, Notional) == LiveTotal(fills, fills, orderId, Notional)
    ensures NetQuantity(fills, orderId) >= 0.0
  {
    WeightsAreAntisymmetric();
    NetIsTotal(fills, orderId);
    TotalIsLiveTotal(fills, orderId, Quantity);
    TotalIsLiveTotal(fills, orderId, PositionChange);
    TotalIsLiveTotal(fills, orderId, Notional);
    LiveIsNotNegative(fills, fills, orderId);
  }

  lemma {:induction false} LiveIsNotNegative(fills: seq<Fill>, all: seq<Fill>, orderId: Id)
    requires FillsSound(fills)
    ensures LiveTotal(fills, all, orderId, Quantity) >= 0.0
  {
    if fills != [] {
      assert LastIsSound(fills);
      LiveIsNotNegative(Front(fills), all, orderId);
    }
  }

  lemma {:induction false} LiveCovers(fills: seq<Fill>, all: seq<Fill>, f: Fill)
    requires FillsSound(fills)
    ensures LiveTotal(fills, all, f.orderId, Quantity) >= 0.0
    ensures f in fills && f.reversalOf.None? && !Reversed(all, f) ==>
              LiveTotal(fills, all, f.orderId, Quantity) >= f.quantity
  {
    if fills != [] {
      assert LastIsSound(fills);
      LiveCovers(Front(fills), all, f);
      assert f in fills ==> f in Front(fills) || f == fills[|fills| - 1];
    }
  }

  lemma FindIdIsExact(fills: seq<Fill>, f: Fill)
    requires FillsSound(fills) && f in fills
    ensures FindId(fills, f.id) == Some(f)
  {
    FindIdFinds(fills, f.id);
    var found := FindId(fills, f.id).value;
    var i, j :| 0 <= i < |fills| && 0 <= j < |fills| && fills[i] == f && fills[j] == found;
    if i < j { SoundIds(fills, i, j); } else if j < i { SoundIds(fills, j, i); }
  }

  // A matching reversal of a fill nobody has reversed is never refused: in particular the
  // negative-quantity guard cannot trip.
  lemma MatchingReversalIsAccepted(t: Tables, f: Fill, g: Fill)
    requires Valid(t) && f in t.fills && !Reversed(t.fills, f)
    requires g.reversalOf == Some(f.id) && Inverts(g, f) && g.price > 0.0 && g.filledAt >= g.sourceBarTime
    requires FindKey(t.fills, g.key).None? && FindId(t.fills, g.id).None?
    ensures FillVerdict(t, g) == Accept
  {
    OrderIsConserved(t, f.orderId);
    LiveCovers(t.fills, t.fills, f);
    FindIdIsExact(t.fills, f);
    assert FillFits(t.orders, f);
  }

  /* ---------- what no update can break ---------- */

  // Rows are never removed, whatever an update does to an order.
  lemma StepOnlyAdds(t: Tables, s: Step)
    ensures t.fills <= Apply(t, s).fills && t.orders.Keys <= Apply(t, s).orders.Keys
  {
    hide FillVerdict, OrderAccepted, IntentAccepted, RiskAccepted, IntentFree;
  }

  lemma {:induction false} RowsOnlyGrow(t: Tables, steps: seq<Step>)
    ensures t.fills <= Execute(t, steps).fills
    ensures t.orders.Keys <= Execute(t, steps).orders.Keys
  {
    hide Apply;
    if steps != [] {
      RowsOnlyGrow(t, steps[..|steps| - 1]);
      StepOnlyAdds(Execute(t, steps[..|steps| - 1]), steps[|steps| - 1]);
    }
  }

  // Every history, fitting or not, keeps the fill table sound.
  lemma {:induction false} FillsStaySound(t: Tables, steps: seq<Step>)
    requires FillsSound(t.fills)
    ensures FillsSound(Execute(t, steps).fills)
  {
    if steps != [] {
      FillsStaySound(t, steps[..|steps| - 1]);
      var before, step := Execute(t, steps[..|steps| - 1]), steps[|steps| - 1];
      hide FillsSound, FillVerdict;
      if step.FillStep? && FillVerdict(before, step.fill) == Accept {
        AcceptedFillIsSound(before, step.fill);
      }
    }
  }

  lemma {:induction false} FillsNameOrders(snapshots: map<Id, Id>, steps: seq<Step>)
    ensures var t := Execute(Empty(snapshots), steps); forall f :: f in t.fills ==> f.orderId in t.orders
  {
    if steps != [] {
      FillsNameOrders(snapshots, steps[..|steps| - 1]);
      hide FillVerdict;
      var before, step := Execute(Empty(snapshots), steps[..|steps| - 1]), steps[|steps| - 1];
      if step.FillStep? && FillVerdict(before, step.fill) == Accept {
        AcceptedFillHasOrder(before, step.fill);
      }
    }
  }

  lemma AcceptedFillHasOrder(t: Tables, f: Fill)
    requires FillVerdict(t, f) == Accept
    ensures f.orderId in t.orders
  {
  }

  // Conservation holds after every history from empty tables: quantity, position and notional of an order
  // are those of its unreversed fills, and the net is never negative.
  lemma EveryHistoryConserves(snapshots: map<Id, Id>, steps: seq<Step>, orderId: Id)
    ensures var fills := Execute(Empty(snapshots), steps).fills;
            && NetQuantity(fills, orderId) == LiveTotal(fills, fills, orderId, Quantity) >= 0.0
            && Total(fills, orderId, PositionChange) == LiveTotal(fills, fills, orderId, PositionChange)
            && Total(fills, orderId, Notional) == LiveTotal(fills, fills, orderId, Notional)
  {
    FillsStaySound(Empty(snapshots), steps);
    SoundFillsConserve(Execute(Empty(snapshots), steps).fills, orderId);
  }

  lemma FindKeyIsExact(fills: seq<Fill>, f: Fill)
    requires FillsSound(fills) && f in fills
    ensures FindKey(fills, f.key) == Some(f)
  {
    FindKeyFinds(fills, f.key);
    var found := FindKey(fills, f.key).value;
    var i, j :| 0 <= i < |fills| && 0 <= j < |fills| && fills[i] == f && fills[j] == found;
    if i < j { SoundIds(fills, i, j); } else if j < i { SoundIds(fills, j, i); }
  }

  // Delivering an accepted fill again, after any further history, changes nothing; reusing its
  // key for other facts is refused.
  lemma RedeliveryIsIdempotent(snapshots: map<Id, Id>, steps: seq<Step>, more: seq<Step>, f: Fill, other: Fill)
    requires f in Execute(Empty(snapshots), steps).fills
    requires other.key == f.key && other != f
    requires other.orderId in Execute(Execute(Empty(snapshots), steps), more).orders
    ensures var later := Execute(Execute(Empty(snapshots), steps), more);
            && FillVerdict(later, f) == Redelivered && InsertFill(later, f) == later
            && FillVerdict(later, other) == Reject(KeyReused) && InsertFill(later, other) == later
  {
    var t := Execute(Empty(snapshots), steps);
    FillsNameOrders(snapshots, steps);
    FillsStaySound(Empty(snapshots), steps);
    FillsStaySound(t, more);
    RowsOnlyGrow(t, more);
    FindKeyIsExact(Execute(t, more).fills, f);
  }

  /* ---------- authorization ---------- */

  predicate TracesTo(t: Tables, orderId: Id, riskId: Id) {
    && orderId in t.orders && t.orders[orderId].intentId in t.intents
    && t.intents[t.orders[orderId].intentId].riskId == riskId
  }

  predicate Directional(r: Risk) {
    r.source == Deterministic && r.status != Rejected && r.approvedDelta != 0.0
  }

  // Nothing is authorized: a rejected decision, or a deterministic one without a delta.
  predicate AuthorizesNothing(r: Risk) {
    r.status == Rejected || (r.source == Deterministic && r.approvedDelta == 0.0)
  }

  // The decisions that the constraints let in, read without unknowns: a NULL satisfies every comparison it enters.
  predicate Admitted(snapshots: map<Id, Id>, r: Risk) {
    && (r.researchDecisionId.Some? ==> r.researchDecisionId.value in snapshots)
    && r.maxOrderQuantity >= 0.0
    && (AuthorizesNothing(r) ==> r.maxOrderQuantity == 0.0 && r.authorizedSide.None?)
    && (!AuthorizesNothing(r) && r.source == LegacyBackfill ==> r.maxOrderQuantity > 0.0)
    && (Directional(r) ==>
          && (r.referenceNav.Some? ==> r.referenceNav.value > 0.0)
          && (r.referencePrice.Some? ==> r.referencePrice.value > 0.0)
          && (r.authorizedSide.Some? ==> r.authorizedSide.value == SideOf(r.approvedDelta))
          && (r.referenceNav.Some? && r.referencePrice.Some? ==>
                r.maxOrderQuantity == Abs(r.approvedDelta) * r.referenceNav.value / r.referencePrice.value))
  }

  // The three-valued constraints accept exactly these rows.
  lemma ConstraintsAdmitExactly(snapshots: map<Id, Id>, r: Risk)
    ensures RiskAccepted(snapshots, r) <==> Admitted(snapshots, r)
  {
  }

  // A directional decision without a NAV or without a price is accepted with any quantity.
  lemma MissingReferenceFreesQuantity(snapshots: map<Id, Id>, r: Risk, q: real)
    requires RiskAccepted(snapshots, r) && Directional(r)
    requires (r.referenceNav.None? || r.referencePrice.None?) && q >= 0.0
    ensures RiskAccepted(snapshots, r.(maxOrderQuantity := q))
  {
    ConstraintsAdmitExactly(snapshots, r);
    ConstraintsAdmitExactly(snapshots, r.(maxOrderQuantity := q));
    hide RiskAccepted, AuthorizationFacts;
  }

  // The quantity of a directional decision is determined by its other columns exactly when NAV and price are there.
  lemma QuantityIsPinnedExactly(snapshots: map<Id, Id>, r: Risk)
    requires RiskAccepted(snapshots, r) && Directional(r)
    ensures (forall q :: RiskAccepted(snapshots, r.(maxOrderQuantity := q)) ==> q == r.maxOrderQuantity)
            <==> (r.referenceNav.Some? && r.referencePrice.Some?)
  {
    if r.referenceNav.Some? && r.referencePrice.Some? {
      forall q | RiskAccepted(snapshots, r.(maxOrderQuantity := q))
        ensures q == r.maxOrderQuantity
      {
        ConstraintsAdmitExactly(snapshots, r);
        ConstraintsAdmitExactly(snapshots, r.(maxOrderQuantity := q));
      }
    } else {
      MissingReferenceFreesQuantity(snapshots, r, r.maxOrderQuantity + 1.0);
    }
  }

  // With both references the quantity is worth exactly the approved delta of NAV.
  lemma PinnedQuantity(snapshots: map<Id, Id>, r: Risk)
    requires RiskAccepted(snapshots, r) && Directional(r) && r.referenceNav.Some? && r.referencePrice.Some?
    ensures r.referencePrice.value > 0.0
    ensures r.maxOrderQuantity * r.referencePrice.value == Abs(r.approvedDelta) * r.referenceNav.value
  {
    ConstraintsAdmitExactly(snapshots, r);
    assert r.maxOrderQuantity == Abs(r.approvedDelta) * r.referenceNav.value / r.referencePrice.value;
  }

  // An approved intent the trigger lets through for r: on the approved side, or on the other if the column is NULL.
  function EscapingIntent(snapshots: map<Id, Id>, r: Risk): Intent {
    Intent("", r.portfolioId, r.symbol,
           if r.authorizedSide.Some? then r.authorizedSide.value else SideOf(-r.approvedDelta),
           r.maxOrderQuantity, r.decidedAt,
           if r.researchDecisionId.Some? && r.researchDecisionId.value in snapshots
           then snapshots[r.researchDecisionId.value] else "",
           true)
  }

  lemma EscapingIntentIsAccepted(snapshots: map<Id, Id>, r: Risk)
    requires RiskAccepted(snapshots, r) && Directional(r) && r.maxOrderQuantity > 0.0
    ensures IntentAccepted(snapshots, r, EscapingIntent(snapshots, r))
  {
  }

  // Every intent of a directional decision is on the approved side exactly when the column is not NULL.
  lemma SideIsPinnedExactly(snapshots: map<Id, Id>, r: Risk)
    requires RiskAccepted(snapshots, r) && Directional(r) && r.maxOrderQuantity > 0.0
    ensures (forall i :: IntentAccepted(snapshots, r, i) ==> i.side == SideOf(r.approvedDelta))
            <==> r.authorizedSide.Some?
  {
    ConstraintsAdmitExactly(snapshots, r);
    if r.authorizedSide.None? {
      EscapingIntentIsAccepted(snapshots, r);
    }
  }

  // No NULL among the facts that the authorization constraint compares.
  predicate FactsPresent(r: Risk) {
    r.referenceNav.Some? && r.referencePrice.Some? && r.authorizedSide.Some?
  }

  // All intents that the decision's own columns, with any quantity the constraint accepts, let through agree
  // on quantity and side exactly when none of the three facts is NULL.
  lemma AuthorizationBindsExactlyWithoutNulls(snapshots: map<Id, Id>, r: Risk)
    requires RiskAccepted(snapshots, r) && Directional(r) && r.maxOrderQuantity > 0.0
    ensures (forall q, i :: RiskAccepted(snapshots, r.(maxOrderQuantity := q))
                            && IntentAccepted(snapshots, r.(maxOrderQuantity := q), i)
                            ==> i.quantity == r.maxOrderQuantity && i.side == SideOf(r.approvedDelta))
            <==> FactsPresent(r)
  {
    if FactsPresent(r) {
      QuantityIsPinnedExactly(snapshots, r);
      SideIsPinnedExactly(snapshots, r);
      hide RiskAccepted, AuthorizationFacts;
      forall q, i | RiskAccepted(snapshots, r.(maxOrderQuantity := q))
                    && IntentAccepted(snapshots, r.(maxOrderQuantity := q), i)
        ensures i.quantity == r.maxOrderQuantity && i.side == SideOf(r.approvedDelta)
      {
        assert q == r.maxOrderQuantity;
        assert r.(maxOrderQuantity := q) == r;
      }
    } else {
      var q := if r.authorizedSide.None? then r.maxOrderQuantity else r.maxOrderQuantity + 1.0;
      var freed := r.(maxOrderQuantity := q);
      if r.authorizedSide.Some? {
        MissingReferenceFreesQuantity(snapshots, r, q);
      } else {
        assert freed == r;
      }
      EscapingIntentIsAccepted(snapshots, freed);
      var i := EscapingIntent(snapshots, freed);
      assert RiskAccepted(snapshots, freed) && IntentAccepted(snapshots, freed, i);
      assert i.quantity != r.maxOrderQuantity || i.side != SideOf(r.approvedDelta);
    }
  }

  /* ---------- execution within risk ---------- */

  lemma {:induction false} ScaleKeepsOrder(a: real, b: real, k: real)
    requires a <= b && k >= 0.0
    ensures a * k <= b * k
  {
    assert (b - a) * k >= 0.0;
  }

  lemma NetStaysWithinMaximum(t: Tables, riskId: Id, orderId: Id)
    requires Valid(t) && riskId in t.risks && TracesTo(t, orderId, riskId)
    ensures NetQuantity(t.fills, orderId) <= t.risks[riskId].maxOrderQuantity
    ensures RiskAccepted(t.snapshots, t.risks[riskId])
    ensures t.risks[riskId].authorizedSide in {None, Some(t.orders[orderId].side)}
            || NetQuantity(t.fills, orderId) == 0.0
  {
    hide AuthorizationFacts, FillsSound, NetQuantity;
    var r := t.risks[riskId];
    var i := t.intents[t.orders[orderId].intentId];
    assert IntentAccepted(t.snapshots, r, i) && OrderAccepted(t.intents, t.orders[orderId]);
    if i.riskApproved {
      assert i.quantity == r.maxOrderQuantity;
    } else {
      assert forall f :: f in t.fills ==> FillFits(t.orders, f) && f.orderId != orderId;
      NoFillsNoNet(t.fills, orderId);
      assert RiskAccepted(t.snapshots, r);
    }
  }

  // With NAV and price present the net is worth at most the approved delta of NAV; with the side present it is
  // on the approved side.
  lemma DirectionalExecution(t: Tables, riskId: Id, orderId: Id)
    requires Valid(t) && riskId in t.risks && TracesTo(t, orderId, riskId) && Directional(t.risks[riskId])
    ensures var r, net := t.risks[riskId], NetQuantity(t.fills, orderId);
            && (r.referenceNav.Some? && r.referencePrice.Some? ==>
                  net * r.referencePrice.value <= Abs(r.approvedDelta) * r.referenceNav.value)
            && (r.authorizedSide.Some? ==> t.orders[orderId].side == SideOf(r.approvedDelta) || net == 0.0)
  {
    hide Valid, RiskAccepted, NetQuantity, TracesTo, Abs, AuthorizationFacts;
    var r := t.risks[riskId];
    NetStaysWithinMaximum(t, riskId, orderId);
    ConstraintsAdmitExactly(t.snapshots, r);
    if r.referenceNav.Some? && r.referencePrice.Some? {
      PinnedQuantity(t.snapshots, r);
      ScaleKeepsOrder(NetQuantity(t.fills, orderId), r.maxOrderQuantity, r.referencePrice.value);
    }
  }

  // What a fill history has executed for a risk decision stays within it, after every fitting history from empty
  // tables: within max_order_quantity always; for a directional decision within the approved delta of NAV when NAV
  // and price are there, and on the approved side when the side is there.
  lemma ExecutionStaysWithinRisk(snapshots: map<Id, Id>, steps: seq<Step>, riskId: Id, orderId: Id)
    requires AllFit(Empty(snapshots), steps)
    requires var t := Execute(Empty(snapshots), steps); riskId in t.risks && TracesTo(t, orderId, riskId)
    ensures var t := Execute(Empty(snapshots), steps);
            var r, net := t.risks[riskId], NetQuantity(t.fills, orderId);
            && 0.0 <= net <= r.maxOrderQuantity
            && (Directional(r) && r.referenceNav.Some? && r.referencePrice.Some? ==>
                  net * r.referencePrice.value <= Abs(r.approvedDelta) * r.referenceNav.value)
            && (Directional(r) && r.authorizedSide.Some? ==>
                  Total(t.fills, orderId, PositionChange) == Signed(SideOf(r.approvedDelta)) * net)
  {
    hide Valid, Directional, NetQuantity, Total, LiveTotal, Abs, SideOf, Signed, AllFit, Execute;
    var t := Execute(Empty(snapshots), steps);
    EveryStateIsValid(snapshots, steps);
    OrderIsConserved(t, orderId);
    NetStaysWithinMaximum(t, riskId, orderId);
    if Directional(t.risks[riskId]) {
      DirectionalExecution(t, riskId, orderId);
    }
  }

  // So no risk decision is spent twice: at most one order ever traces to it.
  lemma OneOrderPerRisk(t: Tables, riskId: Id, a: Id, b: Id)
    requires Valid(t) && TracesTo(t, a, riskId) && TracesTo(t, b, riskId)
    ensures a == b
  {
    hide AuthorizationFacts, FillsValid, IntentAccepted;
    assert t.orders[a].intentId == t.orders[b].intentId;
  }

  /* ---------- an update that does not fit ---------- */

  // Moving a filled order to a smaller intent satisfies the update trigger and leaves more filled than the
  // order allows.
  lemma RepointingAFilledOrderBreaksTheBound(t: Tables, orderId: Id, intentId: Id)
    requires Valid(t) && orderId in t.orders && intentId in t.intents
    requires t.intents[intentId].riskApproved && IntentFree(t.orders, intentId, orderId)
    requires NetQuantity(t.fills, orderId) > t.intents[intentId].quantity
    ensures var i := t.intents[intentId];
            var moved := Order(intentId, i.portfolioId, i.symbol, i.side, i.quantity, i.decisionTime, i.policyId,
                               true, Filled);
            var after := UpdateOrder(t, orderId, moved);
            && after.orders[orderId] == moved
            && NetQuantity(after.fills, orderId) > after.orders[orderId].quantity
            && !Valid(after)
  {
    hide IntentsValid, FillsSound, FillFits, NetQuantity;
    assert OrderAccepted(t.intents, t.orders[orderId]) && t.intents[intentId].riskApproved;
    hide OrdersValid;
  }

  // Two approved decisions for ten and for four shares, an order for ten that is filled, and an update that points
  // it at the smaller intent: every step is accepted, and ten shares trace to the decision for four.
  function RepointingHistory(): seq<Step> {
    [RiskStep("r10", DecisionFor(10.0)), RiskStep("r4", DecisionFor(4.0)),
     IntentStep("i10", IntentFor("r10", 10.0)), IntentStep("i4", IntentFor("r4", 4.0)),
     OrderStep("o", OrderFor("i10", 10.0)),
     FillStep(Fill("f", "k", "o", "p", "ACME", Buy, 10.0, 1.0, 0.0, "USD", 2, 1, "x", None)),
     UpdateStep("o", OrderFor("i4", 4.0))]
  }

  function DecisionFor(quantity: real): Risk {
    Risk("p", "ACME", Approved, 1.0, Some(quantity), Some(1.0), quantity, Deterministic, Some(Buy), 0, None)
  }

  function IntentFor(riskId: Id, quantity: real): Intent {
    Intent(riskId, "p", "ACME", Buy, quantity, 0, "x", true)
  }

  function OrderFor(intentId: Id, quantity: real): Order {
    Order(intentId, "p", "ACME", Buy, quantity, 0, "x", true, Pending)
  }

  lemma RepointingIsReachable()
    ensures var t := Execute(Empty(map[]), RepointingHistory());
            && "r4" in t.risks && TracesTo(t, "o", "r4")
            && NetQuantity(t.fills, "o") == 10.0 && t.risks["r4"].maxOrderQuantity == 4.0
            && !Valid(t)
  {
    var h := RepointingHistory();
    var last := h[6];
    var filled := FilledTables();
    BeforeRepointing();
    assert h[..6] + [last] == h;
    assert h[..|h| - 1] == h[..6];
    assert UpdateOrder(filled, "o", OrderFor("i4", 4.0)) ==
           filled.(orders := filled.orders["o" := OrderFor("i4", 4.0)]);
  }

  function FilledTables(): Tables {
    Tables(map[], map["r10" := DecisionFor(10.0), "r4" := DecisionFor(4.0)],
           map["i10" := IntentFor("r10", 10.0), "i4" := IntentFor("r4", 4.0)],
           map["o" := OrderFor("i10", 10.0)],
           [Fill("f", "k", "o", "p", "ACME", Buy, 10.0, 1.0, 0.0, "USD", 2, 1, "x", None)])
  }

  function IntendedTables(): Tables {
    Tables(map[], map["r10" := DecisionFor(10.0), "r4" := DecisionFor(4.0)],
           map["i10" := IntentFor("r10", 10.0), "i4" := IntentFor("r4", 4.0)], map[], [])
  }

  lemma BeforeOrdering()
    ensures Execute(Empty(map[]), RepointingHistory()[..4]) == IntendedTables()
  {
    hide FillVerdict, OrderAccepted;
    var h := RepointingHistory();
    var t0 := Empty(map[]);
    var t1 := t0.(risks := map["r10" := DecisionFor(10.0)]);
    var t2 := t1.(risks := t1.risks["r4" := DecisionFor(4.0)]);
    var t3 := t2.(intents := map["i10" := IntentFor("r10", 10.0)]);
    assert h[..0] == [];
    NextState(h, 0, t0, t1);
    NextState(h, 1, t1, t2);
    NextState(h, 2, t2, t3);
    NextState(h, 3, t3, IntendedTables());
  }

  lemma BeforeRepointing()
    ensures Execute(Empty(map[]), RepointingHistory()[..6]) == FilledTables()
  {
    hide RiskAccepted, IntentAccepted;
    var h := RepointingHistory();
    var t4 := IntendedTables();
    var t5 := t4.(orders := map["o" := OrderFor("i10", 10.0)]);
    BeforeOrdering();
    NextState(h, 4, t4, t5);
    NextState(h, 5, t5, FilledTables());
  }

  lemma NextState(h: seq<Step>, n: nat, before: Tables, after: Tables)
    requires n < |h| && Execute(Empty(map[]), h[..n]) == before && Apply(before, h[n]) == after
    ensures Execute(Empty(map[]), h[..n + 1]) == after
  {
    assert h[..n + 1][..n] == h[..n];
  }
}
