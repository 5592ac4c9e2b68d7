/** What holds in every interleaving of placements, notifications, cancellations, shipping,
    delivery, auto-completion and expiry workers. */
module OrderTheorems {
  import opened Wrappers
  import opened OrderRows
  import opened Payments
  import opened OrderTransactions
  import opened OrderProtocol

  /** The steps can be taken from s one after the other and lead to last. */
  ghost predicate Run(s: System, steps: seq<Step>, last: System)
    decreases |steps|
  {
    if steps == [] then s == last
    else Enabled(s, steps[0]) && Run(Apply(s, steps[0]), steps[1..], last)
  }

  lemma {:induction false} RunKeepsInvariant(s0: System, s: System, steps: seq<Step>, last: System)
    requires Invariant(s0, s) && Run(s, steps, last)
    ensures Invariant(s0, last)
    decreases |steps|
  {
    if steps != [] {
      StepKeepsInvariant(s0, s, steps[0]);
      RunKeepsInvariant(s0, Apply(s, steps[0]), steps[1..], last);
    }
  }

  lemma InitialHasInvariant(s0: System)
    requires Initial(s0)
    ensures Invariant(s0, s0)
  {
  }

  lemma ReachableHasInvariant(s0: System, steps: seq<Step>, s: System)
    requires Initial(s0) && Run(s0, steps, s)
    ensures Invariant(s0, s)
  {
    InitialHasInvariant(s0);
    RunKeepsInvariant(s0, s0, steps, s);
  }

  // Stock conservation.

  /** The orders cancelled by their users in a run. */
  ghost function UserCancelled(s: System, steps: seq<Step>): set<OrderId>
    decreases |steps|
  {
    if steps == [] || !Enabled(s, steps[0]) then {}
    else CancelledBy(s, steps[0]) + UserCancelled(Apply(s, steps[0]), steps[1..])
  }

  ghost function CancelledBy(s: System, step: Step): set<OrderId>
    requires Enabled(s, step)
  {
    if step.CommitCancel? then {s.open[step.tx].order} else {}
  }

  /** Cancelled orders whose stock no expiry has given back. */
  function Unreleased(s: System): set<OrderId> {
    set o: nat | o < |s.db.orders| && s.db.orders[o].status == Cancelled && o !in s.released
  }

  lemma StepLeavesUnreleased(s0: System, s: System, step: Step)
    requires Invariant(s0, s) && Enabled(s, step)
    ensures Unreleased(Apply(s, step)) == Unreleased(s) + CancelledBy(s, step)
  {
    var after := Apply(s, step);
    if step.CommitCancel? || step.CommitExpiry? || step.CommitShip? || step.CommitDeliver? {
      assert TxnOk(s.db, s.open[step.tx]);
    }
    forall o: nat ensures o in Unreleased(after) <==> o in Unreleased(s) || o in CancelledBy(s, step) {
    }
  }

  /** A cancelled order keeps its stock from the shelf exactly when its user cancelled it. */
  lemma {:induction false} UnreleasedAreUserCancelled(s0: System, s: System, steps: seq<Step>, last: System)
    requires Invariant(s0, s) && Run(s, steps, last)
    ensures Unreleased(last) == Unreleased(s) + UserCancelled(s, steps)
    decreases |steps|
  {
    if steps != [] {
      StepKeepsInvariant(s0, s, steps[0]);
      StepLeavesUnreleased(s0, s, steps[0]);
      UnreleasedAreUserCancelled(s0, Apply(s, steps[0]), steps[1..], last);
    }
  }

  lemma UserCancelledAreUnreleased(s0: System, steps: seq<Step>, s: System)
    requires Initial(s0) && Run(s0, steps, s)
    ensures Unreleased(s) == UserCancelled(s0, steps)
  {
    InitialHasInvariant(s0);
    UnreleasedAreUserCancelled(s0, s0, steps, s);
    assert Unreleased(s0) == {};
  }

  lemma StateIsAccountedFor(s0: System, s: System, v: VariantId)
    requires Conserved(s0, s) && ReleasedAreCancelled(s) && v in s0.db.stock
    ensures v in s.db.stock && s.db.stock[v] >= 0
    ensures s.db.stock[v] + Total(s.db.orders, LiveIds(s.db.orders), v) + Total(s.db.orders, Unreleased(s), v)
      == s0.db.stock[v]
  {
    var orders := s.db.orders;
    TotalSplit(orders, LiveIds(orders), Unreleased(s), v);
    TotalCongruence(orders, orders, LiveIds(orders) + Unreleased(s), IdsOutside(orders, s.released), v);
  }

  /** In every reachable state no stock is negative, and the shelf, the orders that are not cancelled
      and the orders cancelled by their users together hold exactly the initial stock of each variant. */
  lemma StockIsAccountedFor(s0: System, steps: seq<Step>, s: System, v: VariantId)
    requires Initial(s0) && Run(s0, steps, s) && v in s0.db.stock
    ensures v in s.db.stock && s.db.stock[v] >= 0
    ensures forall o :: o in UserCancelled(s0, steps) ==> o < |s.db.orders| && s.db.orders[o].status == Cancelled
    ensures s.db.stock[v] + Total(s.db.orders, LiveIds(s.db.orders), v)
      + Total(s.db.orders, UserCancelled(s0, steps), v)
      == s0.db.stock[v]
  {
    ReachableHasInvariant(s0, steps, s);
    UserCancelledAreUnreleased(s0, steps, s);
    StateIsAccountedFor(s0, s, v);
  }

  /** Shelf plus orders that are not cancelled is the initial stock exactly when no order that its user
      cancelled asks for the variant. */
  lemma StockConservedIff(s0: System, steps: seq<Step>, s: System, v: VariantId)
    requires Initial(s0) && Run(s0, steps, s) && v in s0.db.stock
    ensures v in s.db.stock
    ensures forall o :: o in UserCancelled(s0, steps) ==> o < |s.db.orders|
    ensures s.db.stock[v] + Total(s.db.orders, LiveIds(s.db.orders), v) == s0.db.stock[v]
       <==> forall o :: o in UserCancelled(s0, steps) ==> !Orders(s.db.orders[o].items, v)
  {
    ReachableHasInvariant(s0, steps, s);
    StockIsAccountedFor(s0, steps, s, v);
    TotalZero(s.db.orders, UserCancelled(s0, steps), v);
    forall o | o in UserCancelled(s0, steps)
      ensures Quantity(s.db.orders[o].items, v) == 0 <==> !Orders(s.db.orders[o].items, v)
    {
      QuantityZeroIff(s0, s, o, v);
    }
  }

  lemma QuantityZeroIff(s0: System, s: System, o: OrderId, v: VariantId)
    requires Invariant(s0, s) && o < |s.db.orders|
    ensures Quantity(s.db.orders[o].items, v) == 0 <==> !Orders(s.db.orders[o].items, v)
  {
    var items := s.db.orders[o].items;
    assert OrderOk(s.db.stock, s.db.orders[o]);
    if Orders(items, v) {
      var k :| 0 <= k < |items| && items[k].variant == v;
      QuantityAtLeast(items, k, v);
    } else {
      QuantityZero(items, v);
    }
  }

  lemma {:induction false} NoCancelStepNoCancelled(s: System, steps: seq<Step>)
    requires forall i :: 0 <= i < |steps| ==> !steps[i].CommitCancel?
    ensures UserCancelled(s, steps) == {}
    decreases |steps|
  {
    if steps != [] && Enabled(s, steps[0]) {
      assert !steps[0].CommitCancel?;
      NoCancelStepNoCancelled(Apply(s, steps[0]), steps[1..]);
    }
  }

  /** Stock conservation: as long as no user cancels, each variant's stock plus the quantities of all
      orders that are not cancelled stays what it was, and no stock is negative. */
  lemma StockConservation(s0: System, steps: seq<Step>, s: System, v: VariantId)
    requires Initial(s0) && Run(s0, steps, s) && v in s0.db.stock
    requires forall i :: 0 <= i < |steps| ==> !steps[i].CommitCancel?
    ensures v in s.db.stock && s.db.stock[v] >= 0
    ensures s.db.stock[v] + Total(s.db.orders, LiveIds(s.db.orders), v) == s0.db.stock[v]
  {
    StockIsAccountedFor(s0, steps, s, v);
    NoCancelStepNoCancelled(s0, steps);
    TotalEmpty(s.db.orders, v);
  }

  lemma OneStepRun(s: System, step: Step, steps: seq<Step>, last: System)
    requires Enabled(s, step) && Run(Apply(s, step), steps, last)
    ensures Run(s, [step] + steps, last)
  {
    assert ([step] + steps)[1..] == steps;
  }

  /** An unlocked order that is neither final nor PAID can be cancelled by its user; the stock stays. */
  lemma UserCancels(s: System, tx: Tx, o: OrderId) returns (last: System)
    requires tx !in s.open && o < |s.db.orders| && OrdersFree(s, tx, {o}) && NotFinal(s.db.orders[o])
    requires s.db.orders[o].payment != Paid
    ensures Run(s, [BeginCancel(tx, o), CommitCancel(tx)], last)
    ensures last == s.(db := s.db.(orders := s.db.orders[o := s.db.orders[o].(status := Cancelled, payment := Failed)]))
  {
    var s1 := Apply(s, BeginCancel(tx, o));
    last := Apply(s1, CommitCancel(tx));
    assert s1.open - {tx} == s.open;
    OneStepRun(s1, CommitCancel(tx), [], last);
    OneStepRun(s, BeginCancel(tx, o), [CommitCancel(tx)] + [], last);
    assert [BeginCancel(tx, o)] + ([CommitCancel(tx)] + []) == [BeginCancel(tx, o), CommitCancel(tx)];
  }

  lemma LastPieceOrdered(s0: System, items: seq<Item>)
    requires s0 == System(Db(map[7 := 1], map[7 := 0], [], map[]), map[], {}) && items == [Item(7, 1)]
    ensures Initial(s0) && Enabled(s0, PlaceOrder(items, 0))
    ensures Apply(s0, PlaceOrder(items, 0)) ==
      System(Db(map[7 := 0], map[7 := 0], [NewOrder(items, 0)], map[]), map[], {})
  {
    assert Reserve(s0.db.stock, items) == Ok(map[7 := 0]) by {
      assert items[1..] == [];
      assert s0.db.stock[7 := 0] == map[7 := 0];
    }
  }

  /** The last piece of variant 7 is ordered and the order is cancelled by its user: the piece is
      neither on the shelf nor in an order that is not cancelled. */
  lemma UserCancellationLosesStock()
    ensures exists s0, steps, s ::
      Initial(s0) && Run(s0, steps, s) && s0.db.stock == map[7 := 1]
      && s.db.stock == map[7 := 0] && LiveIds(s.db.orders) == {} && s.open == map[]
  {
    var items := [Item(7, 1)];
    var s0 := System(Db(map[7 := 1], map[7 := 0], [], map[]), map[], {});
    LastPieceOrdered(s0, items);
    var s1 := Apply(s0, PlaceOrder(items, 0));
    var s := UserCancels(s1, 1, 0);
    OneStepRun(s0, PlaceOrder(items, 0), [BeginCancel(1, 0), CommitCancel(1)], s);
    assert s.db.orders == [NewOrder(items, 0).(status := Cancelled, payment := Failed)];
  }

  // Exclusive expiry.

  /** Two expiry transactions open at the same time never hold a common order. */
  lemma ExpiryIsExclusive(s0: System, steps: seq<Step>, s: System, t: Tx, u: Tx)
    requires Initial(s0) && Run(s0, steps, s)
    requires t in s.open && u in s.open && t != u
    requires s.open[t].Expiring? || s.open[t].Releasing?
    requires s.open[u].Expiring? || s.open[u].Releasing?
    ensures s.open[t].batch !! s.open[u].batch
  {
    ReachableHasInvariant(s0, steps, s);
  }

  /** How many commits of a run give back the stock of order o. */
  ghost function Releases(s: System, steps: seq<Step>, o: OrderId): nat
    decreases |steps|
  {
    if steps == [] || !Enabled(s, steps[0]) then 0
    else
      (if steps[0].CommitExpiry? && o in s.open[steps[0].tx].batch then 1 else 0)
      + Releases(Apply(s, steps[0]), steps[1..], o)
  }

  lemma {:induction false} ReleasesBounded(s0: System, s: System, steps: seq<Step>, o: OrderId)
    requires Invariant(s0, s)
    ensures Releases(s, steps, o) <= if o in s.released then 0 else 1
    decreases |steps|
  {
    if steps != [] && Enabled(s, steps[0]) {
      StepKeepsInvariant(s0, s, steps[0]);
      ReleasesBounded(s0, Apply(s, steps[0]), steps[1..], o);
      if steps[0].CommitExpiry? && o in s.open[steps[0].tx].batch {
        assert TxnOk(s.db, s.open[steps[0].tx]);
      }
    }
  }

  /** Every order's stock is released at most once in a run. */
  lemma ReleasedAtMostOnce(s0: System, steps: seq<Step>, o: OrderId)
    requires Initial(s0)
    ensures Releases(s0, steps, o) <= 1
  {
    InitialHasInvariant(s0);
    ReleasesBounded(s0, s0, steps, o);
  }

  lemma StepKeepsPaid(s0: System, s: System, step: Step, o: OrderId)
    requires Invariant(s0, s) && Enabled(s, step) && o < |s.db.orders| && s.db.orders[o].payment == Paid
    ensures o < |Apply(s, step).db.orders| && Apply(s, step).db.orders[o].payment == Paid
  {
  }

  /** An order that is PAID stays PAID through every later interleaving. */
  lemma {:induction false} PaidStaysPaid(s0: System, s: System, steps: seq<Step>, last: System, o: OrderId)
    requires Invariant(s0, s) && Run(s, steps, last) && o < |s.db.orders| && s.db.orders[o].payment == Paid
    ensures o < |last.db.orders| && last.db.orders[o].payment == Paid
    decreases |steps|
  {
    if steps != [] {
      StepKeepsInvariant(s0, s, steps[0]);
      StepKeepsPaid(s0, s, steps[0], o);
      PaidStaysPaid(s0, Apply(s, steps[0]), steps[1..], last, o);
    }
  }

  // Sold ledger and lifecycle.

  /** Each variant's sold counter is its initial value plus the quantities of all PAID orders. */
  lemma SoldLedger(s0: System, steps: seq<Step>, s: System, v: VariantId)
    requires Initial(s0) && Run(s0, steps, s) && v in s0.db.sold
    ensures v in s.db.sold && s.db.sold[v] == s0.db.sold[v] + Total(s.db.orders, PaidIds(s.db.orders), v)
  {
    ReachableHasInvariant(s0, steps, s);
  }

  /** PROCESSING iff SHIPPED, COMPLETED iff DELIVERED, a shipped order is PAID, and a CANCELLED
      order's shipment is still PENDING. */
  lemma LifecycleHolds(s0: System, steps: seq<Step>, s: System, o: OrderId)
    requires Initial(s0) && Run(s0, steps, s) && o < |s.db.orders|
    ensures var order := s.db.orders[o];
      && (order.status == Processing <==> order.shipment == Shipped)
      && (order.status == Completed <==> order.shipment == Delivered)
      && (order.shipment != Packing ==> order.payment == Paid)
      && (order.status == Cancelled ==> order.shipment == Packing)
  {
    ReachableHasInvariant(s0, steps, s);
    assert Lifecycle(s.db.orders[o]);
  }

  /** CANCELLED does not exclude PAID: whenever a cancelled order's row and its variants are unlocked,
      a settlement pays it and counts its pieces as sold, while its stock stays where it is. */
  lemma LateSettlementPaysCancelledOrder(s0: System, s: System, tx: Tx, p: Payload)
    requires Invariant(s0, s) && tx !in s.open && p.order < |s.db.orders|
    requires s.db.orders[p.order].status == Cancelled && p.status == Settlement
    requires OrdersFree(s, tx, {p.order}) && VariantsFree(s, tx, Variants(s.db.orders[p.order].items))
    ensures exists steps, last :: (
      && Run(s, steps, last)
      && |last.db.orders| == |s.db.orders| && last.db.stock == s.db.stock
      && last.db.orders[p.order].status == Cancelled && last.db.orders[p.order].payment == Paid
      && last.db.sold == (if s.db.orders[p.order].payment == Paid then s.db.sold
        else SoldPlusTotals(s.db.sold, s.db.orders[p.order].items)))
  {
    var order := s.db.orders[p.order];
    var sold := if order.payment == Paid then s.db.sold else SoldPlusTotals(s.db.sold, order.items);
    assert OrderOk(s.db.stock, order);
    SoldPlusTotalsIsAnUpdate(s.db.sold, order.items);
    assert Stored(s.db.payments);
    var last := NotificationRuns(s, tx, p, sold);
  }

  /** A notification whose rows are free runs from start to end. */
  lemma NotificationRuns(s: System, tx: Tx, p: Payload, sold: map<VariantId, int>) returns (last: System)
    requires tx !in s.open && p.order < |s.db.orders| && OrdersFree(s, tx, {p.order}) && Record(s.db.payments, p).Ok?
    requires if IsPaidEvent(p) && s.db.orders[p.order].payment != Paid
             then VariantsFree(s, tx, Variants(s.db.orders[p.order].items))
               && SoldUpdated(s.db.sold, s.db.orders[p.order].items, sold)
             else sold == s.db.sold
    ensures Run(s, [BeginNotify(tx, p), CommitNotify(tx, sold)], last)
    ensures last.db.stock == s.db.stock && last.db.sold == sold
    ensures last.db.orders == s.db.orders[p.order := s.db.orders[p.order].(payment :=
              NextPayment(s.db.orders[p.order].status, s.db.orders[p.order].payment, p))]
  {
    var s1 := Apply(s, BeginNotify(tx, p));
    assert Enabled(s1, CommitNotify(tx, sold));
    last := Apply(s1, CommitNotify(tx, sold));
    OneStepRun(s1, CommitNotify(tx, sold), [], last);
    OneStepRun(s, BeginNotify(tx, p), [CommitNotify(tx, sold)] + [], last);
    assert [BeginNotify(tx, p)] + ([CommitNotify(tx, sold)] + []) == [BeginNotify(tx, p), CommitNotify(tx, sold)];
  }

  lemma SoldPlusTotalsIsAnUpdate(sold: map<VariantId, int>, items: seq<Item>)
    requires OneRowPerVariant(items)
    ensures SoldUpdated(sold, items, SoldPlusTotals(sold, items))
  {
    forall v | v in sold
      ensures if Orders(items, v) then exists k ::
        0 <= k < |items| && items[k].variant == v && SoldPlusTotals(sold, items)[v] == sold[v] + items[k].quantity
              else SoldPlusTotals(sold, items)[v] == sold[v]
    {
      if Orders(items, v) {
        var k :| 0 <= k < |items| && items[k].variant == v;
        QuantityOfOnlyRow(items, k);
      } else {
        QuantityZero(items, v);
      }
    }
  }

  // Serial equivalence.

  datatype Effect =
    | Placing(items: seq<Item>, expiresAt: int)
    | ExpiringAll(batch: set<OrderId>)
    | Notification(payload: Payload)
    | UserCancel(order: OrderId)
    | Shipping(order: OrderId, now: int)
    | Delivery(order: OrderId)
    | AutoCompletion(ids: set<OrderId>)

  /** Every order of the batch is still what the worker's select takes. */
  predicate StillExpirable(orders: seq<Order>, batch: set<OrderId>) {
    forall o :: o in batch ==> o < |orders| && orders[o].status == Pending && orders[o].payment == Unpaid
  }

  /** Every selected order has been shipped, is PAID and is not cancelled. */
  predicate StillUnderway(orders: seq<Order>, ids: set<OrderId>) {
    forall o :: o in ids ==>
      o < |orders| && orders[o].shipment != Packing && orders[o].payment == Paid && orders[o].status != Cancelled
  }

  /** A whole transaction run on its own; a batch read earlier must still qualify. */
  function Alone(db: Db, e: Effect): Result<Db, Error> {
    match e
    case Placing(items, expiresAt) => Place(db, items, expiresAt)
    case ExpiringAll(batch) =>
      if StillExpirable(db.orders, batch) then Ok(OrderTransactions.Expire(db, batch)) else Err(BadRequest)
    case Notification(p) => Notify(db, p)
    case UserCancel(o) => CancelByUser(db, o)
    case Shipping(o, now) => Ship(db, o, now)
    case Delivery(o) => Deliver(db, o)
    case AutoCompletion(ids) =>
      if StillUnderway(db.orders, ids)
      then Ok(db.(orders := AutoComplete(db.orders, ids, StillShipped(db.orders, ids)))) else Err(BadRequest)
  }

  /** The transaction a step commits, if it commits one. */
  ghost function Committed(s: System, step: Step): seq<Effect>
    requires Enabled(s, step)
  {
    match step
    case PlaceOrder(items, expiresAt) => [Placing(items, expiresAt)]
    case CommitExpiry(tx) => [ExpiringAll(s.open[tx].batch)]
    case CommitNotify(tx, _) => [Notification(s.open[tx].payload)]
    case CommitCancel(tx) => [UserCancel(s.open[tx].order)]
    case CommitShip(tx, now) => [Shipping(s.open[tx].order, now)]
    case CommitDeliver(tx) => [Delivery(s.open[tx].order)]
    case CommitAutoComplete(tx) => [AutoCompletion(s.open[tx].ids)]
    case _ => []
  }

  ghost function Commits(s: System, steps: seq<Step>): seq<Effect>
    decreases |steps|
  {
    if steps == [] || !Enabled(s, steps[0]) then []
    else Committed(s, steps[0]) + Commits(Apply(s, steps[0]), steps[1..])
  }

  ghost predicate Serially(db: Db, effects: seq<Effect>, last: Db)
    decreases |effects|
  {
    if effects == [] then db == last
    else Alone(db, effects[0]).Ok? && Serially(Alone(db, effects[0]).value, effects[1..], last)
  }

  lemma NotifyIsSerial(s: System, tx: Tx, sold: map<VariantId, int>)
    requires Enabled(s, CommitNotify(tx, sold)) && TxnOk(s.db, s.open[tx])
    requires OrderOk(s.db.stock, s.db.orders[s.open[tx].payload.order])
    ensures Notify(s.db, s.open[tx].payload) == Ok(Apply(s, CommitNotify(tx, sold)).db)
  {
    var p := s.open[tx].payload;
    if IsPaidEvent(p) && s.db.orders[p.order].payment != Paid {
      UngroupedUpdateAddsTotals(s.db.sold, s.db.orders[p.order].items, sold);
    }
  }

  lemma RowWriteIsSerial(s: System, step: Step)
    requires Enabled(s, step) && (step.CommitCancel? || step.CommitShip? || step.CommitDeliver?)
    requires TxnOk(s.db, s.open[step.tx])
    ensures Alone(s.db, Committed(s, step)[0]) == Ok(Apply(s, step).db)
  {
  }

  lemma AutoCompleteIsSerial(s: System, tx: Tx)
    requires Enabled(s, CommitAutoComplete(tx)) && TxnOk(s.db, s.open[tx])
    requires forall o :: 0 <= o < |s.db.orders| ==> Lifecycle(s.db.orders[o])
    ensures Alone(s.db, AutoCompletion(s.open[tx].ids)) == Ok(Apply(s, CommitAutoComplete(tx)).db)
  {
    assert StillShipped(s.db.orders, s.open[tx].ids) == s.open[tx].delivered;
  }

  lemma ExpiryIsSerial(s: System, tx: Tx)
    requires Enabled(s, CommitExpiry(tx)) && TxnOk(s.db, s.open[tx])
    ensures Alone(s.db, ExpiringAll(s.open[tx].batch)) == Ok(Apply(s, CommitExpiry(tx)).db)
  {
  }

  /** A commit does to the tables what its transaction would do alone at that moment. */
  lemma CommitIsSerial(s0: System, s: System, step: Step)
    requires Invariant(s0, s) && Enabled(s, step)
    ensures Committed(s, step) == [] ==> Apply(s, step).db == s.db
    ensures Committed(s, step) != [] ==> Alone(s.db, Committed(s, step)[0]) == Ok(Apply(s, step).db)
  {
    match step
    case CommitExpiry(tx) =>
      assert TxnOk(s.db, s.open[tx]);
      ExpiryIsSerial(s, tx);
    case CommitNotify(tx, sold) =>
      assert TxnOk(s.db, s.open[tx]) && OrderOk(s.db.stock, s.db.orders[s.open[tx].payload.order]);
      NotifyIsSerial(s, tx, sold);
    case CommitCancel(tx) =>
      assert TxnOk(s.db, s.open[tx]);
      RowWriteIsSerial(s, step);
    case CommitShip(tx, _) =>
      assert TxnOk(s.db, s.open[tx]);
      RowWriteIsSerial(s, step);
    case CommitDeliver(tx) =>
      assert TxnOk(s.db, s.open[tx]);
      RowWriteIsSerial(s, step);
    case CommitAutoComplete(tx) =>
      assert TxnOk(s.db, s.open[tx]);
      AutoCompleteIsSerial(s, tx);
    case _ =>
  }

  /** Every interleaving leaves the tables as running the committed transactions one after the other,
      each from start to end, in the order of their commits; none of them fails there. */
  lemma {:induction false} RunsAreSerializable(s0: System, s: System, steps: seq<Step>, last: System)
    requires Invariant(s0, s) && Run(s, steps, last)
    ensures Serially(s.db, Commits(s, steps), last.db)
    decreases |steps|
  {
    if steps != [] {
      StepKeepsInvariant(s0, s, steps[0]);
      CommitIsSerial(s0, s, steps[0]);
      RunsAreSerializable(s0, Apply(s, steps[0]), steps[1..], last);
      var first, rest := Committed(s, steps[0]), Commits(Apply(s, steps[0]), steps[1..]);
      if first == [] {
        assert first + rest == rest;
      } else {
        assert (first + rest)[1..] == rest;
      }
    }
  }
}
