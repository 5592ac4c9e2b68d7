/** The transition system leaves no transaction out: whatever a transaction does alone, some run does. */
module OrderReachability {
  import opened Wrappers
  import opened OrderRows
  import opened Payments
  import opened OrderTransactions
  import opened OrderProtocol
  import opened OrderTheorems

  /** What a caller brings: a cart has one row per variant with a positive quantity, and a batch is one
      that the select of its job returns. */
  ghost predicate Startable(db: Db, e: Effect) {
    match e
    case Placing(items, _) => OneRowPerVariant(items) && forall i :: 0 <= i < |items| ==> items[i].quantity > 0
    case ExpiringAll(batch) => exists now :: ExpiryBatch(db.orders, {}, now, batch)
    case AutoCompletion(ids) => exists now :: OverdueBatch(db.orders, now, ids)
    case _ => true
  }

  ghost predicate Reaches(s: System, db: Db) {
    exists steps, last :: Run(s, steps, last) && last.db == db && last.open == map[]
  }

  lemma TwoSteps(s: System, a: Step, b: Step)
    requires Enabled(s, a) && Enabled(Apply(s, a), b)
    ensures Run(s, [a, b], Apply(Apply(s, a), b))
  {
    OneStepRun(Apply(s, a), b, [], Apply(Apply(s, a), b));
    OneStepRun(s, a, [b] + [], Apply(Apply(s, a), b));
    assert [a] + ([b] + []) == [a, b];
  }

  lemma ThreeSteps(s: System, a: Step, b: Step, c: Step)
    requires Enabled(s, a) && Enabled(Apply(s, a), b) && Enabled(Apply(Apply(s, a), b), c)
    ensures Run(s, [a, b, c], Apply(Apply(Apply(s, a), b), c))
  {
    TwoSteps(Apply(s, a), b, c);
    OneStepRun(s, a, [b, c], Apply(Apply(Apply(s, a), b), c));
    assert [a] + [b, c] == [a, b, c];
  }

  lemma PlacingRuns(s: System, items: seq<Item>, expiresAt: int)
    requires s.open == map[] && Startable(s.db, Placing(items, expiresAt)) && Place(s.db, items, expiresAt).Ok?
    ensures Reaches(s, Place(s.db, items, expiresAt).value)
  {
    var last := Apply(s, PlaceOrder(items, expiresAt));
    OneStepRun(s, PlaceOrder(items, expiresAt), [], last);
  }

  lemma ExpiryRuns(s: System, batch: set<OrderId>, now: int)
    requires s.open == map[] && ExpiryBatch(s.db.orders, {}, now, batch)
    ensures Reaches(s, OrderTransactions.Expire(s.db, batch))
  {
    assert LockedOrders(s) == {};
    var s1 := Apply(s, BeginExpiry(0, now, batch));
    var s2 := Apply(s1, ReleaseStock(0));
    ThreeSteps(s, BeginExpiry(0, now, batch), ReleaseStock(0), CommitExpiry(0));
    assert Apply(s2, CommitExpiry(0)).open == map[];
  }

  lemma NotifyRuns(s: System, p: Payload)
    requires s.open == map[] && Notify(s.db, p).Ok? && OneRowPerVariant(s.db.orders[p.order].items)
    ensures Reaches(s, Notify(s.db, p).value)
  {
    var order := s.db.orders[p.order];
    var sold := if IsPaidEvent(p) && order.payment != Paid then SoldPlusTotals(s.db.sold, order.items) else s.db.sold;
    SoldPlusTotalsIsAnUpdate(s.db.sold, order.items);
    TwoSteps(s, BeginNotify(0, p), CommitNotify(0, sold));
    assert Apply(Apply(s, BeginNotify(0, p)), CommitNotify(0, sold)).open == map[];
  }

  lemma CancelRuns(s: System, o: OrderId)
    requires s.open == map[] && CancelByUser(s.db, o).Ok?
    ensures Reaches(s, CancelByUser(s.db, o).value)
  {
    var last := UserCancels(s, 0, o);
  }

  lemma ShipRuns(s: System, o: OrderId, now: int)
    requires s.open == map[] && Ship(s.db, o, now).Ok?
    ensures Reaches(s, Ship(s.db, o, now).value)
  {
    ThreeSteps(s, BeginShip(0, o), LockShipOrder(0), CommitShip(0, now));
    assert Apply(Apply(Apply(s, BeginShip(0, o)), LockShipOrder(0)), CommitShip(0, now)).open == map[];
  }

  lemma DeliverRuns(s: System, o: OrderId)
    requires s.open == map[] && Deliver(s.db, o).Ok?
    ensures Reaches(s, Deliver(s.db, o).value)
  {
    ThreeSteps(s, BeginDeliver(0, o), LockDeliverOrder(0), CommitDeliver(0));
    assert Apply(Apply(Apply(s, BeginDeliver(0, o)), LockDeliverOrder(0)), CommitDeliver(0)).open == map[];
  }

  /** The customer's confirmation takes the locks the other way round and ends the same. */
  lemma ConfirmRuns(s: System, o: OrderId)
    requires s.open == map[] && Deliver(s.db, o).Ok?
    ensures Run(s, [BeginConfirm(0, o), LockConfirmShipment(0), CommitDeliver(0)],
                s.(db := Deliver(s.db, o).value))
  {
    ThreeSteps(s, BeginConfirm(0, o), LockConfirmShipment(0), CommitDeliver(0));
    assert Apply(Apply(Apply(s, BeginConfirm(0, o)), LockConfirmShipment(0)), CommitDeliver(0)).open == map[];
  }

  lemma AutoCompletionRuns(s: System, ids: set<OrderId>, now: int)
    requires s.open == map[] && OverdueBatch(s.db.orders, now, ids)
    ensures Reaches(s, s.db.(orders := AutoComplete(s.db.orders, ids, StillShipped(s.db.orders, ids))))
  {
    ThreeSteps(s, SelectOverdue(0, now, ids), DeliverOverdue(0), CommitAutoComplete(0));
    assert Apply(Apply(Apply(s, SelectOverdue(0, now, ids)), DeliverOverdue(0)), CommitAutoComplete(0)).open == map[];
  }

  /** From any state of the system with nothing open, every transaction that succeeds alone has a run that
      commits exactly what it does alone. */
  lemma EveryTransactionRuns(s0: System, s: System, e: Effect)
    requires Invariant(s0, s) && s.open == map[] && Startable(s.db, e) && Alone(s.db, e).Ok?
    ensures Reaches(s, Alone(s.db, e).value)
  {
    match e
    case Placing(items, expiresAt) => PlacingRuns(s, items, expiresAt);
    case ExpiringAll(batch) =>
      var now :| ExpiryBatch(s.db.orders, {}, now, batch);
      ExpiryRuns(s, batch, now);
    case Notification(p) =>
      assert OrderOk(s.db.stock, s.db.orders[p.order]);
      NotifyRuns(s, p);
    case UserCancel(o) => CancelRuns(s, o);
    case Shipping(o, now) => ShipRuns(s, o, now);
    case Delivery(o) => DeliverRuns(s, o);
    case AutoCompletion(ids) =>
      var now :| OverdueBatch(s.db.orders, now, ids);
      AutoCompletionRuns(s, ids, now);
  }
}
