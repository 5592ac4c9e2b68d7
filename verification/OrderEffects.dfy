/** Field by field, what each transaction of the ordering core does to the tables and exactly when it
    refuses. */
module OrderEffects {
  import opened Wrappers
  import opened OrderRows
  import opened Payments
  import opened OrderTransactions

  // Placement.

  /** Placing succeeds exactly when every total fits; it appends one fresh order and takes its totals. */
  lemma PlaceEffect(db: Db, items: seq<Item>, expiresAt: int)
    ensures Place(db, items, expiresAt).Ok? <==>
      forall i :: 0 <= i < |items| ==>
        items[i].variant in db.stock && Quantity(items, items[i].variant) <= db.stock[items[i].variant]
    ensures Place(db, items, expiresAt).Ok? ==>
      var after := Place(db, items, expiresAt).value;
      && |after.orders| == |db.orders| + 1 && after.orders[..|db.orders|] == db.orders
      && after.sold == db.sold && after.payments == db.payments && after.stock.Keys == db.stock.Keys
      && (forall v :: v in db.stock ==> after.stock[v] == db.stock[v] - Quantity(items, v))
      && var order := after.orders[|db.orders|];
         && order.items == items && order.expiresAt == expiresAt
         && order.status == Pending && order.payment == Unpaid && order.shipment == Packing
  {
    ReserveIsExact(db.stock, items);
  }

  // Expiry.

  /** Every order of the batch ends CANCELLED and EXPIRED, every variant gets its total back, and nothing
      else changes. */
  lemma ExpireEffect(db: Db, batch: set<OrderId>)
    ensures var after := OrderTransactions.Expire(db, batch);
      && |after.orders| == |db.orders| && after.sold == db.sold && after.payments == db.payments
      && after.stock.Keys == db.stock.Keys
      && (forall v :: v in db.stock ==> after.stock[v] == db.stock[v] + Total(db.orders, batch, v))
      && (forall o :: 0 <= o < |db.orders| && o !in batch ==> after.orders[o] == db.orders[o])
      && (forall o :: 0 <= o < |db.orders| && o in batch ==>
            && after.orders[o].status == Cancelled && after.orders[o].payment == PaymentStatus.Expired
            && after.orders[o].items == db.orders[o].items && after.orders[o].expiresAt == db.orders[o].expiresAt
            && after.orders[o].shipment == db.orders[o].shipment && after.orders[o].shippedAt == db.orders[o].shippedAt)
  {
    ReleaseAddsTotals(db.stock, db.orders, batch);
  }

  // Notifications.

  /** A notification is refused exactly for an unknown order, or for an unknown status that would have to
      be stored. */
  lemma NotifyRefusals(db: Db, p: Payload)
    requires Stored(db.payments)
    ensures Notify(db, p) == Err(NotFound) <==> p.order >= |db.orders|
    ensures Notify(db, p) == Err(ConstraintViolation) <==>
      p.order < |db.orders| && p.status.Unknown? && p.transaction !in db.payments
    ensures Notify(db, p).Err? ==> Notify(db, p).error == NotFound || Notify(db, p).error == ConstraintViolation
  {
    if p.transaction in db.payments {
      assert !db.payments[p.transaction].status.Unknown?;
    }
  }

  /** An accepted notification leaves the order PAID exactly when it was PAID, the status is settlement, or
      the status is capture with fraud status accept.  Otherwise expire, cancel, deny and failure set the
      payment of an order that is not PAID, CANCELLED or COMPLETED; every other notification leaves it.
      Nothing else of the order changes, and no other order does. */
  lemma NotifyPays(db: Db, p: Payload)
    requires Notify(db, p).Ok?
    ensures var before, after := db.orders[p.order], Notify(db, p).value.orders[p.order];
      var pays := p.status == Settlement || (p.status == Capture && p.fraud == Some("accept"));
      var open := before.payment != Paid && before.status != Cancelled && before.status != Completed;
      && (after.payment == Paid <==> before.payment == Paid || pays)
      && (!pays && open && p.status == TransactionStatus.Expire ==> after.payment == PaymentStatus.Expired)
      && (!pays && open && (p.status == Cancel || p.status == Deny || p.status == Failure) ==> after.payment == Failed)
      && (!pays && open && p.status !in {TransactionStatus.Expire, Cancel, Deny, Failure} ==>
            after.payment == before.payment)
      && (!pays && !open ==> after.payment == before.payment)
      && after == before.(payment := after.payment)
    ensures var orders := Notify(db, p).value.orders;
      |orders| == |db.orders| && forall o :: 0 <= o < |orders| && o != p.order ==> orders[o] == db.orders[o]
    ensures Notify(db, p).value.stock == db.stock
  {
  }

  /** The sold counters grow by the order's totals exactly on the notification that makes it PAID. */
  lemma NotifyCounts(db: Db, p: Payload, v: VariantId)
    requires Notify(db, p).Ok? && v in db.sold
    ensures v in Notify(db, p).value.sold
    ensures var before, after := db.orders[p.order], Notify(db, p).value;
      after.sold[v] == db.sold[v]
        + if before.payment != Paid && after.orders[p.order].payment == Paid then Quantity(before.items, v) else 0
  {
  }

  /** The ranks put the statuses of the gateway in order: each paying status above the ones before it, the
      four ways to fail together above those, refunds highest, and a text outside the table lowest. */
  lemma RankOrder(text: string)
    ensures 0 == Rank(Unknown(text)) < Rank(Awaiting) < Rank(Authorize) < Rank(Capture) < Rank(Settlement)
    ensures Rank(Settlement) < Rank(TransactionStatus.Expire) < Rank(Refund)
    ensures Rank(TransactionStatus.Expire) == Rank(Cancel) == Rank(Deny) == Rank(Failure)
    ensures Rank(Refund) == Rank(PartialRefund)
  {
  }

  /** What is stored for a payment: the first notification as it is, later ones over it unless they repeat
      the status or rank lower; other transactions' rows stay. */
  lemma NotifyStores(db: Db, p: Payload)
    requires Notify(db, p).Ok?
    ensures var before, after := db.payments, Notify(db, p).value.payments;
      && after.Keys == before.Keys + {p.transaction}
      && (forall t :: t in before && t != p.transaction ==> after[t] == before[t])
      && var row := after[p.transaction];
         if p.transaction !in before then
           row.order == p.order && row.status == p.status && row.fraud == p.fraud
         else if before[p.transaction].status == p.status || Rank(p.status) < Rank(before[p.transaction].status) then
           row == before[p.transaction]
         else row.order == before[p.transaction].order && row.status == p.status && row.fraud == p.fraud
  {
  }

  // Shipping.

  /** Shipping succeeds exactly for an order that is PAID, whose shipment is still PENDING, and that is
      neither CANCELLED nor COMPLETED. */
  lemma ShipEffect(db: Db, o: OrderId, now: int)
    ensures Ship(db, o, now) == Err(NotFound) <==> o >= |db.orders|
    ensures Ship(db, o, now).Ok? <==>
      && o < |db.orders| && db.orders[o].payment == Paid && db.orders[o].shipment == Packing
      && db.orders[o].status != Cancelled && db.orders[o].status != Completed
    ensures Ship(db, o, now).Err? && o < |db.orders| ==> Ship(db, o, now) == Err(BadRequest)
    ensures Ship(db, o, now).Ok? ==>
      var before, after := db.orders[o], Ship(db, o, now).value.orders[o];
      && Ship(db, o, now).value == db.(orders := db.orders[o := after])
      && after.shipment == Shipped && after.shippedAt == now
      && after.status == (if before.status == Pending then Processing else before.status)
      && after.items == before.items && after.expiresAt == before.expiresAt && after.payment == Paid
  {
  }

  /** Delivering succeeds exactly for a shipped order that is not final; it ends DELIVERED and COMPLETED. */
  lemma DeliverEffect(db: Db, o: OrderId)
    ensures Deliver(db, o) == Err(NotFound) <==> o >= |db.orders|
    ensures Deliver(db, o).Ok? <==>
      && o < |db.orders| && db.orders[o].shipment == Shipped
      && db.orders[o].status != Cancelled && db.orders[o].status != Completed
      && db.orders[o].payment != Failed && db.orders[o].payment != PaymentStatus.Expired
    ensures Deliver(db, o).Err? && o < |db.orders| ==> Deliver(db, o) == Err(BadRequest)
    ensures Deliver(db, o).Ok? ==>
      var before, after := db.orders[o], Deliver(db, o).value.orders[o];
      && Deliver(db, o).value == db.(orders := db.orders[o := after])
      && after.shipment == Delivered && after.status == Completed
      && after.items == before.items && after.expiresAt == before.expiresAt
      && after.payment == before.payment && after.shippedAt == before.shippedAt
  {
  }

  /** A user's cancellation succeeds exactly for an UNPAID order that is neither CANCELLED nor COMPLETED; it
      ends CANCELLED and FAILED, and the stock is not touched. */
  lemma CancelEffect(db: Db, o: OrderId)
    ensures CancelByUser(db, o) == Err(NotFound) <==> o >= |db.orders|
    ensures CancelByUser(db, o).Ok? <==>
      && o < |db.orders| && db.orders[o].payment == Unpaid
      && db.orders[o].status != Cancelled && db.orders[o].status != Completed
    ensures CancelByUser(db, o).Err? && o < |db.orders| ==> CancelByUser(db, o) == Err(BadRequest)
    ensures CancelByUser(db, o).Ok? ==>
      var before, after := db.orders[o], CancelByUser(db, o).value.orders[o];
      && CancelByUser(db, o).value == db.(orders := db.orders[o := after])
      && after.status == Cancelled && after.payment == Failed
      && after.items == before.items && after.expiresAt == before.expiresAt
      && after.shipment == before.shipment && after.shippedAt == before.shippedAt
  {
  }

  /** Auto-completion delivers the selected orders that are still SHIPPED and completes the selected orders
      that are not final; nothing else changes. */
  lemma AutoCompleteEffect(orders: seq<Order>, ids: set<OrderId>, o: OrderId)
    requires o < |orders|
    ensures |AutoComplete(orders, ids, StillShipped(orders, ids))| == |orders|
    ensures var before, after := orders[o], AutoComplete(orders, ids, StillShipped(orders, ids))[o];
      && (o !in ids ==> after == before)
      && after.shipment == (if o in ids && before.shipment == Shipped then Delivered else before.shipment)
      && after.status ==
         (if o in ids && before.status != Completed && before.status != Cancelled then Completed else before.status)
      && after.items == before.items && after.expiresAt == before.expiresAt
      && after.payment == before.payment && after.shippedAt == before.shippedAt
  {
  }
}
