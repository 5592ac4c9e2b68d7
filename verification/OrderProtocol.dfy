/** The ordering core as a transition system.  Transactions are split at their statements; a row lock
    is held from the statement that takes it until the commit or abort of its transaction, and a
    transaction's writes become visible to the others only when it commits. */
module OrderProtocol {
  import opened OrderRows
  import opened Payments
  import opened OrderTransactions

  type Tx = nat

  /** How far an open transaction has come, what it has read and what it is about to write. */
  datatype Txn =
    | Expiring(batch: set<OrderId>)                                             // rows selected and locked
    | Releasing(batch: set<OrderId>, writes: map<VariantId, int>)              // stock update done as well
    | Notifying(payload: Payload, seenStatus: OrderStatus, seenPayment: PaymentStatus)
    | Cancelling(order: OrderId)                                                // order row locked and checked
    | ShipmentSeen(order: OrderId)                                              // markAsShipped: shipment locked
    | ShipReady(order: OrderId, seenStatus: OrderStatus)                        //   .. and order locked
    | DeliverySeen(order: OrderId)                                              // markAsDelivered: shipment locked
    | Confirming(order: OrderId)                                                // confirmDelivered: order locked
    | DeliverReady(order: OrderId)                                              // either, both rows locked
    | AutoSelected(ids: set<OrderId>)                                           // nothing locked
    | AutoDelivered(ids: set<OrderId>, delivered: set<OrderId>)                // updated shipments locked

  function OrderLocks(t: Txn): set<OrderId> {
    match t
    case Expiring(batch) => batch
    case Releasing(batch, _) => batch
    case Notifying(p, _, _) => {p.order}
    case Cancelling(o) => {o}
    case ShipReady(o, _) => {o}
    case Confirming(o) => {o}
    case DeliverReady(o) => {o}
    case _ => {}
  }

  function ShipmentLocks(t: Txn): set<OrderId> {
    match t
    case ShipmentSeen(o) => {o}
    case ShipReady(o, _) => {o}
    case DeliverySeen(o) => {o}
    case DeliverReady(o) => {o}
    case AutoDelivered(_, delivered) => delivered
    case _ => {}
  }

  function VariantLocks(t: Txn): set<VariantId> {
    if t.Releasing? then t.writes.Keys else {}
  }

  /** released is a history variable: the orders whose stock an expiry has given back. */
  datatype System = System(db: Db, open: map<Tx, Txn>, released: set<OrderId>)

  ghost predicate OrdersFree(s: System, tx: Tx, ids: set<OrderId>) {
    forall t :: t in s.open && t != tx ==> OrderLocks(s.open[t]) !! ids
  }

  ghost predicate ShipmentsFree(s: System, tx: Tx, ids: set<OrderId>) {
    forall t :: t in s.open && t != tx ==> ShipmentLocks(s.open[t]) !! ids
  }

  ghost predicate VariantsFree(s: System, tx: Tx, ids: set<VariantId>) {
    forall t :: t in s.open && t != tx ==> VariantLocks(s.open[t]) !! ids
  }

  ghost function LockedOrders(s: System): set<OrderId> {
    set t, o | t in s.open && o in OrderLocks(s.open[t]) :: o
  }

  datatype Step =
    | PlaceOrder(items: seq<Item>, expiresAt: int)
    | BeginExpiry(tx: Tx, now: int, batch: set<OrderId>)
    | ReleaseStock(tx: Tx)
    | CommitExpiry(tx: Tx)
    | BeginNotify(tx: Tx, payload: Payload)
    | CommitNotify(tx: Tx, sold: map<VariantId, int>)
    | BeginCancel(tx: Tx, order: OrderId)
    | CommitCancel(tx: Tx)
    | BeginShip(tx: Tx, order: OrderId)
    | LockShipOrder(tx: Tx)
    | CommitShip(tx: Tx, now: int)
    | BeginDeliver(tx: Tx, order: OrderId)
    | LockDeliverOrder(tx: Tx)
    | BeginConfirm(tx: Tx, order: OrderId)
    | LockConfirmShipment(tx: Tx)
    | CommitDeliver(tx: Tx)
    | SelectOverdue(tx: Tx, now: int, ids: set<OrderId>)
    | DeliverOverdue(tx: Tx)
    | CommitAutoComplete(tx: Tx)
    | Abort(tx: Tx)

  function Variants(items: seq<Item>): set<VariantId> {
    set i | 0 <= i < |items| :: items[i].variant
  }

  ghost predicate Enabled(s: System, step: Step) {
    var orders := s.db.orders;
    match step
    case PlaceOrder(items, _) =>
      // the cart's unique index and the CHECK (quantity > 0)
      && OneRowPerVariant(items)
      && (forall i :: 0 <= i < |items| ==> items[i].quantity > 0)
      && Reserve(s.db.stock, items).Ok?
      && (forall t :: t in s.open ==> VariantLocks(s.open[t]) !! Variants(items))
    case BeginExpiry(tx, now, batch) =>
      tx !in s.open && ExpiryBatch(orders, LockedOrders(s), now, batch)
    case ReleaseStock(tx) =>
      && tx in s.open && s.open[tx].Expiring?
      && VariantsFree(s, tx, ReleaseWrites(s.db.stock, orders, s.open[tx].batch).Keys)
    case CommitExpiry(tx) =>
      tx in s.open && s.open[tx].Releasing?
    case BeginNotify(tx, p) =>
      tx !in s.open && p.order < |orders| && OrdersFree(s, tx, {p.order})
    case CommitNotify(tx, sold) =>
      && tx in s.open && s.open[tx].Notifying?
      && var p := s.open[tx].payload;
      && Record(s.db.payments, p).Ok?
      && p.order < |orders|
      && if IsPaidEvent(p) && s.open[tx].seenPayment != Paid
         then VariantsFree(s, tx, Variants(orders[p.order].items))
           && SoldUpdated(s.db.sold, orders[p.order].items, sold)
         else sold == s.db.sold
    case BeginCancel(tx, o) =>
      tx !in s.open && o < |orders| && OrdersFree(s, tx, {o}) && NotFinal(orders[o]) && orders[o].payment != Paid
    case CommitCancel(tx) =>
      tx in s.open && s.open[tx].Cancelling?
    case BeginShip(tx, o) =>
      tx !in s.open && o < |orders| && ShipmentsFree(s, tx, {o}) && orders[o].shipment == Packing
    case LockShipOrder(tx) =>
      && tx in s.open && s.open[tx].ShipmentSeen?
      && var o := s.open[tx].order;
      && o < |orders| && OrdersFree(s, tx, {o}) && NotFinal(orders[o]) && orders[o].payment == Paid
    case CommitShip(tx, _) =>
      // the guarded update must hit its row, or assertUpdated throws
      && tx in s.open && s.open[tx].ShipReady?
      && s.open[tx].order < |orders| && orders[s.open[tx].order].shipment == Packing
    case BeginDeliver(tx, o) =>
      tx !in s.open && o < |orders| && ShipmentsFree(s, tx, {o}) && orders[o].shipment == Shipped
    case LockDeliverOrder(tx) =>
      && tx in s.open && s.open[tx].DeliverySeen?
      && var o := s.open[tx].order;
      && o < |orders| && OrdersFree(s, tx, {o}) && NotFinal(orders[o])
    case BeginConfirm(tx, o) =>
      tx !in s.open && o < |orders| && OrdersFree(s, tx, {o}) && NotFinal(orders[o])
    case LockConfirmShipment(tx) =>
      && tx in s.open && s.open[tx].Confirming?
      && var o := s.open[tx].order;
      && o < |orders| && ShipmentsFree(s, tx, {o}) && orders[o].shipment == Shipped
    case CommitDeliver(tx) =>
      tx in s.open && s.open[tx].DeliverReady?
    case SelectOverdue(tx, now, ids) =>
      tx !in s.open && OverdueBatch(orders, now, ids)
    case DeliverOverdue(tx) =>
      && tx in s.open && s.open[tx].AutoSelected?
      && ShipmentsFree(s, tx, StillShipped(orders, s.open[tx].ids))
    case CommitAutoComplete(tx) =>
      && tx in s.open && s.open[tx].AutoDelivered?
      && OrdersFree(s, tx, s.open[tx].ids)
    case Abort(tx) =>
      tx in s.open
  }

  /** A step applied to a state; the writes use what the transaction read, not what is there now. */
  ghost function Apply(s: System, step: Step): System
    requires Enabled(s, step)
  {
    var orders := s.db.orders;
    match step
    case PlaceOrder(items, expiresAt) => Placed(s, items, expiresAt)
    case BeginExpiry(tx, _, batch) => Enter(s, tx, Expiring(batch))
    case ReleaseStock(tx) =>
      Enter(s, tx, Releasing(s.open[tx].batch, ReleaseWrites(s.db.stock, orders, s.open[tx].batch)))
    case CommitExpiry(tx) => ExpiryCommitted(s, tx, s.open[tx].batch, s.open[tx].writes)
    case BeginNotify(tx, p) => Enter(s, tx, Notifying(p, orders[p.order].status, orders[p.order].payment))
    case CommitNotify(tx, sold) =>
      var t := s.open[tx];
      Notified(s, tx, t.payload, NextPayment(t.seenStatus, t.seenPayment, t.payload), sold)
    case BeginCancel(tx, o) => Enter(s, tx, Cancelling(o))
    case CommitCancel(tx) =>
      var o := s.open[tx].order;
      RowWritten(s, tx, o, Row(orders, o).(status := Cancelled, payment := Failed))
    case BeginShip(tx, o) => Enter(s, tx, ShipmentSeen(o))
    case LockShipOrder(tx) => Enter(s, tx, ShipReady(s.open[tx].order, orders[s.open[tx].order].status))
    case CommitShip(tx, now) =>
      var o, r := s.open[tx].order, Row(orders, s.open[tx].order);
      RowWritten(s, tx, o, r.(
        shipment := Shipped, shippedAt := now,
        status := if s.open[tx].seenStatus == Pending && r.status == Pending then Processing else r.status))
    case BeginDeliver(tx, o) => Enter(s, tx, DeliverySeen(o))
    case LockDeliverOrder(tx) => Enter(s, tx, DeliverReady(s.open[tx].order))
    case BeginConfirm(tx, o) => Enter(s, tx, Confirming(o))
    case LockConfirmShipment(tx) => Enter(s, tx, DeliverReady(s.open[tx].order))
    case CommitDeliver(tx) =>
      var o, r := s.open[tx].order, Row(orders, s.open[tx].order);
      RowWritten(s, tx, o, r.(
        shipment := if r.shipment == Shipped then Delivered else r.shipment,
        status := if r.status != Completed && r.status != Cancelled then Completed else r.status))
    case SelectOverdue(tx, _, ids) => Enter(s, tx, AutoSelected(ids))
    case DeliverOverdue(tx) => Enter(s, tx, AutoDelivered(s.open[tx].ids, StillShipped(orders, s.open[tx].ids)))
    case CommitAutoComplete(tx) =>
      Leave(s, tx, s.db.(orders := AutoComplete(orders, s.open[tx].ids, s.open[tx].delivered)))
    case Abort(tx) => Leave(s, tx, s.db)
  }

  function Enter(s: System, tx: Tx, t: Txn): System {
    s.(open := s.open[tx := t])
  }

  function Leave(s: System, tx: Tx, db: Db): System {
    s.(db := db, open := s.open - {tx})
  }

  function Row(orders: seq<Order>, o: OrderId): Order {
    if o < |orders| then orders[o] else NewOrder([], 0)
  }

  function Placed(s: System, items: seq<Item>, expiresAt: int): System
    requires Reserve(s.db.stock, items).Ok?
  {
    s.(db := s.db.(stock := Reserve(s.db.stock, items).value, orders := s.db.orders + [NewOrder(items, expiresAt)]))
  }

  function ExpiryCommitted(s: System, tx: Tx, batch: set<OrderId>, writes: map<VariantId, int>): System {
    System(
      s.db.(stock := s.db.stock + writes, orders := CancelBatch(s.db.orders, batch)),
      s.open - {tx},
      s.released + batch)
  }

  function Notified(s: System, tx: Tx, p: Payload, payment: PaymentStatus, sold: map<VariantId, int>): System
    requires p.order < |s.db.orders| && Record(s.db.payments, p).Ok?
  {
    Leave(s, tx, s.db.(
      sold := sold,
      payments := Record(s.db.payments, p).value,
      orders := s.db.orders[p.order := s.db.orders[p.order].(payment := payment)]))
  }

  function RowWritten(s: System, tx: Tx, o: OrderId, row: Order): System {
    Leave(s, tx, if o < |s.db.orders| then s.db.(orders := s.db.orders[o := row]) else s.db)
  }

  /** The shop before its first order: any stock that is not negative, any sold counters. */
  ghost predicate Initial(s: System) {
    && s.db.orders == [] && s.open == map[] && s.released == {} && Stored(s.db.payments)
    && s.db.sold.Keys == s.db.stock.Keys
    && forall v :: v in s.db.stock ==> s.db.stock[v] >= 0
  }

  // The invariant.

  ghost predicate OrderOk(stock: map<VariantId, int>, order: Order) {
    && OneRowPerVariant(order.items)
    && forall i :: 0 <= i < |order.items| ==> order.items[i].quantity > 0 && order.items[i].variant in stock
  }

  /** Order status and shipment status walk together. */
  ghost predicate Lifecycle(order: Order) {
    && (order.status == Processing <==> order.shipment == Shipped)
    && (order.status == Completed <==> order.shipment == Delivered)
    && (order.shipment != Packing ==> order.payment == Paid)
    && (order.status == Cancelled ==> order.shipment == Packing)
  }

  /** What an open transaction read is still what is committed. */
  ghost predicate TxnOk(db: Db, t: Txn) {
    var orders := db.orders;
    match t
    case Expiring(batch) => forall o :: o in batch ==>
      o < |orders| && orders[o].status == Pending && orders[o].payment == Unpaid
    case Releasing(batch, writes) =>
      && (forall o :: o in batch ==> o < |orders| && orders[o].status == Pending && orders[o].payment == Unpaid)
      && writes == ReleaseWrites(db.stock, orders, batch)
    case Notifying(p, status, payment) => p.order < |orders| && orders[p.order].status == status
      && orders[p.order].payment == payment
    case Cancelling(o) => o < |orders| && NotFinal(orders[o]) && orders[o].payment != Paid
    case ShipmentSeen(o) => o < |orders| && orders[o].shipment == Packing
    case ShipReady(o, status) =>
      o < |orders| && orders[o].shipment == Packing && NotFinal(orders[o]) && orders[o].payment == Paid
        && orders[o].status == status
    case DeliverySeen(o) => o < |orders| && orders[o].shipment == Shipped
    case Confirming(o) => o < |orders| && NotFinal(orders[o])
    case DeliverReady(o) => o < |orders| && orders[o].shipment == Shipped && NotFinal(orders[o])
    case AutoSelected(ids) => forall o :: o in ids ==> o < |orders| && orders[o].shipment != Packing
    case AutoDelivered(ids, delivered) =>
      && delivered <= ids
      && forall o :: o in ids ==> o < |orders| && orders[o].shipment == if o in delivered then Shipped else Delivered
  }

  ghost predicate Exclusive(s: System) {
    forall t, u :: t in s.open && u in s.open && t != u ==>
      && OrderLocks(s.open[t]) !! OrderLocks(s.open[u])
      && ShipmentLocks(s.open[t]) !! ShipmentLocks(s.open[u])
      && VariantLocks(s.open[t]) !! VariantLocks(s.open[u])
  }

  ghost predicate Conserved(s0: System, s: System) {
    && s.db.stock.Keys == s0.db.stock.Keys
    && forall v :: v in s.db.stock ==>
         s.db.stock[v] >= 0
           && s.db.stock[v] + Total(s.db.orders, IdsOutside(s.db.orders, s.released), v) == s0.db.stock[v]
  }

  ghost predicate Ledger(s0: System, s: System) {
    && s.db.sold.Keys == s0.db.sold.Keys
    && forall v :: v in s.db.sold ==> s.db.sold[v] == s0.db.sold[v] + Total(s.db.orders, PaidIds(s.db.orders), v)
  }

  ghost predicate ReleasedAreCancelled(s: System) {
    forall o :: o in s.released ==> o < |s.db.orders| && s.db.orders[o].status == Cancelled
  }

  ghost predicate Invariant(s0: System, s: System) {
    && (forall o :: 0 <= o < |s.db.orders| ==> OrderOk(s.db.stock, s.db.orders[o]) && Lifecycle(s.db.orders[o]))
    && (forall t :: t in s.open ==> TxnOk(s.db, s.open[t]))
    && Stored(s.db.payments)
    && Exclusive(s)
    && Conserved(s0, s)
    && Ledger(s0, s)
    && ReleasedAreCancelled(s)
  }

  // One step keeps each part of the invariant.

  /** db2 differs from db1 only where a transaction that holds the changed rows may write, and
      shipments only move forward. */
  ghost predicate OutsideLocks(db1: Db, db2: Db, t: Txn) {
    && |db1.orders| <= |db2.orders|
    && (forall o :: 0 <= o < |db1.orders| ==>
         && db1.orders[o].items == db2.orders[o].items
         && (o in OrderLocks(t) ==>
           db1.orders[o].status == db2.orders[o].status && db1.orders[o].payment == db2.orders[o].payment)
         && (o in ShipmentLocks(t) ==> db1.orders[o].shipment == db2.orders[o].shipment)
         && (db1.orders[o].shipment == Shipped ==> db2.orders[o].shipment != Packing)
         && (db1.orders[o].shipment == Delivered ==> db2.orders[o].shipment == Delivered))
    && db1.stock.Keys == db2.stock.Keys
    && (forall v :: v in VariantLocks(t) && v in db1.stock ==> db1.stock[v] == db2.stock[v])
  }

  lemma KeepsTxnOk(db1: Db, db2: Db, t: Txn)
    requires TxnOk(db1, t) && OutsideLocks(db1, db2, t)
    ensures TxnOk(db2, t)
  {
    if t.Releasing? {
      var w1, w2 := t.writes, ReleaseWrites(db2.stock, db2.orders, t.batch);
      forall v ensures AskedFor(db1.orders, t.batch, v) <==> AskedFor(db2.orders, t.batch, v) {
        AskedForSame(db1.orders, db2.orders, t.batch, v);
      }
      assert w1.Keys == w2.Keys;
      forall v | v in w1 ensures w1[v] == w2[v] {
        TotalPrefix(db1.orders, db2.orders, t.batch, v);
      }
    }
  }

  lemma AskedForSame(before: seq<Order>, after: seq<Order>, batch: set<OrderId>, v: VariantId)
    requires |before| <= |after|
    requires forall o :: 0 <= o < |before| ==> before[o].items == after[o].items
    requires forall o :: o in batch ==> o < |before|
    ensures AskedFor(before, batch, v) <==> AskedFor(after, batch, v)
  {
    if AskedFor(before, batch, v) {
      var o, k :| 0 <= o < |before| && o in batch && 0 <= k < |before[o].items| && before[o].items[k].variant == v;
      assert after[o].items[k].variant == v;
    }
    if AskedFor(after, batch, v) {
      var o, k :| 0 <= o < |after| && o in batch && 0 <= k < |after[o].items| && after[o].items[k].variant == v;
      assert before[o].items[k].variant == v;
    }
  }

  /** Later orders outside the batch do not count. */
  lemma {:induction false} TotalPrefix(before: seq<Order>, after: seq<Order>, batch: set<OrderId>, v: VariantId)
    requires |before| <= |after|
    requires forall o :: 0 <= o < |before| ==> before[o].items == after[o].items
    requires forall o :: o in batch ==> o < |before|
    ensures Total(before, batch, v) == Total(after, batch, v)
    decreases |after|
  {
    if |after| == |before| {
      TotalCongruence(before, after, batch, batch, v);
    } else {
      TotalPrefix(before, after[..|after| - 1], batch, v);
    }
  }

  lemma EnterKeepsInvariant(s0: System, s: System, tx: Tx, t: Txn)
    requires Invariant(s0, s) && TxnOk(s.db, t)
    requires OrdersFree(s, tx, OrderLocks(t)) && ShipmentsFree(s, tx, ShipmentLocks(t))
    requires VariantsFree(s, tx, VariantLocks(t))
    ensures Invariant(s0, Enter(s, tx, t))
  {
  }

  /** A commit keeps the invariant when it stays outside the others' locks and leaves the tables right. */
  lemma LeaveKeepsInvariant(s0: System, s: System, tx: Tx, after: System)
    requires Invariant(s0, s)
    requires after.open == s.open - {tx}
    requires forall t :: t in s.open && t != tx ==> OutsideLocks(s.db, after.db, s.open[t])
    requires forall o :: 0 <= o < |after.db.orders| ==>
      OrderOk(after.db.stock, after.db.orders[o]) && Lifecycle(after.db.orders[o])
    requires Stored(after.db.payments)
    requires Conserved(s0, after) && Ledger(s0, after) && ReleasedAreCancelled(after)
    ensures Invariant(s0, after)
  {
    forall t | t in after.open ensures TxnOk(after.db, after.open[t]) {
      KeepsTxnOk(s.db, after.db, s.open[t]);
    }
  }

  /** When orders keep their items and the history variable stays, stock conservation carries over. */
  lemma ConservedWhenItemsStay(s0: System, s: System, after: System)
    requires Conserved(s0, s)
    requires SameItems(s.db.orders, after.db.orders) && after.db.stock == s.db.stock && after.released == s.released
    ensures Conserved(s0, after)
  {
    forall v | v in s.db.stock
      ensures Total(after.db.orders, IdsOutside(after.db.orders, s.released), v) ==
        Total(s.db.orders, IdsOutside(s.db.orders, s.released), v)
    {
      TotalCongruence(s.db.orders, after.db.orders, IdsOutside(s.db.orders, s.released),
        IdsOutside(after.db.orders, s.released), v);
    }
  }

  /** When the set of PAID orders stays, so does the sold ledger. */
  lemma LedgerWhenPaidStay(s0: System, s: System, after: System)
    requires Ledger(s0, s)
    requires SameItems(s.db.orders, after.db.orders) && after.db.sold == s.db.sold
    requires forall o :: 0 <= o < |s.db.orders| ==>
      (s.db.orders[o].payment == Paid <==> after.db.orders[o].payment == Paid)
    ensures Ledger(s0, after)
  {
    forall v | v in s.db.sold
      ensures Total(after.db.orders, PaidIds(after.db.orders), v) == Total(s.db.orders, PaidIds(s.db.orders), v)
    {
      TotalCongruence(s.db.orders, after.db.orders, PaidIds(s.db.orders), PaidIds(after.db.orders), v);
    }
  }

  lemma PlaceConserves(s0: System, s: System, items: seq<Item>, expiresAt: int)
    requires Conserved(s0, s) && ReleasedAreCancelled(s) && Reserve(s.db.stock, items).Ok?
    ensures Conserved(s0, Placed(s, items, expiresAt))
    ensures forall v :: v in s.db.stock && v !in Variants(items) ==>
      Placed(s, items, expiresAt).db.stock[v] == s.db.stock[v]
  {
    var after := Placed(s, items, expiresAt);
    var orders := s.db.orders;
    ReserveIsExact(s.db.stock, items);
    forall v | v in s.db.stock
      ensures after.db.stock[v] >= 0
      ensures after.db.stock[v] + Total(after.db.orders, IdsOutside(after.db.orders, s.released), v) == s0.db.stock[v]
      ensures v !in Variants(items) ==> after.db.stock[v] == s.db.stock[v]
    {
      TotalAppend(orders, NewOrder(items, expiresAt), IdsOutside(after.db.orders, s.released), v);
      TotalCongruence(orders, orders, IdsOutside(after.db.orders, s.released), IdsOutside(orders, s.released), v);
      if !Orders(items, v) {
        QuantityZero(items, v);
      } else {
        var k :| 0 <= k < |items| && items[k].variant == v;
        assert Quantity(items, items[k].variant) <= s.db.stock[items[k].variant];
      }
    }
  }

  lemma PlaceKeepsLedger(s0: System, s: System, items: seq<Item>, expiresAt: int)
    requires Ledger(s0, s) && Reserve(s.db.stock, items).Ok?
    ensures Ledger(s0, Placed(s, items, expiresAt))
  {
    var after := Placed(s, items, expiresAt);
    var orders := s.db.orders;
    forall v | v in s.db.sold
      ensures Total(after.db.orders, PaidIds(after.db.orders), v) == Total(orders, PaidIds(orders), v)
    {
      TotalAppend(orders, NewOrder(items, expiresAt), PaidIds(after.db.orders), v);
      TotalCongruence(orders, orders, PaidIds(after.db.orders), PaidIds(orders), v);
    }
  }

  lemma PlaceKeepsInvariant(s0: System, s: System, items: seq<Item>, expiresAt: int)
    requires Invariant(s0, s) && Enabled(s, PlaceOrder(items, expiresAt))
    ensures Invariant(s0, Placed(s, items, expiresAt))
  {
    var after := Placed(s, items, expiresAt);
    PlaceConserves(s0, s, items, expiresAt);
    PlaceKeepsLedger(s0, s, items, expiresAt);
    forall t | t in s.open ensures TxnOk(after.db, s.open[t]) {
      KeepsTxnOk(s.db, after.db, s.open[t]);
    }
    PlaceKeepsRows(s.db.stock, items, expiresAt);
  }

  lemma PlaceKeepsRows(stock: map<VariantId, int>, items: seq<Item>, expiresAt: int)
    requires OneRowPerVariant(items) && Reserve(stock, items).Ok?
    requires forall i :: 0 <= i < |items| ==> items[i].quantity > 0
    ensures OrderOk(Reserve(stock, items).value, NewOrder(items, expiresAt)) && Lifecycle(NewOrder(items, expiresAt))
  {
    ReserveIsExact(stock, items);
  }

  lemma ExpiryConserves(s0: System, s: System, tx: Tx, batch: set<OrderId>)
    requires Conserved(s0, s)
    requires forall o :: o in batch ==> o < |s.db.orders| && o !in s.released
    ensures Conserved(s0, ExpiryCommitted(s, tx, batch, ReleaseWrites(s.db.stock, s.db.orders, batch)))
  {
    var after := ExpiryCommitted(s, tx, batch, ReleaseWrites(s.db.stock, s.db.orders, batch));
    assert after.db.stock == Release(s.db.stock, s.db.orders, batch);
    ReleaseAddsTotals(s.db.stock, s.db.orders, batch);
    var left := IdsOutside(s.db.orders, after.released);
    forall v | v in s.db.stock
      ensures after.db.stock[v] + Total(after.db.orders, IdsOutside(after.db.orders, after.released), v) ==
        s0.db.stock[v]
    {
      TotalSplit(s.db.orders, left, batch, v);
      TotalCongruence(s.db.orders, s.db.orders, left + batch, IdsOutside(s.db.orders, s.released), v);
      TotalCongruence(s.db.orders, after.db.orders, left, IdsOutside(after.db.orders, after.released), v);
    }
  }

  lemma ExpiryStaysOutside(s: System, tx: Tx, u: Tx)
    requires tx in s.open && u in s.open && u != tx && s.open[tx].Releasing? && Exclusive(s) && TxnOk(s.db, s.open[tx])
    ensures OutsideLocks(s.db, ExpiryCommitted(s, tx, s.open[tx].batch, s.open[tx].writes).db, s.open[u])
  {
    assert OrderLocks(s.open[tx]) !! OrderLocks(s.open[u]) && VariantLocks(s.open[tx]) !! VariantLocks(s.open[u]);
  }

  lemma ExpiryKeepsRow(s: System, tx: Tx, o: OrderId)
    requires tx in s.open && s.open[tx].Releasing? && TxnOk(s.db, s.open[tx]) && o < |s.db.orders|
    requires OrderOk(s.db.stock, s.db.orders[o]) && Lifecycle(s.db.orders[o])
    ensures var after := ExpiryCommitted(s, tx, s.open[tx].batch, s.open[tx].writes);
      && |after.db.orders| == |s.db.orders| && OrderOk(after.db.stock, after.db.orders[o])
        && Lifecycle(after.db.orders[o])
      && (after.db.orders[o].payment == Paid <==> s.db.orders[o].payment == Paid)
  {
  }

  lemma ExpiryCommitKeepsInvariant(s0: System, s: System, tx: Tx)
    requires Invariant(s0, s) && tx in s.open && s.open[tx].Releasing?
    ensures Invariant(s0, ExpiryCommitted(s, tx, s.open[tx].batch, s.open[tx].writes))
  {
    var batch := s.open[tx].batch;
    var after := ExpiryCommitted(s, tx, batch, s.open[tx].writes);
    assert TxnOk(s.db, s.open[tx]);
    ExpiryConserves(s0, s, tx, batch);
    forall o | 0 <= o < |s.db.orders|
      ensures OrderOk(after.db.stock, after.db.orders[o]) && Lifecycle(after.db.orders[o])
        && (after.db.orders[o].payment == Paid <==> s.db.orders[o].payment == Paid)
    {
      ExpiryKeepsRow(s, tx, o);
    }
    LedgerWhenPaidStay(s0, s, after);
    forall u | u in s.open && u != tx ensures OutsideLocks(s.db, after.db, s.open[u]) {
      ExpiryStaysOutside(s, tx, u);
    }
    LeaveKeepsInvariant(s0, s, tx, after);
  }

  lemma NotifyKeepsLedger(s0: System, s: System, tx: Tx, p: Payload, sold: map<VariantId, int>)
    requires Ledger(s0, s) && p.order < |s.db.orders| && Record(s.db.payments, p).Ok?
    requires OneRowPerVariant(s.db.orders[p.order].items)
    requires if IsPaidEvent(p) && s.db.orders[p.order].payment != Paid
      then SoldUpdated(s.db.sold, s.db.orders[p.order].items, sold)
             else sold == s.db.sold
    ensures Ledger(s0,
      Notified(s, tx, p, NextPayment(s.db.orders[p.order].status, s.db.orders[p.order].payment, p), sold))
  {
    var orders, o := s.db.orders, p.order;
    var after := Notified(s, tx, p, NextPayment(orders[o].status, orders[o].payment, p), sold);
    if IsPaidEvent(p) && orders[o].payment != Paid {
      UngroupedUpdateAddsTotals(s.db.sold, orders[o].items, sold);
      forall v | v in s.db.sold
        ensures after.db.sold[v] == s0.db.sold[v] + Total(after.db.orders, PaidIds(after.db.orders), v)
      {
        TotalSplit(orders, PaidIds(orders), {o}, v);
        TotalSingle(orders, o, v);
        TotalCongruence(orders, after.db.orders, PaidIds(orders) + {o}, PaidIds(after.db.orders), v);
      }
    } else {
      LedgerWhenPaidStay(s0, s, after);
    }
  }

  lemma NotifyStaysOutside(s: System, tx: Tx, sold: map<VariantId, int>, u: Tx)
    requires Enabled(s, CommitNotify(tx, sold)) && Exclusive(s) && TxnOk(s.db, s.open[tx]) && u in s.open && u != tx
    ensures OutsideLocks(s.db, Apply(s, CommitNotify(tx, sold)).db, s.open[u])
  {
    assert OrderLocks(s.open[tx]) !! OrderLocks(s.open[u]);
  }

  lemma NotifyKeepsRow(s: System, tx: Tx, sold: map<VariantId, int>, o: OrderId)
    requires Enabled(s, CommitNotify(tx, sold)) && TxnOk(s.db, s.open[tx]) && o < |s.db.orders|
    requires OrderOk(s.db.stock, s.db.orders[o]) && Lifecycle(s.db.orders[o])
    ensures var after := Apply(s, CommitNotify(tx, sold));
      && |after.db.orders| == |s.db.orders| && OrderOk(after.db.stock, after.db.orders[o])
        && Lifecycle(after.db.orders[o])
      && after.db.orders[o].status == s.db.orders[o].status
  {
  }

  lemma NotifyCommitKeepsInvariant(s0: System, s: System, tx: Tx, sold: map<VariantId, int>)
    requires Invariant(s0, s) && Enabled(s, CommitNotify(tx, sold))
    ensures Invariant(s0, Apply(s, CommitNotify(tx, sold)))
  {
    var t := s.open[tx];
    var after := Notified(s, tx, t.payload, NextPayment(t.seenStatus, t.seenPayment, t.payload), sold);
    assert TxnOk(s.db, t) && OrderOk(s.db.stock, s.db.orders[t.payload.order]);
    RecordKeepsMaximum(s.db.payments, t.payload);
    ConservedWhenItemsStay(s0, s, after);
    NotifyKeepsLedger(s0, s, tx, t.payload, sold);
    forall o | 0 <= o < |s.db.orders|
      ensures OrderOk(after.db.stock, after.db.orders[o]) && Lifecycle(after.db.orders[o])
      ensures after.db.orders[o].status == s.db.orders[o].status
    {
      NotifyKeepsRow(s, tx, sold, o);
    }
    forall u | u in s.open && u != tx ensures OutsideLocks(s.db, after.db, s.open[u]) {
      NotifyStaysOutside(s, tx, sold, u);
    }
    LeaveKeepsInvariant(s0, s, tx, after);
  }

  /** Commits that write one order row and neither stock nor counters. */
  lemma RowWriteKeepsInvariant(s0: System, s: System, tx: Tx, o: OrderId, row: Order)
    requires Invariant(s0, s) && tx in s.open && o < |s.db.orders|
    requires o in OrderLocks(s.open[tx])
    requires row.items == s.db.orders[o].items && (row.payment == Paid <==> s.db.orders[o].payment == Paid)
    requires row.shipment == s.db.orders[o].shipment ||
      (o in ShipmentLocks(s.open[tx]) && row.shipment != Packing && s.db.orders[o].shipment != Delivered)
    requires s.db.orders[o].status == Cancelled ==> row.status == Cancelled
    requires Lifecycle(row)
    ensures Invariant(s0, RowWritten(s, tx, o, row))
  {
    var after := RowWritten(s, tx, o, row);
    ConservedWhenItemsStay(s0, s, after);
    LedgerWhenPaidStay(s0, s, after);
    LeaveKeepsInvariant(s0, s, tx, after);
  }

  lemma AutoCompleteStaysOutside(s: System, tx: Tx, u: Tx)
    requires Enabled(s, CommitAutoComplete(tx)) && Exclusive(s) && TxnOk(s.db, s.open[tx]) && u in s.open && u != tx
    ensures OutsideLocks(s.db, Apply(s, CommitAutoComplete(tx)).db, s.open[u])
  {
    assert ShipmentLocks(s.open[tx]) !! ShipmentLocks(s.open[u]) && OrderLocks(s.open[u]) !! s.open[tx].ids;
  }

  lemma AutoCompleteKeepsRow(s: System, tx: Tx, o: OrderId)
    requires Enabled(s, CommitAutoComplete(tx)) && TxnOk(s.db, s.open[tx]) && o < |s.db.orders|
    requires OrderOk(s.db.stock, s.db.orders[o]) && Lifecycle(s.db.orders[o])
    ensures var after := Apply(s, CommitAutoComplete(tx));
      && |after.db.orders| == |s.db.orders| && OrderOk(after.db.stock, after.db.orders[o])
        && Lifecycle(after.db.orders[o])
      && after.db.orders[o].payment == s.db.orders[o].payment && after.db.orders[o].items == s.db.orders[o].items
      && (s.db.orders[o].status == Cancelled ==> after.db.orders[o].status == Cancelled)
  {
  }

  lemma AutoCompleteCommitKeepsInvariant(s0: System, s: System, tx: Tx)
    requires Invariant(s0, s) && Enabled(s, CommitAutoComplete(tx))
    ensures Invariant(s0, Apply(s, CommitAutoComplete(tx)))
  {
    var after := Leave(s, tx, s.db.(orders := AutoComplete(s.db.orders, s.open[tx].ids, s.open[tx].delivered)));
    assert TxnOk(s.db, s.open[tx]);
    forall o | 0 <= o < |s.db.orders|
      ensures |after.db.orders| == |s.db.orders| && OrderOk(after.db.stock, after.db.orders[o])
      ensures Lifecycle(after.db.orders[o])
        && after.db.orders[o].payment == s.db.orders[o].payment && after.db.orders[o].items == s.db.orders[o].items
        && (s.db.orders[o].status == Cancelled ==> after.db.orders[o].status == Cancelled)
    {
      AutoCompleteKeepsRow(s, tx, o);
    }
    ConservedWhenItemsStay(s0, s, after);
    LedgerWhenPaidStay(s0, s, after);
    forall u | u in s.open && u != tx ensures OutsideLocks(s.db, after.db, s.open[u]) {
      AutoCompleteStaysOutside(s, tx, u);
    }
    LeaveKeepsInvariant(s0, s, tx, after);
  }

  /** Taking the rows of an expiry batch leaves the lock tables disjoint: SKIP LOCKED passed over
      every row another transaction holds. */
  lemma SkipLockedIsFree(s: System, tx: Tx, now: int, batch: set<OrderId>)
    requires ExpiryBatch(s.db.orders, LockedOrders(s), now, batch)
    ensures OrdersFree(s, tx, batch)
  {
    forall t | t in s.open && t != tx ensures OrderLocks(s.open[t]) !! batch {
      forall o | o in OrderLocks(s.open[t]) ensures o !in batch {
        assert o in LockedOrders(s);
      }
    }
  }

  ghost predicate IsCommit(step: Step) {
    || step.PlaceOrder? || step.CommitExpiry? || step.CommitNotify? || step.CommitCancel? || step.CommitShip?
    || step.CommitDeliver? || step.CommitAutoComplete? || step.Abort?
  }

  /** What a statement has read is true of the committed tables. */
  lemma StatementReads(s: System, step: Step)
    requires Enabled(s, step) && !IsCommit(step)
    requires step.tx in s.open ==> TxnOk(s.db, s.open[step.tx])
    ensures step.tx in Apply(s, step).open && TxnOk(s.db, Apply(s, step).open[step.tx])
    ensures Apply(s, step) == Enter(s, step.tx, Apply(s, step).open[step.tx])
  {
  }

  lemma StatementLocksOrders(s: System, step: Step)
    requires Enabled(s, step) && !IsCommit(step) && Exclusive(s)
    ensures step.tx in Apply(s, step).open && OrdersFree(s, step.tx, OrderLocks(Apply(s, step).open[step.tx]))
  {
    if step.BeginExpiry? {
      SkipLockedIsFree(s, step.tx, step.now, step.batch);
    }
  }

  lemma StatementLocksShipments(s: System, step: Step)
    requires Enabled(s, step) && !IsCommit(step) && Exclusive(s)
    ensures step.tx in Apply(s, step).open && ShipmentsFree(s, step.tx, ShipmentLocks(Apply(s, step).open[step.tx]))
  {
  }

  lemma StatementLocksVariants(s: System, step: Step)
    requires Enabled(s, step) && !IsCommit(step) && Exclusive(s)
    ensures step.tx in Apply(s, step).open && VariantsFree(s, step.tx, VariantLocks(Apply(s, step).open[step.tx]))
  {
  }

  lemma StatementKeepsInvariant(s0: System, s: System, step: Step)
    requires Invariant(s0, s) && Enabled(s, step) && !IsCommit(step)
    ensures Invariant(s0, Apply(s, step))
  {
    StatementReads(s, step);
    StatementLocksOrders(s, step);
    StatementLocksShipments(s, step);
    StatementLocksVariants(s, step);
    EnterKeepsInvariant(s0, s, step.tx, Apply(s, step).open[step.tx]);
  }

  lemma CancelCommitKeepsInvariant(s0: System, s: System, tx: Tx)
    requires Invariant(s0, s) && Enabled(s, CommitCancel(tx))
    ensures Invariant(s0, Apply(s, CommitCancel(tx)))
  {
    var o := s.open[tx].order;
    assert TxnOk(s.db, s.open[tx]) && Lifecycle(s.db.orders[o]);
    RowWriteKeepsInvariant(s0, s, tx, o, s.db.orders[o].(status := Cancelled, payment := Failed));
  }

  lemma ShipCommitKeepsInvariant(s0: System, s: System, tx: Tx, now: int)
    requires Invariant(s0, s) && Enabled(s, CommitShip(tx, now))
    ensures Invariant(s0, Apply(s, CommitShip(tx, now)))
  {
    var o := s.open[tx].order;
    assert TxnOk(s.db, s.open[tx]) && Lifecycle(s.db.orders[o]);
    RowWriteKeepsInvariant(s0, s, tx, o, Apply(s, CommitShip(tx, now)).db.orders[o]);
  }

  lemma DeliverCommitKeepsInvariant(s0: System, s: System, tx: Tx)
    requires Invariant(s0, s) && Enabled(s, CommitDeliver(tx))
    ensures Invariant(s0, Apply(s, CommitDeliver(tx)))
  {
    var o := s.open[tx].order;
    assert TxnOk(s.db, s.open[tx]) && Lifecycle(s.db.orders[o]);
    RowWriteKeepsInvariant(s0, s, tx, o, Apply(s, CommitDeliver(tx)).db.orders[o]);
  }

  lemma AbortKeepsInvariant(s0: System, s: System, tx: Tx)
    requires Invariant(s0, s)
    ensures Invariant(s0, Leave(s, tx, s.db))
  {
  }

  lemma CommitKeepsInvariant(s0: System, s: System, step: Step)
    requires Invariant(s0, s) && Enabled(s, step) && IsCommit(step)
    ensures Invariant(s0, Apply(s, step))
  {
    match step
    case PlaceOrder(items, expiresAt) => PlaceKeepsInvariant(s0, s, items, expiresAt);
    case CommitExpiry(tx) => ExpiryCommitKeepsInvariant(s0, s, tx);
    case CommitNotify(tx, sold) => NotifyCommitKeepsInvariant(s0, s, tx, sold);
    case CommitCancel(tx) => CancelCommitKeepsInvariant(s0, s, tx);
    case CommitShip(tx, now) => ShipCommitKeepsInvariant(s0, s, tx, now);
    case CommitDeliver(tx) => DeliverCommitKeepsInvariant(s0, s, tx);
    case CommitAutoComplete(tx) => AutoCompleteCommitKeepsInvariant(s0, s, tx);
    case Abort(tx) => AbortKeepsInvariant(s0, s, tx);
  }

  /** Every step keeps the invariant. */
  lemma StepKeepsInvariant(s0: System, s: System, step: Step)
    requires Invariant(s0, s) && Enabled(s, step)
    ensures Invariant(s0, Apply(s, step))
  {
    if IsCommit(step) {
      CommitKeepsInvariant(s0, s, step);
    } else {
      StatementKeepsInvariant(s0, s, step);
    }
  }
}
