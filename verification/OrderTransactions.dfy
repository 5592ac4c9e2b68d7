/** The committed tables of the ordering core and what each whole transaction does to them. */
module OrderTransactions {
  import opened Wrappers
  import opened OrderRows
  import opened Payments

  datatype Db = Db(
    stock: map<VariantId, int>,
    sold: map<VariantId, int>,
    orders: seq<Order>,
    payments: map<TransactionId, Payment>)

  const EXPIRY_BATCH: nat := 500
  const AUTO_COMPLETE_BATCH: nat := 200
  const AUTO_COMPLETE_AFTER: int := 14 * 24 * 60 * 60

  // Placement.

  function NewOrder(items: seq<Item>, expiresAt: int): Order {
    Order(items, expiresAt, Pending, Unpaid, Packing, 0)
  }

  function Place(db: Db, items: seq<Item>, expiresAt: int): Result<Db, Error> {
    match Reserve(db.stock, items)
    case Ok(stock) => Ok(db.(stock := stock, orders := db.orders + [NewOrder(items, expiresAt)]))
    case Err(e) => Err(e)
  }

  // Expiry.

  predicate Expirable(order: Order, now: int) {
    order.payment == Unpaid && order.status == Pending && order.expiresAt < now
  }

  predicate Earlier(orders: seq<Order>, i: OrderId, j: OrderId)
    requires i < |orders| && j < |orders|
  {
    orders[i].expiresAt < orders[j].expiresAt || (orders[i].expiresAt == orders[j].expiresAt && i < j)
  }

  /** The rows of SELECT .. ORDER BY expires_at, id LIMIT 500 FOR UPDATE SKIP LOCKED: expirable and
      unlocked, the earliest first, all of them unless the limit is reached. */
  ghost predicate ExpiryBatch(orders: seq<Order>, locked: set<OrderId>, now: int, batch: set<OrderId>) {
    && |batch| <= EXPIRY_BATCH
    && (forall o :: o in batch ==> o < |orders| && o !in locked && Expirable(orders[o], now))
    && (forall o: nat :: o < |orders| && o !in locked && o !in batch && Expirable(orders[o], now) ==>
         |batch| == EXPIRY_BATCH && forall b :: b in batch ==> Earlier(orders, b, o))
  }

  function Expired(order: Order): Order {
    order.(payment := PaymentStatus.Expired, status := Cancelled)
  }

  function CancelBatch(orders: seq<Order>, batch: set<OrderId>): seq<Order> {
    seq(|orders|, i requires 0 <= i < |orders| => if i in batch then Expired(orders[i]) else orders[i])
  }

  function Expire(db: Db, batch: set<OrderId>): Db {
    db.(stock := Release(db.stock, db.orders, batch), orders := CancelBatch(db.orders, batch))
  }

  // Notifications.

  /** A notification's whole effect, the sold counters being added up per variant. */
  function Notify(db: Db, p: Payload): Result<Db, Error> {
    if p.order >= |db.orders| then Err(NotFound)
    else
      var order := db.orders[p.order];
      match Record(db.payments, p)
      case Err(e) => Err(e)
      case Ok(payments) =>
        Ok(Db(
          db.stock,
          if IsPaidEvent(p) && order.payment != Paid then SoldPlusTotals(db.sold, order.items) else db.sold,
          db.orders[p.order := order.(payment := NextPayment(order.status, order.payment, p))],
          payments))
  }

  // Shipping.

  predicate NotFinal(order: Order) {
    order.status != Cancelled && order.status != Completed && order.payment != Failed
      && order.payment != PaymentStatus.Expired
  }

  function ShippedOrder(order: Order, now: int): Order {
    order.(
      shipment := Shipped, shippedAt := now,
      status := if order.status == Pending then Processing else order.status)
  }

  function Ship(db: Db, o: OrderId, now: int): Result<Db, Error> {
    if o >= |db.orders| then Err(NotFound)
    else if db.orders[o].shipment != Packing || !NotFinal(db.orders[o]) || db.orders[o].payment != Paid
      then Err(BadRequest)
    else Ok(db.(orders := db.orders[o := ShippedOrder(db.orders[o], now)]))
  }

  function DeliveredOrder(order: Order): Order {
    order.(
      shipment := Delivered,
      status := if order.status != Completed && order.status != Cancelled then Completed else order.status)
  }

  function Deliver(db: Db, o: OrderId): Result<Db, Error> {
    if o >= |db.orders| then Err(NotFound)
    else if db.orders[o].shipment != Shipped || !NotFinal(db.orders[o]) then Err(BadRequest)
    else Ok(db.(orders := db.orders[o := DeliveredOrder(db.orders[o])]))
  }

  // Auto completion.

  predicate Overdue(order: Order, now: int) {
    && order.shipment == Shipped && order.shippedAt < now - AUTO_COMPLETE_AFTER
    && order.payment == Paid && order.status != Cancelled && order.status != Completed
  }

  /** The rows of the unlocked SELECT .. ORDER BY shipped_at LIMIT 200. */
  ghost predicate OverdueBatch(orders: seq<Order>, now: int, ids: set<OrderId>) {
    && |ids| <= AUTO_COMPLETE_BATCH
    && (forall o :: o in ids ==> o < |orders| && Overdue(orders[o], now))
    && (forall o: nat :: o < |orders| && o !in ids && Overdue(orders[o], now) ==>
         |ids| == AUTO_COMPLETE_BATCH && forall b :: b in ids ==> orders[b].shippedAt <= orders[o].shippedAt)
  }

  /** The two guarded updates: shipments still SHIPPED become DELIVERED, and every selected order that
      is not final becomes COMPLETED. */
  function AutoComplete(orders: seq<Order>, ids: set<OrderId>, delivered: set<OrderId>): seq<Order> {
    seq(|orders|, i requires 0 <= i < |orders| =>
      orders[i].(
        shipment := if i in delivered then Delivered else orders[i].shipment,
        status := if i in ids && orders[i].status != Completed && orders[i].status != Cancelled then Completed
                  else orders[i].status))
  }

  function StillShipped(orders: seq<Order>, ids: set<OrderId>): set<OrderId> {
    set o | o in ids && o < |orders| && orders[o].shipment == Shipped
  }

  // Cancellation by the user.

  /** The user's cancellation marks the order and does not give its stock back. */
  function CancelByUser(db: Db, o: OrderId): Result<Db, Error> {
    if o >= |db.orders| then Err(NotFound)
    else if !NotFinal(db.orders[o]) || db.orders[o].payment == Paid then Err(BadRequest)
    else Ok(db.(orders := db.orders[o := db.orders[o].(status := Cancelled, payment := Failed)]))
  }
}
