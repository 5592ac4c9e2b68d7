/** The repositories and services over the ordering tables, statement by statement, each transaction
    running alone. */
module OrderStore {
  import opened Wrappers
  import opened OrderRows
  import opened Payments
  import opened OrderTransactions
  import OrderProtocol
  import Sorting

  // Selecting the expiry batch.

  function Ids(n: nat): seq<OrderId> {
    seq(n, i requires 0 <= i < n => i as nat)
  }

  function Due(orders: seq<Order>, o: OrderId): int {
    if o < |orders| then orders[o].expiresAt else 0
  }

  function Sooner(orders: seq<Order>): (OrderId, OrderId) -> bool {
    (i: OrderId, j: OrderId) => Due(orders, i) < Due(orders, j) || (Due(orders, i) == Due(orders, j) && i < j)
  }

  function Selects(orders: seq<Order>, locked: set<OrderId>, now: int): OrderId -> bool {
    (o: OrderId) => o < |orders| && o !in locked && Expirable(orders[o], now)
  }

  /** ORDER BY expires_at ASC, id ASC LIMIT 500 over the expirable rows that are not locked. */
  function ExpiryRows(orders: seq<Order>, locked: set<OrderId>, now: int): seq<OrderId> {
    var rows := SelectedSorted(orders, locked, now);
    if |rows| <= EXPIRY_BATCH then rows else rows[..EXPIRY_BATCH]
  }

  function RowSet(rows: seq<OrderId>): set<OrderId> {
    set o | o in rows
  }

  function SelectedSorted(orders: seq<Order>, locked: set<OrderId>, now: int): seq<OrderId> {
    Sorting.Sort<OrderId>(Sorting.Filter<OrderId>(Ids(|orders|), Selects(orders, locked, now)), Sooner(orders))
  }

  lemma SelectedSortedRows(orders: seq<Order>, locked: set<OrderId>, now: int)
    ensures Sorting.Sorted(SelectedSorted(orders, locked, now), Sooner(orders))
    ensures forall o: OrderId :: o in SelectedSorted(orders, locked, now) <==> Selects(orders, locked, now)(o)
    ensures Distinct(SelectedSorted(orders, locked, now))
  {
    var keep, less := Selects(orders, locked, now), Sooner(orders);
    var eligible := Sorting.Filter<OrderId>(Ids(|orders|), keep);
    Sorting.SortKeepsElements(eligible, less);
    Sorting.SortSorts(eligible, less);
    Sorting.SameElements(SelectedSorted(orders, locked, now), eligible);
    forall o: OrderId ensures o in eligible <==> keep(o) {
      Sorting.FilterMember(Ids(|orders|), keep, o);
      if o < |orders| {
        assert Ids(|orders|)[o] == o;
      }
    }
    FilterIdsDistinct(|orders|, keep);
    MultisetDistinct(eligible, SelectedSorted(orders, locked, now));
  }

  lemma ExpiryRowsAreTheBatch(orders: seq<Order>, locked: set<OrderId>, now: int)
    ensures ExpiryBatch(orders, locked, now, RowSet(ExpiryRows(orders, locked, now)))
    ensures |RowSet(ExpiryRows(orders, locked, now))| == |ExpiryRows(orders, locked, now)|
  {
    var less := Sooner(orders);
    var sorted := SelectedSorted(orders, locked, now);
    var rows := ExpiryRows(orders, locked, now);
    SelectedSortedRows(orders, locked, now);
    DistinctSize(rows);
    var batch := RowSet(rows);
    forall o | o in batch ensures Selects(orders, locked, now)(o) {
      var i :| 0 <= i < |rows| && rows[i] == o;
      assert sorted[i] == o;
    }
    forall o: nat | o < |orders| && o !in locked && o !in batch && Expirable(orders[o], now)
      ensures |batch| == EXPIRY_BATCH && forall b :: b in batch ==> Earlier(orders, b, o)
    {
      assert Selects(orders, locked, now)(o);
      var k :| 0 <= k < |sorted| && sorted[k] == o;
      assert k >= EXPIRY_BATCH;
      forall b | b in batch ensures Earlier(orders, b, o) {
        var i :| 0 <= i < |rows| && rows[i] == b;
        assert sorted[i] == b && !less(sorted[k], sorted[i]);
      }
    }
  }

  // Selecting the overdue shipments.

  function ShippedAt(orders: seq<Order>, o: OrderId): int {
    if o < |orders| then orders[o].shippedAt else 0
  }

  function ShippedSooner(orders: seq<Order>): (OrderId, OrderId) -> bool {
    (i: OrderId, j: OrderId) => ShippedAt(orders, i) < ShippedAt(orders, j)
  }

  function SelectsOverdue(orders: seq<Order>, now: int): OrderId -> bool {
    (o: OrderId) => o < |orders| && Overdue(orders[o], now)
  }

  function OverdueSorted(orders: seq<Order>, now: int): seq<OrderId> {
    Sorting.Sort<OrderId>(Sorting.Filter<OrderId>(Ids(|orders|), SelectsOverdue(orders, now)), ShippedSooner(orders))
  }

  /** ORDER BY shipped_at ASC LIMIT 200. */
  function OverdueRows(orders: seq<Order>, now: int): seq<OrderId> {
    var rows := OverdueSorted(orders, now);
    if |rows| <= AUTO_COMPLETE_BATCH then rows else rows[..AUTO_COMPLETE_BATCH]
  }

  lemma OverdueSortedRows(orders: seq<Order>, now: int)
    ensures Sorting.Sorted(OverdueSorted(orders, now), ShippedSooner(orders))
    ensures forall o: OrderId :: o in OverdueSorted(orders, now) <==> SelectsOverdue(orders, now)(o)
    ensures Distinct(OverdueSorted(orders, now))
  {
    var keep, less := SelectsOverdue(orders, now), ShippedSooner(orders);
    var eligible := Sorting.Filter<OrderId>(Ids(|orders|), keep);
    Sorting.SortKeepsElements(eligible, less);
    Sorting.SortSorts(eligible, less);
    Sorting.SameElements(OverdueSorted(orders, now), eligible);
    forall o: OrderId ensures o in eligible <==> keep(o) {
      Sorting.FilterMember(Ids(|orders|), keep, o);
      if o < |orders| {
        assert Ids(|orders|)[o] == o;
      }
    }
    FilterIdsDistinct(|orders|, keep);
    MultisetDistinct(eligible, OverdueSorted(orders, now));
  }

  lemma OverdueRowsAreTheBatch(orders: seq<Order>, now: int)
    ensures OverdueBatch(orders, now, RowSet(OverdueRows(orders, now)))
  {
    var less, sorted, rows := ShippedSooner(orders), OverdueSorted(orders, now), OverdueRows(orders, now);
    OverdueSortedRows(orders, now);
    DistinctSize(rows);
    var ids := RowSet(rows);
    forall o | o in ids ensures SelectsOverdue(orders, now)(o) {
      var i :| 0 <= i < |rows| && rows[i] == o;
      assert sorted[i] == o;
    }
    forall o: nat | o < |orders| && o !in ids && Overdue(orders[o], now)
      ensures |ids| == AUTO_COMPLETE_BATCH && forall b :: b in ids ==> orders[b].shippedAt <= orders[o].shippedAt
    {
      assert SelectsOverdue(orders, now)(o);
      var k :| 0 <= k < |sorted| && sorted[k] == o;
      assert k >= AUTO_COMPLETE_BATCH;
      forall b | b in ids ensures orders[b].shippedAt <= orders[o].shippedAt {
        var i :| 0 <= i < |rows| && rows[i] == b;
        assert sorted[i] == b && !less(sorted[k], sorted[i]);
      }
    }
  }

  ghost predicate Distinct(xs: seq<OrderId>) {
    forall i, j :: 0 <= i < j < |xs| ==> xs[i] != xs[j]
  }

  lemma SeenTwice(b: seq<OrderId>, i: nat, j: nat)
    requires i < j < |b|
    ensures b[i] == b[j] ==> multiset(b)[b[i]] >= 2
  {
    var left, right := b[..j], b[j..];
    assert b == left + right && left[i] == b[i] && right[0] == b[j];
    assert multiset(b) == multiset(left) + multiset(right);
    assert b[i] in multiset(left) && b[j] in multiset(right);
  }

  lemma MultisetDistinct(a: seq<OrderId>, b: seq<OrderId>)
    requires multiset(a) == multiset(b) && forall x :: multiset(a)[x] <= 1
    ensures Distinct(b)
  {
    forall i, j | 0 <= i < j < |b| ensures b[i] != b[j] {
      SeenTwice(b, i, j);
    }
  }

  lemma FilterIdsDistinct(n: nat, keep: OrderId -> bool)
    ensures forall x :: multiset(Sorting.Filter(Ids(n), keep))[x] <= 1
  {
    Sorting.FilterElements(Ids(n), keep);
    forall x ensures multiset(Ids(n))[x] <= 1 {
      IdsOnce(n, x);
    }
  }

  lemma {:induction false} IdsOnce(n: nat, x: OrderId)
    ensures multiset(Ids(n))[x] == if x < n then 1 else 0
  {
    if n > 0 {
      IdsOnce(n - 1, x);
      assert Ids(n) == Ids(n - 1) + [n - 1];
    }
  }

  lemma {:induction false} DistinctSize(xs: seq<OrderId>)
    requires Distinct(xs)
    ensures |RowSet(xs)| == |xs|
  {
    if xs != [] {
      var last := |xs| - 1;
      DistinctSize(xs[..last]);
      assert xs == xs[..last] + [xs[last]];
      assert RowSet(xs) == RowSet(xs[..last]) + {xs[last]};
    }
  }

  /** Order status and shipment status keep walking together, row by row. */
  ghost predicate LifecyclesKept(before: seq<Order>, after: seq<Order>) {
    && |before| == |after|
    && forall i :: 0 <= i < |before| && OrderProtocol.Lifecycle(before[i]) ==> OrderProtocol.Lifecycle(after[i])
  }

  /** Only row o may change, and it keeps its items and its expiry time. */
  ghost predicate OthersStay(before: seq<Order>, after: seq<Order>, o: OrderId) {
    && |before| == |after|
    && (forall i :: 0 <= i < |before| && i != o ==> after[i] == before[i])
    && (o < |before| ==> after[o].items == before[o].items && after[o].expiresAt == before[o].expiresAt)
  }

  class Store {
    var stock: map<VariantId, int>
    var sold: map<VariantId, int>
    var orders: seq<Order>
    var payments: map<TransactionId, Payment>

    constructor (stock: map<VariantId, int>)
      ensures Tables() == Db(stock, map v | v in stock :: 0, [], map[])
    {
      this.stock := stock;
      this.sold := map v | v in stock :: 0;
      this.orders := [];
      this.payments := map[];
    }

    ghost function Tables(): Db
      reads this
    {
      Db(stock, sold, orders, payments)
    }

    /** Guarded decrements; the first one that finds too little stock stops the loop. */
    method ReduceStock(items: seq<Item>) returns (ok: bool)
      modifies this`stock
      ensures ok <==> Fits(old(stock), items)
      ensures ok ==>
        stock.Keys == old(stock).Keys && forall v :: v in stock ==> stock[v] == old(stock)[v] - Quantity(items, v)
      ensures ok <==> Reserve(old(stock), items).Ok?
      ensures ok ==> stock == Reserve(old(stock), items).value
    {
      ReserveIsExact(stock, items);
      for i := 0 to |items|
        invariant Reserve(old(stock), items) == Reserve(stock, items[i..])
      {
        var item := items[i];
        assert items[i..][1..] == items[i + 1..];
        if item.variant in stock && stock[item.variant] >= item.quantity {
          stock := stock[item.variant := stock[item.variant] - item.quantity];
        } else {
          return false;
        }
      }
      return true;
    }

    /** Inserts the order, takes the stock, and undoes both when the stock does not suffice. */
    method PlaceOrder(items: seq<Item>, expiresAt: int) returns (r: Result<OrderId, Error>)
      modifies this
      ensures match Place(old(Tables()), items, expiresAt)
        case Ok(db) => Tables() == db && r == Ok(|old(orders)|)
        case Err(e) => Tables() == old(Tables()) && r == Err(e)
    {
      var before, shelf := orders, stock;
      orders := orders + [NewOrder(items, expiresAt)];
      var ok := ReduceStock(items);
      if !ok {
        orders, stock := before, shelf;
        ReserveErr(shelf, items);
        return Err(OutOfStock);
      }
      return Ok(|before|);
    }

    /** The three statements of the expiry worker. */
    method ExpireOrders(now: int) returns (affected: nat, ghost batch: set<OrderId>)
      modifies this
      ensures ExpiryBatch(old(orders), {}, now, batch)
      ensures affected == |batch| <= 500
      ensures forall o :: o in batch ==>
        && o < |old(orders)| && old(orders)[o].payment == Unpaid && old(orders)[o].status == Pending
        && old(orders)[o].expiresAt < now
      ensures forall o, b ::
        (0 <= o < |old(orders)| && o !in batch && b in batch && old(orders)[o].payment == Unpaid
         && old(orders)[o].status == Pending && old(orders)[o].expiresAt < now) ==>
        && |batch| == 500
        && (old(orders)[b].expiresAt < old(orders)[o].expiresAt
            || (old(orders)[b].expiresAt == old(orders)[o].expiresAt && b < o))
      ensures batch == {} ==> forall o :: 0 <= o < |old(orders)| ==>
        old(orders)[o].payment != Unpaid || old(orders)[o].status != Pending || now <= old(orders)[o].expiresAt
      ensures Tables() == OrderTransactions.Expire(old(Tables()), batch)
    {
      var rows := ExpiryRows(orders, {}, now);
      ExpiryRowsAreTheBatch(orders, {}, now);
      var ids := RowSet(rows);
      batch := ids;
      if |rows| == 0 {
        ghost var db := Tables();
        assert ids == {};
        ReleaseAddsTotals(stock, orders, ids);
        forall v | v in stock ensures Total(orders, ids, v) == 0 {
          TotalEmpty(orders, v);
        }
        assert Release(stock, orders, ids) == stock;
        assert CancelBatch(orders, ids) == orders;
        return 0, batch;
      }
      stock := Release(stock, orders, ids);
      orders := CancelBatch(orders, ids);
      return |rows|, batch;
    }

    /** UPDATE .. FROM order_items, where any one matching item may be used. */
    method IncrementVariantSold(items: seq<Item>)
      modifies this`sold
      ensures SoldUpdated(old(sold), items, sold)
      ensures OneRowPerVariant(items) ==> sold == SoldPlusTotals(old(sold), items)
    {
      ghost var before := sold;
      sold := map v | v in sold :: sold[v] + OneRow(items, v);
      forall v | v in before
        ensures if Orders(items, v) then exists k ::
          0 <= k < |items| && items[k].variant == v && sold[v] == before[v] + items[k].quantity
                else sold[v] == before[v]
      {
        if Orders(items, v) {
          var k := OneRowExists(items, v);
        } else {
          NoRowIsZero(items, v);
        }
      }
      if OneRowPerVariant(items) {
        UngroupedUpdateAddsTotals(before, items, sold);
      }
    }

    /** handleMidtransWebhook, branch by branch. */
    method HandleWebhook(p: Payload) returns (r: Result<(), Error>)
      modifies this
      ensures match Notify(old(Tables()), p)
        case Err(e) => r == Err(e) && Tables() == old(Tables())
        case Ok(db) =>
          && r == Ok(())
          && stock == db.stock && orders == db.orders && payments == db.payments
          && (OneRowPerVariant(old(orders)[p.order].items) ==> sold == db.sold)
          && if IsPaidEvent(p) && old(orders)[p.order].payment != Paid
             then SoldUpdated(old(sold), old(orders)[p.order].items, sold) else sold == old(sold)
    {
      if p.order >= |orders| {
        return Err(NotFound);
      }
      var order := orders[p.order];

      if p.transaction !in payments {
        if p.status.Unknown? {
          return Err(ConstraintViolation);
        }
        payments := payments[p.transaction := Payment(p.order, p.status, p.fraud)];
      } else if payments[p.transaction].status != p.status {
        var existing := payments[p.transaction];
        if Rank(p.status) >= Rank(existing.status) {
          if p.status.Unknown? {
            return Err(ConstraintViolation);
          }
          payments := payments[p.transaction := existing.(status := p.status, fraud := p.fraud)];
        }
      }

      if IsPaidEvent(p) {
        if order.payment != Paid {
          orders := orders[p.order := order.(payment := Paid)];
          IncrementVariantSold(order.items);
        }
        return Ok(());
      }

      if order.payment == Paid || order.status == Cancelled || order.status == Completed {
        return Ok(());
      }

      if p.status == TransactionStatus.Expire {
        orders := orders[p.order := order.(payment := PaymentStatus.Expired)];
      } else if p.status == Cancel || p.status == Deny || p.status == Failure {
        orders := orders[p.order := order.(payment := Failed)];
      }
      return Ok(());
    }

    method MarkAsShipped(o: OrderId, now: int) returns (r: Result<(), Error>)
      modifies this`orders
      ensures LifecyclesKept(old(orders), orders) && OthersStay(old(orders), orders, o)
      ensures r.Ok? ==>
        o < |orders| && orders[o].shipment == Shipped && orders[o].payment == Paid && orders[o].status != Pending
      ensures match Ship(old(Tables()), o, now)
        case Ok(db) => Tables() == db && r == Ok(())
        case Err(e) => Tables() == old(Tables()) && r == Err(e)
    {
      if o >= |orders| {
        return Err(NotFound);
      }
      var order := orders[o];
      if order.shipment != Packing || !NotFinal(order) || order.payment != Paid {
        return Err(BadRequest);
      }
      orders := orders[o := orders[o].(shipment := Shipped, shippedAt := now)];
      if order.status == Pending {
        orders := orders[o := orders[o].(status := Processing)];
      }
      return Ok(());
    }

    method MarkAsDelivered(o: OrderId) returns (r: Result<(), Error>)
      modifies this`orders
      ensures LifecyclesKept(old(orders), orders) && OthersStay(old(orders), orders, o)
      ensures r.Ok? ==> o < |orders| && orders[o].shipment == Delivered && orders[o].status == Completed
      ensures match Deliver(old(Tables()), o)
        case Ok(db) => Tables() == db && r == Ok(())
        case Err(e) => Tables() == old(Tables()) && r == Err(e)
    {
      if o >= |orders| {
        return Err(NotFound);
      }
      if orders[o].shipment != Shipped || !NotFinal(orders[o]) {
        return Err(BadRequest);
      }
      orders := orders[o := orders[o].(shipment := Delivered)];
      if orders[o].status != Completed && orders[o].status != Cancelled {
        orders := orders[o := orders[o].(status := Completed)];
      }
      return Ok(());
    }

    /** owns says whether the order belongs to the caller. */
    method CancelOrder(o: OrderId, owns: bool) returns (r: Result<(), Error>)
      modifies this`orders
      ensures LifecyclesKept(old(orders), orders) && OthersStay(old(orders), orders, o)
      ensures r.Ok? ==> o < |orders| && orders[o].status == Cancelled && orders[o].payment == Failed
      ensures r.Ok? ==> owns && old(orders)[o].status != Completed && old(orders)[o].payment == Unpaid
      ensures o >= |orders| ==> r == Err(NotFound) && orders == old(orders)
      ensures !owns && o < |orders| ==> r == Err(Forbidden) && orders == old(orders)
      ensures owns ==> match CancelByUser(old(Tables()), o)
        case Ok(db) => Tables() == db && r == Ok(())
        case Err(e) => Tables() == old(Tables()) && r == Err(e)
    {
      if o >= |orders| {
        return Err(NotFound);
      }
      if !owns {
        return Err(Forbidden);
      }
      if !NotFinal(orders[o]) || orders[o].payment == Paid {
        return Err(BadRequest);
      }
      orders := orders[o := orders[o].(status := Cancelled, payment := Failed)];
      return Ok(());
    }

    /** The unlocked select of the auto-complete job: PAID orders shipped more than fourteen days ago and not
        final, at most 200, the longest shipped first. */
    method SelectOverdue(now: int) returns (ids: set<OrderId>)
      ensures OverdueBatch(orders, now, ids) && |ids| <= 200
      ensures forall o :: o in ids ==>
        && o < |orders| && orders[o].shipment == Shipped && orders[o].shippedAt < now - 14 * 24 * 60 * 60
        && orders[o].payment == Paid && orders[o].status != Cancelled && orders[o].status != Completed
      ensures forall o, b ::
        (0 <= o < |orders| && o !in ids && b in ids && orders[o].shipment == Shipped && orders[o].payment == Paid
         && orders[o].shippedAt < now - 14 * 24 * 60 * 60
         && orders[o].status != Cancelled && orders[o].status != Completed) ==>
        |ids| == 200 && orders[b].shippedAt <= orders[o].shippedAt
    {
      var rows := OverdueRows(orders, now);
      OverdueRowsAreTheBatch(orders, now);
      return RowSet(rows);
    }

    /** The two guarded updates of the auto-complete job, for the ids its select returned. */
    method CompleteDelivered(ids: set<OrderId>)
      modifies this`orders
      ensures orders == AutoComplete(old(orders), ids, StillShipped(old(orders), ids))
    {
      var before := orders;
      orders := seq(|before|, i requires 0 <= i < |before| =>
        if i in ids && before[i].shipment == Shipped then before[i].(shipment := Delivered) else before[i]);
      var shipped := orders;
      orders := seq(|shipped|, i requires 0 <= i < |shipped| =>
        if i in ids && shipped[i].status != Completed && shipped[i].status != Cancelled
        then shipped[i].(status := Completed) else shipped[i]);
    }
  }

  lemma {:induction false} ReserveErr(stock: map<VariantId, int>, items: seq<Item>)
    ensures Reserve(stock, items).Err? ==> Reserve(stock, items) == Err(OutOfStock)
  {
    if items != [] {
      var item := items[0];
      if item.variant in stock && stock[item.variant] >= item.quantity {
        ReserveErr(stock[item.variant := stock[item.variant] - item.quantity], items[1..]);
      }
    }
  }
}
