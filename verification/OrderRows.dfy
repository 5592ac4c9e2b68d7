/** The rows behind an order and the effect of each statement on them. */
module OrderRows {
  import opened Wrappers

  type OrderId = nat
  type VariantId = nat

  datatype OrderStatus = Pending | Processing | Cancelled | Completed

  datatype PaymentStatus = Unpaid | Paid | Failed | Expired

  /** Packing stands for the shipment status PENDING. */
  datatype ShipmentStatus = Packing | Shipped | Delivered

  datatype Item = Item(variant: VariantId, quantity: nat)

  /** An order, its items and its one shipment.  Orders are never deleted, so an order's id is its
      position in the sequence of all orders. */
  datatype Order = Order(
    items: seq<Item>,
    expiresAt: int,
    status: OrderStatus,
    payment: PaymentStatus,
    shipment: ShipmentStatus,
    shippedAt: int)

  /** The quantity of variant v in a list of items, every row for v counted. */
  function Quantity(items: seq<Item>, v: VariantId): nat {
    if items == [] then 0
    else (if items[0].variant == v then items[0].quantity else 0) + Quantity(items[1..], v)
  }

  /** SELECT SUM(quantity) over the items of the orders in ids, for one variant. */
  function Total(orders: seq<Order>, ids: set<OrderId>, v: VariantId): nat {
    if orders == [] then 0
    else
      var last := |orders| - 1;
      Total(orders[..last], ids, v) + if last in ids then Quantity(orders[last].items, v) else 0
  }

  function IdsOutside(orders: seq<Order>, released: set<OrderId>): set<OrderId> {
    set i: nat | i < |orders| && i !in released
  }

  function PaidIds(orders: seq<Order>): set<OrderId> {
    set i: nat | i < |orders| && orders[i].payment == Paid
  }

  function LiveIds(orders: seq<Order>): set<OrderId> {
    set i: nat | i < |orders| && orders[i].status != Cancelled
  }

  ghost predicate SameItems(before: seq<Order>, after: seq<Order>) {
    && |before| == |after|
    && forall i :: 0 <= i < |before| ==> before[i].items == after[i].items
  }

  /** Each variant occurs in at most one row, as the unique index on (cart, variant) makes sure. */
  ghost predicate OneRowPerVariant(items: seq<Item>) {
    forall i, j :: 0 <= i < j < |items| ==> items[i].variant != items[j].variant
  }

  ghost predicate Orders(items: seq<Item>, v: VariantId) {
    exists i :: 0 <= i < |items| && items[i].variant == v
  }

  lemma {:induction false} QuantityAppend(a: seq<Item>, b: seq<Item>, v: VariantId)
    ensures Quantity(a + b, v) == Quantity(a, v) + Quantity(b, v)
  {
    if a == [] {
      assert a + b == b;
    } else {
      assert (a + b)[1..] == a[1..] + b;
      QuantityAppend(a[1..], b, v);
    }
  }

  lemma {:induction false} QuantityAtLeast(items: seq<Item>, k: nat, v: VariantId)
    requires k < |items| && items[k].variant == v
    ensures Quantity(items, v) >= items[k].quantity
  {
    if k > 0 {
      QuantityAtLeast(items[1..], k - 1, v);
    }
  }

  lemma {:induction false} QuantityZero(items: seq<Item>, v: VariantId)
    requires !Orders(items, v)
    ensures Quantity(items, v) == 0
  {
    if items != [] {
      assert items[0].variant != v;
      forall i | 0 <= i < |items[1..]| ensures items[1..][i].variant != v {
        assert items[1..][i] == items[i + 1];
      }
      QuantityZero(items[1..], v);
    }
  }

  /** With one row per variant the sum is that row's quantity. */
  lemma {:induction false} QuantityOfOnlyRow(items: seq<Item>, k: nat)
    requires k < |items|
    requires OneRowPerVariant(items)
    ensures Quantity(items, items[k].variant) == items[k].quantity
  {
    var rest := items[1..];
    assert forall i :: 0 <= i < |rest| ==> rest[i] == items[i + 1];
    if k == 0 {
      QuantityZero(rest, items[0].variant);
    } else {
      QuantityOfOnlyRow(rest, k - 1);
    }
  }

  lemma {:induction false} TotalSplit(orders: seq<Order>, a: set<OrderId>, b: set<OrderId>, v: VariantId)
    requires a !! b
    ensures Total(orders, a + b, v) == Total(orders, a, v) + Total(orders, b, v)
  {
    if orders != [] {
      TotalSplit(orders[..|orders| - 1], a, b, v);
    }
  }

  lemma {:induction false} TotalCongruence(
      before: seq<Order>, after: seq<Order>, a: set<OrderId>, b: set<OrderId>, v: VariantId)
    requires SameItems(before, after)
    requires forall i: nat :: i < |before| ==> (i in a <==> i in b)
    ensures Total(before, a, v) == Total(after, b, v)
  {
    if before != [] {
      var last := |before| - 1;
      assert SameItems(before[..last], after[..last]);
      TotalCongruence(before[..last], after[..last], a, b, v);
    }
  }

  lemma TotalAppend(orders: seq<Order>, order: Order, ids: set<OrderId>, v: VariantId)
    ensures Total(orders + [order], ids, v)
         == Total(orders, ids, v) + if |orders| in ids then Quantity(order.items, v) else 0
  {
    assert (orders + [order])[..|orders|] == orders;
  }

  lemma {:induction false} TotalSingle(orders: seq<Order>, o: OrderId, v: VariantId)
    requires o < |orders|
    ensures Total(orders, {o}, v) == Quantity(orders[o].items, v)
  {
    var last := |orders| - 1;
    if o == last {
      TotalCongruence(orders[..last], orders[..last], {o}, {}, v);
      TotalEmpty(orders[..last], v);
    } else {
      TotalSingle(orders[..last], o, v);
    }
  }

  lemma {:induction false} TotalEmpty(orders: seq<Order>, v: VariantId)
    ensures Total(orders, {}, v) == 0
  {
    if orders != [] {
      TotalEmpty(orders[..|orders| - 1], v);
    }
  }

  /** A total is zero exactly when no counted order asks for the variant. */
  lemma {:induction false} TotalZero(orders: seq<Order>, ids: set<OrderId>, v: VariantId)
    ensures Total(orders, ids, v) == 0
      <==> forall o: nat :: o < |orders| && o in ids ==> Quantity(orders[o].items, v) == 0
  {
    if orders != [] {
      var last := |orders| - 1;
      TotalZero(orders[..last], ids, v);
      if Total(orders, ids, v) == 0 {
        forall o: nat | o < |orders| && o in ids ensures Quantity(orders[o].items, v) == 0 {
          assert o < last ==> orders[..last][o] == orders[o];
        }
      } else {
        if Total(orders[..last], ids, v) != 0 {
          var o: nat :| o < |orders[..last]| && o in ids && Quantity(orders[..last][o].items, v) != 0;
          assert orders[o] == orders[..last][o];
        }
      }
    }
  }

  // Reserving stock, one guarded decrement after another.

  /** The stock after taking every item in turn, or None when one of them is short. */
  function Reserve(stock: map<VariantId, int>, items: seq<Item>): (r: Result<map<VariantId, int>, Error>)
  {
    if items == [] then Ok(stock)
    else
      var item := items[0];
      if item.variant in stock && stock[item.variant] >= item.quantity
      then Reserve(stock[item.variant := stock[item.variant] - item.quantity], items[1..])
      else Err(OutOfStock)
  }

  datatype Error = OutOfStock | NotFound | Forbidden | BadRequest | ConstraintViolation

  /** What the whole list asks for fits the shelf, with the rows of one variant added up. */
  ghost predicate Fits(stock: map<VariantId, int>, items: seq<Item>) {
    forall i :: 0 <= i < |items| ==>
      items[i].variant in stock && Quantity(items, items[i].variant) <= stock[items[i].variant]
  }

  /** reduceStock is exact: it succeeds iff every variant's total is in stock, and then takes exactly
      that total from every variant. */
  lemma {:induction false} ReserveIsExact(stock: map<VariantId, int>, items: seq<Item>)
    ensures Reserve(stock, items).Ok? <==> Fits(stock, items)
    ensures Reserve(stock, items).Ok? ==>
              && Reserve(stock, items).value.Keys == stock.Keys
              && forall v :: v in stock ==> Reserve(stock, items).value[v] == stock[v] - Quantity(items, v)
  {
    if items != [] {
      var item, rest := items[0], items[1..];
      assert forall i :: 0 <= i < |rest| ==> rest[i] == items[i + 1];
      if item.variant in stock && stock[item.variant] >= item.quantity {
        var taken := stock[item.variant := stock[item.variant] - item.quantity];
        ReserveIsExact(taken, rest);
        if Fits(taken, rest) {
          if !Orders(rest, item.variant) {
            QuantityZero(rest, item.variant);
          } else {
            var k :| 0 <= k < |rest| && rest[k].variant == item.variant;
            assert Quantity(rest, rest[k].variant) <= taken[rest[k].variant];
          }
          assert Fits(stock, items);
        } else {
          var k :| 0 <= k < |rest|
            && !(rest[k].variant in taken && Quantity(rest, rest[k].variant) <= taken[rest[k].variant]);
          assert items[k + 1] == rest[k];
          assert !Fits(stock, items);
        }
      } else {
        QuantityAtLeast(items, 0, item.variant);
        assert !(items[0].variant in stock && Quantity(items, items[0].variant) <= stock[items[0].variant]);
      }
    }
  }

  // Releasing stock, one grouped statement for a batch of orders.

  /** The rows the grouped update writes: variants with an item in the batch. */
  function ReleaseWrites(stock: map<VariantId, int>, orders: seq<Order>, batch: set<OrderId>): map<VariantId, int> {
    map v | v in stock && AskedFor(orders, batch, v) :: stock[v] + Total(orders, batch, v)
  }

  predicate AskedFor(orders: seq<Order>, batch: set<OrderId>, v: VariantId) {
    exists o, k :: 0 <= o < |orders| && o in batch && 0 <= k < |orders[o].items| && orders[o].items[k].variant == v
  }

  function Release(stock: map<VariantId, int>, orders: seq<Order>, batch: set<OrderId>): map<VariantId, int> {
    stock + ReleaseWrites(stock, orders, batch)
  }

  lemma ReleaseAddsTotals(stock: map<VariantId, int>, orders: seq<Order>, batch: set<OrderId>)
    ensures Release(stock, orders, batch).Keys == stock.Keys
    ensures forall v :: v in stock ==> Release(stock, orders, batch)[v] == stock[v] + Total(orders, batch, v)
  {
    forall v | v in stock ensures Release(stock, orders, batch)[v] == stock[v] + Total(orders, batch, v) {
      if !AskedFor(orders, batch, v) {
        TotalZero(orders, batch, v);
        forall o: nat | o < |orders| && o in batch ensures Quantity(orders[o].items, v) == 0 {
          assert !Orders(orders[o].items, v);
          QuantityZero(orders[o].items, v);
        }
      }
    }
  }

  /** Putting items back one at a time. */
  function PutBack(stock: map<VariantId, int>, items: seq<Item>): map<VariantId, int> {
    if items == [] then stock
    else
      var item := items[0];
      var s := if item.variant in stock then stock[item.variant := stock[item.variant] + item.quantity] else stock;
      PutBack(s, items[1..])
  }

  lemma {:induction false} PutBackAdds(stock: map<VariantId, int>, items: seq<Item>)
    ensures PutBack(stock, items).Keys == stock.Keys
    ensures forall v :: v in stock ==> PutBack(stock, items)[v] == stock[v] + Quantity(items, v)
  {
    if items != [] {
      var item := items[0];
      var s := if item.variant in stock then stock[item.variant := stock[item.variant] + item.quantity] else stock;
      PutBackAdds(s, items[1..]);
    }
  }

  /** The items of the orders in a batch, order by order. */
  function BatchItems(orders: seq<Order>, batch: set<OrderId>): seq<Item> {
    if orders == [] then []
    else
      var last := |orders| - 1;
      BatchItems(orders[..last], batch) + if last in batch then orders[last].items else []
  }

  lemma {:induction false} BatchQuantity(orders: seq<Order>, batch: set<OrderId>, v: VariantId)
    ensures Quantity(BatchItems(orders, batch), v) == Total(orders, batch, v)
  {
    if orders != [] {
      var last := |orders| - 1;
      BatchQuantity(orders[..last], batch, v);
      QuantityAppend(BatchItems(orders[..last], batch), if last in batch then orders[last].items else [], v);
    }
  }

  /** The worker's grouped SUM update does what a loop over the single items would do. */
  lemma GroupedReleaseIsPerItemLoop(stock: map<VariantId, int>, orders: seq<Order>, batch: set<OrderId>)
    ensures Release(stock, orders, batch) == PutBack(stock, BatchItems(orders, batch))
  {
    ReleaseAddsTotals(stock, orders, batch);
    PutBackAdds(stock, BatchItems(orders, batch));
    forall v | v in stock ensures Release(stock, orders, batch)[v] == PutBack(stock, BatchItems(orders, batch))[v] {
      BatchQuantity(orders, batch, v);
    }
  }

  /** Expiry undoes placement: reserving an order's items and later releasing that order alone
      restores the stock, whatever the other orders are. */
  lemma ExpiryUndoesReserve(stock: map<VariantId, int>, orders: seq<Order>, o: OrderId)
    requires o < |orders|
    requires Reserve(stock, orders[o].items).Ok?
    ensures Release(Reserve(stock, orders[o].items).value, orders, {o}) == stock
  {
    var reserved := Reserve(stock, orders[o].items).value;
    ReserveIsExact(stock, orders[o].items);
    ReleaseAddsTotals(reserved, orders, {o});
    forall v | v in stock ensures Release(reserved, orders, {o})[v] == stock[v] {
      TotalSingle(orders, o, v);
    }
  }

  // Counting sold pieces with an ungrouped UPDATE .. FROM.

  /** UPDATE product_variants SET sold = sold + oi.quantity FROM order_items oi: when several items
      match one variant, the database uses one of them, whichever it likes. */
  ghost predicate SoldUpdated(sold: map<VariantId, int>, items: seq<Item>, after: map<VariantId, int>) {
    && after.Keys == sold.Keys
    && forall v :: v in sold ==>
         if Orders(items, v)
         then exists k :: 0 <= k < |items| && items[k].variant == v && after[v] == sold[v] + items[k].quantity
         else after[v] == sold[v]
  }

  function SoldPlusTotals(sold: map<VariantId, int>, items: seq<Item>): map<VariantId, int> {
    map v | v in sold :: sold[v] + Quantity(items, v)
  }

  lemma UngroupedUpdateAddsTotals(sold: map<VariantId, int>, items: seq<Item>, after: map<VariantId, int>)
    requires OneRowPerVariant(items)
    requires SoldUpdated(sold, items, after)
    ensures after == SoldPlusTotals(sold, items)
  {
    forall v | v in sold ensures after[v] == sold[v] + Quantity(items, v) {
      if Orders(items, v) {
        var k :| 0 <= k < |items| && items[k].variant == v && after[v] == sold[v] + items[k].quantity;
        QuantityOfOnlyRow(items, k);
      } else {
        QuantityZero(items, v);
      }
    }
  }

  lemma {:induction false} TwoRowsExceedOne(items: seq<Item>, i: nat, j: nat, k: nat)
    requires i < j < |items| && k < |items|
    requires items[i].variant == items[j].variant == items[k].variant
    requires forall n :: 0 <= n < |items| ==> items[n].quantity > 0
    ensures Quantity(items, items[k].variant) > items[k].quantity
  {
    var v := items[k].variant;
    var rest := items[1..];
    if k == 0 {
      assert rest[j - 1] == items[j];
      QuantityAtLeast(rest, j - 1, v);
    } else if i == 0 || items[0].variant == v {
      assert rest[k - 1] == items[k];
      QuantityAtLeast(rest, k - 1, v);
    } else {
      assert forall n :: 0 <= n < |rest| ==> rest[n] == items[n + 1];
      TwoRowsExceedOne(rest, i - 1, j - 1, k - 1);
    }
  }

  /** The ungrouped statement adds the right totals for certain exactly when the order has at most one
      row per variant; a second row for a variant is always lost. */
  lemma UngroupedUpdateIsRightIff(sold: map<VariantId, int>, items: seq<Item>)
    requires forall n :: 0 <= n < |items| ==> items[n].quantity > 0 && items[n].variant in sold
    ensures OneRowPerVariant(items) <==>
            forall after :: SoldUpdated(sold, items, after) ==> after == SoldPlusTotals(sold, items)
  {
    if OneRowPerVariant(items) {
      forall after | SoldUpdated(sold, items, after) ensures after == SoldPlusTotals(sold, items) {
        UngroupedUpdateAddsTotals(sold, items, after);
      }
    } else {
      var i, j :| 0 <= i < j < |items| && items[i].variant == items[j].variant;
      var after := map v | v in sold :: sold[v] + OneRow(items, v);
      forall v | v in sold && Orders(items, v)
        ensures exists k :: 0 <= k < |items| && items[k].variant == v && after[v] == sold[v] + items[k].quantity
      {
        var k := OneRowExists(items, v);
      }
      forall v | v in sold && !Orders(items, v) ensures after[v] == sold[v] {
        NoRowIsZero(items, v);
      }
      assert SoldUpdated(sold, items, after);
      var k := OneRowExists(items, items[i].variant);
      TwoRowsExceedOne(items, i, j, k);
      assert after != SoldPlusTotals(sold, items);
    }
  }

  /** The quantity of the first row for v, or 0. */
  function OneRow(items: seq<Item>, v: VariantId): nat {
    if items == [] then 0 else if items[0].variant == v then items[0].quantity else OneRow(items[1..], v)
  }

  lemma {:induction false} OneRowExists(items: seq<Item>, v: VariantId) returns (k: nat)
    requires Orders(items, v)
    ensures k < |items| && items[k].variant == v && items[k].quantity == OneRow(items, v)
  {
    if items[0].variant == v {
      k := 0;
    } else {
      var n :| 0 <= n < |items| && items[n].variant == v;
      assert items[1..][n - 1].variant == v;
      var m := OneRowExists(items[1..], v);
      k := m + 1;
    }
  }

  lemma {:induction false} NoRowIsZero(items: seq<Item>, v: VariantId)
    requires !Orders(items, v)
    ensures OneRow(items, v) == 0
  {
    if items != [] {
      assert items[0].variant != v;
      assert forall i :: 0 <= i < |items[1..]| ==> items[1..][i] == items[i + 1];
      NoRowIsZero(items[1..], v);
    }
  }
}
