/** Exactly when two properties one might expect of orders hold: that a cancelled order is not PAID, and
    that the stock of an order that is not paid in time comes back. */
module OrderHistories {
  import opened Wrappers
  import opened OrderRows
  import opened Payments
  import opened OrderTransactions
  import opened OrderProtocol
  import opened OrderTheorems
  import OrderStore

  // Cancelled and PAID.

  ghost predicate CancelledAndPaid(s: System, o: OrderId) {
    o < |s.db.orders| && s.db.orders[o].status == Cancelled && s.db.orders[o].payment == Paid
  }

  /** The step commits a paying notification of an order that is cancelled at that moment. */
  ghost predicate PaysCancelled(s: System, step: Step, o: OrderId)
    requires Enabled(s, step)
  {
    && step.CommitNotify? && s.open[step.tx].payload.order == o && IsPaidEvent(s.open[step.tx].payload)
    && o < |s.db.orders| && s.db.orders[o].status == Cancelled
  }

  ghost predicate PaidLate(s: System, steps: seq<Step>, o: OrderId)
    decreases |steps|
  {
    && steps != [] && Enabled(s, steps[0])
    && (PaysCancelled(s, steps[0], o) || PaidLate(Apply(s, steps[0]), steps[1..], o))
  }

  lemma StepPaysCancelled(s0: System, s: System, step: Step, o: OrderId)
    requires Invariant(s0, s) && Enabled(s, step)
    ensures CancelledAndPaid(Apply(s, step), o) <==> CancelledAndPaid(s, o) || PaysCancelled(s, step, o)
  {
    if step.CommitExpiry? || step.CommitNotify? || step.CommitCancel? || step.CommitShip? || step.CommitDeliver? {
      assert TxnOk(s.db, s.open[step.tx]);
    }
  }

  /** Over any run an order ends cancelled and PAID exactly when it was so before, or a paying
      notification of it was committed while it was cancelled. */
  lemma {:induction false} CancelledAndPaidIff(s0: System, s: System, steps: seq<Step>, last: System, o: OrderId)
    requires Invariant(s0, s) && Run(s, steps, last)
    ensures CancelledAndPaid(last, o) <==> CancelledAndPaid(s, o) || PaidLate(s, steps, o)
    decreases |steps|
  {
    if steps != [] {
      StepKeepsInvariant(s0, s, steps[0]);
      StepPaysCancelled(s0, s, steps[0], o);
      CancelledAndPaidIff(s0, Apply(s, steps[0]), steps[1..], last, o);
    }
  }

  /** In a reachable state a cancelled order is not PAID exactly when no paying notification of it was
      committed while it was cancelled. */
  lemma CancelledExcludesPaidIff(s0: System, steps: seq<Step>, s: System, o: OrderId)
    requires Initial(s0) && Run(s0, steps, s) && o < |s.db.orders| && s.db.orders[o].status == Cancelled
    ensures s.db.orders[o].payment != Paid <==> !PaidLate(s0, steps, o)
  {
    InitialHasInvariant(s0);
    CancelledAndPaidIff(s0, s0, steps, s, o);
  }

  // Stock that never comes back.

  /** What the expiry worker looks for, whatever the time. */
  predicate AwaitsPayment(order: Order) {
    order.status == Pending && order.payment == Unpaid
  }

  /** The order's stock has not been given back, and the worker's select will not take it. */
  ghost predicate Stuck(s: System, o: OrderId) {
    o < |s.db.orders| && o !in s.released && !AwaitsPayment(s.db.orders[o])
  }

  lemma StepKeepsStuck(s0: System, s: System, step: Step, o: OrderId)
    requires Invariant(s0, s) && Enabled(s, step) && Stuck(s, o)
    ensures Stuck(Apply(s, step), o)
    ensures s.db.orders[o].status != Cancelled && s.db.orders[o].payment != Unpaid ==>
      Apply(s, step).db.orders[o].status != Cancelled && Apply(s, step).db.orders[o].payment != Unpaid
    ensures step.CommitExpiry? ==> o !in s.open[step.tx].batch
  {
    if step.CommitExpiry? || step.CommitNotify? || step.CommitCancel? || step.CommitShip? || step.CommitDeliver? {
      assert TxnOk(s.db, s.open[step.tx]);
    }
  }

  /** Once an order no longer awaits payment and its stock is not back, no continuation gives it back. */
  lemma {:induction false} StuckForEver(s0: System, s: System, steps: seq<Step>, last: System, o: OrderId)
    requires Invariant(s0, s) && Run(s, steps, last) && Stuck(s, o)
    ensures Stuck(last, o) && Releases(s, steps, o) == 0
    ensures s.db.orders[o].status != Cancelled && s.db.orders[o].payment != Unpaid ==>
      last.db.orders[o].status != Cancelled && last.db.orders[o].payment != Unpaid
    decreases |steps|
  {
    if steps != [] {
      StepKeepsInvariant(s0, s, steps[0]);
      StepKeepsStuck(s0, s, steps[0], o);
      StuckForEver(s0, Apply(s, steps[0]), steps[1..], last, o);
    }
  }

  /** An order that is not cancelled and whose payment is settled one way or the other holds its stock
      through every continuation: it is never cancelled, never released and never UNPAID again. */
  lemma SettledPaymentHoldsStock(s0: System, s: System, steps: seq<Step>, last: System, o: OrderId)
    requires Invariant(s0, s) && Run(s, steps, last)
    requires o < |s.db.orders| && s.db.orders[o].status != Cancelled && s.db.orders[o].payment != Unpaid
    ensures o < |last.db.orders| && last.db.orders[o].status != Cancelled && last.db.orders[o].payment != Unpaid
    ensures o !in last.released && Releases(s, steps, o) == 0
  {
    StuckForEver(s0, s, steps, last, o);
  }

  /** An expire notification brings any unlocked order that awaits payment there: it stays PENDING, is
      marked EXPIRED, and its stock is not given back then or ever after. */
  lemma ExpireNotificationHoldsStock(s0: System, s: System, tx: Tx, p: Payload)
      returns (steps: seq<Step>, expired: System)
    requires Invariant(s0, s) && tx !in s.open && p.order < |s.db.orders| && OrdersFree(s, tx, {p.order})
    requires AwaitsPayment(s.db.orders[p.order]) && p.status == TransactionStatus.Expire
    ensures Run(s, steps, expired) && expired.db.stock == s.db.stock && |expired.db.orders| == |s.db.orders|
    ensures expired.db.orders[p.order] == s.db.orders[p.order].(payment := PaymentStatus.Expired)
    ensures forall more, last :: Run(expired, more, last) ==>
      p.order < |last.db.orders| && last.db.orders[p.order].status != Cancelled && p.order !in last.released
  {
    assert Stored(s.db.payments);
    expired := NotificationRuns(s, tx, p, s.db.sold);
    steps := [BeginNotify(tx, p), CommitNotify(tx, s.db.sold)];
    RunKeepsInvariant(s0, s, steps, expired);
    forall more, last | Run(expired, more, last)
      ensures p.order < |last.db.orders| && last.db.orders[p.order].status != Cancelled && p.order !in last.released
    {
      SettledPaymentHoldsStock(s0, expired, more, last, p.order);
    }
  }

  // Exactly which orders' stock can come back.

  lemma {:induction false} RunConcat(a: System, xs: seq<Step>, b: System, ys: seq<Step>, c: System)
    requires Run(a, xs, b) && Run(b, ys, c)
    ensures Run(a, xs + ys, c)
    decreases |xs|
  {
    if xs == [] {
      assert xs + ys == ys;
    } else {
      RunConcat(Apply(a, xs[0]), xs[1..], b, ys, c);
      assert (xs + ys)[1..] == xs[1..] + ys;
    }
  }

  lemma {:induction false} AbortAll(s: System) returns (steps: seq<Step>, last: System)
    ensures Run(s, steps, last) && last == s.(open := map[])
    decreases |s.open.Keys|
  {
    if s.open == map[] {
      steps, last := [], s;
    } else {
      var tx :| tx in s.open.Keys;
      var rest;
      assert (s.open - {tx}).Keys == s.open.Keys - {tx};
      rest, last := AbortAll(Apply(s, Abort(tx)));
      OneStepRun(s, Abort(tx), rest, last);
      steps := [Abort(tx)] + rest;
    }
  }

  function DueOrders(orders: seq<Order>, now: int): set<OrderId> {
    set o: nat | o < |orders| && Expirable(orders[o], now)
  }

  /** One round of a worker that nothing comes between. */
  lemma ExpiryRound(s: System, now: int) returns (steps: seq<Step>, last: System, batch: set<OrderId>)
    requires s.open == map[]
    ensures ExpiryBatch(s.db.orders, {}, now, batch)
    ensures Run(s, steps, last) && last.open == map[] && last.released == s.released + batch
    ensures last.db.orders == CancelBatch(s.db.orders, batch)
  {
    OrderStore.ExpiryRowsAreTheBatch(s.db.orders, {}, now);
    batch := OrderStore.RowSet(OrderStore.ExpiryRows(s.db.orders, {}, now));
    assert LockedOrders(s) == {};
    var begin, release, commit := BeginExpiry(0, now, batch), ReleaseStock(0), CommitExpiry(0);
    var s1 := Apply(s, begin);
    var s2 := Apply(s1, release);
    last := Apply(s2, commit);
    OneStepRun(s2, commit, [], last);
    OneStepRun(s1, release, [commit] + [], last);
    OneStepRun(s, begin, [release] + ([commit] + []), last);
    steps := [begin] + ([release] + ([commit] + []));
    assert last.open == map[];
  }

  lemma DueShrinks(orders: seq<Order>, now: int, batch: set<OrderId>)
    requires batch != {} && batch <= DueOrders(orders, now)
    ensures DueOrders(CancelBatch(orders, batch), now) == DueOrders(orders, now) - batch
    ensures |DueOrders(CancelBatch(orders, batch), now)| < |DueOrders(orders, now)|
  {
    var after := DueOrders(CancelBatch(orders, batch), now);
    forall o: nat ensures o in after <==> o in DueOrders(orders, now) && o !in batch {
    }
    assert after == DueOrders(orders, now) - batch;
    assert DueOrders(orders, now) == after + batch;
  }

  /** Round after round every due order is expired. */
  lemma {:induction false} WorkerReleases(s: System, now: int, o: OrderId) returns (steps: seq<Step>, last: System)
    requires s.open == map[] && o < |s.db.orders| && Expirable(s.db.orders[o], now)
    ensures Run(s, steps, last) && o in last.released
    decreases |DueOrders(s.db.orders, now)|
  {
    var batch;
    steps, last, batch := ExpiryRound(s, now);
    if o !in batch {
      assert batch != {};
      DueShrinks(s.db.orders, now, batch);
      var more, end := WorkerReleases(last, now, o);
      RunConcat(s, steps, last, more, end);
      steps, last := steps + more, end;
    }
  }

  ghost predicate CanComeBack(s: System, o: OrderId) {
    exists steps, last :: Run(s, steps, last) && o in last.released
  }

  lemma AwaitingCanComeBack(s: System, o: OrderId)
    requires o < |s.db.orders| && AwaitsPayment(s.db.orders[o])
    ensures CanComeBack(s, o)
  {
    var aborts, quiet := AbortAll(s);
    var rounds, last := WorkerReleases(quiet, s.db.orders[o].expiresAt + 1, o);
    RunConcat(s, aborts, quiet, rounds, last);
    assert Run(s, aborts + rounds, last);
  }

  /** In some continuation the stock of an order is back exactly when it is back already or the order is
      still PENDING and UNPAID. */
  lemma StockCanComeBackIff(s0: System, s: System, o: OrderId)
    requires Invariant(s0, s) && o < |s.db.orders|
    ensures CanComeBack(s, o) <==> o in s.released || AwaitsPayment(s.db.orders[o])
  {
    if o in s.released {
      assert Run(s, [], s);
    } else if AwaitsPayment(s.db.orders[o]) {
      AwaitingCanComeBack(s, o);
    } else {
      forall steps, last | Run(s, steps, last) ensures o !in last.released {
        StuckForEver(s0, s, steps, last, o);
      }
    }
  }
}
