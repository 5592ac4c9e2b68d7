/** Notifications arrive late, twice and in any order; what they leave behind does not depend on it. */
module WebhookConfluence {
  import opened Wrappers
  import opened OrderRows
  import opened Payments
  import opened OrderTransactions

  /** One delivery: a transaction that fails leaves no trace. */
  function Deliver(db: Db, p: Payload): Db {
    match Notify(db, p)
    case Ok(after) => after
    case Err(_) => db
  }

  function DeliverAll(db: Db, ps: seq<Payload>): Db
    decreases |ps|
  {
    if ps == [] then db else DeliverAll(Deliver(db, ps[0]), ps[1..])
  }

  ghost predicate AllFor(ps: seq<Payload>, o: OrderId) {
    forall i :: 0 <= i < |ps| ==> ps[i].order == o
  }

  ghost predicate SomePaidEvent(ps: seq<Payload>) {
    exists i :: 0 <= i < |ps| && IsPaidEvent(ps[i])
  }

  /** The highest rank delivered for a transaction, starting from the one already stored. */
  function HighestRank(stored: nat, ps: seq<Payload>, t: TransactionId): nat
    decreases |ps|
  {
    if ps == [] then stored
    else HighestRank(if ps[0].transaction == t then Max(stored, Rank(ps[0].status)) else stored, ps[1..], t)
  }

  lemma {:induction false} HighestRankIsMaximum(stored: nat, ps: seq<Payload>, t: TransactionId)
    ensures var m := HighestRank(stored, ps, t);
      && stored <= m
      && (forall i :: 0 <= i < |ps| && ps[i].transaction == t ==> Rank(ps[i].status) <= m)
      && (m == stored || exists i :: 0 <= i < |ps| && ps[i].transaction == t && Rank(ps[i].status) == m)
    decreases |ps|
  {
    if ps != [] {
      var first := if ps[0].transaction == t then Max(stored, Rank(ps[0].status)) else stored;
      var rest := ps[1..];
      HighestRankIsMaximum(first, rest, t);
      var m := HighestRank(stored, ps, t);
      forall i | 0 <= i < |ps| && ps[i].transaction == t ensures Rank(ps[i].status) <= m {
        if i > 0 {
          assert rest[i - 1] == ps[i];
        }
      }
      if m != first {
        var i :| 0 <= i < |rest| && rest[i].transaction == t && Rank(rest[i].status) == m;
        assert ps[i + 1] == rest[i];
      } else if m != stored {
        assert ps[0].transaction == t && Rank(ps[0].status) == m;
      }
    }
  }

  lemma DeliverOnce(db: Db, p: Payload)
    requires Stored(db.payments) && p.order < |db.orders|
    ensures var after := Deliver(db, p);
      && Stored(after.payments) && |after.orders| == |db.orders| && after.stock == db.stock
      && (forall i :: 0 <= i < |db.orders| && i != p.order ==> after.orders[i] == db.orders[i])
      && after.orders[p.order] == db.orders[p.order].(payment := after.orders[p.order].payment)
      && (after.orders[p.order].payment == Paid <==> db.orders[p.order].payment == Paid || IsPaidEvent(p))
      && after.sold == (if IsPaidEvent(p) && db.orders[p.order].payment != Paid
                        then SoldPlusTotals(db.sold, db.orders[p.order].items) else db.sold)
      && (forall t :: StoredRank(after.payments, t) == if t == p.transaction
        then Max(StoredRank(db.payments, t), Rank(p.status)) else StoredRank(db.payments, t))
  {
    RecordKeepsMaximum(db.payments, p);
  }

  /** What any finite list of notifications for one order leaves behind. */
  lemma {:induction false} DeliverAllOutcome(db: Db, ps: seq<Payload>, o: OrderId)
    requires Stored(db.payments) && o < |db.orders| && AllFor(ps, o)
    ensures var after := DeliverAll(db, ps);
      && |after.orders| == |db.orders| && after.stock == db.stock
      && (forall i :: 0 <= i < |db.orders| && i != o ==> after.orders[i] == db.orders[i])
      && after.orders[o] == db.orders[o].(payment := after.orders[o].payment)
      && (after.orders[o].payment == Paid <==> db.orders[o].payment == Paid || SomePaidEvent(ps))
      && after.sold == (if SomePaidEvent(ps) && db.orders[o].payment != Paid
                        then SoldPlusTotals(db.sold, db.orders[o].items) else db.sold)
      && (forall t :: StoredRank(after.payments, t) == HighestRank(StoredRank(db.payments, t), ps, t))
    decreases |ps|
  {
    if ps != [] {
      var rest := ps[1..];
      assert forall i :: 0 <= i < |rest| ==> rest[i] == ps[i + 1];
      DeliverOnce(db, ps[0]);
      DeliverAllOutcome(Deliver(db, ps[0]), rest, o);
      assert SomePaidEvent(ps) <==> IsPaidEvent(ps[0]) || SomePaidEvent(rest) by {
        if SomePaidEvent(rest) {
          var i :| 0 <= i < |rest| && IsPaidEvent(rest[i]);
          assert IsPaidEvent(ps[i + 1]);
        }
      }
    }
  }

  lemma SameRanks(stored: nat, a: seq<Payload>, b: seq<Payload>, t: TransactionId)
    requires forall p :: p in a ==> p in b
    ensures HighestRank(stored, a, t) <= HighestRank(stored, b, t)
  {
    HighestRankIsMaximum(stored, a, t);
    HighestRankIsMaximum(stored, b, t);
    var m := HighestRank(stored, a, t);
    if m != stored {
      var i :| 0 <= i < |a| && a[i].transaction == t && Rank(a[i].status) == m;
      assert a[i] in b;
    }
  }

  lemma PaidEventCarriesOver(a: seq<Payload>, b: seq<Payload>)
    requires forall p :: p in a ==> p in b
    ensures SomePaidEvent(a) ==> SomePaidEvent(b)
  {
    if SomePaidEvent(a) {
      var i :| 0 <= i < |a| && IsPaidEvent(a[i]);
      assert a[i] in b;
    }
  }

  /** Confluence: two lists of notifications for one order with the same members, in whatever order
      and with whatever repetitions, agree on PAID or not, on every sold counter, on the rest of the
      orders and on the rank stored for every transaction. */
  lemma WebhooksConfluent(db: Db, a: seq<Payload>, b: seq<Payload>, o: OrderId)
    requires Stored(db.payments) && o < |db.orders| && AllFor(a, o)
    requires forall p :: p in a <==> p in b
    ensures var da, db' := DeliverAll(db, a), DeliverAll(db, b);
      && |da.orders| == |db'.orders| == |db.orders|
      && (da.orders[o].payment == Paid <==> db'.orders[o].payment == Paid)
      && da.sold == db'.sold && da.stock == db'.stock
      && (forall i :: 0 <= i < |db.orders| && i != o ==> da.orders[i] == db'.orders[i])
      && (forall t :: StoredRank(da.payments, t) == StoredRank(db'.payments, t))
  {
    forall i | 0 <= i < |b| ensures b[i].order == o {
      assert b[i] in a;
    }
    DeliverAllOutcome(db, a, o);
    DeliverAllOutcome(db, b, o);
    PaidEventCarriesOver(a, b);
    PaidEventCarriesOver(b, a);
    forall t ensures HighestRank(StoredRank(db.payments, t), a, t) == HighestRank(StoredRank(db.payments, t), b, t) {
      SameRanks(StoredRank(db.payments, t), a, b, t);
      SameRanks(StoredRank(db.payments, t), b, a, t);
    }
  }

  /** Confluence stops there: with two final notifications of one rank, the stored text and the unpaid
      order's payment status are those of the one that came last. */
  lemma TiesDependOnArrival(db: Db, t: TransactionId)
    requires |db.orders| > 0 && t !in db.payments
    requires db.orders[0].payment == Unpaid && db.orders[0].status == Pending
    ensures var expire, deny := Payload(t, 0, TransactionStatus.Expire, None), Payload(t, 0, Deny, None);
      var ed, de := DeliverAll(db, [expire, deny]), DeliverAll(db, [deny, expire]);
      && |ed.orders| == |de.orders| == |db.orders|
      && ed.orders[0].payment == Failed && de.orders[0].payment == PaymentStatus.Expired
      && t in ed.payments && t in de.payments && ed.payments[t].status == Deny
        && de.payments[t].status == TransactionStatus.Expire
  {
    DeliverTwo(db, Payload(t, 0, TransactionStatus.Expire, None), Payload(t, 0, Deny, None));
    DeliverTwo(db, Payload(t, 0, Deny, None), Payload(t, 0, TransactionStatus.Expire, None));
  }

  lemma DeliverTwo(db: Db, p: Payload, q: Payload)
    ensures DeliverAll(db, [p, q]) == Deliver(Deliver(db, p), q)
  {
    assert [p, q][1..] == [q] && [q][1..] == [];
    assert DeliverAll(Deliver(Deliver(db, p), q), []) == Deliver(Deliver(db, p), q);
    assert DeliverAll(Deliver(db, p), [q]) == DeliverAll(Deliver(Deliver(db, p), q), []);
  }
}
