/** Payment notifications of the payment gateway: what they say and how the stored payment ranks them. */
module Payments {
  import opened Wrappers
  import opened OrderRows

  type TransactionId = string

  /** Unknown is any text outside the gateway's list; the table's CHECK constraint does not store it. */
  datatype TransactionStatus =
    | Awaiting  // "pending"
    | Authorize
    | Capture
    | Settlement
    | Expire
    | Cancel
    | Deny
    | Failure
    | Refund
    | PartialRefund
    | Unknown(text: string)

  datatype Payload = Payload(transaction: TransactionId, order: OrderId, status: TransactionStatus,
      fraud: Option<string>)

  datatype Payment = Payment(order: OrderId, status: TransactionStatus, fraud: Option<string>)

  /** PAYMENT_STATUS_RANK, with 0 for a text that is not in the table. */
  function Rank(status: TransactionStatus): nat {
    match status
    case Awaiting => 1
    case Authorize => 2
    case Capture => 3
    case Settlement => 4
    case Expire => 5
    case Cancel => 5
    case Deny => 5
    case Failure => 5
    case Refund => 6
    case PartialRefund => 6
    case Unknown(_) => 0
  }

  predicate IsPaidEvent(p: Payload) {
    p.status == Settlement || (p.status == Capture && p.fraud == Some("accept"))
  }

  ghost predicate Stored(payments: map<TransactionId, Payment>) {
    forall t :: t in payments ==> !payments[t].status.Unknown?
  }

  /** Insert, advance or leave the payment row of the payload's transaction. */
  function Record(payments: map<TransactionId, Payment>, p: Payload): Result<map<TransactionId, Payment>, Error> {
    if p.transaction !in payments then
      if p.status.Unknown? then Err(ConstraintViolation)
      else Ok(payments[p.transaction := Payment(p.order, p.status, p.fraud)])
    else
      var existing := payments[p.transaction];
      if existing.status == p.status || Rank(p.status) < Rank(existing.status) then Ok(payments)
      else if p.status.Unknown? then Err(ConstraintViolation)
      else Ok(payments[p.transaction := existing.(status := p.status, fraud := p.fraud)])
  }

  /** The order's payment status after a notification, from the status and payment the handler read. */
  function NextPayment(status: OrderStatus, payment: PaymentStatus, p: Payload): PaymentStatus {
    if IsPaidEvent(p) then Paid
    else if payment == Paid then Paid
    else if status == Cancelled || status == Completed then payment
    else if p.status == Expire then Expired
    else if p.status == Cancel || p.status == Deny || p.status == Failure then Failed
    else payment
  }

  /** The rank stored for a transaction, 0 when there is no row. */
  function StoredRank(payments: map<TransactionId, Payment>, t: TransactionId): nat {
    if t in payments then Rank(payments[t].status) else 0
  }

  function Max(a: nat, b: nat): nat { if a < b then b else a }

  lemma RecordKeepsMaximum(payments: map<TransactionId, Payment>, p: Payload)
    requires Stored(payments)
    ensures Record(payments, p).Ok? ==> Stored(Record(payments, p).value)
    ensures var after := if Record(payments, p).Ok? then Record(payments, p).value else payments;
            forall t :: StoredRank(after, t) == if t == p.transaction then Max(StoredRank(payments, t), Rank(p.status))
              else StoredRank(payments, t)
  {
  }
}
