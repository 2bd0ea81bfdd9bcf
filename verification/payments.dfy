/** PaymentRepository of backend/repository/payment.py over the `payment`
    table. */
module PaymentRepository {
  import opened Wrappers
  import opened Seqs
  import opened Store

  /** Whether a payment row with that transaction id exists. */
  predicate HasTransaction(db: Db, transactionId: string) {
    exists p :: p in db.payments && p.transactionId == transactionId
  }

  /** `create`: INSERT ... ON CONFLICT (transaction_id) DO NOTHING
      RETURNING *. An unused transaction id gets one new row with the given
      fields and a fresh id, which is returned; a used one inserts nothing
      and returns None. Existing rows are never modified. */
  function Create(db: Db, userId: int, accountId: int, amount: int, transactionId: string): (r: Step<Option<Payment>>)
    ensures r.out.None? <==> HasTransaction(db, transactionId)
    ensures r.out.None? ==> r.db == db
    ensures r.out.Some? ==>
      && r.out.value.userId == userId && r.out.value.accountId == accountId
      && r.out.value.amount == amount && r.out.value.transactionId == transactionId
      && r.db.payments == db.payments + [r.out.value]
      && (PaymentsValid(db.payments, db.nextPaymentId) ==> forall p :: p in db.payments ==> p.id != r.out.value.id)
    ensures r.db == db.(payments := r.db.payments, nextPaymentId := r.db.nextPaymentId)
    ensures PaymentsValid(db.payments, db.nextPaymentId) ==> PaymentsValid(r.db.payments, r.db.nextPaymentId)
    ensures HasTransaction(r.db, transactionId)
  {
    if HasTransaction(db, transactionId) then Step(None, db)
    else
      var p := Payment(db.nextPaymentId, userId, accountId, amount, transactionId);
      Step(Some(p), db.(payments := db.payments + [p], nextPaymentId := db.nextPaymentId + 1))
  }

  /** `get_by_user_id`: exactly the payment rows of the user, in table
      order, each as many times as it is stored. */
  function GetByUserId(db: Db, userId: int): (r: seq<Payment>)
    ensures forall p :: p in r <==> p in db.payments && p.userId == userId
    ensures forall p :: multiset(r)[p] == if p.userId == userId then multiset(db.payments)[p] else 0
  {
    Filter(db.payments, (p: Payment) => p.userId == userId)
  }

  /** A second insert with the same transaction id is a no-op. */
  lemma CreateIdempotent(db: Db, userId: int, accountId: int, amount: int, transactionId: string,
                         userId': int, accountId': int, amount': int)
    ensures
      var first := Create(db, userId, accountId, amount, transactionId);
      Create(first.db, userId', accountId', amount', transactionId) == Step(None, first.db)
  {
  }
}
