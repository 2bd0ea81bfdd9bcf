/** The payment endpoints of backend/view/payment/view.py: the webhook that
    ingests a payment, and the caller's payment list. */
module PaymentView {
  import opened Wrappers
  import opened Crypto
  import opened Store
  import opened Helper
  import UserRepository
  import AccountRepository
  import PaymentRepository

  /** `PaymentBody`: the webhook's request body. */
  datatype PaymentBody = PaymentBody(userId: int, accountId: int, amount: int, transactionId: string, signature: string)

  /** What the webhook answers: accepted (status 200), or a refusal: a bad
      signature is raised as 409, while an unknown user and an account of
      another owner are returned as 409 objects in a 200 reply. */
  datatype WebhookReply = Accepted | Refused(why: Rejection)

  predicate SignatureOk(env: Env, b: PaymentBody) {
    SignaturePaymentCheck(env, b.userId, b.accountId, b.amount, b.transactionId, b.signature)
  }

  /** The last stage of the webhook, once an account row is in hand: the
      owner guard, the idempotent payment insert, and the credit, which
      happens only when the insert produced a row. */
  function Settle(db: Db, account: Account, b: PaymentBody): (r: Step<WebhookReply>)
    ensures r.out == Refused(WrongAccountOwner) <==> account.userId != b.userId
    ensures r.out.Accepted? <==> account.userId == b.userId
    ensures r.out.Refused? ==> r.db == db
    ensures r.out.Accepted? ==> PaymentRepository.HasTransaction(r.db, b.transactionId)
    ensures r.out.Accepted? && PaymentRepository.HasTransaction(db, b.transactionId) ==> r.db == db
    ensures r.out.Accepted? && !PaymentRepository.HasTransaction(db, b.transactionId) ==>
      && r.db.payments == db.payments + [Payment(db.nextPaymentId, b.userId, b.accountId, b.amount, b.transactionId)]
      && r.db.nextPaymentId == db.nextPaymentId + 1
      && r.db == AccountRepository.Increase(db, b.accountId, b.amount).(payments := r.db.payments, nextPaymentId := r.db.nextPaymentId)
    ensures r.out.Accepted? && AccountRepository.GetId(db, b.accountId) == Some(account) ==>
      && AccountRepository.GetId(r.db, b.accountId).Some?
      && AccountRepository.GetId(r.db, b.accountId).value.userId == b.userId
    ensures Store.Valid(db) ==> Store.Valid(r.db)
  {
    if account.userId != b.userId then Step(Refused(WrongAccountOwner), db)
    else
      var p := PaymentRepository.Create(db, b.userId, b.accountId, b.amount, b.transactionId);
      AccountRepository.IncreaseBalance(p.db, b.accountId, b.amount);
      if p.out.Some? then Step(Accepted, AccountRepository.Increase(p.db, b.accountId, b.amount))
      else Step(Accepted, p.db)
  }

  /** `create_payment`: a wrong signature is refused before the store is
      read. An unknown account is created for its user with the payment's
      amount as opening balance, unless that user does not exist, which is
      refused. An account of another user is refused. Then the payment is
      inserted unless its transaction id is already stored, and the balance
      is credited only when it was. Refusals never change the store. */
  function CreatePayment(env: Env, db: Db, b: PaymentBody): (r: Step<WebhookReply>)
    ensures !SignatureOk(env, b) ==> r == Step(Refused(WrongSignature), db)
    ensures r.out.Refused? ==> r.db == db
    ensures r.out == Refused(UserDoesNotExist) <==>
      && SignatureOk(env, b)
      && AccountRepository.GetId(db, b.accountId).None?
      && UserRepository.GetId(db, b.userId).None?
    ensures r.out == Refused(WrongAccountOwner) <==>
      && SignatureOk(env, b)
      && AccountRepository.GetId(db, b.accountId).Some?
      && AccountRepository.GetId(db, b.accountId).value.userId != b.userId
    ensures r.out.Accepted? <==>
      && SignatureOk(env, b)
      && match AccountRepository.GetId(db, b.accountId)
         case Some(a) => a.userId == b.userId
         case None => UserRepository.GetId(db, b.userId).Some?
    ensures r.out.Accepted? ==> PaymentRepository.HasTransaction(r.db, b.transactionId)
    ensures r.out.Accepted? ==>
      && AccountRepository.GetId(r.db, b.accountId).Some?
      && AccountRepository.GetId(r.db, b.accountId).value.userId == b.userId
    ensures r.db.users == db.users && r.db.sessions == db.sessions
    ensures Store.Valid(db) ==> Store.Valid(r.db)
  {
    if !SignatureOk(env, b) then Step(Refused(WrongSignature), db)
    else
      match AccountRepository.GetId(db, b.accountId)
      case Some(account) => Settle(db, account, b)
      case None =>
        if UserRepository.GetId(db, b.userId).None? then Step(Refused(UserDoesNotExist), db)
        else
          var created := AccountRepository.Create(db, b.accountId, b.userId, b.amount);
          Settle(created.db, created.out, b)
  }

  /** A replayed webhook for an account that already exists leaves the store
      as it was and is accepted again. */
  lemma ReplayUnchanged(env: Env, db: Db, b: PaymentBody)
    requires AccountRepository.GetId(db, b.accountId).Some?
    requires PaymentRepository.HasTransaction(db, b.transactionId)
    ensures CreatePayment(env, db, b).db == db
  {
  }

  /** Delivering the same webhook twice has the effect of delivering it
      once. */
  lemma DeliverTwice(env: Env, db: Db, b: PaymentBody)
    ensures
      var first := CreatePayment(env, db, b);
      CreatePayment(env, first.db, b) == first
  {
  }

  /** For an accepted webhook on an existing account, the balance grows by
      the amount exactly when the transaction id was new, and stays put
      otherwise. */
  lemma CreditIffInserted(env: Env, db: Db, b: PaymentBody)
    requires AccountRepository.GetId(db, b.accountId).Some?
    requires CreatePayment(env, db, b).out.Accepted?
    ensures AccountRepository.BalanceOf(CreatePayment(env, db, b).db, b.accountId)
      == AccountRepository.BalanceOf(db, b.accountId) + (if PaymentRepository.HasTransaction(db, b.transactionId) then 0 else b.amount)
  {
    if !PaymentRepository.HasTransaction(db, b.transactionId) {
      AccountRepository.IncreaseBalance(db, b.accountId, b.amount);
    }
  }

  /** The first accepted payment on a new account credits twice: the
      account is opened with the amount and then increased by it, so its
      balance is twice the amount, not the amount; the payment row is
      recorded once. */
  lemma DoubleCreditOnNewAccount(env: Env, db: Db, b: PaymentBody)
    requires SignatureOk(env, b)
    requires AccountRepository.GetId(db, b.accountId).None?
    requires UserRepository.GetId(db, b.userId).Some?
    requires !PaymentRepository.HasTransaction(db, b.transactionId)
    ensures CreatePayment(env, db, b).out == Accepted
    ensures AccountRepository.BalanceOf(CreatePayment(env, db, b).db, b.accountId) == 2 * b.amount
    ensures CreatePayment(env, db, b).db.payments
      == db.payments + [Payment(db.nextPaymentId, b.userId, b.accountId, b.amount, b.transactionId)]
  {
    var created := AccountRepository.Create(db, b.accountId, b.userId, b.amount);
    AccountRepository.IncreaseBalance(created.db, b.accountId, b.amount);
  }

  /** A new account id with a transaction id that is already stored opens
      the account with the amount but records no payment: the account
      creation is applied and the payment is not. */
  lemma PartialApplication(env: Env, db: Db, b: PaymentBody)
    requires SignatureOk(env, b)
    requires AccountRepository.GetId(db, b.accountId).None?
    requires UserRepository.GetId(db, b.userId).Some?
    requires PaymentRepository.HasTransaction(db, b.transactionId)
    ensures
      var r := CreatePayment(env, db, b);
      && r.out == Accepted
      && r.db.accounts == db.accounts + [Account(b.accountId, b.userId, b.amount)]
      && r.db.payments == db.payments
      && AccountRepository.BalanceOf(r.db, b.accountId) == b.amount
  {
  }

  /** `get_accounts` of the payment router: exactly the caller's payment
      rows. */
  function ListPayments(db: Db, caller: User): (r: seq<Payment>)
    ensures forall p :: p in r <==> p in db.payments && p.userId == caller.id
  {
    PaymentRepository.GetByUserId(db, caller.id)
  }
}
