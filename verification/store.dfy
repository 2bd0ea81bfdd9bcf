/** The relational store as immutable values: one sequence of rows per
    table, in table order, and one serial counter per table whose ids the
    database assigns. Every operation of the repositories and views is a
    pure function from a store to an outcome and the next store. */
module Store {
  import opened Seqs

  datatype User = User(id: int, username: string, email: string, isAdmin: bool, password: string)

  datatype Session = Session(id: int, userId: int, token: string)

  datatype Account = Account(id: int, userId: int, balance: int)

  datatype Payment = Payment(id: int, userId: int, accountId: int, amount: int, transactionId: string)

  datatype Db = Db(
    users: seq<User>,
    sessions: seq<Session>,
    accounts: seq<Account>,
    payments: seq<Payment>,
    nextUserId: int,
    nextSessionId: int,
    nextPaymentId: int)

  /** The outcome of an operation together with the store after it. */
  datatype Step<T> = Step(out: T, db: Db)

  /** Why a view refuses a request; each is one `HTTPException` of the
      source, with its status and detail text in the comment. Where a view
      raises it, the reply carries that status. Where a view returns it
      instead (named in the comment), FastAPI serializes the exception
      object as the body of a 200 reply. */
  datatype Rejection =
    | AccessDenied      // 403 "Access denied", always raised
    | WrongPassword     // 403 "Access denied - wrong password", raised
    | UserDoesNotExist  // 409 "User does not exist": raised by get_user_accounts; returned by auth_users, get_users and the webhook
    | UserAlreadyExists // 409 "User already exist", returned by create_users
    | WrongSignature    // 409 "Wrong signature", raised
    | WrongAccountOwner // 409 "Wrong user id or account id", returned by the webhook

  /** A freshly migrated, empty database. */
  const Empty := Db([], [], [], [], 1, 1, 1)

  /** Two user rows agree on neither key: primary key and UNIQUE(email). */
  predicate DistinctUsers(a: User, b: User) {
    a.id != b.id && a.email != b.email
  }

  /** Two session rows agree on neither key: primary key and
      UNIQUE(user_id), so at most one session per user. */
  predicate DistinctSessions(a: Session, b: Session) {
    a.id != b.id && a.userId != b.userId
  }

  /** Primary key on accounts (the id is chosen by the caller). */
  predicate DistinctAccounts(a: Account, b: Account) {
    a.id != b.id
  }

  /** Primary key and UNIQUE(transaction_id) on payment: at most one row
      per transaction. */
  predicate DistinctPayments(a: Payment, b: Payment) {
    a.id != b.id && a.transactionId != b.transactionId
  }

  /** The serial counter is ahead of every id. */
  ghost predicate UsersValid(users: seq<User>, next: int) {
    && Pairwise(users, DistinctUsers)
    && (forall u :: u in users ==> u.id < next)
  }

  ghost predicate SessionsValid(sessions: seq<Session>, next: int) {
    && Pairwise(sessions, DistinctSessions)
    && (forall s :: s in sessions ==> s.id < next)
  }

  ghost predicate AccountsValid(accounts: seq<Account>) {
    Pairwise(accounts, DistinctAccounts)
  }

  ghost predicate PaymentsValid(payments: seq<Payment>, next: int) {
    && Pairwise(payments, DistinctPayments)
    && (forall p :: p in payments ==> p.id < next)
  }

  ghost predicate Valid(db: Db) {
    && UsersValid(db.users, db.nextUserId)
    && SessionsValid(db.sessions, db.nextSessionId)
    && AccountsValid(db.accounts)
    && PaymentsValid(db.payments, db.nextPaymentId)
  }

  /** Under UNIQUE(user_id) a user's session row is the only one with its
      user id. */
  lemma SessionOfUser(sessions: seq<Session>, a: Session, b: Session)
    requires Pairwise(sessions, DistinctSessions)
    requires a in sessions && b in sessions && a.userId == b.userId
    ensures a == b
  {
  }

  lemma EmptyValid()
    ensures Valid(Empty)
  {
  }
}
