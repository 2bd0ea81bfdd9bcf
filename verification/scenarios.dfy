/** Whole-service runs from a freshly migrated store, stated for every
    environment (hash function and secrets). */
module Scenarios {
  import opened Wrappers
  import opened Crypto
  import opened Store
  import opened Helper
  import UserRepository
  import SessionsRepository
  import AccountRepository
  import PaymentRepository
  import Resolver
  import UserView
  import PaymentView

  /** The store with one user, id 1, whose password column holds the digest
      of `password`. */
  function OneUser(env: Env, email: string, password: string): Db {
    UserRepository.Create(Empty, "u1", email, HashPassword(env, password)).db
  }

  /** First payment of user 1 on the new account 100 (amount 500,
      transaction "t1"), the same webhook replayed, then a second payment
      (amount 300, transaction "t2"): the balance reads 1000, 1000, 1300
      and the payment table holds 1, 1, 2 rows. The first credit is double,
      so the totals are not the sums of the amounts. */
  lemma WebhookRun(env: Env, s1: string, s2: string)
    requires PaymentView.SignatureOk(env, PaymentView.PaymentBody(1, 100, 500, "t1", s1))
    requires PaymentView.SignatureOk(env, PaymentView.PaymentBody(1, 100, 300, "t2", s2))
    ensures
      var b1 := PaymentView.PaymentBody(1, 100, 500, "t1", s1);
      var b2 := PaymentView.PaymentBody(1, 100, 300, "t2", s2);
      var db0 := OneUser(env, "u1@x.com", "p");
      var r1 := PaymentView.CreatePayment(env, db0, b1);
      var r2 := PaymentView.CreatePayment(env, r1.db, b1);
      var r3 := PaymentView.CreatePayment(env, r2.db, b2);
      && r1.out == PaymentView.Accepted && r2.out == PaymentView.Accepted && r3.out == PaymentView.Accepted
      && AccountRepository.BalanceOf(r1.db, 100) == 1000 && |r1.db.payments| == 1
      && AccountRepository.BalanceOf(r2.db, 100) == 1000 && |r2.db.payments| == 1
      && AccountRepository.BalanceOf(r3.db, 100) == 1300 && |r3.db.payments| == 2
  {
    var b1 := PaymentView.PaymentBody(1, 100, 500, "t1", s1);
    var b2 := PaymentView.PaymentBody(1, 100, 300, "t2", s2);
    var db0 := OneUser(env, "u1@x.com", "p");
    EmptyValid();
    assert UserRepository.GetId(db0, 1).Some?;
    PaymentView.DoubleCreditOnNewAccount(env, db0, b1);
    var r1 := PaymentView.CreatePayment(env, db0, b1);
    PaymentView.DeliverTwice(env, db0, b1);
    assert !PaymentRepository.HasTransaction(r1.db, "t2");
    PaymentView.CreditIffInserted(env, r1.db, b2);
  }

  /** Log in as `email`, resolve the returned cookie to that user, delete
      the user, and the same cookie no longer resolves, although the session
      row is still stored. */
  lemma LoginResolveDelete(env: Env, email: string, password: string)
    requires email != ""
    ensures
      var db0 := OneUser(env, email, password);
      var login := UserView.AuthUsers(env, db0, email, password);
      var user := UserRepository.GetEmail(db0, email).value;
      var gone := UserRepository.Delete(login.db, user.id);
      && login.out == Ok(CookieCreate(env, email))
      && Resolver.CheckSession(env, login.db, Some(login.out.value)) == Resolver.Authenticated(user)
      && Resolver.CheckSession(env, gone, Some(login.out.value)) == Resolver.Unauthenticated
      && SessionsRepository.GetByUserId(gone, user.id).Some?
  {
    var db0 := OneUser(env, email, password);
    EmptyValid();
    UserView.LoginThenResolve(env, db0, email, password);
    CookieRoundTrip(env, email);
  }

  /** The re-creation run, step by step: the store with user 1, ... */
  lemma OneUserStore(env: Env, email: string, password: string)
    ensures OneUser(env, email, password) == Db([User(1, "u1", email, false, HashPassword(env, password))], [], [], [], 2, 1, 1)
  {
  }

  /** ... user 1 logs in and gets session row 1, ... */
  lemma FirstLogin(env: Env, email: string, password: string)
    ensures
      var u1 := User(1, "u1", email, false, HashPassword(env, password));
      var token := CookieCreate(env, email);
      UserView.AuthUsers(env, Db([u1], [], [], [], 2, 1, 1), email, password)
        == Step(Ok(token), Db([u1], [Session(1, 1, token)], [], [], 2, 2, 1))
  {
  }

  /** ... user 1 is deleted and the session row stays, ... */
  lemma DeleteFirst(u1: User, s1: Session)
    requires u1.id == 1
    ensures UserRepository.Delete(Db([u1], [s1], [], [], 2, 2, 1), 1) == Db([], [s1], [], [], 2, 2, 1)
  {
    assert Seqs.Filter([u1], (u: User) => u.id != 1) == [];
  }

  /** ... the email is registered again, as user 2, ... */
  lemma Recreate(email: string, pw: string, s1: Session)
    ensures UserRepository.Create(Db([], [s1], [], [], 2, 2, 1), "u1", email, pw).db
      == Db([User(2, "u1", email, false, pw)], [s1], [], [], 3, 2, 1)
  {
  }

  /** ... and user 2 logs in, getting session row 2 with the same token. */
  lemma SecondLogin(env: Env, email: string, password: string)
    ensures
      var u2 := User(2, "u1", email, false, HashPassword(env, password));
      var token := CookieCreate(env, email);
      UserView.AuthUsers(env, Db([u2], [Session(1, 1, token)], [], [], 3, 2, 1), email, password)
        == Step(Ok(token), Db([u2], [Session(1, 1, token), Session(2, 2, token)], [], [], 3, 3, 1))
  {
    var u2 := User(2, "u1", email, false, HashPassword(env, password));
    var token := CookieCreate(env, email);
    var db := Db([u2], [Session(1, 1, token)], [], [], 3, 2, 1);
    assert UserRepository.GetEmail(db, email) == Some(u2);
    assert SessionsRepository.GetByUserId(db, 2).None?;
    var upsert := SessionsRepository.Create(db, 2, token);
    assert upsert.db == db.(sessions := [Session(1, 1, token), Session(2, 2, token)], nextSessionId := 3);
  }

  /** A user deleted after logging in and then created again under the same
      email has the new login's cookie refused: the new login reuses the
      same token, the deleted user's session row still carries it and, with
      rows read in insertion order, comes first, and it names the old id. */
  lemma StaleSessionShadowsRecreatedUser(env: Env, email: string, password: string)
    requires email != ""
    ensures
      var db0 := OneUser(env, email, password);
      var login1 := UserView.AuthUsers(env, db0, email, password);
      var gone := UserRepository.Delete(login1.db, 1);
      var again := UserRepository.Create(gone, "u1", email, HashPassword(env, password));
      var login2 := UserView.AuthUsers(env, again.db, email, password);
      && login2.out == Ok(CookieCreate(env, email))
      && Resolver.CheckSession(env, login2.db, Some(login2.out.value)) == Resolver.Unauthenticated
  {
    var db0 := OneUser(env, email, password);
    var login1 := UserView.AuthUsers(env, db0, email, password);
    var gone := UserRepository.Delete(login1.db, 1);
    var again := UserRepository.Create(gone, "u1", email, HashPassword(env, password));
    var login2 := UserView.AuthUsers(env, again.db, email, password);
    OneUserStore(env, email, password);
    FirstLogin(env, email, password);
    DeleteFirst(db0.users[0], login1.db.sessions[0]);
    Recreate(email, HashPassword(env, password), login1.db.sessions[0]);
    SecondLogin(env, email, password);
    CookieRoundTrip(env, email);
    Resolver.FirstRowShadows(env, login2.db, CookieCreate(env, email), email, 0);
  }
}
