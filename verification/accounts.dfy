/** AccountRepository over the `accounts` table. backend/repository/account.py
    defines only `get_by_user_id`; the webhook also calls `get_id`, `create`
    and `increase`, which the repository file does not define. Those three
    are assumed store operations here, with the meaning their call sites
    give them: lookup by id, insert with the given balance, add a delta. */
module AccountRepository {
  import opened Wrappers
  import opened Seqs
  import opened Store

  /** `get_by_user_id`: exactly the accounts owned by the user, in table
      order, each as many times as it is stored. */
  function GetByUserId(db: Db, userId: int): (r: seq<Account>)
    ensures forall a :: a in r <==> a in db.accounts && a.userId == userId
    ensures forall a :: multiset(r)[a] == if a.userId == userId then multiset(db.accounts)[a] else 0
  {
    Filter(db.accounts, (a: Account) => a.userId == userId)
  }

  /** Assumed `get_id`: the first account with that id, None when there is
      none. */
  function GetId(db: Db, id: int): (r: Option<Account>)
    ensures r.Some? ==> r.value in db.accounts && r.value.id == id
    ensures r.None? <==> forall a :: a in db.accounts ==> a.id != id
  {
    Find(db.accounts, (a: Account) => a.id == id)
  }

  /** Assumed `create`: appends an account with the given id, owner and
      opening balance and returns it. */
  function Create(db: Db, id: int, userId: int, balance: int): (r: Step<Account>)
    ensures r.out.id == id && r.out.userId == userId && r.out.balance == balance
    ensures r.db.accounts == db.accounts + [r.out]
    ensures r.db == db.(accounts := r.db.accounts)
    ensures GetId(db, id).None? ==> GetId(r.db, id) == Some(r.out)
    ensures GetId(db, id).None? && AccountsValid(db.accounts) ==> AccountsValid(r.db.accounts)
  {
    var account := Account(id, userId, balance);
    var accounts := db.accounts + [account];
    if GetId(db, id).None? then
      FindIsFirst(accounts, (a: Account) => a.id == id, |db.accounts|);
      Step(account, db.(accounts := accounts))
    else Step(account, db.(accounts := accounts))
  }

  /** Assumed `increase`: adds `delta` to the balance of the account with
      that id (an atomic `balance = balance + delta` in the store); every
      other row and column is left as it was. */
  function Increase(db: Db, id: int, delta: int): (r: Db)
    ensures |r.accounts| == |db.accounts|
    ensures forall i :: 0 <= i < |db.accounts| ==>
      && r.accounts[i].id == db.accounts[i].id
      && r.accounts[i].userId == db.accounts[i].userId
      && r.accounts[i].balance == db.accounts[i].balance + (if db.accounts[i].id == id then delta else 0)
    ensures r == db.(accounts := r.accounts)
    ensures AccountsValid(db.accounts) ==> AccountsValid(r.accounts)
  {
    var accounts := seq(|db.accounts|, i requires 0 <= i < |db.accounts| =>
      var a := db.accounts[i];
      if a.id == id then a.(balance := a.balance + delta) else a);
    db.(accounts := accounts)
  }

  /** Balance of the first account with that id, 0 when there is none. */
  function BalanceOf(db: Db, id: int): int {
    match GetId(db, id)
    case None => 0
    case Some(a) => a.balance
  }

  /** `Increase` moves the balance `GetId` reports by exactly `delta` and
      keeps the owner; it needs no key constraint, since the row `GetId`
      finds is among the rows it credits. */
  lemma IncreaseBalance(db: Db, id: int, delta: int)
    ensures GetId(db, id).Some? ==>
      && GetId(Increase(db, id, delta), id).Some?
      && BalanceOf(Increase(db, id, delta), id) == BalanceOf(db, id) + delta
      && GetId(Increase(db, id, delta), id).value.userId == GetId(db, id).value.userId
  {
    if GetId(db, id).Some? {
      var isId := (a: Account) => a.id == id;
      var i := FirstIndex(db.accounts, isId, 0).value;
      var r := Increase(db, id, delta);
      FindIsFirst(r.accounts, isId, i);
    }
  }
}
