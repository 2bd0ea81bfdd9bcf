/** The account endpoints of backend/view/accounts/view.py. */
module AccountsView {
  import opened Wrappers
  import opened Store
  import UserRepository
  import AccountRepository

  /** `get_accounts`: exactly the caller's own accounts. */
  function GetAccounts(db: Db, caller: User): (r: seq<Account>)
    ensures forall a :: a in r <==> a in db.accounts && a.userId == caller.id
  {
    AccountRepository.GetByUserId(db, caller.id)
  }

  /** `get_user_accounts`: 403 for a non-admin before any lookup, "User does
      not exist" for an id no user row has, and otherwise exactly the
      accounts owned by that id. Reads only. */
  function GetUserAccounts(db: Db, caller: User, id: int): (r: Result<seq<Account>, Rejection>)
    ensures !caller.isAdmin ==> r == Err(AccessDenied)
    ensures r == Err(UserDoesNotExist) <==> caller.isAdmin && UserRepository.GetId(db, id).None?
    ensures r.Ok? <==> caller.isAdmin && UserRepository.GetId(db, id).Some?
    ensures r.Ok? ==> forall a :: a in r.value <==> a in db.accounts && a.userId == id
  {
    if !caller.isAdmin then Err(AccessDenied)
    else
      match UserRepository.GetId(db, id)
      case None => Err(UserDoesNotExist)
      case Some(user) => Ok(AccountRepository.GetByUserId(db, user.id))
  }

  /** An admin asking for a user's accounts sees what that user sees for
      themselves. */
  lemma AdminSeesOwnersView(db: Db, admin: User, owner: User)
    requires admin.isAdmin && owner in db.users
    ensures GetUserAccounts(db, admin, owner.id) == Ok(GetAccounts(db, owner))
  {
  }
}
