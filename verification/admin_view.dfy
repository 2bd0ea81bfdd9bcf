/** The admin endpoints of backend/view/admin/view.py: creating a user and
    listing all users, both behind the admin flag of the caller. */
module AdminView {
  import opened Wrappers
  import opened Crypto
  import opened Store
  import opened Helper
  import Hex
  import UserRepository

  /** `create_users`: a non-admin caller is refused with 403 before any
      lookup; an email already stored is refused with "User already exist";
      both leave the store as it was. Otherwise one row is appended whose
      password column is the digest of the password, never the password as
      given, and the new row is returned. */
  function CreateUsers(env: Env, db: Db, caller: User, username: string, email: string, password: string): (r: Step<Result<User, Rejection>>)
    ensures !caller.isAdmin ==> r == Step(Err(AccessDenied), db)
    ensures caller.isAdmin && UserRepository.GetEmail(db, email).Some? ==> r == Step(Err(UserAlreadyExists), db)
    ensures r.out.Ok? <==> caller.isAdmin && UserRepository.GetEmail(db, email).None?
    ensures r.out.Ok? ==>
      && r.out.value.username == username && r.out.value.email == email && !r.out.value.isAdmin
      && r.out.value.password == HashPassword(env, password)
      && |r.out.value.password| == 64
      && (forall i :: 0 <= i < 64 ==> Hex.IsLowerHexDigit(r.out.value.password[i]))
      && r.db.users == db.users + [r.out.value]
      && r.db == db.(users := r.db.users, nextUserId := r.db.nextUserId)
    ensures Store.Valid(db) ==> Store.Valid(r.db)
  {
    if !caller.isAdmin then Step(Err(AccessDenied), db)
    else if UserRepository.GetEmail(db, email).Some? then Step(Err(UserAlreadyExists), db)
    else
      var created := UserRepository.Create(db, username, email, HashPassword(env, password));
      Step(Ok(created.out.value), created.db)
  }

  /** `get_all_users`: every user row, in table order, for an admin; 403
      for anyone else. Reads only. */
  function GetAllUsers(db: Db, caller: User): (r: Result<seq<User>, Rejection>)
    ensures r.Ok? <==> caller.isAdmin
    ensures r.Err? ==> r.error == AccessDenied
    ensures r.Ok? ==> forall u :: u in r.value <==> u in db.users
  {
    if !caller.isAdmin then Err(AccessDenied) else Ok(UserRepository.GetAll(db))
  }
}
