/** The user endpoints of backend/view/user/view.py: login and profile
    lookup. An endpoint guarded by `check_session` takes the caller the
    resolver returned; the resolver is `Resolver.CheckSession`. */
module UserView {
  import opened Wrappers
  import opened Crypto
  import opened Store
  import opened Helper
  import UserRepository
  import SessionsRepository
  import Resolver

  /** `GetUserResponse`: the projection of a user row a profile shows. */
  datatype UserProfile = UserProfile(id: int, username: string, email: string)

  function Profile(u: User): UserProfile {
    UserProfile(u.id, u.username, u.email)
  }

  /** `auth_users`: an unknown email is refused with "User does not exist",
      a password whose digest differs from the stored one with 403; both
      leave the store as it was. Otherwise the token is the cookie of the
      email, the user's session row is upserted to carry it, and nothing
      but the session table changes. */
  function AuthUsers(env: Env, db: Db, email: string, password: string): (r: Step<Result<string, Rejection>>)
    ensures r.out == Err(UserDoesNotExist) <==> UserRepository.GetEmail(db, email).None?
    ensures r.out == Err(WrongPassword) <==>
      && UserRepository.GetEmail(db, email).Some?
      && UserRepository.GetEmail(db, email).value.password != HashPassword(env, password)
    ensures r.out.Ok? <==>
      && UserRepository.GetEmail(db, email).Some?
      && UserRepository.GetEmail(db, email).value.password == HashPassword(env, password)
    ensures r.out.Err? ==> r.db == db
    ensures r.out.Ok? ==>
      && r.out.value == CookieCreate(env, email)
      && var user := UserRepository.GetEmail(db, email).value;
      && SessionsRepository.GetByUserId(r.db, user.id).Some?
      && SessionsRepository.GetByUserId(r.db, user.id).value.token == r.out.value
      && r.db == db.(sessions := r.db.sessions, nextSessionId := r.db.nextSessionId)
    ensures Store.Valid(db) ==> Store.Valid(r.db)
  {
    match UserRepository.GetEmail(db, email)
    case None => Step(Err(UserDoesNotExist), db)
    case Some(user) =>
      if user.password != HashPassword(env, password) then Step(Err(WrongPassword), db)
      else
        var token := CookieCreate(env, email);
        var session := SessionsRepository.Create(db, user.id, token);
        Step(Ok(token), session.db)
  }

  /** Logging in twice in a row returns the same token, and the second login
      leaves the store as the first left it: the token depends on the email
      alone. */
  lemma LoginIdempotent(env: Env, db: Db, email: string, password: string)
    ensures
      var first := AuthUsers(env, db, email, password);
      AuthUsers(env, first.db, email, password) == first
  {
    var first := AuthUsers(env, db, email, password);
    if first.out.Ok? {
      var user := UserRepository.GetEmail(db, email).value;
      assert UserRepository.GetEmail(first.db, email) == Some(user);
    }
  }

  /** A successful login yields a cookie that the resolver accepts for the
      user who logged in, in a store that keeps its keys unique and where no
      other user's session already carries that token. */
  lemma LoginThenResolve(env: Env, db: Db, email: string, password: string)
    requires Store.Valid(db)
    requires email != ""
    requires AuthUsers(env, db, email, password).out.Ok?
    requires forall s :: s in db.sessions && s.token == CookieCreate(env, email) ==>
      s.userId == UserRepository.GetEmail(db, email).value.id
    ensures
      var r := AuthUsers(env, db, email, password);
      Resolver.CheckSession(env, r.db, Some(r.out.value)) == Resolver.Authenticated(UserRepository.GetEmail(db, email).value)
  {
    var r := AuthUsers(env, db, email, password);
    var user := UserRepository.GetEmail(db, email).value;
    var s := SessionsRepository.GetByUserId(r.db, user.id).value;
    forall t | t in r.db.sessions && t.token == s.token
      ensures t == s
    {
      SessionOfUser(r.db.sessions, t, s);
    }
    CookieRoundTrip(env, email);
    Resolver.ResolvesOwnSession(env, r.db, user, s);
  }

  /** `get_users`: without an id, or with the falsy id 0, the caller's own
      profile; any other id is 403 for a non-admin, "User does not exist"
      when no row has it, and that row's profile otherwise. Reads only. */
  function GetUsers(db: Db, caller: User, id: Option<int>): (r: Result<UserProfile, Rejection>)
    ensures id.None? || id == Some(0) ==> r == Ok(Profile(caller))
    ensures !caller.isAdmin ==> r == Ok(Profile(caller)) || r == Err(AccessDenied)
    ensures r == Err(AccessDenied) <==> !caller.isAdmin && id.Some? && id.value != 0
    ensures r == Err(UserDoesNotExist) <==>
      caller.isAdmin && id.Some? && id.value != 0 && UserRepository.GetId(db, id.value).None?
    ensures caller.isAdmin && id.Some? && id.value != 0 && UserRepository.GetId(db, id.value).Some? ==>
      r == Ok(Profile(UserRepository.GetId(db, id.value).value))
    ensures r.Ok? && id.Some? && id.value != 0 ==>
      exists u :: u in db.users && u.id == id.value && r.value == Profile(u)
  {
    match id
    case None => Ok(Profile(caller))
    case Some(k) =>
      if k == 0 then Ok(Profile(caller))
      else if !caller.isAdmin then Err(AccessDenied)
      else
        match UserRepository.GetId(db, k)
        case None => Err(UserDoesNotExist)
        case Some(u) => Ok(Profile(u))
  }

  /** With unique ids an admin who asks for any stored user other than id 0
      gets exactly that user's profile, and an admin who asks for their own
      stored row sees the same profile as without an id. */
  lemma AdminSeesStoredProfile(db: Db, caller: User, u: User)
    requires UsersValid(db.users, db.nextUserId)
    requires u in db.users
    ensures caller.isAdmin && u.id != 0 ==> GetUsers(db, caller, Some(u.id)) == Ok(Profile(u))
    ensures caller == u && caller.isAdmin ==> GetUsers(db, caller, Some(u.id)) == GetUsers(db, caller, None)
  {
    UserRepository.GetIdUnique(db, u);
  }
}
