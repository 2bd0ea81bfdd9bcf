/** The session resolver `check_session` of backend/helper.py: the
    dependency every cookie-protected endpoint runs first. */
module Resolver {
  import opened Wrappers
  import opened Text
  import opened Crypto
  import opened Store
  import opened Helper
  import UserRepository
  import SessionsRepository
  import Seqs

  /** The resolver's outcomes: the caller, the 401 every refusal raises, or
      an exception out of `cookie_decode`, which escapes the dependency and
      becomes a 500. */
  datatype AuthResult =
    | Authenticated(user: User)
    | Unauthenticated
    | ServerError(error: DecodeError)

  /** `check_session`: the cookie must be present and non-empty, decode to a
      non-empty email, name a stored user, be the token of a stored session,
      and that session must belong to that user. */
  function CheckSession(env: Env, db: Db, cookie: Option<string>): (r: AuthResult)
    ensures r.Authenticated? ==>
      && cookie.Some? && Count(cookie.value, '.') == 1
      && Split(cookie.value, '.')[1] == SignData(env, r.user.email)
      && r.user in db.users && r.user.email != ""
      && (exists s :: s in db.sessions && s.token == cookie.value && s.userId == r.user.id)
    ensures r.ServerError? <==> cookie.Some? && CookieDecode(env, cookie.value).Raised?
    ensures cookie.None? || cookie == Some("") ==> r == Unauthenticated
  {
    match cookie
    case None => Unauthenticated
    case Some(token) =>
      if token == "" then Unauthenticated
      else
        match CookieDecode(env, token)
        case Raised(e) => ServerError(e)
        case Invalid => Unauthenticated
        case Valid(email) =>
          if email == "" then Unauthenticated
          else
            match UserRepository.GetEmail(db, email)
            case None => Unauthenticated
            case Some(user) =>
              match SessionsRepository.GetByToken(db, token)
              case None => Unauthenticated
              case Some(session) =>
                if session.userId == user.id then Authenticated(user) else Unauthenticated
  }

  /** The five conditions, both ways: the resolver returns `user` exactly
      when every check passes for `user`. */
  lemma CheckSessionIff(env: Env, db: Db, token: string, user: User)
    ensures CheckSession(env, db, Some(token)) == Authenticated(user) <==>
      && token != ""
      && CookieDecode(env, token) == Valid(user.email)
      && user.email != ""
      && UserRepository.GetEmail(db, user.email) == Some(user)
      && SessionsRepository.GetByToken(db, token).Some?
      && SessionsRepository.GetByToken(db, token).value.userId == user.id
  {
  }

  /** In a store that keeps its keys unique, a session row whose token is a
      cookie decoding to its user's email authenticates that user, provided
      no other row carries the same token. */
  lemma ResolvesOwnSession(env: Env, db: Db, user: User, s: Session)
    requires UsersValid(db.users, db.nextUserId)
    requires user in db.users && user.email != ""
    requires s in db.sessions && s.userId == user.id && CookieDecode(env, s.token) == Valid(user.email)
    requires forall t :: t in db.sessions && t.token == s.token ==> t == s
    ensures CheckSession(env, db, Some(s.token)) == Authenticated(user)
  {
    UserRepository.GetEmailUnique(db, user);
    SessionsRepository.GetByTokenUnique(db, s);
  }

  /** The first session row carrying a token decides whose token it is: a
      cookie whose first row belongs to another user than the one its
      email names is refused, whatever later rows say. */
  lemma FirstRowShadows(env: Env, db: Db, token: string, email: string, i: nat)
    requires CookieDecode(env, token) == Valid(email)
    requires UserRepository.GetEmail(db, email).Some?
    requires i < |db.sessions| && db.sessions[i].token == token
    requires forall j :: 0 <= j < i ==> db.sessions[j].token != token
    requires db.sessions[i].userId != UserRepository.GetEmail(db, email).value.id
    ensures CheckSession(env, db, Some(token)) == Unauthenticated
  {
    Seqs.FindIsFirst(db.sessions, (t: Session) => t.token == token, i);
  }

  /** After a user row is deleted no cookie resolves to that user's id, even
      though the user's session row is left behind. */
  lemma DeletedUserLockedOut(env: Env, db: Db, id: int, cookie: Option<string>)
    ensures
      var r := CheckSession(env, UserRepository.Delete(db, id), cookie);
      r.Authenticated? ==> r.user.id != id
  {
  }
}
