/** SessionsRepository of backend/repository/sessions.py over the
    `user_sessions` table. */
module SessionsRepository {
  import opened Wrappers
  import opened Seqs
  import opened Store

  /** `get_by_token`: the first row carrying that token, None when none does. */
  function GetByToken(db: Db, token: string): (r: Option<Session>)
    ensures r.Some? ==> r.value in db.sessions && r.value.token == token
    ensures r.None? <==> forall s :: s in db.sessions ==> s.token != token
  {
    Find(db.sessions, (s: Session) => s.token == token)
  }

  /** A row whose token no other row carries is what `get_by_token` finds. */
  lemma GetByTokenUnique(db: Db, s: Session)
    requires s in db.sessions
    requires forall t :: t in db.sessions && t.token == s.token ==> t == s
    ensures GetByToken(db, s.token) == Some(s)
  {
  }

  /** `get_by_user_id`: the first row of that user, None when there is none. */
  function GetByUserId(db: Db, userId: int): (r: Option<Session>)
    ensures r.Some? ==> r.value in db.sessions && r.value.userId == userId
    ensures r.None? <==> forall s :: s in db.sessions ==> s.userId != userId
  {
    Find(db.sessions, (s: Session) => s.userId == userId)
  }

  /** `create`: INSERT ... ON CONFLICT (user_id) DO UPDATE SET token. With
      no row for the user a new row with a fresh id is appended; otherwise
      the user's row keeps its id and position and only its token changes.
      Rows of other users are untouched either way, and afterwards the
      user's session is the returned row, carrying the new token. */
  function Create(db: Db, userId: int, token: string): (r: Step<Session>)
    ensures r.out.userId == userId && r.out.token == token
    ensures GetByUserId(r.db, userId) == Some(r.out)
    ensures forall s: Session :: s.userId != userId ==> (s in r.db.sessions <==> s in db.sessions)
    ensures GetByUserId(db, userId).Some? ==>
      && r.out == GetByUserId(db, userId).value.(token := token)
      && |r.db.sessions| == |db.sessions|
    ensures GetByUserId(db, userId).Some? && GetByUserId(db, userId).value.token == token ==> r.db == db
    ensures GetByUserId(db, userId).None? ==>
      && r.db.sessions == db.sessions + [r.out]
      && (SessionsValid(db.sessions, db.nextSessionId) ==> forall s :: s in db.sessions ==> s.id != r.out.id)
    ensures r.db == db.(sessions := r.db.sessions, nextSessionId := r.db.nextSessionId)
    ensures SessionsValid(db.sessions, db.nextSessionId) ==> SessionsValid(r.db.sessions, r.db.nextSessionId)
  {
    var isUsers := (s: Session) => s.userId == userId;
    match FirstIndex(db.sessions, isUsers, 0)
    case Some(i) =>
      var row := db.sessions[i].(token := token);
      var sessions := db.sessions[i := row];
      FindIsFirst(sessions, isUsers, i);
      FindIsFirst(db.sessions, isUsers, i);
      assert forall s: Session :: s.userId != userId ==> (s in sessions <==> s in db.sessions) by {
        forall s: Session | s.userId != userId
          ensures s in sessions <==> s in db.sessions
        {
          if s in db.sessions {
            var k :| 0 <= k < |db.sessions| && db.sessions[k] == s;
            assert sessions[k] == s;
          }
        }
      }
      Step(row, db.(sessions := sessions))
    case None =>
      var row := Session(db.nextSessionId, userId, token);
      var sessions := db.sessions + [row];
      FindIsFirst(sessions, isUsers, |db.sessions|);
      Step(row, db.(sessions := sessions, nextSessionId := db.nextSessionId + 1))
  }

  /** `delete`: removes the row with that id and nothing else. */
  function Delete(db: Db, id: int): (r: Db)
    ensures forall s :: s in r.sessions <==> s in db.sessions && s.id != id
    ensures r == db.(sessions := r.sessions)
    ensures Pairwise(db.sessions, DistinctSessions) ==> Pairwise(r.sessions, DistinctSessions)
  {
    var keep := (s: Session) => s.id != id;
    FilterPairwise(db.sessions, keep, DistinctSessions);
    db.(sessions := Filter(db.sessions, keep))
  }

  /** Logging in again with a different token retires the old one: it no
      longer finds the user's session. */
  lemma ReloginRetiresOldToken(db: Db, userId: int, oldToken: string, newToken: string)
    requires SessionsValid(db.sessions, db.nextSessionId)
    requires oldToken != newToken
    ensures
      var db' := Create(db, userId, newToken).db;
      match GetByToken(db', oldToken)
      case None => true
      case Some(s) => s.userId != userId
  {
    var r := Create(db, userId, newToken);
    match GetByToken(r.db, oldToken)
    case None =>
    case Some(s) =>
      if s.userId == userId {
        assert false;
      }
  }
}
