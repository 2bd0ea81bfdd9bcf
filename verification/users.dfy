/** UserRepository of backend/repository/users.py over the `users` table. */
module UserRepository {
  import opened Wrappers
  import opened Seqs
  import opened Store

  /** `get_id`: the first row with that id, None when there is none. */
  function GetId(db: Db, id: int): (r: Option<User>)
    ensures r.Some? ==> r.value in db.users && r.value.id == id
    ensures r.None? <==> forall u :: u in db.users ==> u.id != id
  {
    Find(db.users, (u: User) => u.id == id)
  }

  /** `get_email`: the first row with that email, None when there is none. */
  function GetEmail(db: Db, email: string): (r: Option<User>)
    ensures r.Some? ==> r.value in db.users && r.value.email == email
    ensures r.None? <==> forall u :: u in db.users ==> u.email != email
  {
    Find(db.users, (u: User) => u.email == email)
  }

  /** With unique ids the row `GetId` returns is the only one with its id. */
  lemma GetIdUnique(db: Db, u: User)
    requires UsersValid(db.users, db.nextUserId) && u in db.users
    ensures GetId(db, u.id) == Some(u)
  {
    var i :| 0 <= i < |db.users| && db.users[i] == u;
    FindIsFirst(db.users, (x: User) => x.id == u.id, i);
  }

  /** With unique emails the row `GetEmail` returns is the only one with its
      email. */
  lemma GetEmailUnique(db: Db, u: User)
    requires UsersValid(db.users, db.nextUserId) && u in db.users
    ensures GetEmail(db, u.email) == Some(u)
  {
    var i :| 0 <= i < |db.users| && db.users[i] == u;
    FindIsFirst(db.users, (x: User) => x.email == u.email, i);
  }

  /** The unique-constraint violation an INSERT or UPDATE raises. */
  datatype WriteError = EmailTaken

  /** `create`: inserts a row with the given username, email and password
      digest, a fresh serial id and `is_admin` false, and returns it; an
      email already present violates UNIQUE(email) and inserts nothing. */
  function Create(db: Db, username: string, email: string, password: string): (r: Step<Result<User, WriteError>>)
    ensures GetEmail(db, email).Some? <==> r.out == Err(EmailTaken)
    ensures r.out.Err? ==> r.db == db
    ensures r.out.Ok? ==>
      && r.out.value.username == username && r.out.value.email == email
      && r.out.value.password == password && !r.out.value.isAdmin
      && (UsersValid(db.users, db.nextUserId) ==> forall u :: u in db.users ==> u.id != r.out.value.id)
      && r.db.users == db.users + [r.out.value]
      && r.db == db.(users := r.db.users, nextUserId := r.db.nextUserId)
    ensures UsersValid(db.users, db.nextUserId) ==> UsersValid(r.db.users, r.db.nextUserId)
  {
    if GetEmail(db, email).Some? then Step(Err(EmailTaken), db)
    else
      var user := User(db.nextUserId, username, email, false, password);
      Step(Ok(user), db.(users := db.users + [user], nextUserId := db.nextUserId + 1))
  }

  /** Rows changed by `update`: only username, email and password, and only
      in the rows with that id. */
  function SetFields(users: seq<User>, id: int, username: string, email: string, password: string): (r: seq<User>)
    ensures |r| == |users|
    ensures forall i :: 0 <= i < |users| ==>
      && r[i].id == users[i].id && r[i].isAdmin == users[i].isAdmin
      && (users[i].id != id ==> r[i] == users[i])
      && (users[i].id == id ==> r[i].username == username && r[i].email == email && r[i].password == password)
  {
    seq(|users|, i requires 0 <= i < |users| =>
      if users[i].id == id then users[i].(username := username, email := email, password := password) else users[i])
  }

  /** `update`: rewrites username, email and password of row `id` and
      returns it; None when there is no such row; another row already
      holding the email violates UNIQUE(email) and changes nothing. */
  function Update(db: Db, id: int, username: string, email: string, password: string): (r: Step<Result<Option<User>, WriteError>>)
    ensures GetId(db, id).None? ==> r.out == Ok(None) && r.db == db
    ensures r.out == Ok(None) <==> GetId(db, id).None?
    ensures r.out == Err(EmailTaken) <==>
      GetId(db, id).Some? && exists u :: u in db.users && u.email == email && u.id != id
    ensures r.out.Err? ==> r.db == db
    ensures r.out.Ok? && r.out.value.Some? ==>
      && r.out.value.value.id == id
      && r.out.value.value.username == username && r.out.value.value.email == email
      && r.out.value.value.password == password
      && r.out.value.value in r.db.users
    ensures r.db == db.(users := r.db.users)
    ensures r.out.Ok? ==> r.db.users == SetFields(db.users, id, username, email, password)
  {
    match GetId(db, id)
    case None => Step(Ok(None), db)
    case Some(row) =>
      if exists u :: u in db.users && u.email == email && u.id != id then Step(Err(EmailTaken), db)
      else
        var users := SetFields(db.users, id, username, email, password);
        var i :| 0 <= i < |db.users| && db.users[i] == row;
        Step(Ok(Some(users[i])), db.(users := users))
  }

  /** `delete`: removes the rows with that id; sessions and everything else
      stay as they were (the code issues no cascade). */
  function Delete(db: Db, id: int): (r: Db)
    ensures forall u :: u in r.users <==> u in db.users && u.id != id
    ensures r == db.(users := r.users)
    ensures Pairwise(db.users, DistinctUsers) ==> Pairwise(r.users, DistinctUsers)
  {
    var keep := (u: User) => u.id != id;
    FilterPairwise(db.users, keep, DistinctUsers);
    db.(users := Filter(db.users, keep))
  }

  /** `get_all`: every row, in table order. */
  function GetAll(db: Db): (r: seq<User>)
    ensures forall u :: u in r <==> u in db.users
  {
    db.users
  }

  lemma CreatePreservesValid(db: Db, username: string, email: string, password: string)
    requires Valid(db)
    ensures Valid(Create(db, username, email, password).db)
  {
  }

  lemma UpdatePreservesValid(db: Db, id: int, username: string, email: string, password: string)
    requires Valid(db)
    ensures Valid(Update(db, id, username, email, password).db)
  {
  }

  lemma DeletePreservesValid(db: Db, id: int)
    requires Valid(db)
    ensures Valid(Delete(db, id))
  {
  }
}
