/**
  The user store: registration, listing, lookup, deletion and update of
  accounts (`/users`).

  Registration is open; every other handler runs for an authenticated caller
  whose id is given explicitly, even the two readers that do not consult it.
  Password hashing is a parameter: the model only needs to know which value
  was stored, not how it was computed.
 */
module Users {
  import opened Store
  import Rows

  /** The registration and update body: an email and a password. */
  datatype UserCreate = UserCreate(email: string, password: string)

  /** The first id, in the order of `ids`, whose user has email `email`. */
  function FirstWithEmail(ids: seq<int>, users: map<int, User>, email: string): (r: Option<int>)
    requires Rows.StrictlyIncreasing(ids)
    ensures r.Some? ==> r.value in ids && HasEmail(users, r.value, email)
    ensures r.None? ==> forall i :: 0 <= i < |ids| ==> !HasEmail(users, ids[i], email)
    ensures r.Some? ==> forall i :: 0 <= i < |ids| && HasEmail(users, ids[i], email) ==> r.value <= ids[i]
  {
    if ids == [] then None
    else if HasEmail(users, ids[0], email) then Some(ids[0])
    else FirstWithEmail(ids[1..], users, email)
  }

  /** The row `.filter(email == ...).first()` returns: the lowest id with that
      email, or nothing when no user has it. */
  function FindByEmail(users: map<int, User>, email: string): (r: Option<int>)
    ensures r.Some? ==> HasEmail(users, r.value, email)
    ensures r.None? <==> forall id :: !HasEmail(users, id, email)
    ensures r.Some? ==> forall id :: HasEmail(users, id, email) ==> r.value <= id
  {
    var ids := Rows.SortedKeys(users.Keys);
    var r := FirstWithEmail(ids, users, email);
    assert forall id :: HasEmail(users, id, email) ==> id in ids;
    r
  }

  /** With unique emails the lookup finds the one user with that email. */
  lemma FindByEmailUnique(users: map<int, User>, id: int)
    requires EmailsUnique(users)
    requires id in users
    ensures FindByEmail(users, users[id].email) == Some(id)
  {
  }

  /** When exactly one user has the email, the lookup finds that user, whatever
      the other users' emails are. */
  lemma FindByEmailOnly(users: map<int, User>, id: int, email: string)
    requires HasEmail(users, id, email)
    requires forall other :: HasEmail(users, other, email) ==> other == id
    ensures FindByEmail(users, email) == Some(id)
  {
  }

  /** `create_user`: refuse a registered email, otherwise store the new user
      under the server-chosen `freshId` with the hash of the password. */
  function CreateUser(db: Db, req: UserCreate, freshId: int, hash: string -> string): (r: Response<User>)
    requires freshId !in db.users
    ensures r.Rejected? <==> exists id :: HasEmail(db.users, id, req.email)
    ensures r.Rejected? ==> r.error == Conflict
    ensures r.Changed? ==> r.value == User(req.email, hash(req.password))
    ensures r.Changed? ==> r.db.users == db.users[freshId := r.value]
    ensures r.Changed? ==> r.db.posts == db.posts && r.db.votes == db.votes
    ensures r.Changed? ==> |r.db.users| == |db.users| + 1
  {
    if FindByEmail(db.users, req.email).Some? then
      Rejected(Conflict)
    else
      var user := User(req.email, hash(req.password));
      Changed(db.(users := db.users[freshId := user]), user)
  }

  /** Registration keeps emails unique. */
  lemma CreateUserKeepsEmailsUnique(db: Db, req: UserCreate, freshId: int, hash: string -> string)
    requires freshId !in db.users
    requires EmailsUnique(db.users)
    ensures EmailsUnique(CreateUser(db, req, freshId, hash).Next(db).users)
  {
  }

  /** Registering an email a second time is a Conflict, whatever the password,
      and creates no second account. */
  lemma ReRegistrationConflicts(db: Db, req: UserCreate, freshId: int, hash: string -> string,
                                again: UserCreate, freshId2: int)
    requires freshId !in db.users
    requires CreateUser(db, req, freshId, hash).Changed?
    requires again.email == req.email
    requires freshId2 !in CreateUser(db, req, freshId, hash).db.users
    ensures CreateUser(CreateUser(db, req, freshId, hash).db, again, freshId2, hash) == Rejected(Conflict)
  {
    var mid := CreateUser(db, req, freshId, hash).db;
    assert HasEmail(mid.users, freshId, again.email);
  }

  /** `get_users`: every stored user exactly once, in ascending id order. */
  function GetUsers(db: Db, caller: int): (rows: seq<(int, User)>)
    ensures Rows.IsTableOf(rows, db.users)
  {
    Rows.Table(db.users)
  }

  /** `get_user`: the stored user, or NotFound. */
  function GetUser(db: Db, caller: int, id: int): (r: Result<User>)
    ensures r.Err? <==> id !in db.users
    ensures r.Err? ==> r.error == NotFound(UserRow)
    ensures r.Ok? ==> r.value == db.users[id]
  {
    if id !in db.users then Err(NotFound(UserRow)) else Ok(db.users[id])
  }

  /** The check shared by `delete_user` and `update_user`: the target must
      exist (NotFound) and must be the caller (Forbidden), in that order. */
  function CheckSelf(db: Db, caller: int, id: int): (r: Option<Error>)
    ensures id !in db.users ==> r == Some(NotFound(UserRow))
    ensures id in db.users && id != caller ==> r == Some(Forbidden)
    ensures r.None? <==> id in db.users && id == caller
  {
    if id !in db.users then Some(NotFound(UserRow))
    else if id != caller then Some(Forbidden)
    else None
  }

  /** `delete_user`: only the caller's own record, and only that one, goes. */
  function DeleteUser(db: Db, caller: int, id: int): (r: Response<()>)
    ensures id !in db.users ==> r == Rejected(NotFound(UserRow))
    ensures id in db.users && id != caller ==> r == Rejected(Forbidden)
    ensures r.Changed? <==> id in db.users && id == caller
    ensures r.Changed? ==> r.db.users.Keys == db.users.Keys - {caller}
    ensures r.Changed? ==> forall other :: other in r.db.users ==> r.db.users[other] == db.users[other]
    ensures r.Changed? ==> r.db.posts == db.posts && r.db.votes == db.votes
  {
    match CheckSelf(db, caller, id)
    case Some(e) => Rejected(e)
    case None => Changed(db.(users := db.users - {id}), ())
  }

  /** `update_user`: the caller's record is replaced by the body as given. The
      password is stored without hashing and the email is not checked against
      other users, unlike registration. */
  function UpdateUser(db: Db, caller: int, id: int, req: UserCreate): (r: Response<User>)
    ensures id !in db.users ==> r == Rejected(NotFound(UserRow))
    ensures id in db.users && id != caller ==> r == Rejected(Forbidden)
    ensures r.Changed? <==> id in db.users && id == caller
    ensures r.Changed? ==> r.value.email == req.email && r.value.password == req.password
    ensures r.Changed? ==> r.db.users.Keys == db.users.Keys && r.db.users[caller] == r.value
    ensures r.Changed? ==> forall other :: other in db.users && other != caller ==> r.db.users[other] == db.users[other]
    ensures r.Changed? ==> r.db.posts == db.posts && r.db.votes == db.votes
  {
    match CheckSelf(db, caller, id)
    case Some(e) => Rejected(e)
    case None =>
      var user := User(req.email, req.password);
      Changed(db.(users := db.users[id := user]), user)
  }

  /** A user is gone after deleting themself: a later lookup is NotFound. */
  lemma DeleteThenGetIsNotFound(db: Db, caller: int, reader: int)
    requires caller in db.users
    ensures GetUser(DeleteUser(db, caller, caller).db, reader, caller) == Err(NotFound(UserRow))
  {
  }

  /** Deletion keeps emails unique. */
  lemma DeleteUserKeepsEmailsUnique(db: Db, caller: int, id: int)
    requires EmailsUnique(db.users)
    ensures EmailsUnique(DeleteUser(db, caller, id).Next(db).users)
  {
  }

  /** Update does not keep emails unique: taking another user's email is
      accepted. */
  lemma UpdateUserCanDuplicateEmail(db: Db, caller: int, other: int, password: string)
    requires caller in db.users && other in db.users && other != caller
    ensures UpdateUser(db, caller, caller, UserCreate(db.users[other].email, password)).Changed?
    ensures !EmailsUnique(UpdateUser(db, caller, caller, UserCreate(db.users[other].email, password)).db.users)
  {
  }
}
