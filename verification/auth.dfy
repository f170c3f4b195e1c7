/**
  Login (`POST /login`): look the user up by email, check the password, issue
  a bearer token whose claim is the user's id.

  Password verification and token signing are parameters: `verify(plain,
  stored)` stands for the password-hash check and `sign(claim)` for the token
  encoder. The handler only reads the store, so it returns no new state.
 */
module Auth {
  import opened Store
  import Users

  /** The form body: the email is sent in the `username` field. */
  datatype Credentials = Credentials(username: string, password: string)

  /** The data the access token is created from. */
  datatype Claim = Claim(userId: int)

  datatype Token = Token(accessToken: string, tokenType: string)

  const Bearer := "bearer"

  /** The password check succeeds for the stored user `id`. */
  predicate Accepts(users: map<int, User>, id: int, creds: Credentials, verify: (string, string) -> bool) {
    HasEmail(users, id, creds.username) && verify(creds.password, users[id].password)
  }

  /** The `login` handler. */
  function Login(db: Db, creds: Credentials, verify: (string, string) -> bool, sign: Claim -> string): (r: Result<Token>)
    // both failure paths give the one error
    ensures r.Err? ==> r.error == InvalidCredentials
    // an unknown email never logs in
    ensures (forall id :: !HasEmail(db.users, id, creds.username)) ==> r.Err?
    // a token is issued only for a user whose email matches and whose password verifies
    ensures r.Ok? ==> exists id :: Accepts(db.users, id, creds, verify) && r.value == Token(sign(Claim(id)), Bearer)
    // with unique emails, login succeeds exactly when the matching user's password verifies
    ensures EmailsUnique(db.users) ==> (r.Ok? <==> exists id :: Accepts(db.users, id, creds, verify))
  {
    var found := Users.FindByEmail(db.users, creds.username);
    assert EmailsUnique(db.users) && (exists id :: Accepts(db.users, id, creds, verify)) ==>
      found.Some? && Accepts(db.users, found.value, creds, verify)
    by {
      if EmailsUnique(db.users) && exists id :: Accepts(db.users, id, creds, verify) {
        var id :| Accepts(db.users, id, creds, verify);
        Users.FindByEmailUnique(db.users, id);
      }
    }
    match found
    case None => Err(InvalidCredentials)
    case Some(id) =>
      if !verify(creds.password, db.users[id].password) then Err(InvalidCredentials)
      else Ok(Token(sign(Claim(id)), Bearer))
  }

  /** The two failures cannot be told apart: an unknown email and a wrong
      password for a known one give the same result. */
  lemma FailuresIndistinguishable(db: Db, unknown: Credentials, wrong: Credentials,
                                  verify: (string, string) -> bool, sign: Claim -> string, id: int)
    requires forall other :: !HasEmail(db.users, other, unknown.username)
    requires HasEmail(db.users, id, wrong.username)
    requires forall other :: HasEmail(db.users, other, wrong.username) ==> !verify(wrong.password, db.users[other].password)
    ensures Login(db, unknown, verify, sign) == Login(db, wrong, verify, sign) == Err(InvalidCredentials)
  {
  }

  /** A newly registered user can log in with the password they registered,
      provided the verifier accepts a password against its own hash, and gets
      a token for their new id. */
  lemma RegisterThenLogin(db: Db, req: Users.UserCreate, freshId: int, hash: string -> string,
                          verify: (string, string) -> bool, sign: Claim -> string)
    requires freshId !in db.users
    requires Users.CreateUser(db, req, freshId, hash).Changed?
    requires verify(req.password, hash(req.password))
    ensures Login(Users.CreateUser(db, req, freshId, hash).db, Credentials(req.email, req.password), verify, sign)
         == Ok(Token(sign(Claim(freshId)), Bearer))
  {
    var users := db.users[freshId := User(req.email, hash(req.password))];
    assert Users.CreateUser(db, req, freshId, hash).db.users == users;
    // registration succeeded, so no earlier user has the email and the new
    // user is the only one with it
    assert forall id :: !HasEmail(db.users, id, req.email);
    forall id | HasEmail(users, id, req.email)
      ensures id == freshId
    {
      assert id != freshId ==> HasEmail(db.users, id, req.email);
    }
    Users.FindByEmailOnly(users, freshId, req.email);
  }

  /** After a user updates their own record to an email no other user holds,
      logging in with the new password checks it against itself, not against
      a hash of it: it succeeds exactly when `verify(password, password)`
      holds. */
  lemma UpdateThenLogin(db: Db, caller: int, req: Users.UserCreate,
                        verify: (string, string) -> bool, sign: Claim -> string)
    requires caller in db.users
    requires forall other :: other in db.users && other != caller ==> db.users[other].email != req.email
    ensures Login(Users.UpdateUser(db, caller, caller, req).db, Credentials(req.email, req.password), verify, sign)
         == if verify(req.password, req.password) then Ok(Token(sign(Claim(caller)), Bearer))
            else Err(InvalidCredentials)
  {
  }
}
