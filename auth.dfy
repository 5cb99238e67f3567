/**
 * Registration and login. The password hash and its check are the hashing
 * library's and appear here as parameters: `hash` yields `None` when hashing
 * fails, `matches(hash, password)` says whether a password fits a stored hash.
 * `isEmail` is the validator's e-mail format check. Issuing a token is not
 * part of this model.
 */
module Auth {
  import opened Wrappers
  import opened Http
  import opened Models
  import opened Store

  const InvalidCredentials: string := "Invalid credentials"

  /** `WHERE email = ? OR username = ?` then `First`: the first user holding either. */
  function FindByEmailOrUsername(users: seq<User>, email: string, username: string): (r: Option<nat>)
    ensures r.Some? ==> r.value < |users| &&
                        (users[r.value].email == email || users[r.value].username == username)
    ensures r.None? <==> forall i :: 0 <= i < |users| ==> users[i].email != email && users[i].username != username
  {
    if users == [] then None
    else if users[0].email == email || users[0].username == username then Some(0)
    else match FindByEmailOrUsername(users[1..], email, username)
      case None => None
      case Some(i) => Some(i + 1)
  }

  /** `WHERE email = ?` then `First`: the first user with that address. */
  function FindByEmail(users: seq<User>, email: string): (r: Option<nat>)
    ensures r.Some? ==> r.value < |users| && users[r.value].email == email
    ensures r.Some? ==> forall j :: 0 <= j < r.value ==> users[j].email != email
    ensures r.None? <==> forall i :: 0 <= i < |users| ==> users[i].email != email
  {
    if users == [] then None
    else if users[0].email == email then Some(0)
    else match FindByEmail(users[1..], email)
      case None => None
      case Some(i) => Some(i + 1)
  }

  // ---------------------------------------------------------------------------
  // Register

  function RegisterEffect(t: Tables, body: Option<RegisterRequest>, isEmail: string -> bool,
                          hash: string -> Option<string>): (r: Outcome)
    ensures r.status == BadRequest <==> !(body.Some? && ValidRegister(body.value, isEmail))
    ensures r.status == Conflict <==>
              body.Some? && ValidRegister(body.value, isEmail) &&
              exists i :: 0 <= i < |t.users| &&
                (t.users[i].email == body.value.email || t.users[i].username == body.value.username)
    ensures r.status == Created <==>
              body.Some? && ValidRegister(body.value, isEmail) &&
              (forall i :: 0 <= i < |t.users| ==>
                 t.users[i].email != body.value.email && t.users[i].username != body.value.username) &&
              hash(body.value.password).Some?
    ensures r.status in {BadRequest, Conflict, InternalServerError, Created}
    ensures r.status != Created ==> r.after == t
    ensures r.status == Created ==>
              hash(body.value.password).Some? &&
              r.after == t.(users := t.users + [User(t.nextUserId, body.value.username, body.value.email,
                                                     hash(body.value.password).value)],
                            nextUserId := t.nextUserId + 1)
  {
    if body.None? || !ValidRegister(body.value, isEmail) then Outcome(BadRequest, t)
    else
      var req := body.value;
      if FindByEmailOrUsername(t.users, req.email, req.username).Some? then Outcome(Conflict, t)
      else match hash(req.password)
        case None => Outcome(InternalServerError, t)
        case Some(digest) =>
          Outcome(Created, t.(users := t.users + [User(t.nextUserId, req.username, req.email, digest)],
                              nextUserId := t.nextUserId + 1))
  }

  method Register(db: Database, body: Option<RegisterRequest>, isEmail: string -> bool,
                  hash: string -> Option<string>) returns (status: Status)
    modifies db
    ensures Outcome(status, db.Snapshot()) == RegisterEffect(old(db.Snapshot()), body, isEmail, hash)
    ensures old(db.Valid()) ==> db.Valid()
  {
    ghost var before := db.Snapshot();
    if body.None? || !ValidRegister(body.value, isEmail) {
      return BadRequest;
    }
    var req := body.value;
    var existing := FindByEmailOrUsername(db.users, req.email, req.username);
    if existing.Some? {
      return Conflict;
    }
    var digest := hash(req.password);
    if digest.None? {
      return InternalServerError;
    }
    var user := User(db.nextUserId, req.username, req.email, digest.value);
    db.users := db.users + [user];
    db.nextUserId := db.nextUserId + 1;
    status := Created;
    if Consistent(before) {
      RegisterKeepsUsersUnique(before, body, isEmail, hash);
    }
  }

  /** No e-mail address and no username is ever held by two users. */
  lemma RegisterKeepsUsersUnique(t: Tables, body: Option<RegisterRequest>, isEmail: string -> bool,
                                 hash: string -> Option<string>)
    requires UsersUnique(t.users)
    ensures UsersUnique(RegisterEffect(t, body, isEmail, hash).after.users)
  {
    var r := RegisterEffect(t, body, isEmail, hash);
    if r.status == Created {
      var users := r.after.users;
      var n := |t.users|;
      forall i, j | 0 <= i < j < |users|
        ensures users[i].email != users[j].email && users[i].username != users[j].username
      {
        if j == n {
          assert users[i] == t.users[i];
        }
      }
    }
  }

  /** A successful registration adds exactly one user, with the address, the name and the hash of the password given. */
  lemma RegisterAddsOneUser(t: Tables, body: Option<RegisterRequest>, isEmail: string -> bool,
                            hash: string -> Option<string>)
    requires RegisterEffect(t, body, isEmail, hash).status == Created
    ensures var users := RegisterEffect(t, body, isEmail, hash).after.users;
      |users| == |t.users| + 1 && users[..|t.users|] == t.users &&
      users[|t.users|].email == body.value.email && users[|t.users|].username == body.value.username &&
      Some(users[|t.users|].passwordHash) == hash(body.value.password) &&
      forall i :: 0 <= i < |t.users| ==> users[i].email != body.value.email && users[i].username != body.value.username
  {
    var users := RegisterEffect(t, body, isEmail, hash).after.users;
    assert users[..|t.users|] == t.users;
  }

  // ---------------------------------------------------------------------------
  // Login

  /** What login answers: a signed-in user, or an error status with its message when the handler writes a fixed one. */
  datatype LoginReply = LoggedIn(user: User) | Refused(status: Status, message: Option<string>)

  function Login(users: seq<User>, body: Option<LoginRequest>, isEmail: string -> bool,
                 matches: (string, string) -> bool): (r: LoginReply)
    ensures !(body.Some? && ValidLogin(body.value, isEmail)) ==> r == Refused(BadRequest, None)
    ensures r.LoggedIn? <==>
              body.Some? && ValidLogin(body.value, isEmail) &&
              exists i :: 0 <= i < |users| && users[i].email == body.value.email &&
                (forall j :: 0 <= j < i ==> users[j].email != body.value.email) &&
                matches(users[i].passwordHash, body.value.password)
    ensures r.LoggedIn? ==> r.user in users && r.user.email == body.value.email &&
                            matches(r.user.passwordHash, body.value.password)
    ensures r.Refused? && body.Some? && ValidLogin(body.value, isEmail) ==>
              r == Refused(Unauthorized, Some(InvalidCredentials))
  {
    if body.None? || !ValidLogin(body.value, isEmail) then Refused(BadRequest, None)
    else
      var req := body.value;
      match FindByEmail(users, req.email)
      case None => Refused(Unauthorized, Some(InvalidCredentials))
      case Some(i) =>
        if !matches(users[i].passwordHash, req.password) then Refused(Unauthorized, Some(InvalidCredentials))
        else LoggedIn(users[i])
  }

  /**
   * An unknown address and a wrong password get the very same answer, so a
   * caller cannot tell which accounts exist.
   */
  lemma LoginHidesUnknownEmail(users: seq<User>, unknown: LoginRequest, wrong: LoginRequest,
                               isEmail: string -> bool, matches: (string, string) -> bool)
    requires ValidLogin(unknown, isEmail) && ValidLogin(wrong, isEmail)
    requires forall i :: 0 <= i < |users| ==> users[i].email != unknown.email
    requires FindByEmail(users, wrong.email).Some?
    requires !matches(users[FindByEmail(users, wrong.email).value].passwordHash, wrong.password)
    ensures Login(users, Some(unknown), isEmail, matches) == Login(users, Some(wrong), isEmail, matches)
    ensures Login(users, Some(unknown), isEmail, matches) == Refused(Unauthorized, Some(InvalidCredentials))
  {
  }

  /**
   * Someone who has just registered can log in with the same address and
   * password, and gets the account just created, provided the hash check
   * accepts a password against its own hash.
   */
  lemma RegisterThenLogin(t: Tables, req: RegisterRequest, isEmail: string -> bool,
                          hash: string -> Option<string>, matches: (string, string) -> bool)
    requires RegisterEffect(t, Some(req), isEmail, hash).status == Created
    requires matches(hash(req.password).value, req.password)
    ensures Login(RegisterEffect(t, Some(req), isEmail, hash).after.users, Some(LoginRequest(req.email, req.password)),
                  isEmail, matches)
            == LoggedIn(User(t.nextUserId, req.username, req.email, hash(req.password).value))
  {
    var users := RegisterEffect(t, Some(req), isEmail, hash).after.users;
    RegisterAddsOneUser(t, Some(req), isEmail, hash);
    var found := FindByEmail(users, req.email);
    assert users[|t.users|].email == req.email;
    assert found.Some?;
    assert found.value == |t.users|;
  }
}
