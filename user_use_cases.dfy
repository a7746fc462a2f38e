/** The user use cases of app/api/user/models.py. Password hashing and
    checking (app/api/user/security.py) are not part of this model: they
    come in as function-valued parameters. */
module UserUseCases {
  import opened Outcomes
  import opened Tables
  import opened Models
  import opened Database

  const EmailTaken := "Email is already taken"
  const UsernameTaken := "Username is already taken"
  const BadCredentials := "Could not validate credentials"

  /** `ReadUserById.execute`. */
  function ReadUserById(users: seq<User>, userId: int): (r: Result<User>)
    ensures r == Err(NotFound) <==> forall i :: 0 <= i < |users| ==> users[i].id != userId
    ensures r.Ok? ==> r.value in users && r.value.id == userId
    ensures Ascending(users, UserKey) ==>
              forall i :: 0 <= i < |users| && users[i].id == userId ==> r == Ok(users[i])
  {
    match UserById(users, userId)
    case None => Err(NotFound)
    case Some(u) => Ok(u)
  }

  /** `ReadUserByUsername.execute`. */
  function ReadUserByUsername(users: seq<User>, username: string): (r: Result<User>)
    ensures r == Err(NotFound) <==> forall i :: 0 <= i < |users| ==> users[i].username != username
    ensures r.Ok? ==> r.value in users && r.value.username == username
    ensures CredentialsUnique(users) ==>
              forall i :: 0 <= i < |users| && users[i].username == username ==> r == Ok(users[i])
  {
    match UserByUsername(users, username)
    case None => Err(NotFound)
    case Some(u) => Ok(u)
  }

  /** `AuthenticateUser.execute`: the same 401 whether the username is
      unknown or the password does not verify against the stored hash. */
  function AuthenticateUser(users: seq<User>, username: string, password: string,
                            verify: (string, string) -> bool): (r: Result<User>)
    ensures r.Ok? ==> r.value in users && r.value.username == username && verify(password, r.value.password)
    ensures r.Err? ==> r.error == Unauthorized(BadCredentials)
    ensures (forall i :: 0 <= i < |users| ==> users[i].username != username) ==> r.Err?
    ensures CredentialsUnique(users) ==>
              (r.Ok? <==> exists i :: 0 <= i < |users| && users[i].username == username &&
                                      verify(password, users[i].password))
  {
    match UserByUsername(users, username)
    case None => Err(Unauthorized(BadCredentials))
    case Some(u) => if verify(password, u.password) then Ok(u) else Err(Unauthorized(BadCredentials))
  }

  /** The uniqueness check of `RegisterUser.execute`. It looks at the first
      user whose username or email matches: if that user's email is the new
      one the email is reported, otherwise the username. */
  function RegisterCheck(users: seq<User>, email: string, username: string): (r: Outcome)
    ensures r.Fail? <==> exists i :: 0 <= i < |users| && (users[i].email == email || users[i].username == username)
    ensures r.Fail? ==> r.error in {BadRequest(EmailTaken), BadRequest(UsernameTaken)}
    ensures (forall i :: 0 <= i < |users| ==> users[i].username != username) && r.Fail? ==>
              r.error == BadRequest(EmailTaken)
    ensures (forall i :: 0 <= i < |users| ==> users[i].email != email) && r.Fail? ==>
              r.error == BadRequest(UsernameTaken)
    ensures CredentialsUnique(users) &&
            (exists i :: 0 <= i < |users| && users[i].email == email && users[i].username == username) ==>
              r == Fail(BadRequest(EmailTaken))
  {
    SameHolderFound(users, email, username);
    match UserByEmailOrUsername(users, email, username)
    case None => Pass
    case Some(u) =>
      if u.email == email then Fail(BadRequest(EmailTaken))
      else Fail(BadRequest(UsernameTaken))
  }

  /** Under unique credentials, a user holding both the email and the
      username is the only user either matches. */
  lemma SameHolderFound(users: seq<User>, email: string, username: string)
    ensures CredentialsUnique(users) &&
            (exists i :: 0 <= i < |users| && users[i].email == email && users[i].username == username) ==>
              UserByEmailOrUsername(users, email, username).Some? &&
              UserByEmailOrUsername(users, email, username).value.email == email
  {
    if CredentialsUnique(users) &&
       exists i :: 0 <= i < |users| && users[i].email == email && users[i].username == username {
      var i :| 0 <= i < |users| && users[i].email == email && users[i].username == username;
      var u := UserByEmailOrUsername(users, email, username).value;
      var j :| 0 <= j < |users| && users[j] == u;
      assert i == j;
    }
  }

  /** The first user in table order that matches either credential decides
      the error: the email if that user holds it, otherwise the username.
      So when one user holds the username and a later one the email, the
      username is reported although the email is taken too. */
  lemma RegisterReportsFirstMatch(users: seq<User>, email: string, username: string, i: int)
    requires 0 <= i < |users| && (users[i].email == email || users[i].username == username)
    requires forall k :: 0 <= k < i ==> users[k].email != email && users[k].username != username
    ensures RegisterCheck(users, email, username) ==
            Fail(BadRequest(if users[i].email == email then EmailTaken else UsernameTaken))
  {
    var u := UserByEmailOrUsername(users, email, username);
    assert EmailOrUsernameIs(email, username)(users[i]);
    var j :| 0 <= j < |users| && users[j] == u.value && EmailOrUsernameIs(email, username)(u.value) &&
             forall k :: 0 <= k < j ==> !EmailOrUsernameIs(email, username)(users[k]);
    assert j == i;
  }

  /** `RegisterUser.execute`: either the 400 of RegisterCheck and no change,
      or exactly one new user holding the hash of the password, which can
      then be read back by username and by id. */
  method RegisterUser(db: Store, email: string, username: string, password: string, hash: string -> string)
    returns (r: Result<User>)
    requires db.Valid()
    modifies db
    ensures db.Valid()
    ensures r.Err? <==> RegisterCheck(old(db.users), email, username).Fail?
    ensures r.Err? ==> r.error == RegisterCheck(old(db.users), email, username).error
    ensures r.Err? ==> unchanged(db)
    ensures r.Ok? ==> && r.value == User(r.value.id, email, username, hash(password))
                      && (forall i :: 0 <= i < |old(db.users)| ==> old(db.users)[i].id < r.value.id)
                      && db.users == old(db.users) + [r.value]
                      && ReadUserByUsername(db.users, username) == Ok(r.value)
                      && ReadUserById(db.users, r.value.id) == Ok(r.value)
                      && db.goals == old(db.goals) && db.targets == old(db.targets)
  {
    var check := RegisterCheck(db.users, email, username);
    if check.Fail? {
      return Err(check.error);
    }
    var u := db.CreateUser(email, username, hash(password));
    assert db.users[|db.users| - 1] == u;
    return Ok(u);
  }

  /** No goal is owned by a user with that username: the case in which the
      database lets the bulk delete through the foreign key `goal.user_id`. */
  ghost predicate OwnsNoGoals(users: seq<User>, goals: seq<Goal>, username: string) {
    forall i, j :: 0 <= i < |users| && 0 <= j < |goals| && users[i].username == username ==>
      goals[j].userId != users[i].id
  }

  /** `DeleteUser.execute`: when the user owns no goals, the user with that
      username is gone and every other user keeps its row. Goals and targets
      are left as they were in every case. */
  method DeleteUser(db: Store, username: string)
    requires db.Valid()
    modifies db
    ensures db.Valid()
    ensures OwnsNoGoals(old(db.users), old(db.goals), username) ==>
              && db.users == Filter(old(db.users), UsernameIsNot(username))
              && ReadUserByUsername(db.users, username) == Err(NotFound)
              && forall i :: 0 <= i < |old(db.users)| && old(db.users)[i].username != username ==>
                   ReadUserById(db.users, old(db.users)[i].id) == Ok(old(db.users)[i])
    ensures db.goals == old(db.goals) && db.targets == old(db.targets)
  {
    DeleteKeepsOthers(db.users, username);
    db.DeleteUser(username);
  }

  /** Deleting by username removes that user and no other. */
  lemma {:induction false} DeleteKeepsOthers(users: seq<User>, username: string)
    requires Ascending(users, UserKey)
    ensures ReadUserByUsername(Filter(users, UsernameIsNot(username)), username) == Err(NotFound)
    ensures forall i :: 0 <= i < |users| && users[i].username != username ==>
              ReadUserById(Filter(users, UsernameIsNot(username)), users[i].id) == Ok(users[i])
  {
    var rest := Filter(users, UsernameIsNot(username));
    FilterAscending(users, UserKey, UsernameIsNot(username));
    forall i | 0 <= i < |users| && users[i].username != username
      ensures ReadUserById(rest, users[i].id) == Ok(users[i])
    {
      assert UsernameIsNot(username)(users[i]);
      var k :| 0 <= k < |rest| && rest[k] == users[i];
    }
  }

  /** Deleting a username nobody has changes nothing. */
  lemma DeleteUnknownUser(users: seq<User>, username: string)
    requires forall i :: 0 <= i < |users| ==> users[i].username != username
    ensures Filter(users, UsernameIsNot(username)) == users
  {
    FilterAll(users, UsernameIsNot(username));
  }
}
