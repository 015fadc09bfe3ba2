/** The `/register` and `/login` handlers over the process-wide list of
    registered users (routes/auth.js). */
module Auth {
  import opened Common
  import opened Crypto

  const REGISTER_FIELDS_MSG := "Email, password, and name are required"
  const USER_EXISTS_MSG := "User already exists"
  const LOGIN_FIELDS_MSG := "Email and password are required"
  const INVALID_CREDENTIALS_MSG := "Invalid email or password"

  /** A registered user as kept in memory; `password` holds the digest only. */
  datatype User = User(id: int, name: string, email: string, password: Digest)

  /** The user object sent back to the client: it has no password field. */
  datatype PublicUser = PublicUser(id: int, name: string, email: string)

  /** The claims of the signed bearer token; signing and expiry are left out. */
  datatype Token = Token(id: int, email: string)

  datatype AuthResult =
    | Ok(token: Token, user: PublicUser)
    | BadRequest(msg: string)
    | Conflict(msg: string)
    | Unauthorized(msg: string)

  /** The `{ id, name, email }` object built from a stored user. */
  function Public(u: User): PublicUser
  {
    PublicUser(u.id, u.name, u.email)
  }

  /** The list as registration builds it: the user at index i has id i + 1,
      and no email occurs twice. */
  ghost predicate WellFormed(users: seq<User>)
  {
    && (forall i :: 0 <= i < |users| ==> users[i].id == i + 1)
    && (forall i, j :: 0 <= i < j < |users| ==> users[i].email != users[j].email)
  }

  /** Index of the first user with this email: what `users.find` returns. */
  function IndexOfEmail(users: seq<User>, email: string): (r: Option<nat>)
    ensures r.Some? ==> r.value < |users| && users[r.value].email == email
    ensures r.Some? ==> forall j :: 0 <= j < r.value ==> users[j].email != email
    ensures r.None? ==> forall j :: 0 <= j < |users| ==> users[j].email != email
  {
    if users == [] then None
    else if users[0].email == email then Some(0)
    else match IndexOfEmail(users[1..], email)
      case None => None
      case Some(i) => Some(i + 1)
  }

  /** Registration as a function of the list before the call: its result and
      the list after it. */
  function RegisterStep(users: seq<User>, email: Field, password: Field, name: Field, salt: int)
    : (r: (AuthResult, seq<User>))
    ensures r.0.BadRequest? <==> !Truthy(email) || !Truthy(password) || !Truthy(name)
    ensures r.0.BadRequest? ==> r == (BadRequest(REGISTER_FIELDS_MSG), users)
    ensures Truthy(email) && Truthy(password) && Truthy(name) ==>
              ((exists i :: 0 <= i < |users| && users[i].email == email.value) <==> r.0.Conflict?)
    ensures r.0.Conflict? ==> r == (Conflict(USER_EXISTS_MSG), users)
    ensures (&& Truthy(email) && Truthy(password) && Truthy(name)
             && (forall i :: 0 <= i < |users| ==> users[i].email != email.value)) ==> r.0.Ok?
    ensures r.0.Ok? ==>
              var u := User(|users| + 1, name.value, email.value, Hash(password.value, COST, salt));
              && r.1 == users + [u]
              && r.0 == Ok(Token(u.id, u.email), Public(u))
    ensures r.0.BadRequest? || r.0.Conflict? || r.0.Ok?
  {
    if !Truthy(email) || !Truthy(password) || !Truthy(name) then
      (BadRequest(REGISTER_FIELDS_MSG), users)
    else if IndexOfEmail(users, email.value).Some? then
      (Conflict(USER_EXISTS_MSG), users)
    else
      var u := User(|users| + 1, name.value, email.value, Hash(password.value, COST, salt));
      (Ok(Token(u.id, u.email), Public(u)), users + [u])
  }

  /** Login as a function of the list: a missing field is a bad request; an
      unknown email and a wrong password give one and the same answer. */
  function LoginOutcome(users: seq<User>, email: Field, password: Field): (r: AuthResult)
    ensures r.BadRequest? <==> !Truthy(email) || !Truthy(password)
    ensures r.BadRequest? ==> r.msg == LOGIN_FIELDS_MSG
    ensures r.Unauthorized? ==> r.msg == INVALID_CREDENTIALS_MSG
    ensures r.Ok? <==>
              && Truthy(email) && Truthy(password)
              && IndexOfEmail(users, email.value).Some?
              && Matches(password.value, users[IndexOfEmail(users, email.value).value].password)
    ensures r.Ok? ==>
              var u := users[IndexOfEmail(users, email.value).value];
              r.token == Token(u.id, u.email) && r.user == Public(u)
    ensures r.BadRequest? || r.Unauthorized? || r.Ok?
  {
    if !Truthy(email) || !Truthy(password) then BadRequest(LOGIN_FIELDS_MSG)
    else match IndexOfEmail(users, email.value)
      case None => Unauthorized(INVALID_CREDENTIALS_MSG)
      case Some(i) =>
        if !Matches(password.value, users[i].password) then Unauthorized(INVALID_CREDENTIALS_MSG)
        else Ok(Token(users[i].id, users[i].email), Public(users[i]))
  }

  /** Registration keeps ids equal to position + 1 and emails distinct. */
  lemma RegisterKeepsWellFormed(users: seq<User>, email: Field, password: Field, name: Field, salt: int)
    requires WellFormed(users)
    ensures WellFormed(RegisterStep(users, email, password, name, salt).1)
  {
  }

  /** A second registration with an email already registered is a conflict,
      whatever password and name it carries. */
  lemma RegisterTwiceConflicts(users: seq<User>, email: Field, password: Field, name: Field, salt: int,
                               password2: Field, name2: Field, salt2: int)
    requires RegisterStep(users, email, password, name, salt).0.Ok?
    requires Truthy(password2) && Truthy(name2)
    ensures var after := RegisterStep(users, email, password, name, salt).1;
            RegisterStep(after, email, password2, name2, salt2) == (Conflict(USER_EXISTS_MSG), after)
  {
    var after := RegisterStep(users, email, password, name, salt).1;
    assert after[|users|].email == email.value;
  }

  /** After a successful registration, logging in with the same email and
      password succeeds and yields the new user's id. */
  lemma LoginAfterRegister(users: seq<User>, email: Field, password: Field, name: Field, salt: int)
    requires RegisterStep(users, email, password, name, salt).0.Ok?
    ensures var after := RegisterStep(users, email, password, name, salt).1;
            LoginOutcome(after, email, password) ==
              Ok(Token(|users| + 1, email.value), PublicUser(|users| + 1, name.value, email.value))
  {
    var after := RegisterStep(users, email, password, name, salt).1;
    assert IndexOfEmail(users, email.value).None?;
    var k := IndexOfEmail(after, email.value);
    assert after[|users|].email == email.value;
    assert forall j :: 0 <= j < |users| ==> after[j] == users[j];
    assert k == Some(|users|);
    HashMatches(password.value, COST, salt);
  }

  /** On a well-formed list, login succeeds exactly when some user has the
      email and the password matches that user's digest. */
  lemma LoginSucceedsIff(users: seq<User>, email: Field, password: Field)
    requires WellFormed(users)
    ensures LoginOutcome(users, email, password).Ok? <==>
              && Truthy(email) && Truthy(password)
              && exists i :: 0 <= i < |users| && users[i].email == email.value
                                              && Matches(password.value, users[i].password)
  {
  }

  /** The in-memory credential store of the authentication routes. */
  class Registry {
    var users: seq<User>

    ghost predicate Valid()
      reads this
    {
      WellFormed(users)
    }

    /** The module starts with an empty list. */
    constructor ()
      ensures Valid() && users == []
    {
      users := [];
    }

    /** `users.find(u => u.email === email)`: a front-to-back scan. */
    method FindByEmail(email: string) returns (u: Option<User>)
      ensures u.None? <==> IndexOfEmail(users, email).None?
      ensures u.Some? ==> u.value == users[IndexOfEmail(users, email).value]
    {
      var i := 0;
      while i < |users|
        invariant 0 <= i <= |users|
        invariant forall j :: 0 <= j < i ==> users[j].email != email
      {
        if users[i].email == email {
          return Some(users[i]);
        }
        i := i + 1;
      }
      return None;
    }

    /** POST /register: validate, reject a known email, then append the new
        user with a hashed password and id `users.length + 1`. */
    method Register(email: Field, password: Field, name: Field, salt: int) returns (r: AuthResult)
      requires Valid()
      modifies this
      ensures Valid()
      ensures (r, users) == RegisterStep(old(users), email, password, name, salt)
    {
      RegisterKeepsWellFormed(users, email, password, name, salt);
      if !Truthy(email) || !Truthy(password) || !Truthy(name) {
        return BadRequest(REGISTER_FIELDS_MSG);
      }
      var existing := FindByEmail(email.value);
      if existing.Some? {
        return Conflict(USER_EXISTS_MSG);
      }
      var hashed := Hash(password.value, COST, salt);
      var user := User(|users| + 1, name.value, email.value, hashed);
      users := users + [user];
      r := Ok(Token(user.id, user.email), Public(user));
    }

    /** POST /login: validate, look the email up, compare the password. */
    method Login(email: Field, password: Field) returns (r: AuthResult)
      ensures r == LoginOutcome(users, email, password)
    {
      if !Truthy(email) || !Truthy(password) {
        return BadRequest(LOGIN_FIELDS_MSG);
      }
      var user := FindByEmail(email.value);
      if user.None? {
        return Unauthorized(INVALID_CREDENTIALS_MSG);
      }
      if !Matches(password.value, user.value.password) {
        return Unauthorized(INVALID_CREDENTIALS_MSG);
      }
      r := Ok(Token(user.value.id, user.value.email), Public(user.value));
    }
  }
}
