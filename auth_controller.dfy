/**
 * AuthController: registration into the user table, log-in by e-mail address,
 * and token renewal.
 *
 * Password hashing, token creation and the validator's e-mail syntax check are
 * parameters: `hash`, `jwt` and `isEmail`. The id of a new user is given, fresh.
 */
module AuthController {

  import opened Options
  import opened Request
  import opened Users
  import opened Http

  /** `Length(min: 6)` on the password. */
  const MinPasswordLength: nat := 6

  /** The `user` part of the register and refresh responses. */
  datatype AccountView = AccountView(id: UserId, email: string, displayName: string)

  function AccountOf(p: Profile): (v: AccountView)
    ensures v.id == p.id && v.email == p.email && v.displayName == p.displayName
  {
    AccountView(p.id, p.email, p.displayName)
  }

  // ---------------------------------------------------------------------------
  // Registration

  /**
   * The `Collection` of `register`: exactly the three fields; the e-mail not blank
   * and an address, the password not blank and of at least six characters, the
   * display name not blank and of at most 255.
   */
  predicate RegisterBodyValid(body: Body, isEmail: string -> bool)
  {
    && CollectionShape(body, {"email", "password", "displayName"}, {})
    && NotBlank(body["email"]) && EmailFormat(body["email"], isEmail)
    && NotBlank(body["password"]) && MinLength(body["password"], MinPasswordLength)
    && NotBlank(body["displayName"]) && MaxLength(body["displayName"], MaxDisplayNameLength)
  }

  /** The status, the user table afterwards, and the user created (201 only). */
  datatype RegisterOutcome = RegisterOutcome(status: int, users: seq<Profile>, created: Option<Profile>)

  /** The user `register` stores: the address, the password's hash, the display name, defaults for the rest. */
  function NewAccount(id: UserId, email: string, passwordHash: string, displayName: string): Profile
  {
    Profile(id, email, passwordHash, displayName, DefaultTimezone, true)
  }

  /**
   * `register`: 400 on a validation failure, 422 when the address is taken, 500
   * when a non-string reaches a typed parameter or when the database refuses an
   * address wider than its column, otherwise 201 and one new user.
   */
  function RegisterSpec(users: seq<Profile>, body: Body, isEmail: string -> bool, hash: string -> string, newId: UserId): RegisterOutcome
  {
    if !RegisterBodyValid(body, isEmail) then RegisterOutcome(StatusBadRequest, users, None)
    else if !body["email"].JStr? then RegisterOutcome(StatusServerError, users, None)
    else if FindOneByEmail(users, body["email"].s).Some? then RegisterOutcome(StatusUnprocessable, users, None)
    else if !body["password"].JStr? || !body["displayName"].JStr? then RegisterOutcome(StatusServerError, users, None)
    else if |body["email"].s| > MaxEmailLength then RegisterOutcome(StatusServerError, users, None)
    else
      var p := NewAccount(newId, body["email"].s, hash(body["password"].s), body["displayName"].s);
      RegisterOutcome(StatusCreated, users + [p], Some(p))
  }

  /** POST /api/auth/register. */
  method Register(dir: UserDirectory, body: Body, isEmail: string -> bool, hash: string -> string,
                  jwt: Profile -> string, newId: UserId)
    returns (status: int, token: Option<string>, account: Option<AccountView>)
    requires dir.Valid()
    requires forall i :: 0 <= i < |dir.users| ==> dir.users[i].id != newId
    modifies dir`users
    ensures dir.Valid()
    ensures var o := RegisterSpec(old(dir.Profiles()), body, isEmail, hash, newId);
      && status == o.status
      && dir.Profiles() == o.users
      && token == (if o.created.Some? then Some(jwt(o.created.value)) else None)
      && account == (if o.created.Some? then Some(AccountOf(o.created.value)) else None)
    ensures status == StatusCreated ==>
      |dir.users| == |old(dir.users)| + 1 && dir.users[..|old(dir.users)|] == old(dir.users)
      && fresh(dir.users[|old(dir.users)|])
    ensures status != StatusCreated ==> dir.users == old(dir.users)
  {
    if !RegisterBodyValid(body, isEmail) {
      return StatusBadRequest, None, None;
    }
    if !body["email"].JStr? {
      return StatusServerError, None, None;
    }
    var email := body["email"].s;
    if FindOneByEmail(dir.Profiles(), email).Some? {
      return StatusUnprocessable, None, None;
    }
    if !body["password"].JStr? || !body["displayName"].JStr? {
      return StatusServerError, None, None;
    }
    var user := new User(newId);
    user.SetEmail(email);
    user.SetPasswordHash(hash(body["password"].s));
    user.SetDisplayName(body["displayName"].s);
    var ok := dir.Insert(user);
    if !ok {
      return StatusServerError, None, None;
    }
    var p := user.State();
    status, token, account := StatusCreated, Some(jwt(p)), Some(AccountOf(p));
  }

  /** The field constraints of `register`, in terms of the text of each field. */
  lemma RegisterValidation(body: Body, isEmail: string -> bool)
    ensures RegisterBodyValid(body, isEmail) <==>
      && body.Keys == {"email", "password", "displayName"}
      && AsString(body["email"]) != "" && isEmail(AsString(body["email"]))
      && AsString(body["password"]) != "" && |AsString(body["password"])| >= MinPasswordLength
      && AsString(body["displayName"]) != "" && |AsString(body["displayName"])| <= MaxDisplayNameLength
  {
    if body.Keys == {"email", "password", "displayName"} {
      NotBlankIsNonEmptyText(body["email"]);
      NotBlankIsNonEmptyText(body["password"]);
      NotBlankIsNonEmptyText(body["displayName"]);
    }
  }

  /**
   * A blank or malformed address, a password under six characters, or a blank or
   * over-long display name gets 400 and adds no user.
   */
  lemma RegisterRejectsInvalid(users: seq<Profile>, body: Body, isEmail: string -> bool, hash: string -> string, newId: UserId)
    requires body.Keys == {"email", "password", "displayName"}
    requires
      || AsString(body["email"]) == "" || !isEmail(AsString(body["email"]))
      || |AsString(body["password"])| < MinPasswordLength
      || AsString(body["displayName"]) == "" || |AsString(body["displayName"])| > MaxDisplayNameLength
    ensures RegisterSpec(users, body, isEmail, hash, newId) == RegisterOutcome(StatusBadRequest, users, None)
  {
    RegisterValidation(body, isEmail);
  }

  /** An address some user already has gets 422 and adds no user. */
  lemma RegisterEmailTaken(users: seq<Profile>, body: Body, isEmail: string -> bool, hash: string -> string, newId: UserId, i: int)
    requires RegisterBodyValid(body, isEmail) && body["email"].JStr?
    requires 0 <= i < |users| && users[i].email == body["email"].s
    ensures RegisterSpec(users, body, isEmail, hash, newId) == RegisterOutcome(StatusUnprocessable, users, None)
  {
  }

  /**
   * An address longer than the `email` column adds no user, even when the body
   * passes validation: it gets 422 when taken and otherwise 500, since nothing
   * checks its length before the insert.
   */
  lemma RegisterEmailTooLong(users: seq<Profile>, body: Body, isEmail: string -> bool, hash: string -> string, newId: UserId)
    requires RegisterBodyValid(body, isEmail)
    requires IsText(body, "email") && IsText(body, "password") && IsText(body, "displayName")
    requires |body["email"].s| > MaxEmailLength
    ensures RegisterSpec(users, body, isEmail, hash, newId)
         == RegisterOutcome(if EmailTaken(users, body["email"].s) then StatusUnprocessable else StatusServerError, users, None)
  {
  }

  /**
   * A successful registration appends exactly one user: the given address and
   * display name, the hash of the password, the default timezone; and the
   * table keeps its unique addresses and ids.
   */
  lemma RegisterCreates(users: seq<Profile>, body: Body, isEmail: string -> bool, hash: string -> string, newId: UserId)
    requires DirectoryInvariant(users)
    requires forall i :: 0 <= i < |users| ==> users[i].id != newId
    requires RegisterSpec(users, body, isEmail, hash, newId).status == StatusCreated
    ensures var o := RegisterSpec(users, body, isEmail, hash, newId);
      && IsText(body, "email") && IsText(body, "password") && IsText(body, "displayName")
      && !EmailTaken(users, body["email"].s) && |body["email"].s| <= MaxEmailLength
      && o.users == users + [o.created.value]
      && o.created.value == NewAccount(newId, body["email"].s, hash(body["password"].s), body["displayName"].s)
      && DirectoryInvariant(o.users)
  {
  }

  /** Every outcome of `register` keeps the user table's addresses and ids unique. */
  lemma RegisterKeepsDirectory(users: seq<Profile>, body: Body, isEmail: string -> bool, hash: string -> string, newId: UserId)
    requires DirectoryInvariant(users)
    requires forall i :: 0 <= i < |users| ==> users[i].id != newId
    ensures DirectoryInvariant(RegisterSpec(users, body, isEmail, hash, newId).users)
    ensures RegisterSpec(users, body, isEmail, hash, newId).status != StatusCreated ==>
      RegisterSpec(users, body, isEmail, hash, newId).users == users
  {
  }

  /**
   * The password reaches the user table only through its hash: two requests
   * that differ only in valid passwords with the same hash have the same outcome.
   */
  lemma RegisterStoresOnlyHash(users: seq<Profile>, body: Body, isEmail: string -> bool, hash: string -> string,
                               newId: UserId, p1: string, p2: string)
    requires |p1| >= MinPasswordLength && |p2| >= MinPasswordLength && hash(p1) == hash(p2)
    ensures RegisterSpec(users, body["password" := JStr(p1)], isEmail, hash, newId)
         == RegisterSpec(users, body["password" := JStr(p2)], isEmail, hash, newId)
  {
    var b1, b2 := body["password" := JStr(p1)], body["password" := JStr(p2)];
    assert b1.Keys == b2.Keys;
    assert forall k :: k in b1 && k != "password" ==> b1[k] == b2[k];
  }

  // ---------------------------------------------------------------------------
  // Log-in and renewal

  /** The address `login` looks up: the `email` field when it holds text. */
  function LoginEmail(body: Body): Option<string>
  {
    if IsText(body, "email") then Some(body["email"].s) else None
  }

  /**
   * POST /api/auth/login: 404 exactly when no user has the address given,
   * otherwise a token for that user. The password is not looked at.
   */
  function Login(users: seq<Profile>, body: Body, jwt: Profile -> string): (r: (int, Option<string>))
    ensures r.0 == StatusNotFound <==> LoginEmail(body).None? || !EmailTaken(users, LoginEmail(body).value)
    ensures r.0 == StatusOk <==> r.0 != StatusNotFound
    ensures r.1.Some? <==> r.0 == StatusOk
    ensures r.0 == StatusOk ==> exists i :: 0 <= i < |users| && users[i].email == LoginEmail(body).value
                                            && r.1 == Some(jwt(users[i]))
  {
    var found := if LoginEmail(body).Some? then FindOneByEmail(users, LoginEmail(body).value) else None;
    if found.None? then (StatusNotFound, None)
    else (StatusOk, Some(jwt(found.value)))
  }

  /** With unique addresses, the token is the one of the user holding the address. */
  lemma LoginIssuesTokenFor(users: seq<Profile>, body: Body, jwt: Profile -> string, i: int)
    requires DirectoryInvariant(users) && 0 <= i < |users|
    requires IsText(body, "email") && users[i].email == body["email"].s
    ensures Login(users, body, jwt) == (StatusOk, Some(jwt(users[i])))
  {
    FindOneByEmailUnique(users, body["email"].s, i);
  }

  /** `login` answers the same whatever the password field holds, or whether it is there. */
  lemma LoginIgnoresPassword(users: seq<Profile>, body: Body, jwt: Profile -> string, password: Json)
    ensures Login(users, body["password" := password], jwt) == Login(users, body, jwt)
    ensures Login(users, body - {"password"}, jwt) == Login(users, body, jwt)
  {
    assert LoginEmail(body["password" := password]) == LoginEmail(body);
    assert LoginEmail(body - {"password"}) == LoginEmail(body);
  }

  /** POST /api/auth/refresh: 401 without a user, otherwise a new token for that user. */
  function Refresh(auth: Option<Profile>, jwt: Profile -> string): (r: (int, Option<(string, AccountView)>))
    ensures r.0 == StatusUnauthorized <==> auth.None?
    ensures r.0 == StatusOk <==> auth.Some?
    ensures auth.Some? ==> r.1 == Some((jwt(auth.value), AccountView(auth.value.id, auth.value.email, auth.value.displayName)))
    ensures auth.None? ==> r.1.None?
  {
    if auth.None? then (StatusUnauthorized, None)
    else (StatusOk, Some((jwt(auth.value), AccountOf(auth.value))))
  }
}
