/**
 * The `user` table: the User record with its setters, and the directory of
 * stored users with its unique e-mail index. The fields follow the columns of
 * the `user` table.
 */
module Users {

  import opened Options

  /** A user's identifier (a UUID in the application; opaque here). */
  type UserId = nat

  /** The `timezone` column's default. */
  const DefaultTimezone := "America/Sao_Paulo"

  /** The width of the `email` column, VARCHAR(180); no validation checks it. */
  const MaxEmailLength: nat := 180

  /** `Length(max: 255)` on the display name, in `register` and `patch` alike (the column's width). */
  const MaxDisplayNameLength: nat := 255

  /** One stored user. `createdAt` says whether the creation timestamp is set. */
  datatype Profile = Profile(
    id: UserId,
    email: string,
    passwordHash: string,
    displayName: string,
    timezone: string,
    createdAt: bool)

  /** No two users share an e-mail address (the unique index on `email`) or an id. */
  predicate DirectoryInvariant(users: seq<Profile>)
  {
    forall i, j :: 0 <= i < j < |users| ==> users[i].email != users[j].email && users[i].id != users[j].id
  }

  /** Some stored user has this e-mail address. */
  predicate EmailTaken(users: seq<Profile>, email: string)
  {
    exists i :: 0 <= i < |users| && users[i].email == email
  }

  /** `findOneByEmail`: the user with exactly this address, or none. */
  function FindOneByEmail(users: seq<Profile>, email: string): (r: Option<Profile>)
    ensures r.None? <==> !EmailTaken(users, email)
    ensures r.Some? ==> r.value in users && r.value.email == email
  {
    if |users| == 0 then None
    else if users[0].email == email then Some(users[0])
    else
      var r := FindOneByEmail(users[1..], email);
      assert r.None? <==> !EmailTaken(users, email) by {
        if EmailTaken(users, email) {
          var i :| 0 <= i < |users| && users[i].email == email;
          assert users[1..][i - 1] == users[i];
        }
      }
      r
  }

  /** With unique addresses, the user found is the only one with that address. */
  lemma FindOneByEmailUnique(users: seq<Profile>, email: string, i: int)
    requires DirectoryInvariant(users) && 0 <= i < |users| && users[i].email == email
    ensures FindOneByEmail(users, email) == Some(users[i])
  {
    if i > 0 {
      assert users[0].email != email;
      assert users[1..][i - 1] == users[i];
      FindOneByEmailUnique(users[1..], email, i - 1);
    }
  }

  /** The User entity. */
  class User {
    var id: UserId
    var email: string
    var passwordHash: string
    var displayName: string
    var timezone: string
    var createdAt: bool

    /** A new user with a fresh id; the timezone has its default, the text fields are empty. */
    constructor (freshId: UserId)
      ensures id == freshId && email == "" && passwordHash == "" && displayName == ""
      ensures timezone == DefaultTimezone && createdAt
    {
      id := freshId;
      email := "";
      passwordHash := "";
      displayName := "";
      timezone := DefaultTimezone;
      createdAt := true;
    }

    method SetEmail(s: string)
      modifies this`email
      ensures email == s
    {
      email := s;
    }

    method SetPasswordHash(s: string)
      modifies this`passwordHash
      ensures passwordHash == s
    {
      passwordHash := s;
    }

    method SetDisplayName(s: string)
      modifies this`displayName
      ensures displayName == s
    {
      displayName := s;
    }

    method SetTimezone(s: string)
      modifies this`timezone
      ensures timezone == s
    {
      timezone := s;
    }

    /** The row this user is stored as. */
    function State(): Profile
      reads this
    {
      Profile(id, email, passwordHash, displayName, timezone, createdAt)
    }
  }

  /** The stored users, in insertion order. */
  class UserDirectory {
    var users: seq<User>

    ghost predicate Valid()
      reads this, users
    {
      && (forall i, j :: 0 <= i < j < |users| ==> users[i] != users[j])
      && DirectoryInvariant(Profiles())
    }

    /** The table's rows, one per stored user. */
    function Profiles(): seq<Profile>
      reads this, users
    {
      seq(|users|, i requires 0 <= i < |users| reads this, users => users[i].State())
    }

    constructor ()
      ensures Valid() && users == []
    {
      users := [];
    }

    /**
     * `persist` and `flush` of a new user. The database refuses a second user
     * with the same address (the unique index) and an address wider than its
     * column; ids are fresh.
     */
    method Insert(u: User) returns (ok: bool)
      requires Valid() && u !in users
      requires forall i :: 0 <= i < |users| ==> users[i].id != u.id
      modifies this`users
      ensures Valid()
      ensures ok <==> !EmailTaken(old(Profiles()), u.email) && |u.email| <= MaxEmailLength
      ensures users == if ok then old(users) + [u] else old(users)
      ensures Profiles() == if ok then old(Profiles()) + [u.State()] else old(Profiles())
    {
      ok := !EmailTaken(Profiles(), u.email) && |u.email| <= MaxEmailLength;
      if ok {
        users := users + [u];
        assert Profiles() == old(Profiles()) + [u.State()];
      }
    }
  }
}
