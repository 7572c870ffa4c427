/**
 * The user table: lookup by email and by id, and registration of a new user
 * with a hashed password. bcrypt is abstract: `kdf(salt, password, cost)` is
 * its digest function, and the random salt of a new hash is a parameter.
 */
module Users {
  import opened Wrappers

  /** The digest function of the password hash: salt, password and cost factor to digest. */
  type Kdf = (string, string, nat) -> string

  /** A stored bcrypt hash: its cost factor, its salt and its digest. */
  datatype PasswordHash = PasswordHash(cost: nat, salt: string, digest: string)

  /** The cost factor of every hash the service creates. */
  const BcryptRounds: nat := 10

  const EmailTaken := "Email already registered"

  /** `bcrypt.hash(password, cost)` with the salt it drew. */
  function Hash(kdf: Kdf, password: string, salt: string, cost: nat): (h: PasswordHash)
    ensures h.cost == cost && h.salt == salt
    ensures Compare(kdf, password, h)
  {
    PasswordHash(cost, salt, kdf(salt, password, cost))
  }

  /** `bcrypt.compare(password, hash)`: the digest recomputed with the hash's own salt and cost. */
  predicate Compare(kdf: Kdf, password: string, h: PasswordHash) {
    kdf(h.salt, password, h.cost) == h.digest
  }

  /** A stored user. The record holds the hash only; there is no field for the password itself. */
  datatype User = User(id: nat, email: string, passwordHash: PasswordHash)

  /** The first user with email `email`, or none. */
  function WithEmail(users: seq<User>, email: string): (r: Option<User>)
    ensures r.None? <==> forall u :: u in users ==> u.email != email
    ensures r.Some? ==> r.value in users && r.value.email == email
  {
    if users == [] then None
    else if users[0].email == email then Some(users[0])
    else WithEmail(users[1..], email)
  }

  /** The first user with id `id`, or none. */
  function WithId(users: seq<User>, id: nat): (r: Option<User>)
    ensures r.None? <==> forall u :: u in users ==> u.id != id
    ensures r.Some? ==> r.value in users && r.value.id == id
  {
    if users == [] then None
    else if users[0].id == id then Some(users[0])
    else WithId(users[1..], id)
  }

  predicate EmailsDistinct(users: seq<User>) {
    forall i, j :: 0 <= i < j < |users| ==> users[i].email != users[j].email
  }

  predicate UserIdsDistinct(users: seq<User>) {
    forall i, j :: 0 <= i < j < |users| ==> users[i].id != users[j].id
  }

  /** With unique emails, the user found for an email is the only one with it. */
  lemma {:induction false} WithEmailUnique(users: seq<User>, u: User)
    requires EmailsDistinct(users) && u in users
    ensures WithEmail(users, u.email) == Some(u)
  {
    if users[0] != u {
      assert users[0].email != u.email by {
        var j :| 0 <= j < |users| && users[j] == u;
        assert j != 0;
      }
      assert u in users[1..];
      WithEmailUnique(users[1..], u);
    }
  }

  /** The table of users; `nextId` is the id the store assigns next. */
  class UsersService {
    var users: seq<User>
    var nextId: nat
    const kdf: Kdf

    ghost predicate Valid()
      reads this
    {
      && EmailsDistinct(users)
      && UserIdsDistinct(users)
      && (forall i :: 0 <= i < |users| ==> users[i].id < nextId)
    }

    constructor (kdf: Kdf)
      ensures Valid() && users == [] && nextId == 1 && this.kdf == kdf
    {
      users, nextId, this.kdf := [], 1, kdf;
    }

    /** The user with exactly this email, or none. */
    function FindByEmail(email: string): (r: Option<User>)
      reads this
      ensures r.None? <==> forall u :: u in users ==> u.email != email
      ensures r.Some? ==> r.value in users && r.value.email == email
    {
      WithEmail(users, email)
    }

    /** The user with exactly this id, or none. */
    function FindById(id: nat): (r: Option<User>)
      reads this
      ensures r.None? <==> forall u :: u in users ==> u.id != id
      ensures r.Some? ==> r.value in users && r.value.id == id
    {
      WithId(users, id)
    }

    /**
     * Registers `email` with the cost-10 hash of `password` (drawn with
     * `salt`), unless a user already has that email: then it fails with
     * "Email already registered" and the table is unchanged.
     */
    method CreateUser(email: string, password: string, salt: string) returns (r: Result<User, string>)
      requires Valid()
      modifies this
      ensures Valid()
      ensures r.Failure? <==> old(FindByEmail(email)).Some?
      ensures r.Failure? ==> r.error == EmailTaken && unchanged(this)
      ensures r.Success? ==>
        && r.value == User(old(nextId), email, Hash(kdf, password, salt, BcryptRounds))
        && users == old(users) + [r.value]
        && nextId == old(nextId) + 1
      ensures r.Success? ==> FindByEmail(email) == Some(r.value) && Compare(kdf, password, r.value.passwordHash)
    {
      if FindByEmail(email).Some? {
        return Failure(EmailTaken);
      }
      var user := User(nextId, email, Hash(kdf, password, salt, BcryptRounds));
      users := users + [user];
      nextId := nextId + 1;
      WithEmailUnique(users, user);
      r := Success(user);
    }
  }
}
