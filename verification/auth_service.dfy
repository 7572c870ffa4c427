/**
 * Registration, credential checking and token issue. Registration goes
 * through the user table; the credential check and the token payload are
 * decisions over a snapshot of that table. JWT signing is abstract: `sign`
 * turns a payload into a token.
 */
module Auth {
  import opened Wrappers
  import opened Users

  /** What registration hands back: the id and email, never the hash. */
  datatype PublicUser = PublicUser(id: nat, email: string)

  /** The claims the service signs: `sub` is the user id. */
  datatype Payload = Payload(sub: nat, email: string)

  datatype LoginResult = LoginResult(accessToken: string)

  /**
   * Registers a user and returns its public part; fails, with the table
   * unchanged, when the email is already registered.
   */
  method Register(users: UsersService, email: string, password: string, salt: string) returns (r: Result<PublicUser, string>)
    requires users.Valid()
    modifies users
    ensures users.Valid()
    ensures r.Failure? <==> old(users.FindByEmail(email)).Some?
    ensures r.Failure? ==> r.error == EmailTaken && unchanged(users)
    ensures r.Success? ==>
      && r.value == PublicUser(old(users.nextId), email)
      && users.nextId == old(users.nextId) + 1
      && users.users == old(users.users) + [User(r.value.id, email, Hash(users.kdf, password, salt, BcryptRounds))]
    ensures r.Success? ==>
      ValidateUser(users.users, users.kdf, email, password)
      == Some(User(r.value.id, email, Hash(users.kdf, password, salt, BcryptRounds)))
  {
    var created := users.CreateUser(email, password, salt);
    if created.Failure? {
      return Failure(created.error);
    }
    r := Success(PublicUser(created.value.id, created.value.email));
  }

  /**
   * The stored user when `email` is registered and `password` matches its
   * hash; none otherwise, the same none for both ways of failing.
   */
  function ValidateUser(users: seq<User>, kdf: Kdf, email: string, password: string): (r: Option<User>)
    ensures r.Some? <==> WithEmail(users, email).Some? && Compare(kdf, password, WithEmail(users, email).value.passwordHash)
    ensures r.Some? ==> r.value in users && r.value.email == email && Compare(kdf, password, r.value.passwordHash)
    ensures (forall u :: u in users ==> u.email != email) ==> r == None
  {
    match WithEmail(users, email)
    case None => None
    case Some(user) => if Compare(kdf, password, user.passwordHash) then Some(user) else None
  }

  /**
   * With unique emails, a registered user's credentials are accepted exactly
   * when the password matches the stored hash.
   */
  lemma ValidateRegistered(users: seq<User>, kdf: Kdf, u: User, password: string)
    requires EmailsDistinct(users) && u in users
    ensures ValidateUser(users, kdf, u.email, password) == if Compare(kdf, password, u.passwordHash) then Some(u) else None
  {
    WithEmailUnique(users, u);
  }

  /** `login`: the signed token of the payload with `sub` = the user id. */
  function Login(sign: Payload -> string, userId: nat, email: string): (r: LoginResult)
    ensures r.accessToken == sign(Payload(userId, email))
  {
    LoginResult(sign(Payload(userId, email)))
  }
}
