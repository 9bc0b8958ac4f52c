/**
 * The credential controller: registration with a duplicate-email check and
 * login that issues a signed token carrying the user's id and email.
 *
 * Password hashing, hash comparison and token signing are library calls; they
 * enter as function parameters about which nothing is assumed.
 */
module AuthController {
  import opened Wrappers
  import opened Seqs

  /** A stored user; `password` holds the hash, never the clear password. */
  datatype User = User(id: string, email: string, password: string)

  /** The claims signed into a login token. */
  datatype Claims = Claims(id: string, email: string)

  /** 400 "Email already exists", 401 "Invalid credentials". */
  datatype AuthError = EmailExists | InvalidCredentials

  /** What a handler answers, together with the users collection as it is afterwards. */
  datatype Response<T> = Response(result: Result<T, AuthError>, users: seq<User>)

  /** No two stored users share an email. */
  ghost predicate DistinctEmails(users: seq<User>) {
    forall i, j :: 0 <= i < j < |users| ==> users[i].email != users[j].email
  }

  /** No two stored users share an id. */
  ghost predicate UniqueUserIds(users: seq<User>) {
    forall i, j :: 0 <= i < j < |users| ==> users[i].id != users[j].id
  }

  /** `i` is the position of the first user with exactly this email. */
  ghost predicate FirstWithEmail(users: seq<User>, email: string, i: int) {
    && 0 <= i < |users|
    && users[i].email == email
    && forall j :: 0 <= j < i ==> users[j].email != email
  }

  function HasEmail(email: string): User -> bool {
    (u: User) => u.email == email
  }

  /** `users.find((u) => u.email === email)`, as a position: the comparison is exact. */
  function IndexOfEmail(users: seq<User>, email: string): (r: Option<nat>)
    ensures r.None? <==> forall k :: 0 <= k < |users| ==> users[k].email != email
    ensures r.Some? ==> FirstWithEmail(users, email, r.value)
  {
    FirstIndex(users, HasEmail(email))
  }

  /**
   * register: an email some stored user already has is refused and nothing is
   * written; otherwise one user with the fresh id, the email and the hash of
   * the password is appended.
   */
  function RegisterResponse(users: seq<User>, email: string, password: string, freshId: string, hash: string -> string)
    : (r: Response<()>)
    ensures r.result.Err? <==> exists k :: 0 <= k < |users| && users[k].email == email
    ensures r.result.Err? ==> r.result.error == EmailExists && r.users == users
    ensures r.result.Ok? ==> r.users == users + [User(freshId, email, hash(password))]
  {
    if IndexOfEmail(users, email).Some? then Response(Err(EmailExists), users)
    else Response(Ok(()), users + [User(freshId, email, hash(password))])
  }

  /** Registration keeps stored emails pairwise distinct. */
  lemma RegisterKeepsEmailsDistinct(users: seq<User>, email: string, password: string, freshId: string, hash: string -> string)
    requires DistinctEmails(users)
    ensures DistinctEmails(RegisterResponse(users, email, password, freshId, hash).users)
  {
  }

  /** Registering an email a second time is refused. */
  lemma RegisterTwiceFails(users: seq<User>, email: string, password: string, freshId: string, password': string, freshId': string, hash: string -> string)
    requires RegisterResponse(users, email, password, freshId, hash).result.Ok?
    ensures RegisterResponse(RegisterResponse(users, email, password, freshId, hash).users, email, password', freshId', hash)
         == Response(Err(EmailExists), RegisterResponse(users, email, password, freshId, hash).users)
  {
    var after := RegisterResponse(users, email, password, freshId, hash).users;
    assert after[|users|].email == email;
  }

  /**
   * login: the first user with exactly this email whose stored hash the
   * password verifies against gets a token signed over that user's id and
   * email; an unknown email and a wrong password give the same error.
   */
  function Login(
    users: seq<User>, email: string, password: string,
    compare: (string, string) -> bool, sign: (Claims, string) -> string, secret: string)
    : (r: Result<string, AuthError>)
    ensures r.Err? ==> r == Err(InvalidCredentials)
    ensures r.Ok? <==> exists i :: FirstWithEmail(users, email, i) && compare(password, users[i].password)
    ensures r.Ok? ==>
      exists i ::
        && FirstWithEmail(users, email, i)
        && r.value == sign(Claims(users[i].id, users[i].email), secret)
  {
    match IndexOfEmail(users, email)
    case None => Err(InvalidCredentials)
    case Some(i) =>
      if !compare(password, users[i].password) then Err(InvalidCredentials)
      else Ok(sign(Claims(users[i].id, users[i].email), secret))
  }

  lemma FirstWithEmailUnique(users: seq<User>, email: string, i: int, j: int)
    requires FirstWithEmail(users, email, i) && FirstWithEmail(users, email, j)
    ensures i == j
  {
  }

  /**
   * After a registration, logging in with the same email and password yields
   * a token for the new user, provided the hash comparison accepts a password
   * against its own hash.
   */
  lemma RegisterThenLogin(
    users: seq<User>, email: string, password: string, freshId: string, hash: string -> string,
    compare: (string, string) -> bool, sign: (Claims, string) -> string, secret: string)
    requires RegisterResponse(users, email, password, freshId, hash).result.Ok?
    requires compare(password, hash(password))
    ensures Login(RegisterResponse(users, email, password, freshId, hash).users, email, password, compare, sign, secret)
         == Ok(sign(Claims(freshId, email), secret))
  {
    var after := RegisterResponse(users, email, password, freshId, hash).users;
    assert FirstWithEmail(after, email, |users|);
    var i := IndexOfEmail(after, email).value;
    FirstWithEmailUnique(after, email, i, |users|);
  }

  /** The users collection, as loaded from and written back to the store. */
  class UserStore {
    var users: seq<User>

    constructor (initial: seq<User>)
      ensures users == initial
    {
      users := initial;
    }

    /** register: appends the new user in place. `freshId` is the generated uuid. */
    method Register(email: string, password: string, freshId: string, hash: string -> string)
      returns (result: Result<(), AuthError>)
      requires forall k :: 0 <= k < |users| ==> users[k].id != freshId
      modifies this
      ensures Response(result, users) == RegisterResponse(old(users), email, password, freshId, hash)
      ensures DistinctEmails(old(users)) ==> DistinctEmails(users)
      ensures UniqueUserIds(old(users)) ==> UniqueUserIds(users)
    {
      if DistinctEmails(users) {
        RegisterKeepsEmailsDistinct(users, email, password, freshId, hash);
      }
      if IndexOfEmail(users, email).Some? {
        return Err(EmailExists);
      }
      users := users + [User(freshId, email, hash(password))];
      result := Ok(());
    }
  }
}
