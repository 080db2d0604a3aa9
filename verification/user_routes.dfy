/** The account routes: registration and login. */
module UserRoutes {
  import opened Wrappers
  import opened Errors
  import opened PasswordHasher
  import opened TokenCodec
  import opened Database
  import opened Security

  /** The body of a successful login response. */
  datatype LoginResponse = LoginResponse(accessToken: Token, tokenType: string)

  /** `register`: refuse an email that is already stored; otherwise store the bcrypt hash
      of the password (never the password itself) under a new row and acknowledge. The
      hash salt is the randomness the hasher would draw; a password the hasher refuses
      propagates its `ValueError` and stores nothing. */
  function Register(store: Store, email: string, password: string, salt: Salt)
    : (r: Transition<string>)
    ensures (exists u :: u in store.users && u.email == email) ==>
      r == Transition(store, Err(UserExistsError))
    ensures (forall u :: u in store.users ==> u.email != email) && !Acceptable(password) ==>
      r == Transition(store, Err(Refusal(password)))
    ensures (forall u :: u in store.users ==> u.email != email) && Acceptable(password) ==>
      && r.response == Ok("User created")
      && r.store.posts == store.posts
      && r.store.comments == store.comments
      && |r.store.users| == |store.users| + 1
      && r.store.users[..|store.users|] == store.users
      && r.store.users[|store.users|].email == email
      && Hash(password, salt) == Ok(r.store.users[|store.users|].password)
      && forall u :: u in store.users ==> u.id < r.store.users[|store.users|].id
    ensures UniqueEmails(store.users) ==> UniqueEmails(r.store.users)
    ensures WellFormed(store) ==> WellFormed(r.store)
  {
    if GetUser(store.users, email).Some? then Transition(store, Err(UserExistsError))
    else
      match Hash(password, salt)
      case Err(e) => Transition(store, Err(e))
      case Ok(hashed) =>
        match InsertUser(store.users, email, hashed)
        case Err(e) => Transition(store, Err(e))
        case Ok(users) =>
          var store' := store.(users := users);
          assert CommentsReferencePosts(store) ==> CommentsReferencePosts(store');
          Transition(store', Ok("User created"))
  }

  /** `login`: authenticate, then issue a bearer token for the user's email. */
  function Login(users: seq<UserRow>, email: string, password: string, now: int)
    : (r: Result<LoginResponse, Error>)
    ensures r.Err? ==> r.error in {CredentialsError, PasswordTooLong, PasswordHasNul}
    ensures Acceptable(password) && r.Err? ==> r.error == CredentialsError
    ensures (forall u :: u in users ==> u.email != email) ==> r == Err(CredentialsError)
    ensures r.Ok? ==> exists u :: u in users && u.email == email && Verify(password, u.password) == Ok(true)
    ensures UniqueEmails(users) && (exists u :: u in users && u.email == email && Verify(password, u.password) == Ok(true))
      ==> r.Ok?
    ensures r.Ok? ==>
      && r.value.tokenType == "bearer"
      && DecodeAt(r.value.accessToken, now) == Valid(Claims(Some(email), Some(now + 1800)))
  {
    match AuthenticateUser(users, email, password)
    case Err(e) => Err(e)
    case Ok(user) => Ok(LoginResponse(CreateAccessToken(user.email, now), "bearer"))
  }

  /** A password that fails verification for a stored email fails exactly like an unknown
      email. */
  lemma WrongPasswordLikeUnknownEmail(users: seq<UserRow>, known: string, password: string, unknown: string, other: string, now: int)
    requires UniqueEmails(users)
    requires exists u :: u in users && u.email == known && Verify(password, u.password) == Ok(false)
    requires forall u :: u in users ==> u.email != unknown
    ensures Login(users, known, password, now) == Login(users, unknown, other, now) == Err(CredentialsError)
  {
    var u :| u in users && u.email == known && Verify(password, u.password) == Ok(false);
    assert GetUser(users, known) == Some(u);
  }

  /** A password the hasher refuses (one containing NUL, say) tells a stored email from an
      unknown one: the lookup runs before the hasher, so only a stored email reaches the
      hasher's `ValueError`, while an unknown email still gets the credentials error. */
  lemma RefusedPasswordRevealsAccount(users: seq<UserRow>, known: string, unknown: string, password: string, now: int)
    requires (exists u :: u in users && u.email == known)
    requires forall u :: u in users ==> u.email != unknown
    requires !Acceptable(password)
    ensures Login(users, known, password, now) == Err(Refusal(password))
    ensures Login(users, unknown, password, now) == Err(CredentialsError)
    ensures Login(users, known, password, now) != Login(users, unknown, password, now)
  {
  }

  /** A row appended for an email no earlier row holds is the row authentication finds,
      and it authenticates every password its hash verifies. */
  lemma AppendedUserAuthenticates(users: seq<UserRow>, row: UserRow, password: string)
    requires forall u :: u in users ==> u.email != row.email
    requires Verify(password, row.password) == Ok(true)
    ensures AuthenticateUser(users + [row], row.email, password) == Ok(row)
  {
    assert row in users + [row];
    assert GetUser(users + [row], row.email) == Some(row);
  }

  /** Registering a fresh email succeeds exactly for a password the hasher accepts, and
      then logging in with the same password succeeds with a token naming that email. */
  lemma RegisterThenLogin(store: Store, email: string, password: string, salt: Salt, now: int)
    requires forall u :: u in store.users ==> u.email != email
    ensures Register(store, email, password, salt).response.Ok? <==> Acceptable(password)
    ensures Acceptable(password) ==>
      var s := Register(store, email, password, salt).store;
      && Login(s.users, email, password, now).Ok?
      && DecodeAt(Login(s.users, email, password, now).value.accessToken, now).claims.sub == Some(email)
  {
    if Acceptable(password) {
      var s := Register(store, email, password, salt).store;
      assert Hash(password, salt).Ok?;
      var row := s.users[|store.users|];
      assert s.users == store.users + [row];
      AppendedUserAuthenticates(store.users, row, password);
    }
  }

  /** A token obtained by logging in identifies, until it expires, the very user row
      the login authenticated. */
  lemma LoginTokenIdentifiesUser(users: seq<UserRow>, email: string, password: string, issued: int, at: int)
    requires Login(users, email, password, issued).Ok?
    requires at <= issued + 1800
    ensures GetCurrentUser(users, Login(users, email, password, issued).value.accessToken, at)
         == AuthenticateUser(users, email, password)
  {
    var token := Login(users, email, password, issued).value.accessToken;
    assert DecodeAt(token, at) == Valid(Claims(Some(email), Some(issued + 1800)));
  }

  /** Registering the same email twice: once the first attempt succeeded, the second is
      refused with 400 and leaves the store exactly as the first attempt left it. */
  lemma RegisterTwiceRefused(store: Store, email: string, p1: string, s1: Salt, p2: string, s2: Salt)
    requires forall u :: u in store.users ==> u.email != email
    ensures Register(store, email, p1, s1).response.Ok? <==> Acceptable(p1)
    ensures var first := Register(store, email, p1, s1);
      first.response.Ok? ==>
      Register(first.store, email, p2, s2) == Transition(first.store, Err(UserExistsError))
  {
    var first := Register(store, email, p1, s1);
    if first.response.Ok? {
      assert first.store.users[|store.users|] in first.store.users;
    }
  }
}
