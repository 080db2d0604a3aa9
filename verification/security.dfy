/** The credential and token logic of the security module: token issuance, user lookup,
    password authentication and the classification of a presented bearer token. The wall
    clock is the explicit `now` (Unix seconds). */
module Security {
  import opened Wrappers
  import opened Errors
  import opened PasswordHasher
  import opened TokenCodec
  import opened Database

  const SecretKey := "1234"
  const Algorithm := "HS256"
  const Algorithms := [Algorithm]

  /** The validity window of an access token, in minutes: a positive half hour. */
  function AccessTokenExpireMinutes(): (m: int)
    ensures 0 < m && m * 60 == 1800
  {
    30
  }

  /** `jwt.decode` with the module's key and accepted algorithms. */
  function DecodeAt(token: Token, now: int): Decoded
  {
    Decode(token, SecretKey, Algorithms, now)
  }

  /** `create_access_token` with the validity window, in minutes, given explicitly (the
      window is what a test patches to a negative value). The token carries `email` as
      subject, decodes to exactly that subject until `now + minutes` minutes, and is
      reported expired afterwards. */
  function IssueToken(email: string, now: int, minutes: int): (t: Token)
    ensures forall at {:trigger DecodeAt(t, at)} :: at <= now + minutes * 60 ==>
      DecodeAt(t, at) == Valid(Claims(Some(email), Some(now + minutes * 60)))
    ensures forall at {:trigger DecodeAt(t, at)} :: now + minutes * 60 < at ==>
      DecodeAt(t, at) == Expired
  {
    var claims := Claims(Some(email), Some(now + minutes * 60));
    DecodeEncode(claims, SecretKey, Algorithm, Algorithms, now);
    Encode(claims, SecretKey, Algorithm)
  }

  /** `create_access_token`: a token for `email` valid for 30 minutes from `now`. */
  function CreateAccessToken(email: string, now: int): (t: Token)
    ensures forall at {:trigger DecodeAt(t, at)} :: at <= now + 1800 ==>
      DecodeAt(t, at) == Valid(Claims(Some(email), Some(now + 1800)))
    ensures forall at {:trigger DecodeAt(t, at)} :: now + 1800 < at ==>
      DecodeAt(t, at) == Expired
  {
    IssueToken(email, now, AccessTokenExpireMinutes())
  }

  /** `get_user`: the row whose email equals `email`, or nothing. With unique emails it is
      the only such row. */
  function GetUser(users: seq<UserRow>, email: string): (r: Option<UserRow>)
    ensures r.Some? ==> r.value in users && r.value.email == email
    ensures r.None? <==> forall u :: u in users ==> u.email != email
    ensures UniqueEmails(users) ==> forall u :: u in users && u.email == email ==> r == Some(u)
  {
    if |users| == 0 then None
    else if users[0].email == email then Some(users[0])
    else GetUser(users[1..], email)
  }

  /** `authenticate_user`: the stored row, when the email is known and the password
      verifies against its hash. An unknown email and a wrong password raise the same
      credentials exception; a password the hasher refuses, for a known email, propagates
      the hasher's `ValueError`. */
  function AuthenticateUser(users: seq<UserRow>, email: string, password: string)
    : (r: Result<UserRow, Error>)
    ensures r.Err? ==> r.error in {CredentialsError, PasswordTooLong, PasswordHasNul}
    ensures Acceptable(password) && r.Err? ==> r.error == CredentialsError
    ensures (forall u :: u in users ==> u.email != email) ==> r == Err(CredentialsError)
    ensures (exists u :: u in users && u.email == email) && !Acceptable(password) ==>
      r == Err(Refusal(password))
    ensures r.Ok? ==>
      r.value in users && r.value.email == email && Verify(password, r.value.password) == Ok(true)
    ensures UniqueEmails(users) ==>
      (r.Ok? <==> exists u :: u in users && u.email == email && Verify(password, u.password) == Ok(true))
  {
    match GetUser(users, email)
    case None => Err(CredentialsError)
    case Some(user) =>
      match Verify(password, user.password)
      case Err(e) => Err(e)
      case Ok(matches) => if !matches then Err(CredentialsError) else Ok(user)
  }

  /** `get_current_user`: an expired token raises "Token has expired"; a malformed token,
      a token without subject, and a subject with no user row all raise the credentials
      exception; otherwise the user row of the subject is returned. */
  function GetCurrentUser(users: seq<UserRow>, token: Token, now: int): (r: Result<UserRow, Error>)
    ensures r.Err? ==> r.error == CredentialsError || r.error == TokenExpiredError
    ensures r == Err(TokenExpiredError) <==> DecodeAt(token, now).Expired?
    ensures r.Ok? ==>
      && r.value in users
      && DecodeAt(token, now).Valid?
      && DecodeAt(token, now).claims.sub == Some(r.value.email)
    ensures (&& DecodeAt(token, now).Valid?
             && DecodeAt(token, now).claims.sub.Some?
             && exists u :: u in users && u.email == DecodeAt(token, now).claims.sub.value)
            ==> r.Ok?
  {
    match DecodeAt(token, now)
    case Expired => Err(TokenExpiredError)
    case Malformed => Err(CredentialsError)
    case Valid(claims) =>
      match claims.sub
      case None => Err(CredentialsError)
      case Some(email) =>
        match GetUser(users, email)
        case None => Err(CredentialsError)
        case Some(user) => Ok(user)
  }

  /** A token issued for a registered user resolves to that user until it expires, and is
      rejected as expired afterwards. */
  lemma IssuedTokenIdentifiesUser(users: seq<UserRow>, u: UserRow, issued: int, at: int)
    requires UniqueEmails(users) && u in users
    ensures at <= issued + 1800 ==> GetCurrentUser(users, CreateAccessToken(u.email, issued), at) == Ok(u)
    ensures issued + 1800 < at ==>
      GetCurrentUser(users, CreateAccessToken(u.email, issued), at) == Err(TokenExpiredError)
  {
    var t := CreateAccessToken(u.email, issued);
    if at <= issued + 1800 {
      assert DecodeAt(t, at) == Valid(Claims(Some(u.email), Some(issued + 1800)));
    } else {
      assert DecodeAt(t, at) == Expired;
    }
  }

  /** A token issued with a negative validity window is already expired when presented
      at the time of issue, whatever the user table holds. */
  lemma NegativeWindowTokenExpired(users: seq<UserRow>, email: string, now: int, minutes: int)
    requires minutes < 0
    ensures GetCurrentUser(users, IssueToken(email, now, minutes), now) == Err(TokenExpiredError)
  {
    assert DecodeAt(IssueToken(email, now, minutes), now) == Expired;
  }
}
