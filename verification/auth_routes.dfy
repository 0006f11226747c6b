/** The handlers of `/auth/register`, `/auth/login` and `/auth/verify`, each a
    transition from a database to a reply, a database and the mail sent.
    Request bodies are taken as already validated by the route schemas; the
    clock (`now`), the random draw (`r`) and the token oracle (`jwt`) are
    parameters. */
module AuthRoutes {
  import opened Common
  import opened Schema
  import opened Tokens
  import opened Confirmation

  const FAILED_TO_CREATE := "Failed to create user"
  const FAILED_TO_FIND := "Failed to find the specified user"
  const MISSING_CREDENTIAL := "Either 'code' in body or 'Authorization' header with JWT is required"
  const USER_NOT_FOUND := "User not found"
  const INVALID_CODE := "Invalid or already used confirmation code"
  const EXPIRED_CODE := "Confirmation code has expired"
  const INVALID_JWT := "Invalid or expired JWT token"
  const INVALID_TOKEN_TYPE := "Invalid token type"
  const CONFIRMED := "Email confirmed successfully! You are now logged in."
  const INVALID_LOGIN_CODE := "Invalid verification code for login"
  const EXPIRED_LOGIN_CODE := "Verification code has expired"
  const LOGIN_BY_CODE := "Login successful via verification code"
  const TOKEN_USER_MISMATCH := "Token does not match user"
  const LOGIN_BY_TOKEN := "Login successful via token"
  const INVALID_LOGIN_TOKEN := "Invalid or expired token"

  /** A reply that changes nothing and sends no mail. */
  function Refuse(s: Store, status: nat, error: string): (out: Step)
    ensures out.store == s && out.outbox == [] && out.reply == Reply(status, Failure(error))
  {
    Step(Reply(status, Failure(error)), s, [])
  }

  // ------------------------------------------------------------------ register

  /** `POST /auth/register`: insert the user; when the insert fails, fall back
      to the user already holding that email; either way issue a
      registration confirmation. */
  function Register(s: Store, now: Millis, name: string, email: string, r: nat, jwt: Jwt, frontendUrl: string): Step
    requires r < 900000
  {
    match InsertUser(s, name, email, now)
    case Ok((u, s1)) => Issue(s1, u, RegistrationMail, now, r, jwt, frontendUrl)
    case Err(_) =>
      match UserByEmail(s, email)
      case None => Refuse(s, 400, FAILED_TO_CREATE)
      case Some(i) => Issue(s, s.users[i], RegistrationMail, now, r, jwt, frontendUrl)
  }

  // --------------------------------------------------------------------- login

  /** `POST /auth/login`: issue a login confirmation to a known email,
      whether or not the user is confirmed. */
  function Login(s: Store, now: Millis, email: string, r: nat, jwt: Jwt, frontendUrl: string): Step
    requires r < 900000
  {
    match UserByEmail(s, email)
    case None => Refuse(s, 400, FAILED_TO_FIND)
    case Some(i) => Issue(s, s.users[i], LoginMail, now, r, jwt, frontendUrl)
  }

  // -------------------------------------------------------------------- verify

  /** `new Date() > expiresAt`. */
  predicate Expired(row: ConfirmationCode, now: Millis)
  {
    now > row.expiresAt
  }

  /** A not yet confirmed user presents a code: the first unused row with that
      code must not have expired; it is consumed and the user confirmed. */
  function ConfirmByCode(s: Store, now: Millis, ui: nat, code: string): Step
    requires ui < |s.users|
  {
    var u := s.users[ui];
    match FirstConsumable(s, u.id, code)
    case None => Refuse(s, 400, INVALID_CODE)
    case Some(ci) =>
      if Expired(s.codes[ci], now) then Refuse(s, 400, EXPIRED_CODE)
      else
        var s1 := MarkCodeUsed(s, ci);
        var s2 := s1.(users := s1.users[ui := u.(confirmed := true)]);
        Step(Reply(200, LoggedIn(CONFIRMED, u.(confirmed := true), SessionToken(u.id))), s2, [])
  }

  /** A not yet confirmed user presents a token: it must verify and be an
      email-confirmation token; the user it names, whoever that is, becomes
      confirmed. */
  function ConfirmByToken(s: Store, now: Millis, jwt: Jwt, token: string): Step
  {
    match jwt.verify(token, now)
    case None => Refuse(s, 400, INVALID_JWT)
    case Some(claims) =>
      if claims.purpose != Some(EMAIL_CONFIRMATION) then Refuse(s, 400, INVALID_TOKEN_TYPE)
      else
        match ConfirmUser(s, claims.userId)
        case None => Refuse(s, 404, USER_NOT_FOUND)
        case Some((cu, s1)) => Step(Reply(200, LoggedIn(CONFIRMED, cu, SessionToken(cu.id))), s1, [])
  }

  /** A confirmed user presents a code: the same lookup as confirmation, but
      only the code row changes. */
  function LoginByCode(s: Store, now: Millis, ui: nat, code: string): Step
    requires ui < |s.users|
  {
    var u := s.users[ui];
    match FirstConsumable(s, u.id, code)
    case None => Refuse(s, 400, INVALID_LOGIN_CODE)
    case Some(ci) =>
      if Expired(s.codes[ci], now) then Refuse(s, 400, EXPIRED_LOGIN_CODE)
      else Step(Reply(200, LoggedIn(LOGIN_BY_CODE, u, SessionToken(u.id))), MarkCodeUsed(s, ci), [])
  }

  /** A confirmed user presents a token: it must verify and name this user;
      its purpose is not looked at, and nothing is written. */
  function LoginByToken(s: Store, now: Millis, jwt: Jwt, ui: nat, token: string): Step
    requires ui < |s.users|
  {
    var u := s.users[ui];
    match jwt.verify(token, now)
    case None => Refuse(s, 400, INVALID_LOGIN_TOKEN)
    case Some(claims) =>
      if claims.userId != u.id then Refuse(s, 400, TOKEN_USER_MISMATCH)
      else Step(Reply(200, LoggedIn(LOGIN_BY_TOKEN, u, SessionToken(u.id))), s, [])
  }

  /** `POST /auth/verify`: body `{ email, code? }`, optional `Authorization`
      header. A non-empty code takes precedence over the header's token. */
  function Verify(s: Store, now: Millis, jwt: Jwt, email: string, code: Option<string>, authorization: Option<string>): Step
  {
    var token := BearerToken(authorization);
    if !Truthy(code) && !Truthy(token) then Refuse(s, 400, MISSING_CREDENTIAL)
    else
      match UserByEmail(s, email)
      case None => Refuse(s, 404, USER_NOT_FOUND)
      case Some(ui) =>
        if !s.users[ui].confirmed then
          if Truthy(code) then ConfirmByCode(s, now, ui, code.value)
          else ConfirmByToken(s, now, jwt, token.value)
        else
          if Truthy(code) then LoginByCode(s, now, ui, code.value)
          else LoginByToken(s, now, jwt, ui, token.value)
  }
}
