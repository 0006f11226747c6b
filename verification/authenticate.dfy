/** The `authenticate` pre-handler: the session decision for a request,
    either the stored user the bearer token names or a 401. It reads the
    database and writes nothing. */
module Authentication {
  import opened Common
  import opened Schema
  import opened Tokens
  import Text

  const UNAUTHORIZED := "Unauthorized"

  /** The one refusal: 401 with `{ error: "Unauthorized" }`. */
  const REFUSED: Reply<string> := Reply(401, UNAUTHORIZED)

  /** No usable token, a token the oracle rejects, or no user with the
      token's id: refused. Otherwise the first user row with that id. */
  function Authenticate(s: Store, now: Millis, jwt: Jwt, authorization: Option<string>): (r: Result<User, Reply<string>>)
    ensures r.Err? ==> r.error == REFUSED
    ensures r.Ok? ==> r.value in s.users
  {
    var token := BearerToken(authorization);
    if !Truthy(token) then Err(REFUSED)
    else
      match jwt.verify(token.value, now)
      case None => Err(REFUSED)
      case Some(claims) =>
        match UserById(s, claims.userId)
        case None => Err(REFUSED)
        case Some(i) => Ok(s.users[i])
  }

  /** Acceptance exactly when a non-empty bearer token verifies and names a
      stored user, whatever the token's purpose; the user returned is the one
      the token names. */
  lemma AuthenticateAcceptsExactly(s: Store, now: Millis, jwt: Jwt, authorization: Option<string>)
    ensures var r := Authenticate(s, now, jwt, authorization);
      var token := BearerToken(authorization);
      && (r.Ok? <==> Truthy(token) && jwt.verify(token.value, now).Some?
                     && UserExists(s, jwt.verify(token.value, now).value.userId))
      && (r.Ok? ==> r.value.id == jwt.verify(token.value, now).value.userId)
  {
  }

  /** A missing header, a header without "Bearer ", or "Bearer " with
      nothing after it is refused before the oracle is consulted. */
  lemma AuthenticateWithoutToken(s: Store, now: Millis, jwt: Jwt, authorization: Option<string>)
    requires authorization.None? || !Text.Occurs(authorization.value, BEARER) || authorization == Some(BEARER)
    ensures Authenticate(s, now, jwt, authorization) == Err(REFUSED)
  {
    if authorization == Some(BEARER) {
      assert !Text.Occurs("", BEARER) by {
        forall i | Text.OccursAt("", BEARER, i) ensures false {}
      }
      BearerTokenOfHeader("");
    }
  }

  /** The session token handed out by a successful verification
      authenticates its holder, provided the oracle accepts the text it
      encodes to. */
  lemma SessionTokenAuthenticates(s: Store, now: Millis, jwt: Jwt, ui: nat)
    requires ui < |s.users| && Wf(s)
    requires var t := jwt.encode(SessionToken(s.users[ui].id));
      t != "" && !Text.Occurs(t, BEARER) && jwt.verify(t, now) == Some(SessionToken(s.users[ui].id).claims)
    ensures Authenticate(s, now, jwt, Some(BEARER + jwt.encode(SessionToken(s.users[ui].id)))) == Ok(s.users[ui])
  {
    BearerTokenOfHeader(jwt.encode(SessionToken(s.users[ui].id)));
    UserByIdUnique(s, ui);
  }
}
