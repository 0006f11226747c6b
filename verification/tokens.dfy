/** JSON Web Tokens as the application uses them. The signing secret and the
    cryptography of `jsonwebtoken` are an oracle: `encode` renders a signed
    token as the text placed in links and headers, and `verify` answers the
    claims of a text whose signature is good and which has not expired at the
    given instant, or nothing. The bearer text is cut out of the
    `Authorization` header exactly as `header.split("Bearer ")[1]` does. */
module Tokens {
  import opened Common
  import opened Schema
  import Text

  /** The payload fields the application writes and reads. */
  datatype Claims = Claims(userId: Id, email: Option<string>, name: Option<string>, purpose: Option<string>)

  /** `jwt.sign(claims, secret, { expiresIn })`. */
  datatype SignedToken = SignedToken(claims: Claims, lifetimeMs: nat)

  datatype Jwt = Jwt(encode: SignedToken -> string, verify: (string, Millis) -> Option<Claims>)

  const EMAIL_CONFIRMATION := "email-confirmation"

  /** `expiresIn: "1h"` and `expiresIn: "24h"`. */
  const HOUR_MS: nat := 60 * 60 * 1000
  const DAY_MS: nat := 24 * HOUR_MS

  const BEARER := "Bearer "

  /** The token mailed for confirming an email address or a login. */
  function ConfirmationToken(u: User): SignedToken
  {
    SignedToken(Claims(u.id, Some(u.email), Some(u.name), Some(EMAIL_CONFIRMATION)), HOUR_MS)
  }

  /** The session token handed out by a successful verification: only the
      user id, valid for a day. */
  function SessionToken(userId: Id): SignedToken
  {
    SignedToken(Claims(userId, None, None, None), DAY_MS)
  }

  /** `authorization?.split("Bearer ")[1]`: the text after the first
      "Bearer " up to the next one, or nothing when the header is missing or
      has no "Bearer " in it. */
  function BearerToken(authorization: Option<string>): (t: Option<string>)
    ensures authorization.None? ==> t.None?
    ensures authorization.Some? ==> (t.Some? <==> Text.Occurs(authorization.value, BEARER))
    ensures t.Some? ==> !Text.Occurs(t.value, BEARER)
  {
    match authorization
    case None => None
    case Some(h) =>
      var parts := Text.Split(h, BEARER);
      if |parts| > 1 then Some(parts[1]) else None
  }

  /** The usual header "Bearer <t>" yields `t` when `t` holds no further
      "Bearer ". */
  lemma BearerTokenOfHeader(t: string)
    requires !Text.Occurs(t, BEARER)
    ensures BearerToken(Some(BEARER + t)) == Some(t)
  {
    var h := BEARER + t;
    assert Text.OccursAt(h, BEARER, 0);
    assert Text.IndexOf(h, BEARER) == Some(0);
    assert h[|BEARER|..] == t;
    assert Text.Split(t, BEARER) == [t];
    assert Text.Split(h, BEARER) == [""] + [t];
  }

  /** A header holding the bearer text back to back with "Bearer " in front:
      the extracted text is a piece of the header that follows a "Bearer ". */
  lemma BearerTokenFollowsBearer(h: string)
    requires BearerToken(Some(h)).Some?
    ensures Text.Occurs(h, BEARER + BearerToken(Some(h)).value)
  {
    Text.SplitSecondFollowsSeparator(h, BEARER);
  }
}
