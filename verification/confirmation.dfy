/** `sendRegistrationConfirmation` and `sendLoginConfirmation` without the
    mail transport: draw a six-digit code, store it for an hour, build the
    confirmation token and link, hand one message to the mailer, and answer
    with the user's id. The random draw and the clock are parameters. */
module Confirmation {
  import opened Common
  import opened Schema
  import opened Tokens
  import Text

  datatype MailKind = RegistrationMail | LoginMail

  /** The message handed to the mailer: recipient, code and link are what
      the HTML template interpolates besides the user's name. */
  datatype Mail = Mail(to: string, code: string, link: string, kind: MailKind)

  /** Bodies of the auth routes' replies. The logged-in body carries the
      user's id, name, email, confirmed flag and creation time: the fields of
      a `User`. */
  datatype AuthBody =
    | Failure(error: string)
    | CodeSent(message: string, userId: Id)
    | LoggedIn(message: string, user: User, token: SignedToken)

  /** One handled request: the reply, the database afterwards, and the mail
      sent while handling it. */
  datatype Step = Step(reply: Reply<AuthBody>, store: Store, outbox: seq<Mail>)

  const CODE_LIFETIME_MS: nat := HOUR_MS
  const VERIFY_LINK_PATH := "/auth/verify?token="
  const REGISTERED_MESSAGE := "Cadastro criado! Verifique seu email para confirmar a conta."
  const LOGIN_MAIL_MESSAGE := "Email de login enviado! Verifique seu email para confirmar a conta."

  /** `Math.floor(100000 + Math.random() * 900000)`, with the integer part of
      `Math.random() * 900000` passed in as `r`. */
  function CodeNumber(r: nat): (n: nat)
    requires r < 900000
    ensures 100000 <= n <= 999999
  {
    100000 + r
  }

  /** `confirmationCode.toString()`: six digits, the first not zero, reading
      back as the drawn number. */
  function CodeText(r: nat): (code: string)
    requires r < 900000
    ensures |code| == 6 && Text.AllDigits(code) && code[0] != '0'
    ensures Text.ParseDecimal(code) == CodeNumber(r)
  {
    var n := CodeNumber(r);
    assert Text.Pow10(5) == 100000 && Text.Pow10(6) == 1000000;
    Text.DecimalLength(n, 6);
    Text.DecimalRoundTrip(n);
    Text.NatToDecimal(n)
  }

  /** Different draws give different codes. */
  lemma CodeTextInjective(r1: nat, r2: nat)
    requires r1 < 900000 && r2 < 900000 && CodeText(r1) == CodeText(r2)
    ensures r1 == r2
  {
  }

  /** `${FRONTEND_URL}/auth/verify?token=${confirmationToken}`. */
  function ConfirmationLink(frontendUrl: string, token: string): string
  {
    frontendUrl + VERIFY_LINK_PATH + token
  }

  /** The code row one issuance appends for `u`. */
  function IssuedRow(s: Store, u: User, now: Millis, r: nat): ConfirmationCode
    requires r < 900000
  {
    ConfirmationCode(s.nextId, u.id, CodeText(r), now + CODE_LIFETIME_MS, false, now)
  }

  /** Issues a confirmation for user `u`: one new code row, one mail, and a
      201 (registration mail) or 200 (login mail) reply carrying the user's id. */
  function Issue(s: Store, u: User, kind: MailKind, now: Millis, r: nat, jwt: Jwt, frontendUrl: string): (out: Step)
    requires r < 900000
    ensures out.store == s.(codes := s.codes + [IssuedRow(s, u, now, r)], nextId := s.nextId + 1)
    ensures out.reply.status == (if kind == RegistrationMail then 201 else 200)
    ensures out.reply.body.CodeSent? && out.reply.body.userId == u.id
    ensures out.outbox == [Mail(u.email, CodeText(r), ConfirmationLink(frontendUrl, jwt.encode(ConfirmationToken(u))), kind)]
  {
    var token := ConfirmationToken(u);
    var link := ConfirmationLink(frontendUrl, jwt.encode(token));
    var code := CodeText(r);
    var (row, s') := AppendCode(s, u.id, code, now + CODE_LIFETIME_MS, now);
    var reply :=
      if kind == RegistrationMail then Reply(201, CodeSent(REGISTERED_MESSAGE, u.id))
      else Reply(200, CodeSent(LOGIN_MAIL_MESSAGE, u.id));
    Step(reply, s', [Mail(u.email, code, link, kind)])
  }

  /** Issuing keeps every earlier code row as it was, so codes issued before
      stay usable, and the new row is unused, belongs to `u` and expires one
      hour after issuance. */
  lemma IssueAppendsOneFreshCode(s: Store, u: User, kind: MailKind, now: Millis, r: nat, jwt: Jwt, frontendUrl: string)
    requires r < 900000
    ensures var s' := Issue(s, u, kind, now, r, jwt, frontendUrl).store;
      && |s'.codes| == |s.codes| + 1
      && s'.codes[..|s.codes|] == s.codes
      && (var row := s'.codes[|s.codes|];
          row.userId == u.id && !row.used && row.expiresAt == now + 3_600_000
          && |row.code| == 6 && row.code[0] != '0' && Text.AllDigits(row.code))
      && s'.users == s.users && s'.courses == s.courses && s'.enrollments == s.enrollments
  {
    var s' := Issue(s, u, kind, now, r, jwt, frontendUrl).store;
    assert s'.codes[..|s.codes|] == s.codes;
  }

  /** The mailed token names the user and is a one-hour email-confirmation
      token; the link is the frontend address, the verify path and the token
      text. */
  lemma IssueMailsConfirmationToken(s: Store, u: User, kind: MailKind, now: Millis, r: nat, jwt: Jwt, frontendUrl: string)
    requires r < 900000
    ensures var mail := Issue(s, u, kind, now, r, jwt, frontendUrl).outbox;
      && |mail| == 1 && mail[0].to == u.email
      && mail[0].code == Issue(s, u, kind, now, r, jwt, frontendUrl).store.codes[|s.codes|].code
      && exists tok: SignedToken ::
           && tok.claims == Claims(u.id, Some(u.email), Some(u.name), Some("email-confirmation"))
           && tok.lifetimeMs == 3_600_000
           && mail[0].link == frontendUrl + "/auth/verify?token=" + jwt.encode(tok)
  {
    var tok := ConfirmationToken(u);
    assert tok.claims == Claims(u.id, Some(u.email), Some(u.name), Some("email-confirmation"));
  }

  /** Issuing keeps the database invariant when `u` is a stored user. */
  lemma IssueKeepsWf(s: Store, u: User, kind: MailKind, now: Millis, r: nat, jwt: Jwt, frontendUrl: string)
    requires Wf(s) && UserExists(s, u.id) && r < 900000
    ensures Wf(Issue(s, u, kind, now, r, jwt, frontendUrl).store)
  {
    AppendCodeWf(s, u.id, CodeText(r), now + CODE_LIFETIME_MS, now);
  }
}
