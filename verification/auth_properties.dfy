/** What the auth routes promise, stated over all databases, instants and
    token oracles. */
module AuthProperties {
  import opened Common
  import opened Schema
  import opened Tokens
  import opened Confirmation
  import opened AuthRoutes
  import Text

  /** Row `i` is the one the verify route's code lookup returns: the first
      row of the user that holds the code and is unused. */
  ghost predicate SelectedRow(s: Store, userId: Id, code: string, i: int)
  {
    && 0 <= i < |s.codes|
    && Consumable(s.codes[i], userId, code)
    && forall j :: 0 <= j < i ==> !Consumable(s.codes[j], userId, code)
  }

  /** At most one unused row of the user holds the code. */
  ghost predicate AtMostOneConsumable(s: Store, userId: Id, code: string)
  {
    forall i, j :: 0 <= i < j < |s.codes| && Consumable(s.codes[i], userId, code) ==> !Consumable(s.codes[j], userId, code)
  }

  lemma SelectedRowIsFirstConsumable(s: Store, userId: Id, code: string)
    ensures FirstConsumable(s, userId, code).Some? <==> exists i :: SelectedRow(s, userId, code, i)
    ensures forall i :: SelectedRow(s, userId, code, i) ==> FirstConsumable(s, userId, code) == Some(i)
  {
    var r := FirstConsumable(s, userId, code);
    forall i | SelectedRow(s, userId, code, i) ensures r == Some(i) {
      assert r.Some?;
      assert !(r.value < i) && !(r.value > i);
    }
    if r.Some? {
      assert SelectedRow(s, userId, code, r.value);
    }
  }

  // ------------------------------------------------------ verify: before lookup

  /** Neither a code nor a non-empty bearer token: 400 before any lookup,
      so also for an unknown email, and nothing changes. */
  lemma VerifyWithoutCredential(s: Store, now: Millis, jwt: Jwt, email: string, code: Option<string>, authorization: Option<string>)
    requires !Truthy(code) && !Truthy(BearerToken(authorization))
    ensures Verify(s, now, jwt, email, code, authorization)
         == Step(Reply(400, Failure("Either 'code' in body or 'Authorization' header with JWT is required")), s, [])
  {
  }

  /** A credential but no user with the email: 404, nothing changes. */
  lemma VerifyUnknownEmail(s: Store, now: Millis, jwt: Jwt, email: string, code: Option<string>, authorization: Option<string>)
    requires Truthy(code) || Truthy(BearerToken(authorization))
    requires forall i :: 0 <= i < |s.users| ==> s.users[i].email != email
    ensures Verify(s, now, jwt, email, code, authorization) == Step(Reply(404, Failure("User not found")), s, [])
  {
  }

  /** With a code in the body the Authorization header is ignored, whatever
      the user's state. */
  lemma VerifyCodeIgnoresHeader(s: Store, now: Millis, jwt: Jwt, email: string, code: Option<string>, a1: Option<string>, a2: Option<string>)
    requires Truthy(code)
    ensures Verify(s, now, jwt, email, code, a1) == Verify(s, now, jwt, email, code, a2)
  {
  }

  /** Verify never sends mail and keeps the database invariant. */
  lemma VerifyKeepsWf(s: Store, now: Millis, jwt: Jwt, email: string, code: Option<string>, authorization: Option<string>)
    requires Wf(s)
    ensures Wf(Verify(s, now, jwt, email, code, authorization).store)
    ensures Verify(s, now, jwt, email, code, authorization).outbox == []
  {
    var token := BearerToken(authorization);
    if Truthy(code) || Truthy(token) {
      match UserByEmail(s, email)
      case None =>
      case Some(ui) =>
        if !s.users[ui].confirmed {
          if Truthy(code) { ConfirmByCodeKeepsWf(s, now, ui, code.value); }
          else { ConfirmByTokenKeepsWf(s, now, jwt, token.value); }
        } else if Truthy(code) {
          LoginByCodeKeepsWf(s, now, ui, code.value);
        }
    }
  }

  lemma ConfirmByCodeKeepsWf(s: Store, now: Millis, ui: nat, code: string)
    requires Wf(s) && ui < |s.users|
    ensures Wf(ConfirmByCode(s, now, ui, code).store) && ConfirmByCode(s, now, ui, code).outbox == []
  {
    var u := s.users[ui];
    match FirstConsumable(s, u.id, code)
    case None =>
    case Some(ci) =>
      MarkCodeUsedWf(s, ci);
      var s1 := MarkCodeUsed(s, ci);
      UserByIdUnique(s1, ui);
      ConfirmUserWf(s1, u.id);
  }

  lemma ConfirmByTokenKeepsWf(s: Store, now: Millis, jwt: Jwt, token: string)
    requires Wf(s)
    ensures Wf(ConfirmByToken(s, now, jwt, token).store) && ConfirmByToken(s, now, jwt, token).outbox == []
  {
    match jwt.verify(token, now)
    case None =>
    case Some(claims) => ConfirmUserWf(s, claims.userId);
  }

  lemma LoginByCodeKeepsWf(s: Store, now: Millis, ui: nat, code: string)
    requires Wf(s) && ui < |s.users|
    ensures Wf(LoginByCode(s, now, ui, code).store) && LoginByCode(s, now, ui, code).outbox == []
  {
    match FirstConsumable(s, s.users[ui].id, code)
    case None =>
    case Some(ci) => MarkCodeUsedWf(s, ci);
  }

  // ------------------------------------------------ verify: unconfirmed + code

  /** An unconfirmed user with a code succeeds exactly when the row the
      lookup selects has not expired; then that row becomes used, the user
      becomes confirmed, nothing else changes, and the session token names
      the user. */
  lemma VerifyConfirmByCode(s: Store, now: Millis, jwt: Jwt, email: string, c: string, authorization: Option<string>, ui: nat)
    requires Wf(s) && ui < |s.users| && s.users[ui].email == email && !s.users[ui].confirmed && c != ""
    ensures var out := Verify(s, now, jwt, email, Some(c), authorization);
      var u := s.users[ui];
      && out.outbox == []
      && (out.reply.status == 200 <==> exists i :: SelectedRow(s, u.id, c, i) && now <= s.codes[i].expiresAt)
      && (out.reply.status == 200 ==>
            && out.reply.body == LoggedIn("Email confirmed successfully! You are now logged in.",
                                          u.(confirmed := true), SignedToken(Claims(u.id, None, None, None), 86_400_000))
            && exists i :: SelectedRow(s, u.id, c, i)
                 && out.store == s.(codes := s.codes[i := s.codes[i].(used := true)],
                                    users := s.users[ui := u.(confirmed := true)]))
      && (out.reply.status != 200 ==> out.store == s && out.reply.status == 400)
  {
    UserByEmailUnique(s, email, ui);
    SelectedRowIsFirstConsumable(s, s.users[ui].id, c);
  }

  /** The two failures of a code are told apart: no unused row with the code,
      or the selected row has expired. */
  lemma VerifyConfirmByCodeFailures(s: Store, now: Millis, jwt: Jwt, email: string, c: string, authorization: Option<string>, ui: nat)
    requires Wf(s) && ui < |s.users| && s.users[ui].email == email && !s.users[ui].confirmed && c != ""
    ensures var out := Verify(s, now, jwt, email, Some(c), authorization);
      var u := s.users[ui];
      && ((out.reply == Reply(400, Failure("Invalid or already used confirmation code")))
          <==> (forall j :: 0 <= j < |s.codes| ==> !Consumable(s.codes[j], u.id, c)))
      && ((out.reply == Reply(400, Failure("Confirmation code has expired")))
          <==> (exists i :: SelectedRow(s, u.id, c, i) && now > s.codes[i].expiresAt))
  {
    UserByEmailUnique(s, email, ui);
    SelectedRowIsFirstConsumable(s, s.users[ui].id, c);
  }

  /** Success needs a matching unused row that has not expired. */
  lemma VerifyCodeSuccessNeedsValidRow(s: Store, now: Millis, jwt: Jwt, email: string, c: string, authorization: Option<string>, ui: nat)
    requires Wf(s) && ui < |s.users| && s.users[ui].email == email && c != ""
    requires Verify(s, now, jwt, email, Some(c), authorization).reply.status == 200
    ensures exists i :: 0 <= i < |s.codes| && Consumable(s.codes[i], s.users[ui].id, c) && now <= s.codes[i].expiresAt
  {
    UserByEmailUnique(s, email, ui);
  }

  /** When at most one unused row of the user holds the code, a valid such
      row is enough for success (confirmed or not). */
  lemma VerifyCodeValidRowSucceeds(s: Store, now: Millis, jwt: Jwt, email: string, c: string, authorization: Option<string>, ui: nat, i: nat)
    requires Wf(s) && ui < |s.users| && s.users[ui].email == email && c != ""
    requires AtMostOneConsumable(s, s.users[ui].id, c)
    requires i < |s.codes| && Consumable(s.codes[i], s.users[ui].id, c) && now <= s.codes[i].expiresAt
    ensures Verify(s, now, jwt, email, Some(c), authorization).reply.status == 200
  {
    UserByEmailUnique(s, email, ui);
    assert SelectedRow(s, s.users[ui].id, c, i);
    SelectedRowIsFirstConsumable(s, s.users[ui].id, c);
  }

  /** Without that proviso a valid row is not enough: with two unused rows
      holding the same code, the first expired and the second not, the lookup
      may select the expired one, and then the answer is "expired". */
  lemma VerifyCodeDuplicateRows()
    ensures var u := User(0, "Jo", "jo@x.com", false, 0);
      var expired := ConfirmationCode(1, 0, "123456", 10, false, 0);
      var valid := ConfirmationCode(2, 0, "123456", 100, false, 50);
      var s := Store([u], [], [expired, valid], [], 3);
      var jwt := Jwt(t => "", (t, n) => None);
      && Wf(s)
      && Consumable(valid, 0, "123456") && 20 <= valid.expiresAt
      && Verify(s, 20, jwt, "jo@x.com", Some("123456"), None).reply
           == Reply(400, Failure("Confirmation code has expired"))
  {
    var u := User(0, "Jo", "jo@x.com", false, 0);
    var expired := ConfirmationCode(1, 0, "123456", 10, false, 0);
    var valid := ConfirmationCode(2, 0, "123456", 100, false, 50);
    var s := Store([u], [], [expired, valid], [], 3);
    assert s.users[0].id == 0;
    assert HasUser(s.users, 0);
    assert UserByEmail(s, "jo@x.com") == Some(0);
    assert FirstConsumable(s, 0, "123456") == Some(0);
  }

  // -------------------------------------------------- verify: confirmed + code

  /** A confirmed user with a code logs in exactly when the selected row has
      not expired; only that row changes (it becomes used), the user stays as
      it was, and the session token names the user. */
  lemma VerifyLoginByCode(s: Store, now: Millis, jwt: Jwt, email: string, c: string, authorization: Option<string>, ui: nat)
    requires Wf(s) && ui < |s.users| && s.users[ui].email == email && s.users[ui].confirmed && c != ""
    ensures var out := Verify(s, now, jwt, email, Some(c), authorization);
      var u := s.users[ui];
      && out.outbox == [] && out.store.users == s.users
      && (out.reply.status == 200 <==> exists i :: SelectedRow(s, u.id, c, i) && now <= s.codes[i].expiresAt)
      && (out.reply.status == 200 ==>
            && out.reply.body == LoggedIn("Login successful via verification code", u,
                                          SignedToken(Claims(u.id, None, None, None), 86_400_000))
            && exists i :: SelectedRow(s, u.id, c, i) && out.store == s.(codes := s.codes[i := s.codes[i].(used := true)]))
      && (out.reply.status != 200 ==> out.store == s && out.reply.status == 400)
      && ((out.reply == Reply(400, Failure("Invalid verification code for login")))
          <==> (forall j :: 0 <= j < |s.codes| ==> !Consumable(s.codes[j], u.id, c)))
      && ((out.reply == Reply(400, Failure("Verification code has expired")))
          <==> (exists i :: SelectedRow(s, u.id, c, i) && now > s.codes[i].expiresAt))
  {
    UserByEmailUnique(s, email, ui);
    SelectedRowIsFirstConsumable(s, s.users[ui].id, c);
  }

  /** A code works once: after a successful verification with a code that no
      other unused row of the user holds, the same code is refused. */
  lemma CodeIsSingleUse(s: Store, now: Millis, later: Millis, jwt: Jwt, email: string, c: string,
                        a1: Option<string>, a2: Option<string>, ui: nat)
    requires Wf(s) && ui < |s.users| && s.users[ui].email == email && c != ""
    requires AtMostOneConsumable(s, s.users[ui].id, c)
    requires Verify(s, now, jwt, email, Some(c), a1).reply.status == 200
    ensures Verify(Verify(s, now, jwt, email, Some(c), a1).store, later, jwt, email, Some(c), a2).reply
         == Reply(400, Failure("Invalid verification code for login"))
  {
    var u := s.users[ui];
    UserByEmailUnique(s, email, ui);
    var ci := FirstConsumable(s, u.id, c).value;
    var s1 := Verify(s, now, jwt, email, Some(c), a1).store;
    VerifyKeepsWf(s, now, jwt, email, Some(c), a1);
    assert s1.users[ui].email == email && s1.users[ui].confirmed && s1.users[ui].id == u.id;
    UserByEmailUnique(s1, email, ui);
    assert s1.codes == s.codes[ci := s.codes[ci].(used := true)];
    forall j | 0 <= j < |s1.codes| ensures !Consumable(s1.codes[j], u.id, c) {
      if j != ci {
        assert s1.codes[j] == s.codes[j];
        if j < ci {
          assert !Consumable(s.codes[j], u.id, c);
        } else {
          assert Consumable(s.codes[ci], u.id, c);
        }
      }
    }
  }

  // ----------------------------------------------- verify: unconfirmed + token

  /** An unconfirmed user with only a token: a token that does not verify is
      refused, one that is not an email-confirmation token is refused, and
      otherwise the user the token names (not necessarily the one with this
      email) becomes confirmed, or 404 when no user has that id. */
  lemma VerifyConfirmByToken(s: Store, now: Millis, jwt: Jwt, email: string, code: Option<string>, authorization: Option<string>, ui: nat)
    requires Wf(s) && ui < |s.users| && s.users[ui].email == email && !s.users[ui].confirmed
    requires !Truthy(code) && Truthy(BearerToken(authorization))
    ensures var t := BearerToken(authorization).value;
      var out := Verify(s, now, jwt, email, code, authorization);
      && out.outbox == []
      && (jwt.verify(t, now).None? ==> out.reply == Reply(400, Failure("Invalid or expired JWT token")) && out.store == s)
      && (jwt.verify(t, now).Some? && jwt.verify(t, now).value.purpose != Some("email-confirmation") ==>
            out.reply == Reply(400, Failure("Invalid token type")) && out.store == s)
      && (jwt.verify(t, now).Some? && jwt.verify(t, now).value.purpose == Some("email-confirmation") ==>
            var id := jwt.verify(t, now).value.userId;
            && (!UserExists(s, id) ==> out.reply == Reply(404, Failure("User not found")) && out.store == s)
            && (UserExists(s, id) ==>
                  out.reply.status == 200
                  && exists k :: 0 <= k < |s.users| && s.users[k].id == id
                       && out.store == s.(users := s.users[k := s.users[k].(confirmed := true)])
                       && out.reply.body == LoggedIn("Email confirmed successfully! You are now logged in.",
                                                     s.users[k].(confirmed := true),
                                                     SignedToken(Claims(id, None, None, None), 86_400_000))))
  {
    UserByEmailUnique(s, email, ui);
  }

  // ------------------------------------------------- verify: confirmed + token

  /** A confirmed user with only a token logs in exactly when the token
      verifies and names this user; its purpose is not checked and nothing is
      written. */
  lemma VerifyLoginByToken(s: Store, now: Millis, jwt: Jwt, email: string, code: Option<string>, authorization: Option<string>, ui: nat)
    requires Wf(s) && ui < |s.users| && s.users[ui].email == email && s.users[ui].confirmed
    requires !Truthy(code) && Truthy(BearerToken(authorization))
    ensures var t := BearerToken(authorization).value;
      var out := Verify(s, now, jwt, email, code, authorization);
      var u := s.users[ui];
      && out.store == s && out.outbox == []
      && (out.reply.status == 200 <==> jwt.verify(t, now).Some? && jwt.verify(t, now).value.userId == u.id)
      && (out.reply.status == 200 ==>
            out.reply.body == LoggedIn("Login successful via token", u, SignedToken(Claims(u.id, None, None, None), 86_400_000)))
      && (jwt.verify(t, now).None? ==> out.reply == Reply(400, Failure("Invalid or expired token")))
      && (jwt.verify(t, now).Some? && jwt.verify(t, now).value.userId != u.id ==>
            out.reply == Reply(400, Failure("Token does not match user")))
  {
    UserByEmailUnique(s, email, ui);
  }

  // ------------------------------------------------------------------ register

  /** The insert fails only for a taken email, and then the fallback finds
      that user: registration always answers 201 with one mail. */
  lemma RegisterAlwaysIssues(s: Store, now: Millis, name: string, email: string, r: nat, jwt: Jwt, frontendUrl: string)
    requires r < 900000
    ensures Register(s, now, name, email, r, jwt, frontendUrl).reply.status == 201
    ensures |Register(s, now, name, email, r, jwt, frontendUrl).outbox| == 1
  {
  }

  /** A new email: one unconfirmed user is added and one unused, one-hour
      code row is appended for it; the reply carries the new id. */
  lemma RegisterNewEmail(s: Store, now: Millis, name: string, email: string, r: nat, jwt: Jwt, frontendUrl: string)
    requires r < 900000
    requires forall i :: 0 <= i < |s.users| ==> s.users[i].email != email
    ensures var out := Register(s, now, name, email, r, jwt, frontendUrl);
      var u := User(s.nextId, name, email, false, now);
      && out.store.users == s.users + [u]
      && out.store.codes == s.codes + [ConfirmationCode(s.nextId + 1, u.id, out.outbox[0].code, now + 3_600_000, false, now)]
      && out.store.courses == s.courses && out.store.enrollments == s.enrollments
      && out.reply.status == 201 && out.reply.body.CodeSent? && out.reply.body.userId == u.id
      && |out.outbox| == 1 && out.outbox[0].to == email
  {
  }

  /** A taken email: no user is added or changed, and one more code row is
      appended for the user already holding the email. */
  lemma RegisterKnownEmail(s: Store, now: Millis, name: string, email: string, r: nat, jwt: Jwt, frontendUrl: string, i: nat)
    requires Wf(s) && r < 900000 && i < |s.users| && s.users[i].email == email
    ensures var out := Register(s, now, name, email, r, jwt, frontendUrl);
      && out.store.users == s.users
      && out.store.codes == s.codes + [ConfirmationCode(s.nextId, s.users[i].id, out.outbox[0].code, now + 3_600_000, false, now)]
      && out.reply.status == 201 && out.reply.body.CodeSent? && out.reply.body.userId == s.users[i].id
      && |out.outbox| == 1 && out.outbox[0].to == email
  {
    UserByEmailUnique(s, email, i);
  }

  lemma RegisterKeepsWf(s: Store, now: Millis, name: string, email: string, r: nat, jwt: Jwt, frontendUrl: string)
    requires Wf(s) && r < 900000
    ensures Wf(Register(s, now, name, email, r, jwt, frontendUrl).store)
  {
    match InsertUser(s, name, email, now)
    case Ok((u, s1)) =>
      InsertUserWf(s, name, email, now);
      assert s1.users[|s.users|] == u;
      IssueKeepsWf(s1, u, RegistrationMail, now, r, jwt, frontendUrl);
    case Err(_) =>
      var i := UserByEmail(s, email).value;
      IssueKeepsWf(s, s.users[i], RegistrationMail, now, r, jwt, frontendUrl);
  }

  // --------------------------------------------------------------------- login

  /** An unknown email: 400, nothing changes, no mail. */
  lemma LoginUnknownEmail(s: Store, now: Millis, email: string, r: nat, jwt: Jwt, frontendUrl: string)
    requires r < 900000
    requires forall i :: 0 <= i < |s.users| ==> s.users[i].email != email
    ensures Login(s, now, email, r, jwt, frontendUrl) == Step(Reply(400, Failure("Failed to find the specified user")), s, [])
  {
  }

  /** A known email, confirmed or not: 200 with the user's id, one code row
      appended for the user, one mail, users unchanged. */
  lemma LoginKnownEmail(s: Store, now: Millis, email: string, r: nat, jwt: Jwt, frontendUrl: string, i: nat)
    requires Wf(s) && r < 900000 && i < |s.users| && s.users[i].email == email
    ensures var out := Login(s, now, email, r, jwt, frontendUrl);
      && out.store.users == s.users
      && out.store.codes == s.codes + [ConfirmationCode(s.nextId, s.users[i].id, out.outbox[0].code, now + 3_600_000, false, now)]
      && out.reply.status == 200 && out.reply.body.CodeSent? && out.reply.body.userId == s.users[i].id
      && |out.outbox| == 1 && out.outbox[0].to == email
  {
    UserByEmailUnique(s, email, i);
  }

  lemma LoginKeepsWf(s: Store, now: Millis, email: string, r: nat, jwt: Jwt, frontendUrl: string)
    requires Wf(s) && r < 900000
    ensures Wf(Login(s, now, email, r, jwt, frontendUrl).store)
  {
    match UserByEmail(s, email)
    case None =>
    case Some(i) => IssueKeepsWf(s, s.users[i], LoginMail, now, r, jwt, frontendUrl);
  }

  // ------------------------------------------------------------------ end to end

  /** Register a new email, then verify with the mailed code within the hour:
      the new user is confirmed and receives a session token naming it. */
  lemma RegisterThenVerifyCode(s: Store, now: Millis, later: Millis, name: string, email: string, r: nat,
                               jwt: Jwt, frontendUrl: string, authorization: Option<string>)
    requires Wf(s) && r < 900000 && now <= later <= now + 3_600_000
    requires forall i :: 0 <= i < |s.users| ==> s.users[i].email != email
    ensures var reg := Register(s, now, name, email, r, jwt, frontendUrl);
      && |reg.outbox| == 1
      && var out := Verify(reg.store, later, jwt, email, Some(reg.outbox[0].code), authorization);
         && out.reply.status == 200
         && out.reply.body.LoggedIn? && out.reply.body.token.claims.userId == s.nextId
         && |out.store.users| == |s.users| + 1
         && out.store.users[|s.users|].confirmed && out.store.users[|s.users|].email == email
  {
    RegisterNewEmail(s, now, name, email, r, jwt, frontendUrl);
    var reg := Register(s, now, name, email, r, jwt, frontendUrl);
    var s1 := reg.store;
    var code := reg.outbox[0].code;
    var ui := |s.users|;
    RegisterKeepsWf(s, now, name, email, r, jwt, frontendUrl);
    assert s1.users[ui].email == email && !s1.users[ui].confirmed && s1.users[ui].id == s.nextId;
    var ci := |s.codes|;
    assert SelectedRow(s1, s.nextId, code, ci) by {
      forall j | 0 <= j < ci ensures !Consumable(s1.codes[j], s.nextId, code) {
        assert s1.codes[j] == s.codes[j];
        assert s.codes[j].userId != s.nextId by {
          var k :| 0 <= k < |s.users| && s.users[k].id == s.codes[j].userId;
        }
      }
    }
    VerifyConfirmByCode(s1, later, jwt, email, code, authorization, ui);
  }

  /** Register a new email, then follow the mailed link within its lifetime:
      when the oracle accepts the mailed token text, the new user is
      confirmed. */
  lemma RegisterThenVerifyLink(s: Store, now: Millis, later: Millis, name: string, email: string, r: nat,
                               jwt: Jwt, frontendUrl: string)
    requires Wf(s) && r < 900000
    requires forall i :: 0 <= i < |s.users| ==> s.users[i].email != email
    requires var t := jwt.encode(ConfirmationToken(User(s.nextId, name, email, false, now)));
      && t != "" && !Text.Occurs(t, "Bearer ")
      && jwt.verify(t, later) == Some(ConfirmationToken(User(s.nextId, name, email, false, now)).claims)
    ensures var reg := Register(s, now, name, email, r, jwt, frontendUrl);
      var t := jwt.encode(ConfirmationToken(User(s.nextId, name, email, false, now)));
      && |reg.outbox| == 1
      && reg.outbox[0].link == frontendUrl + "/auth/verify?token=" + t
      && var out := Verify(reg.store, later, jwt, email, None, Some("Bearer " + t));
         && out.reply.status == 200
         && |out.store.users| == |s.users| + 1
         && out.store.users[|s.users|].confirmed
  {
    RegisterNewEmail(s, now, name, email, r, jwt, frontendUrl);
    var u := User(s.nextId, name, email, false, now);
    var t := jwt.encode(ConfirmationToken(u));
    var reg := Register(s, now, name, email, r, jwt, frontendUrl);
    RegisterKeepsWf(s, now, name, email, r, jwt, frontendUrl);
    BearerTokenOfHeader(t);
    var s1 := reg.store;
    assert s1.users[|s.users|] == u;
    UserByEmailUnique(s1, email, |s.users|);
    UserByIdUnique(s1, |s.users|);
  }
}
