# Academic manager API — a Dafny model of its core

This project models the core of a course-enrollment HTTP API (Fastify, Drizzle
over PostgreSQL, zod validation, JSON Web Tokens) as pure Dafny functions over
an immutable database value, and proves what the routes promise about it.

What is modelled:

- **The database** (`Schema`): the users, courses, email-confirmation-code and
  enrollment tables as sequences of rows. The inserts and updates the routes
  issue report PostgreSQL's errors with their SQLSTATE, detail text and
  constraint name. An invariant `Wf` covers unique keys, references and fresh
  ids.
- **Code and token issuance** (`Confirmation`, `Tokens`): the confirmation
  JWT, the link that carries it, the 6-digit code stored with a one-hour
  expiry, and the registration and login mails.
- **The auth state machine** (`AuthRoutes`, `AuthProperties`):
  - register, with its resend-on-duplicate fallback;
  - login;
  - verify, in all four branches: confirm or log in, each by code or by
    bearer token.
- **Session authentication** (`Authentication`): the `authenticate`
  pre-handler.
- **The error classifier** (`ErrorHandler`): validation errors, database
  errors with constraint-name extraction and messages, and the auth error
  codes. The extraction matches two regular expressions against the detail
  text.
- **The course catalog** (`CourseSchemas`, `CourseOrder`, `CourseRoutes`):
  - the create-course body validator and its error-schema keys;
  - the three list orders;
  - the paged list with search, enrollment counts and total;
  - get by id;
  - create.

Nondeterminism and the outside world become parameters:

- the clock is `now` in milliseconds;
- `Math.random()` becomes `r < 900000`, and the code is `100000 + r`;
- JWT signing and verification are an oracle `Jwt(encode, verify)`, and a
  signed token is its claims plus its lifetime;
- `FRONTEND_URL` is a parameter;
- mail transport is an outbox;
- uuid generation is a store counter `nextId`, fresh by construction.

JavaScript semantics the code relies on are written out in `Text` and
`Common`:

- the `Bearer ` split;
- truthiness of optional strings;
- `replace` of the first occurrence;
- `trim` with the ECMAScript white-space set;
- UTF-16 length for zod's `min(5)`;
- `toString` of the numeric code;
- `ILIKE '%term%'` as an ASCII case-insensitive substring test.

Behaviour of the code worth knowing:

- `authenticate` exists but `src/app.ts` attaches it to no route. The course
  routes therefore run unauthenticated, and the model does not gate them.
- Verify looks up one unused row with the user and the code (`limit(1)`
  without an order; the model takes the earliest inserted), and only then
  checks that row's expiry. So "a valid code exists" and "verify
  succeeds" coincide only when at most one unused row holds that code for the
  user:
  - `AuthProperties.VerifyCodeValidRowSucceeds` proves the coincidence under
    that hypothesis;
  - `AuthProperties.VerifyCodeDuplicateRows` exhibits the failure without it.
- The "Failed to create user" replies of register cannot happen. The insert
  fails only on a duplicate email, and then the fallback lookup finds that
  user (`AuthProperties.RegisterAlwaysIssues`).
- A unique violation's message comes from the detail text before the
  constraint name. PostgreSQL's detail `Key (title)=(…) already exists.`
  yields the name `title`, so a duplicate course title answers
  "Title already exists." and not the table's "Course title already exists."
  (`ErrorHandler.DuplicateTitleClassified`).
- A page number below 1 makes the OFFSET negative. PostgreSQL refuses it
  (SQLSTATE 2201X), and the classifier answers 500 "Database operation
  failed.".

## Model

| member | source | states |
|---|---|---|
| Schema.InsertUser | src/database/schema.ts:3-9 | fails with 23505 on `users_email_unique` exactly when the email is taken; otherwise appends an unconfirmed user under a fresh id and changes nothing else |
| Schema.InsertCourse | src/database/schema.ts:11-16 | fails with 23505 exactly when the title is taken; otherwise appends the course under a fresh id and changes nothing else |
| Schema.InsertCode | src/database/schema.ts:21-23 | fails with 23503 exactly when the user does not exist; otherwise appends the code row |
| Schema.InsertEnrollment | src/database/schema.ts:42-55 | fails exactly when the pair is already enrolled or a reference is missing: 23505 on enrollment_unique_per_user_and_course for a taken pair, 23503 for a new pair with a missing user or course; otherwise appends the enrollment |
| Schema.MarkCodeUsed | src/routes/auth/routes.ts:169-173 | flips `used` on that one row only |
| Schema.ConfirmUser | src/routes/auth/routes.ts:205-209 | sets `confirmed` on the user with the id, or reports that there is none |
| Schema.DeleteUser | src/database/schema.ts:19-23 | refused with 23503 exactly when an enrollment references the user; otherwise the user and their code rows go (cascade) and nothing else changes |
| Schema.DeleteUserKeepsReferences | src/database/schema.ts:21-23 | after a delete, every code row and enrollment still references an existing user |
| Schema.DeleteUserKeepsKeys | src/database/schema.ts:4-6 | a delete keeps ids below the counter, keys and emails unique, and one enrollment per pair |
| Schema.UserByEmail | src/routes/auth/routes.ts:131 | the first user with the email, or none exactly when no user has it |
| Schema.UserById | src/middlewares/authenticate.ts:25 | the first user with the id, or none exactly when no user has it |
| Schema.CourseById | src/routes/courses/routes.ts:97 | the first course with the id, or none exactly when none has it |
| Schema.FirstConsumable | src/routes/auth/routes.ts:143-153 | an unused row with this user and code, the earliest inserted; none exactly when there is no such row |
| Schema.UserByEmailUnique | src/database/schema.ts:6 | under the invariant, the lookup by email finds the only user with that email |
| Schema.UserByIdUnique | src/database/schema.ts:4 | under the invariant, the lookup by id finds the only user with that id |
| Schema.CourseByIdUnique | src/database/schema.ts:12 | under the invariant, the lookup by id finds the only course with that id |
| Schema.EmptyStoreWf | src/database/schema.ts:3-55 | the empty database satisfies the invariant |
| Schema.InsertUserWf | src/database/schema.ts:3-9 | a successful user insert keeps the invariant |
| Schema.AppendCodeWf | src/database/schema.ts:19-28 | a code row for an existing user keeps the invariant |
| Schema.InsertCourseWf | src/database/schema.ts:11-16 | a successful course insert keeps the invariant |
| Schema.AppendEnrollmentWf | src/database/schema.ts:42-55 | an enrollment with a fresh id, existing references and a new user/course pair keeps the invariant |
| Schema.InsertEnrollmentWf | src/database/schema.ts:42-55 | a successful enrollment keeps the invariant |
| Schema.MarkCodeUsedWf | src/routes/auth/routes.ts:169-173 | marking a code used keeps the invariant |
| Schema.ConfirmUserWf | src/routes/auth/routes.ts:174 | confirming a user keeps the invariant |
| Schema.DeleteUserWf | src/database/schema.ts:19-23 | the cascading delete keeps the invariant |
| Tokens.BearerToken | src/middlewares/authenticate.ts:12 | `split("Bearer ")[1]`: none without a header; present exactly when the header contains "Bearer "; never contains "Bearer " itself |
| Tokens.BearerTokenOfHeader | src/routes/auth/routes.ts:120 | the header "Bearer " + t yields t back when t has no "Bearer " |
| Tokens.BearerTokenFollowsBearer | src/middlewares/authenticate.ts:12 | the extracted token stands right after a "Bearer " in the header |
| Text.Split | src/middlewares/authenticate.ts:12 | the separator splits the text into at least one piece, more exactly when it occurs, and no piece contains it |
| Text.SplitSecondFollowsSeparator | src/middlewares/authenticate.ts:12 | the second piece of a split stands right after the first occurrence of the separator |
| Text.JoinSplit | src/middlewares/authenticate.ts:12 | joining the pieces with the separator gives the text back |
| Text.ReplaceFirst | src/middlewares/errorHandler.ts:91 | only the leftmost occurrence is replaced; the text is unchanged when there is none |
| Text.ReplaceFirstAtStart | src/middlewares/errorHandler.ts:91 | an occurrence at the very start is the one replaced |
| Text.Trim | src/middlewares/errorHandler.ts:91 | the result is a slice of the input with white space cut off both ends, and it neither starts nor ends with white space |
| Text.TrimUnpadded | src/middlewares/errorHandler.ts:91 | text without white space at either end trims to itself |
| Text.NatToDecimal | src/routes/auth/utils/sendConfirmationEmail.ts:57 | digits only, with a leading 0 exactly for zero |
| Text.DecimalRoundTrip | src/routes/auth/utils/sendConfirmationEmail.ts:57 | parsing the decimal text gives the number back |
| Text.DecimalLength | src/routes/auth/utils/sendConfirmationEmail.ts:52 | a number in [10^(k-1), 10^k) has k digits |
| Text.DecimalInjective | src/routes/auth/utils/sendConfirmationEmail.ts:57 | different numbers have different decimal texts |
| Text.Utf16Length | src/routes/courses/schemas.ts:10 | the UTF-16 length is between the code-point count and twice it |
| Confirmation.CodeNumber | src/routes/auth/utils/sendConfirmationEmail.ts:52 | the code is a 6-digit number, 100000..999999 |
| Confirmation.CodeText | src/routes/auth/utils/sendConfirmationEmail.ts:57 | the stored code is 6 digits without a leading zero and parses back to the number |
| Confirmation.CodeTextInjective | src/routes/auth/utils/sendConfirmationEmail.ts:52-57 | different random draws give different codes |
| Confirmation.Issue | src/routes/auth/utils/sendConfirmationEmail.ts:35-170 | stores exactly one code row, mails the code and the confirmation link, answers 201 for registration and 200 for login with the user's id |
| Confirmation.IssueAppendsOneFreshCode | src/routes/auth/utils/sendConfirmationEmail.ts:55-59 | exactly one row is added, unused, expiring one hour later, with a 6-digit code; other tables are untouched |
| Confirmation.IssueMailsConfirmationToken | src/routes/auth/utils/sendConfirmationEmail.ts:37-49 | one mail goes to the user; it carries the stored code and a link holding a one-hour token with the user's id, email, name and type "email-confirmation" |
| Confirmation.IssueKeepsWf | src/routes/auth/utils/sendConfirmationEmail.ts:55-59 | issuing for an existing user keeps the invariant |
| AuthRoutes.Refuse | src/routes/auth/routes.ts:124-128 | a refusal changes no table and sends no mail |
| AuthProperties.SelectedRowIsFirstConsumable | src/routes/auth/routes.ts:143-153 | the row the query selects is the first unused row for the user and code, and it exists exactly when some such row exists |
| AuthProperties.VerifyWithoutCredential | src/routes/auth/routes.ts:124-128 | with neither a code nor a bearer token: 400, nothing changes |
| AuthProperties.VerifyUnknownEmail | src/routes/auth/routes.ts:131-137 | a credential with an unknown email: 404 "User not found", nothing changes |
| AuthProperties.VerifyCodeIgnoresHeader | src/routes/auth/routes.ts:140-142 | once a code is given, the Authorization header makes no difference |
| AuthProperties.VerifyKeepsWf | src/routes/auth/routes.ts:118-332 | every verify outcome keeps the invariant and sends no mail |
| AuthProperties.VerifyConfirmByCode | src/routes/auth/routes.ts:142-191 | an unconfirmed user with a code: 200 exactly when the selected row has not expired; then that row is used, the user confirmed and a 24-hour session token returned; otherwise 400 and nothing changes |
| AuthProperties.VerifyConfirmByCodeFailures | src/routes/auth/routes.ts:155-166 | "Invalid or already used" exactly when no unused row matches; "expired" exactly when the selected row has expired |
| AuthProperties.VerifyCodeSuccessNeedsValidRow | src/routes/auth/routes.ts:143-166 | a 200 by code implies an unused, unexpired row with that code for the user |
| AuthProperties.VerifyCodeValidRowSucceeds | src/routes/auth/routes.ts:143-166 | with at most one unused row for the code, an unexpired one makes the code succeed |
| AuthProperties.VerifyCodeDuplicateRows | src/routes/auth/routes.ts:143-166 | with an expired and a valid unused row holding the same code, verify can answer "expired": the lookup may return the expired row |
| AuthProperties.VerifyLoginByCode | src/routes/auth/routes.ts:246-292 | a confirmed user with a code: 200 exactly when the selected row is unexpired, and then only that row is marked used; the two failure messages each hold exactly in their case |
| AuthProperties.CodeIsSingleUse | src/routes/auth/routes.ts:169-173 | after a successful verify by code, the same code is refused |
| AuthProperties.VerifyConfirmByToken | src/routes/auth/routes.ts:194-238 | an unconfirmed user with a bearer token: refused if it does not verify or is not an email-confirmation token; 404 if its user is gone; otherwise that user is confirmed and gets a session token |
| AuthProperties.VerifyLoginByToken | src/routes/auth/routes.ts:293-324 | a confirmed user with a bearer token: 200 exactly when it verifies and names this user, with the right failure message otherwise; nothing changes |
| AuthProperties.RegisterAlwaysIssues | src/routes/auth/routes.ts:32-72 | register always ends in a 201 and exactly one mail |
| AuthProperties.RegisterNewEmail | src/routes/auth/routes.ts:36-60 | a new email adds the unconfirmed user and one code row for them, mails that code to the email and answers with the new id |
| AuthProperties.RegisterKnownEmail | src/routes/auth/routes.ts:61-71 | a taken email adds no user; it issues a fresh code to the existing user and answers with that user's id |
| AuthProperties.RegisterKeepsWf | src/routes/auth/routes.ts:32-72 | register keeps the invariant |
| AuthProperties.LoginUnknownEmail | src/routes/auth/routes.ts:90-96 | an unknown email: 400 "Failed to find the specified user", nothing changes |
| AuthProperties.LoginKnownEmail | src/routes/auth/routes.ts:98 | a known email issues one code to that user, mails it and answers 200 |
| AuthProperties.LoginKeepsWf | src/routes/auth/routes.ts:88-99 | login keeps the invariant |
| AuthProperties.RegisterThenVerifyCode | src/routes/auth/routes.ts:32-191 | within the hour, the code mailed at registration confirms the new user and logs them in |
| AuthProperties.RegisterThenVerifyLink | src/routes/auth/utils/sendConfirmationEmail.ts:49 | the mailed link carries the token; presented as a bearer token, it confirms the new user |
| Authentication.Authenticate | src/middlewares/authenticate.ts:11-35 | every refusal is the same 401 "Unauthorized"; an accepted request yields a stored user |
| Authentication.AuthenticateAcceptsExactly | src/middlewares/authenticate.ts:12-31 | accepted exactly when a non-empty bearer token verifies and names a stored user; the user returned is the one named |
| Authentication.AuthenticateWithoutToken | src/middlewares/authenticate.ts:12-16 | a missing header, one without "Bearer ", or "Bearer " alone is refused |
| Authentication.SessionTokenAuthenticates | src/routes/auth/routes.ts:178 | the session token verify hands out authenticates its holder |
| ErrorHandler.RunWithout | src/middlewares/errorHandler.ts:21 | the longest run free of the closing character, which stops at that character or at the end |
| ErrorHandler.FirstMatchFrom | src/middlewares/errorHandler.ts:21 | the leftmost position where the pattern matches, or none when it matches nowhere |
| ErrorHandler.MatchCapture | src/middlewares/errorHandler.ts:21 | the captured group of the leftmost match: non-empty, free of the closing character, found in the text between the prefix and the close |
| ErrorHandler.ExtractConstraintName | src/middlewares/errorHandler.ts:16-32 | a non-empty name; none exactly when neither pattern matches a truthy detail and there is no truthy constraint; a `Key (…)` capture beats a `constraint "…"` capture, which beats the constraint field, used only when the detail yields nothing |
| ErrorHandler.KeyDetailNamesColumns | src/middlewares/errorHandler.ts:21-23 | a detail "Key (cols)…" names `cols`, whatever the constraint field holds |
| ErrorHandler.PlainDetailDefersToField | src/middlewares/errorHandler.ts:27-29 | a detail matching neither pattern falls back to the constraint field |
| ErrorHandler.ConstraintMessage | src/middlewares/errorHandler.ts:35-80 | always one of the ten fixed texts; an unlisted name under 23505 gets a duplicate text and under 23503 a reference text |
| ErrorHandler.TableKeyWins | src/middlewares/errorHandler.ts:50-52 | a listed constraint name gets its table message under any code |
| ErrorHandler.OtherCodesAreGeneric | src/middlewares/errorHandler.ts:79 | an unlisted name with another code gets "Database constraint violation." |
| ErrorHandler.SubstringPriority | src/middlewares/errorHandler.ts:55-77 | "email" beats "title" under 23505, and "user" beats "course" under 23503 |
| ErrorHandler.GenerateMessageAsWritten | src/middlewares/errorHandler.ts:50-52 | the `in` test also accepts Object.prototype names; exactly then the result is an inherited property, not a message |
| ErrorHandler.InheritedNameEscapes | src/middlewares/errorHandler.ts:50-52 | a 23505 carrying only the constraint "toString" reaches the inherited property as written; the corrected lookup gives the generic duplicate text |
| ErrorHandler.FieldOf | src/middlewares/errorHandler.ts:91 | the key never starts or ends with white space (the key per path is in FieldOfWithoutPath and FieldOfSlashPath) |
| ErrorHandler.FieldOfWithoutPath | src/middlewares/errorHandler.ts:91 | an issue whose path is missing, empty or "/" is filed under "field" |
| ErrorHandler.FieldOfSlashPath | src/middlewares/errorHandler.ts:91 | a path "/rest" is filed under trim(rest): the leading slash is the one removed |
| ErrorHandler.CaptureOccurs | src/middlewares/errorHandler.ts:21 | a match's capture is non-empty, free of the closing character, and stands between the prefix and the close |
| ErrorHandler.AssignLastWins | src/middlewares/errorHandler.ts:90-94 | assigning pairs in order leaves each key with its last value |
| ErrorHandler.FormatValidation | src/middlewares/errorHandler.ts:90-94 | the keys are exactly the fields of the issues |
| ErrorHandler.FormatValidationKeys | src/middlewares/errorHandler.ts:90-94 | the key set is exactly the set of the issues' fields |
| ErrorHandler.FormatValidationLastWins | src/middlewares/errorHandler.ts:90-94 | each field maps to the message of its last issue |
| ErrorHandler.DatabaseReply | src/middlewares/errorHandler.ts:120-142 | 23505 answers 409 and 23503 answers 400, each with a constraint message; an unhandled code answers 500 "Database operation failed." |
| ErrorHandler.Classify | src/middlewares/errorHandler.ts:82-174 | only the statuses 400, 401, 403, 404, 409 and 500 occur; an `errors` body only with 400 |
| ErrorHandler.ValidationFirst | src/middlewares/errorHandler.ts:87-104 | a validation error answers 400 whatever cause it carries: the fields of an issue array, or "Invalid request data" without one |
| ErrorHandler.DatabaseBeforeAuth | src/middlewares/errorHandler.ts:107-144 | with a database cause, each SQLSTATE gets its status and message, ahead of any auth code |
| ErrorHandler.AuthCodesLast | src/middlewares/errorHandler.ts:147-173 | INVALID_TOKEN gives 401 "Invalid or expired authentication token.", ACCESS_DENIED 403 "Access denied. Insufficient permissions.", USER_NOT_FOUND 404 "User not found.", INVALID_CREDENTIALS 401 "Invalid credentials provided."; anything else is 500 "Internal unexpected server error" |
| ErrorHandler.UniqueColumnMessages | src/middlewares/errorHandler.ts:55-61 | the column names email and title get their field messages |
| ErrorHandler.DuplicateEmailClassified | src/middlewares/errorHandler.ts:121-124 | InsertUser's duplicate-email error, if it reached the classifier, would answer 409 "Email address is already registered."; no route lets it get there, since register catches that failure and answers 201 |
| ErrorHandler.DuplicateTitleClassified | src/middlewares/errorHandler.ts:121-124 | inserting a taken title classifies as 409 "Title already exists." |
| CourseSchemas.CheckTitle | src/routes/courses/schemas.ts:6-10 | accepts exactly a string of UTF-16 length at least 5 and keeps it; otherwise "Title is required" exactly when missing, "Title must be a string" exactly when not a string, the min-5 message exactly when a string shorter than 5 |
| CourseSchemas.CheckDescription | src/routes/courses/schemas.ts:13 | accepts exactly a missing value, null or a string, and keeps the string |
| CourseSchemas.CheckPrice | src/routes/courses/schemas.ts:16-25 | accepts exactly a missing value, null or a non-negative number, and keeps the number; otherwise "Price cannot be negative" exactly for a negative number and "Price must be a number or null" exactly for any other non-number non-null value |
| CourseSchemas.ValidateCreateCourse | src/routes/courses/schemas.ts:3-26 | a rejection carries one to three issues |
| CourseSchemas.ValidatorAcceptsExactly | src/routes/courses/schemas.ts:3-26 | accepts exactly the acceptable bodies, passing the title, description and price through |
| CourseSchemas.ValidatorErrors | src/middlewares/errorHandler.ts:90-94 | a rejected body's formatted errors map each failed field to its own message, and nothing else |
| CourseSchemas.KeyFieldIsKey | src/middlewares/errorHandler.ts:91 | the path "/key" formats back to "key" for any non-empty key without white space at its ends, the schema's three keys among them |
| CourseSchemas.IssuesFitErrorSchema | src/routes/courses/routes.ts:116-120 | the 400 body's keys lie within the error schema's keys |
| CourseOrder.StrLeTotal | src/routes/courses/routes.ts:57 | any two titles are ordered one way or the other |
| CourseOrder.StrLeTrans | src/routes/courses/routes.ts:57 | the title order is transitive |
| CourseOrder.StrLeAntisymmetric | src/routes/courses/routes.ts:57 | titles ordered both ways are equal |
| CourseOrder.KeyLeTotal | src/routes/courses/routes.ts:57 | each of the three orders is total |
| CourseOrder.KeyLeTrans | src/routes/courses/routes.ts:57 | each of the three orders is transitive |
| CourseOrder.Insert | src/routes/courses/routes.ts:57 | inserting adds exactly the one row |
| CourseOrder.InsertSorted | src/routes/courses/routes.ts:57 | inserting into an ordered list keeps it ordered |
| CourseOrder.SortCourses | src/routes/courses/routes.ts:57 | the output is a permutation of the input |
| CourseOrder.SortCoursesCorrect | src/routes/courses/routes.ts:57 | the output is ascending in the chosen key and a permutation of the input |
| CourseOrder.SortedPermutationUnique | src/routes/courses/routes.ts:57 | with unique ids and titles, the ascending order by id or title is the only one |
| CourseRoutes.ListCourses | src/routes/courses/routes.ts:38-68 | fails with 2201X exactly when the page is below 1; otherwise row k is ordered match 2(page-1)+k, the page holds the two such positions that exist (none past the end), and total is the number of matches |
| CourseRoutes.ListRoute | src/routes/courses/routes.ts:17-21 | the list route answers 200 or 500 "Database operation failed." |
| CourseRoutes.ListedCoursesMatch | src/routes/courses/routes.ts:43-45 | every listed course is a stored course whose title contains the search term, ignoring case |
| CourseRoutes.TotalCountsMatches | src/routes/courses/routes.ts:64 | the total counts the matching courses, whatever the page and order |
| CourseRoutes.NoSearchCountsAll | src/routes/courses/routes.ts:41-45 | without a search term the total is the number of courses |
| CourseRoutes.PageHoldsPositions | src/routes/courses/routes.ts:57-59 | position k of the ordered matches is row k mod 2 of page k div 2 + 1 |
| CourseRoutes.EveryMatchIsListed | src/routes/courses/routes.ts:57-62 | every matching course is listed on some page |
| CourseRoutes.PagesFollowOrder | src/routes/courses/routes.ts:57 | under the id or title order the pages follow the unique ascending arrangement of the matches |
| CourseRoutes.EnrollmentsCounted | src/routes/courses/routes.ts:54-61 | a row's enrollment count is the number of enrollments referencing it, zero exactly when there are none |
| CourseRoutes.GetCourse | src/routes/courses/routes.ts:94-104 | 200 with the stored course exactly when a course has the id; 404 with no body otherwise |
| CourseRoutes.CreateCourse | src/routes/courses/routes.ts:126-142 | a create that does not answer 201 leaves the database unchanged |
| CourseRoutes.CreateRejectsInvalidBody | src/routes/courses/routes.ts:113-120 | a rejected body answers 400 with each failed field's message and writes nothing |
| CourseRoutes.CreateRefusesTakenTitle | src/routes/courses/routes.ts:127-134 | a taken title answers 409 "Title already exists." and writes nothing |
| CourseRoutes.CreateAddsCourse | src/routes/courses/routes.ts:127-141 | a new title adds one course with the description or null and the price or 0, and answers 201 with its id |
| CourseRoutes.CreateThenGet | src/routes/courses/routes.ts:94-141 | a created course can then be fetched by the returned id |
| CourseRoutes.CreateKeepsWf | src/routes/courses/routes.ts:126-142 | creating a course keeps the invariant |
| Common.CountIsMatchingPositions | src/routes/courses/routes.ts:64 | the count equals the number of matching positions |
| Common.FilterKeepsDistinct | src/routes/courses/routes.ts:62 | filtering keeps a key distinct |

## Left out

- HTTP transport, Fastify plugin wiring, request logging and the `console` output are left out. The model starts from parsed requests.
- Request-schema validation of the auth bodies (`z.email()`, `.strict()`, the 6-digit code regex) and of the uuid route parameter is left out. Emails, codes and ids reach the model already well-typed; ids are naturals.
- JWT signing and verification is an oracle. Signature checking, the secret and clock skew are not modelled. The claim is only that the routes pass the right claims and lifetimes.
- Mail transport failures are left out. `sendMail` is modelled as always succeeding, and the HTML body is reduced to the code and the link.
- The `try`/`catch` around verify catches only database or transport failures, which this model does not produce. Its 500 "Internal server error" is therefore unreachable.
- A verify by code runs its two updates concurrently (`Promise.all`), and the list route runs its two queries concurrently. The model applies them as one atomic step.
- `ILIKE` is modelled as a literal substring test with ASCII case folding. The `%` and `_` wildcards inside the search term, and non-ASCII case folding, are not modelled.
- Schema.FirstConsumable: `limit(1)` without an ORDER BY lets PostgreSQL return any matching unused row; the model always takes the earliest inserted, so it fixes one of the database's allowed answers rather than all of them.
- AuthProperties.SelectedRowIsFirstConsumable: states that the selected row is the earliest-inserted consumable one, which holds for the model's lookup but is not promised by the unordered query.
- AuthProperties.VerifyCodeDuplicateRows: exhibits the "expired" answer for the row order the model picks; the real query may equally return the valid row and succeed.
- ErrorHandler.FieldOf: its own contract states only that the key is free of white space at its ends; the key for each kind of path is stated by FieldOfWithoutPath and FieldOfSlashPath, kept out of the contract because FieldOf appears in many proofs where the extra clauses cost too much.
- Ids are a counter, so ordering by id is creation order. The source's ids are random v4 uuids (`defaultRandom`), so the default `orderBy=id` listing order is effectively random in the real database.
- Titles compare by character code (binary collation). A database with a different collation orders them differently.
- CourseRoutes.PagesFollowOrder: the price order is left out of the uniqueness claim. PostgreSQL leaves the order of equal prices unspecified, while the model sorts stably.
- `page` is an integer. zod's `coerce.number()` can also give a fraction or NaN, which is not modelled.
- JSON bodies are maps with integer numbers. Fractional prices, non-object bodies and a `__proto__` key are not modelled.
- The price message is always "Price must be a number or null": the condition at `src/routes/courses/schemas.ts:19` is always true, so "Price argument is invalid" is never produced. The model has only the reachable message.
- Thrown values are a small datatype. An error object whose `detail` or `constraint` is a non-string is converted by `String(…)` in the source; the model takes strings only.
- A validation issue with an undefined `message` is not modelled.
- The seed script, the server bootstrap and the test suite are not part of this model.

## Findings

| source | as written | input that shows it | evidently intended | confidence | as-written member | corrected member |
|---|---|---|---|---|---|---|
| src/middlewares/errorHandler.ts:50-52 | `constraintName in CONSTRAINT_ERROR_MESSAGES` is also true for names inherited from Object.prototype, and the lookup then returns that property (a function) as the message | a 23505 error with no detail and constraint "toString" | look up only the map's own keys, so such a name falls through to the field-based fallback ("Duplicate entry detected. This value already exists.") | not executed | ErrorHandler.GenerateMessageAsWritten, ErrorHandler.InheritedNameEscapes | ErrorHandler.ConstraintMessage |
