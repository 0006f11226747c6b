/** `requestErrorHandler`: the mapping from whatever a route threw to a
    status and a JSON body. Validation failures come first, then database
    errors found under `cause` (classified by SQLSTATE code, with a message
    chosen from the constraint name cut out of PostgreSQL's detail text),
    then the authentication codes, then a generic 500. */
module ErrorHandler {
  import opened Common
  import Schema
  import Text

  // ------------------------------------------------------------- thrown values

  /** One entry of a validation error's `validation` array. */
  datatype ValidationIssue = ValidationIssue(instancePath: Option<string>, message: string)

  /** The `cause` of an error: absent or falsy, present but not an object
      with a `code`, or a database error carrying `code`, `detail` and
      `constraint` (the last two absent when missing or not strings). */
  datatype Cause =
    | NoCause
    | OpaqueCause
    | DbCause(code: string, detail: Option<string>, constraint: Option<string>)

  /** What reaches the handler: not an object at all (null, a string, ...), or
      an object with an optional string `code`, an optional `validation`
      array and a cause. */
  datatype Thrown =
    | NotAnObject
    | ErrorObject(code: Option<string>, validation: Option<seq<ValidationIssue>>, cause: Cause)

  /** The two reply shapes: `{ error }` and `{ errors }`. */
  datatype ErrorBody = Error(error: string) | Errors(errors: map<string, string>)

  /** How a failed insert reaches the handler: the driver error becomes the
      `cause` of the query error the ORM throws. */
  function FromDb(e: Schema.DbError): Thrown
  {
    ErrorObject(None, None, DbCause(e.code, e.detail, e.constraint))
  }

  // ----------------------------------------------------------------- constants

  const FST_ERR_VALIDATION := "FST_ERR_VALIDATION"
  const UNIQUE_VIOLATION := "23505"
  const FOREIGN_KEY_VIOLATION := "23503"
  const NOT_NULL_VIOLATION := "23502"
  const CHECK_VIOLATION := "23514"

  const DUPLICATE_ENTRY := "Duplicate entry detected. This value already exists."
  const INVALID_REFERENCE := "Invalid reference to related data."
  const REQUIRED_FIELD := "Required field is missing."
  const CONSTRAINT_VIOLATION := "Database constraint violation."
  const EMAIL_TAKEN := "Email address is already registered."
  const COURSE_TITLE_TAKEN := "Course title already exists."
  const ALREADY_ENROLLED := "User is already enrolled in this course."
  const INVALID_USER := "Invalid user reference."
  const INVALID_COURSE := "Invalid course reference."
  const TITLE_TAKEN := "Title already exists."

  const INVALID_REQUEST := "Invalid request data"
  const BAD_TOKEN := "Invalid or expired authentication token."
  const ACCESS_DENIED := "Access denied. Insufficient permissions."
  const NO_SUCH_USER := "User not found."
  const BAD_CREDENTIALS := "Invalid credentials provided."
  const INVALID_FORMAT := "Invalid data format or value."
  const DB_FAILED := "Database operation failed."
  const INTERNAL := "Internal unexpected server error"

  /** `CONSTRAINT_ERROR_MESSAGES`: the constraints with a message of their own. */
  const CONSTRAINT_MESSAGES: map<string, string> := map[
    "users_email_unique" := EMAIL_TAKEN,
    "courses_title_unique" := COURSE_TITLE_TAKEN,
    "enrollment_unique_per_user_and_course" := ALREADY_ENROLLED,
    "enrollments_userId_users_id_fk" := INVALID_USER,
    "enrollments_courseId_courses_id_fk" := INVALID_COURSE
  ]

  /** Every message a constraint violation can be described with. */
  const CONSTRAINT_TEXTS: set<string> := {
    DUPLICATE_ENTRY, INVALID_REFERENCE, REQUIRED_FIELD, CONSTRAINT_VIOLATION, EMAIL_TAKEN,
    COURSE_TITLE_TAKEN, ALREADY_ENROLLED, INVALID_USER, INVALID_COURSE, TITLE_TAKEN
  }

  /** The messages that speak of a duplicate value, and those that speak of
      a missing referenced row. */
  const DUPLICATE_TEXTS: set<string> := {DUPLICATE_ENTRY, EMAIL_TAKEN, COURSE_TITLE_TAKEN, ALREADY_ENROLLED, TITLE_TAKEN}
  const REFERENCE_TEXTS: set<string> := {INVALID_REFERENCE, INVALID_USER, INVALID_COURSE}

  // --------------------------------------------------- pattern `P([^c]+)c`

  /** Length of the longest run of characters other than `close` from `k`. */
  function RunWithout(s: string, k: nat, close: char): (n: nat)
    requires k <= |s|
    decreases |s| - k
    ensures k + n <= |s|
    ensures forall j :: k <= j < k + n ==> s[j] != close
    ensures k + n == |s| || s[k + n] == close
  {
    if k == |s| || s[k] == close then 0 else 1 + RunWithout(s, k + 1, close)
  }

  /** The regular expression `prefix([^close]+)close` matches at `i`: the
      prefix is there, and a non-empty run free of `close` follows it and is
      closed by `close`. (Greedy `[^close]+` can only stop at a `close`, so
      the run is the longest one.) */
  predicate MatchesAt(s: string, prefix: string, close: char, i: nat)
  {
    && Text.OccursAt(s, prefix, i)
    && var n := RunWithout(s, i + |prefix|, close);
       n > 0 && i + |prefix| + n < |s|
  }

  /** The captured group of the match at `i`. */
  function CaptureAt(s: string, prefix: string, close: char, i: nat): string
    requires MatchesAt(s, prefix, close, i)
  {
    s[i + |prefix|..i + |prefix| + RunWithout(s, i + |prefix|, close)]
  }

  /** The leftmost match position at or after `i`. */
  function FirstMatchFrom(s: string, prefix: string, close: char, i: nat): (r: Option<nat>)
    requires i <= |s|
    decreases |s| - i
    ensures r.Some? ==> i <= r.value <= |s| && MatchesAt(s, prefix, close, r.value)
    ensures r.Some? ==> forall j :: i <= j < r.value ==> !MatchesAt(s, prefix, close, j)
    ensures r.None? ==> forall j :: i <= j <= |s| ==> !MatchesAt(s, prefix, close, j)
  {
    if MatchesAt(s, prefix, close, i) then Some(i)
    else if i == |s| then None
    else FirstMatchFrom(s, prefix, close, i + 1)
  }

  /** `s.match(/prefix([^close]+)close/)?.[1]`: the group captured by the
      leftmost match. It is non-empty, holds no `close`, and occurs in `s`
      between the prefix and a `close`. */
  function MatchCapture(s: string, prefix: string, close: char): (cap: Option<string>)
    ensures cap.None? <==> forall j :: 0 <= j <= |s| ==> !MatchesAt(s, prefix, close, j)
    ensures cap.Some? ==> exists i :: 0 <= i <= |s| && MatchesAt(s, prefix, close, i) && cap.value == CaptureAt(s, prefix, close, i)
                                   && forall j :: 0 <= j < i ==> !MatchesAt(s, prefix, close, j)
    ensures cap.Some? ==> |cap.value| > 0 && close !in cap.value && Text.Occurs(s, prefix + cap.value + [close])
  {
    match FirstMatchFrom(s, prefix, close, 0)
    case None => None
    case Some(i) =>
      CaptureOccurs(s, prefix, close, i);
      Some(CaptureAt(s, prefix, close, i))
  }

  /** The capture of a match is non-empty, free of `close`, and stands in
      `s` between the prefix and a `close`. */
  lemma CaptureOccurs(s: string, prefix: string, close: char, i: nat)
    requires MatchesAt(s, prefix, close, i)
    ensures var cap := CaptureAt(s, prefix, close, i);
      |cap| > 0 && close !in cap && Text.OccursAt(s, prefix + cap + [close], i)
  {
    var k := i + |prefix|;
    var n := RunWithout(s, k, close);
    var cap := s[k..k + n];
    assert s[i..k] == prefix;
    assert s[k + n..k + n + 1] == [close];
    assert s[i..k + n + 1] == s[i..k] + cap + s[k + n..k + n + 1];
  }

  // ------------------------------------------------------ extractConstraintName

  const KEY_PREFIX := "Key ("
  const CONSTRAINT_PREFIX := "constraint \""

  /** `extractConstraintName`: from a truthy detail, the column list of
      `Key (...)`, else the name in `constraint "..."`; failing both, a
      truthy `constraint` field; otherwise nothing. */
  function ExtractConstraintName(detail: Option<string>, constraint: Option<string>): (name: Option<string>)
    ensures name.Some? ==> name.value != ""
    ensures name.None? <==>
      && (!Truthy(detail) || (MatchCapture(detail.value, KEY_PREFIX, ')').None?
                              && MatchCapture(detail.value, CONSTRAINT_PREFIX, '"').None?))
      && !Truthy(constraint)
    ensures Truthy(detail) && MatchCapture(detail.value, KEY_PREFIX, ')').Some? ==>
      name == MatchCapture(detail.value, KEY_PREFIX, ')')
    ensures Truthy(detail) && MatchCapture(detail.value, KEY_PREFIX, ')').None?
            && MatchCapture(detail.value, CONSTRAINT_PREFIX, '"').Some? ==>
      name == MatchCapture(detail.value, CONSTRAINT_PREFIX, '"')
    ensures (!Truthy(detail) || (MatchCapture(detail.value, KEY_PREFIX, ')').None?
                                 && MatchCapture(detail.value, CONSTRAINT_PREFIX, '"').None?))
            && Truthy(constraint) ==>
      name == constraint
  {
    var fromDetail :=
      if !Truthy(detail) then None
      else
        match MatchCapture(detail.value, KEY_PREFIX, ')')
        case Some(n) => Some(n)
        case None => MatchCapture(detail.value, CONSTRAINT_PREFIX, '"');
    if fromDetail.Some? then fromDetail
    else if Truthy(constraint) then constraint
    else None
  }

  /** The detail PostgreSQL writes for a unique violation or a missing
      referenced row begins `Key (<columns>)=`: the name extracted is the
      column list, whatever the value and the `constraint` field say. */
  lemma KeyDetailNamesColumns(columns: string, rest: string, constraint: Option<string>)
    requires columns != "" && ')' !in columns
    ensures ExtractConstraintName(Some(KEY_PREFIX + columns + ")" + rest), constraint) == Some(columns)
  {
    var s := KEY_PREFIX + columns + ")" + rest;
    assert Text.OccursAt(s, KEY_PREFIX, 0) by { assert s[..5] == KEY_PREFIX; }
    var n := RunWithout(s, 5, ')');
    assert n == |columns| by {
      assert forall j :: 5 <= j < 5 + |columns| ==> s[j] == columns[j - 5];
      assert s[5 + |columns|] == ')';
    }
    assert MatchesAt(s, KEY_PREFIX, ')', 0);
    assert CaptureAt(s, KEY_PREFIX, ')', 0) == columns;
  }

  /** A detail without any `Key (...)` or `constraint "..."` leaves the
      `constraint` field to decide. */
  lemma PlainDetailDefersToField(detail: string, constraint: Option<string>)
    requires forall j :: 0 <= j <= |detail| ==> !MatchesAt(detail, KEY_PREFIX, ')', j) && !MatchesAt(detail, CONSTRAINT_PREFIX, '"', j)
    ensures ExtractConstraintName(Some(detail), constraint) == (if Truthy(constraint) then constraint else None)
  {
  }

  // ---------------------------------------------- generateConstraintErrorMessage

  /** `generateConstraintErrorMessage` with the table lookup restricted to
      the table's own keys. A missing name picks by code alone; a table key
      wins whatever the code; otherwise substrings of the name pick, in the
      order email, title, enrollment for a unique violation and user, course
      for a foreign-key violation. */
  function ConstraintMessage(name: Option<string>, code: string): (msg: string)
    ensures msg in CONSTRAINT_TEXTS
    ensures !Truthy(name) || name.value !in CONSTRAINT_MESSAGES ==>
      (code == UNIQUE_VIOLATION ==> msg in DUPLICATE_TEXTS) && (code == FOREIGN_KEY_VIOLATION ==> msg in REFERENCE_TEXTS)
  {
    if !Truthy(name) then
      if code == UNIQUE_VIOLATION then DUPLICATE_ENTRY
      else if code == FOREIGN_KEY_VIOLATION then INVALID_REFERENCE
      else if code == NOT_NULL_VIOLATION then REQUIRED_FIELD
      else CONSTRAINT_VIOLATION
    else
      var n := name.value;
      if n in CONSTRAINT_MESSAGES then CONSTRAINT_MESSAGES[n]
      else if code == UNIQUE_VIOLATION then
        if Text.Includes(n, "email") then EMAIL_TAKEN
        else if Text.Includes(n, "title") then TITLE_TAKEN
        else if Text.Includes(n, "enrollment") then ALREADY_ENROLLED
        else DUPLICATE_ENTRY
      else if code == FOREIGN_KEY_VIOLATION then
        if Text.Includes(n, "user") then INVALID_USER
        else if Text.Includes(n, "course") then INVALID_COURSE
        else INVALID_REFERENCE
      else CONSTRAINT_VIOLATION
  }

  /** A table key names its message under every code. */
  lemma TableKeyWins(n: string, code: string)
    requires n in CONSTRAINT_MESSAGES
    ensures ConstraintMessage(Some(n), code) == CONSTRAINT_MESSAGES[n]
  {
  }

  /** A name outside the table and a code other than 23505/23503 get the
      generic text. */
  lemma OtherCodesAreGeneric(n: string, code: string)
    requires n != "" && n !in CONSTRAINT_MESSAGES && code != UNIQUE_VIOLATION && code != FOREIGN_KEY_VIOLATION
    ensures ConstraintMessage(Some(n), code) == CONSTRAINT_VIOLATION
  {
  }

  /** The substring tests are ordered: a unique-violation name mentioning
      `email` is reported as a taken email even if it mentions `title` too,
      and a foreign-key name mentioning `user` as a bad user reference even if
      it mentions `course`. */
  lemma SubstringPriority(n: string)
    requires n != "" && n !in CONSTRAINT_MESSAGES
    ensures Text.Occurs(n, "email") ==> ConstraintMessage(Some(n), UNIQUE_VIOLATION) == EMAIL_TAKEN
    ensures !Text.Occurs(n, "email") && Text.Occurs(n, "title") ==> ConstraintMessage(Some(n), UNIQUE_VIOLATION) == TITLE_TAKEN
    ensures Text.Occurs(n, "user") ==> ConstraintMessage(Some(n), FOREIGN_KEY_VIOLATION) == INVALID_USER
    ensures !Text.Occurs(n, "user") && Text.Occurs(n, "course") ==> ConstraintMessage(Some(n), FOREIGN_KEY_VIOLATION) == INVALID_COURSE
  {
  }

  /** The value `CONSTRAINT_ERROR_MESSAGES[name]` yields once `name in
      CONSTRAINT_ERROR_MESSAGES` holds: a message string for the table's own
      keys, or a member inherited from `Object.prototype` (a function, or the
      prototype itself for `__proto__`). */
  datatype Lookup = Found(text: string) | Inherited(property: string)

  /** The properties every plain object inherits from `Object.prototype`. */
  const OBJECT_PROTOTYPE_PROPERTIES: set<string> := {
    "constructor", "hasOwnProperty", "isPrototypeOf", "propertyIsEnumerable", "toLocaleString",
    "toString", "valueOf", "__proto__", "__defineGetter__", "__defineSetter__",
    "__lookupGetter__", "__lookupSetter__"
  }

  /** `generateConstraintErrorMessage` as written: the `in` operator also
      sees inherited properties, so an inherited name is "found" and its
      non-string value returned. */
  function GenerateMessageAsWritten(name: Option<string>, code: string): (r: Lookup)
    ensures r.Inherited? <==> Truthy(name) && name.value !in CONSTRAINT_MESSAGES && name.value in OBJECT_PROTOTYPE_PROPERTIES
    ensures r.Found? ==> r.text == ConstraintMessage(name, code)
  {
    if Truthy(name) && name.value !in CONSTRAINT_MESSAGES && name.value in OBJECT_PROTOTYPE_PROPERTIES then
      Inherited(name.value)
    else
      Found(ConstraintMessage(name, code))
  }

  /** None of the unique-violation keywords occurs in `toString`. */
  lemma ToStringHasNoKeyword()
    ensures !Text.Occurs("toString", "email") && !Text.Occurs("toString", "title")
    ensures !Text.Occurs("toString", "enrollment")
  {
    var s := "toString";
    forall i | 0 <= i && i + 5 <= |s| ensures !Text.OccursAt(s, "email", i) && !Text.OccursAt(s, "title", i) {
      assert s[i..i + 5][0] == s[i] && s[i..i + 5][1] == s[i + 1];
      assert i == 0 || i == 1 || i == 2 || i == 3;
    }
  }

  /** A unique violation on a constraint called `toString` (say, reported
      without a detail text) makes the function declared to return a string
      return `Object.prototype.toString`; with the own-key lookup it is the
      generic duplicate message. */
  lemma InheritedNameEscapes()
    ensures GenerateMessageAsWritten(ExtractConstraintName(None, Some("toString")), UNIQUE_VIOLATION) == Inherited("toString")
    ensures ConstraintMessage(ExtractConstraintName(None, Some("toString")), UNIQUE_VIOLATION) == DUPLICATE_ENTRY
  {
    assert "toString" !in CONSTRAINT_MESSAGES;
    ToStringHasNoKeyword();
  }

  // ------------------------------------------------------------ validation errors

  /** `(err.instancePath?.replace("/", "") || "field").trim()`. What key a
      given path yields is stated by `FieldOfWithoutPath` and
      `FieldOfSlashPath`. */
  function FieldOf(issue: ValidationIssue): (field: string)
    ensures |field| > 0 ==> !Text.IsJsWhiteSpace(field[0]) && !Text.IsJsWhiteSpace(field[|field| - 1])
  {
    Text.Trim(PathOrField(issue.instancePath))
  }

  /** `path?.replace("/", "") || "field"`. */
  function PathOrField(path: Option<string>): string
  {
    match path
    case None => FIELD
    case Some(p) =>
      var stripped := Text.ReplaceFirst(p, "/", "");
      if stripped != "" then stripped else FIELD
  }

  /** The fallback key of an issue without a path. */
  const FIELD := "field"

  /** An issue whose path is missing, empty or a lone slash is filed under
      "field". */
  lemma FieldOfWithoutPath(issue: ValidationIssue)
    requires issue.instancePath in {None, Some(""), Some("/")}
    ensures FieldOf(issue) == FIELD
  {
    EmptyPathOrField(issue.instancePath);
    TrimField();
  }

  lemma TrimField()
    ensures Text.Trim(FIELD) == FIELD
  {
    assert FIELD[0] == 'f' && FIELD[|FIELD| - 1] == 'd';
    Text.TrimUnpadded(FIELD);
  }

  lemma EmptyPathOrField(path: Option<string>)
    requires path in {None, Some(""), Some("/")}
    ensures PathOrField(path) == FIELD
  {
    if path == Some("") {
      assert !Text.Occurs("", "/");
    } else if path == Some("/") {
      Text.ReplaceFirstAtStart("/", "/", "");
    }
  }

  /** A path `/<rest>` is filed under `rest`, trimmed: the leading slash is
      the first one, so it is the one removed. */
  lemma FieldOfSlashPath(issue: ValidationIssue)
    requires issue.instancePath.Some? && |issue.instancePath.value| > 1 && issue.instancePath.value[0] == '/'
    ensures FieldOf(issue) == Text.Trim(issue.instancePath.value[1..])
  {
    var p := issue.instancePath.value;
    assert Text.OccursAt(p, "/", 0);
    Text.ReplaceFirstAtStart(p, "/", "");
    assert PathOrField(issue.instancePath) == p[1..];
  }

  /** Each entry's field and message, in order. */
  function Entries(issues: seq<ValidationIssue>): (es: seq<(string, string)>)
    ensures |es| == |issues|
    ensures forall i :: 0 <= i < |issues| ==> es[i] == (FieldOf(issues[i]), issues[i].message)
  {
    seq(|issues|, i requires 0 <= i < |issues| => (FieldOf(issues[i]), issues[i].message))
  }

  /** `acc[field] = message` for each pair in turn, starting from `{}`. */
  function Assign(es: seq<(string, string)>): (m: map<string, string>)
    ensures forall i :: 0 <= i < |es| ==> es[i].0 in m
    ensures forall f :: f in m ==> exists i :: 0 <= i < |es| && es[i].0 == f
  {
    if |es| == 0 then map[]
    else
      var init := es[..|es| - 1];
      assert forall i :: 0 <= i < |es| - 1 ==> init[i] == es[i];
      Assign(init)[es[|es| - 1].0 := es[|es| - 1].1]
  }

  /** A key ends up with the value of the last pair naming it. */
  lemma {:induction false} AssignLastWins(es: seq<(string, string)>, i: nat)
    requires i < |es| && forall j :: i < j < |es| ==> es[j].0 != es[i].0
    ensures Assign(es)[es[i].0] == es[i].1
    decreases |es|
  {
    var n := |es| - 1;
    if i < n {
      var init := es[..n];
      assert init[i] == es[i];
      assert forall j :: i < j < n ==> init[j] == es[j];
      AssignLastWins(init, i);
    }
  }

  /** The `reduce` over the validation array: each entry sets its field to
      its message, later entries overwriting earlier ones. */
  function FormatValidation(issues: seq<ValidationIssue>): (errors: map<string, string>)
    ensures forall i :: 0 <= i < |issues| ==> FieldOf(issues[i]) in errors
    ensures forall f :: f in errors ==> exists i :: 0 <= i < |issues| && FieldOf(issues[i]) == f
  {
    AssignEntriesKeys(issues);
    Assign(Entries(issues))
  }

  lemma AssignEntriesKeys(issues: seq<ValidationIssue>)
    ensures forall i :: 0 <= i < |issues| ==> FieldOf(issues[i]) in Assign(Entries(issues))
    ensures forall f :: f in Assign(Entries(issues)) ==> exists i :: 0 <= i < |issues| && FieldOf(issues[i]) == f
  {
    var es := Entries(issues);
    forall i | 0 <= i < |issues| ensures FieldOf(issues[i]) in Assign(es) {
      assert es[i].0 == FieldOf(issues[i]);
    }
    forall f | f in Assign(es) ensures exists i :: 0 <= i < |issues| && FieldOf(issues[i]) == f {
      var i :| 0 <= i < |es| && es[i].0 == f;
    }
  }

  /** Entry `i` is the last one naming its field. */
  ghost predicate LastForField(issues: seq<ValidationIssue>, i: int)
  {
    0 <= i < |issues| && forall j :: i < j < |issues| ==> FieldOf(issues[j]) != FieldOf(issues[i])
  }

  /** Each field maps to the message of the last entry naming it. */
  lemma FormatValidationLastWins(issues: seq<ValidationIssue>, i: nat)
    requires LastForField(issues, i)
    ensures FormatValidation(issues)[FieldOf(issues[i])] == issues[i].message
  {
    AssignLastWins(Entries(issues), i);
  }

  // -------------------------------------------------------------- the classifier

  /** The reply for a database error found under `cause`. */
  function DatabaseReply(code: string, detail: Option<string>, constraint: Option<string>): (r: Reply<ErrorBody>)
    ensures r.body.Error?
    ensures code == UNIQUE_VIOLATION ==> r.status == 409 && r.body.error in DUPLICATE_TEXTS + {COURSE_TITLE_TAKEN, ALREADY_ENROLLED, EMAIL_TAKEN, INVALID_USER, INVALID_COURSE}
    ensures code == FOREIGN_KEY_VIOLATION ==> r.status == 400 && r.body.error in CONSTRAINT_TEXTS
    ensures code !in {UNIQUE_VIOLATION, FOREIGN_KEY_VIOLATION, NOT_NULL_VIOLATION, CHECK_VIOLATION} ==> r == Reply(500, Error(DB_FAILED))
  {
    var name := ExtractConstraintName(detail, constraint);
    if code == UNIQUE_VIOLATION then Reply(409, Error(ConstraintMessage(name, code)))
    else if code == FOREIGN_KEY_VIOLATION then Reply(400, Error(ConstraintMessage(name, code)))
    else if code == NOT_NULL_VIOLATION then Reply(400, Error(REQUIRED_FIELD))
    else if code == CHECK_VIOLATION then Reply(400, Error(INVALID_FORMAT))
    else Reply(500, Error(DB_FAILED))
  }

  /** `requestErrorHandler`. */
  function Classify(e: Thrown): (r: Reply<ErrorBody>)
    ensures r.status in {400, 401, 403, 404, 409, 500}
    ensures r.body.Errors? ==> r.status == 400
  {
    match e
    case NotAnObject => Reply(500, Error(INTERNAL))
    case ErrorObject(code, validation, cause) =>
      if code == Some(FST_ERR_VALIDATION) then
        match validation
        case Some(issues) => Reply(400, Errors(FormatValidation(issues)))
        case None => Reply(400, Error(INVALID_REQUEST))
      else if cause.DbCause? then DatabaseReply(cause.code, cause.detail, cause.constraint)
      else if code == Some("INVALID_TOKEN") then Reply(401, Error(BAD_TOKEN))
      else if code == Some("ACCESS_DENIED") then Reply(403, Error(ACCESS_DENIED))
      else if code == Some("USER_NOT_FOUND") then Reply(404, Error(NO_SUCH_USER))
      else if code == Some("INVALID_CREDENTIALS") then Reply(401, Error(BAD_CREDENTIALS))
      else Reply(500, Error(INTERNAL))
  }

  /** A validation error is a 400 whatever else the error carries; with an
      array the body lists every field of it, without one it is the fixed
      message. */
  lemma ValidationFirst(validation: Option<seq<ValidationIssue>>, cause: Cause)
    ensures var r := Classify(ErrorObject(Some(FST_ERR_VALIDATION), validation, cause));
      && r.status == 400
      && (validation.None? ==> r.body == Error(INVALID_REQUEST))
      && (validation.Some? ==> r.body.Errors? && r.body.errors.Keys == set i | 0 <= i < |validation.value| :: FieldOf(validation.value[i]))
  {
    if validation.Some? {
      assert Classify(ErrorObject(Some(FST_ERR_VALIDATION), validation, cause)) == Reply(400, Errors(FormatValidation(validation.value)));
      FormatValidationKeys(validation.value);
    }
  }

  /** The formatted errors have a key for every issue's field and no other. */
  lemma FormatValidationKeys(issues: seq<ValidationIssue>)
    ensures FormatValidation(issues).Keys == set i | 0 <= i < |issues| :: FieldOf(issues[i])
  {
    var keys := FormatValidation(issues).Keys;
    var fields := set i | 0 <= i < |issues| :: FieldOf(issues[i]);
    forall f | f in keys ensures f in fields {
      var i :| 0 <= i < |issues| && FieldOf(issues[i]) == f;
    }
  }

  /** A database cause decides before any authentication code: statuses by
      SQLSTATE, 409 for a unique violation and 400 for the three constraint
      classes, 500 for every other code. */
  lemma DatabaseBeforeAuth(code: Option<string>, validation: Option<seq<ValidationIssue>>, db: string, detail: Option<string>, constraint: Option<string>)
    requires code != Some(FST_ERR_VALIDATION)
    ensures var r := Classify(ErrorObject(code, validation, DbCause(db, detail, constraint)));
      && (db == UNIQUE_VIOLATION <==> r.status == 409)
      && (db in {FOREIGN_KEY_VIOLATION, NOT_NULL_VIOLATION, CHECK_VIOLATION} <==> r.status == 400)
      && (db == NOT_NULL_VIOLATION ==> r.body == Error(REQUIRED_FIELD))
      && (db == CHECK_VIOLATION ==> r.body == Error(INVALID_FORMAT))
      && (r.status == 500 <==> r.body == Error(DB_FAILED))
  {
  }

  /** The authentication codes apply only without a validation code and a
      database cause; anything else left over is a 500. */
  lemma AuthCodesLast(code: Option<string>, validation: Option<seq<ValidationIssue>>, cause: Cause)
    requires !cause.DbCause? && code != Some(FST_ERR_VALIDATION)
    ensures var r := Classify(ErrorObject(code, validation, cause));
      && (code == Some("INVALID_TOKEN") ==> r == Reply(401, Error(BAD_TOKEN)))
      && (code == Some("ACCESS_DENIED") ==> r == Reply(403, Error(ACCESS_DENIED)))
      && (code == Some("USER_NOT_FOUND") ==> r == Reply(404, Error(NO_SUCH_USER)))
      && (code == Some("INVALID_CREDENTIALS") ==> r == Reply(401, Error(BAD_CREDENTIALS)))
      && (code == Some("INVALID_TOKEN") || code == Some("INVALID_CREDENTIALS") <==> r.status == 401)
      && (code == Some("ACCESS_DENIED") <==> r.status == 403)
      && (code == Some("USER_NOT_FOUND") <==> r.status == 404)
      && (r.status == 500 <==> r.body == Error(INTERNAL))
      && r.status in {401, 403, 404, 500}
  {
  }

  // ------------------------------------------------- the writes' errors, classified

  /** The column names of this schema's unique keys, looked up under a
      unique violation. */
  lemma UniqueColumnMessages()
    ensures ConstraintMessage(Some("email"), UNIQUE_VIOLATION) == EMAIL_TAKEN
    ensures ConstraintMessage(Some("title"), UNIQUE_VIOLATION) == TITLE_TAKEN
  {
    assert Text.OccursAt("email", "email", 0);
    assert Text.OccursAt("title", "title", 0);
    assert !Text.Occurs("title", "email") by {
      forall i | Text.OccursAt("title", "email", i) ensures false {}
    }
  }

  /** The duplicate-email error of `InsertUser`, were it to reach the
      classifier, would be answered 409 "Email address is already
      registered.". No route lets it get there: register catches that
      insert's failure and answers 201 anyway. */
  lemma DuplicateEmailClassified(s: Schema.Store, name: string, email: string, now: Schema.Millis)
    requires Schema.InsertUser(s, name, email, now).Err?
    ensures Classify(FromDb(Schema.InsertUser(s, name, email, now).error)) == Reply(409, Error(EMAIL_TAKEN))
  {
    var e := Schema.InsertUser(s, name, email, now).error;
    var rest := "=(" + email + ") already exists.";
    assert "Key (email)=(" + email + ") already exists." == KEY_PREFIX + "email" + ")" + rest;
    KeyDetailNamesColumns("email", rest, e.constraint);
    UniqueColumnMessages();
  }

  /** A duplicate course title is reported as 409 "Title already exists.":
      the detail names the column, so the table entry for the constraint is
      not the one used. */
  lemma DuplicateTitleClassified(s: Schema.Store, title: string, description: Option<string>, price: Option<int>)
    requires Schema.InsertCourse(s, title, description, price).Err?
    ensures Classify(FromDb(Schema.InsertCourse(s, title, description, price).error)) == Reply(409, Error(TITLE_TAKEN))
  {
    var e := Schema.InsertCourse(s, title, description, price).error;
    var rest := "=(" + title + ") already exists.";
    assert "Key (title)=(" + title + ") already exists." == KEY_PREFIX + "title" + ")" + rest;
    KeyDetailNamesColumns("title", rest, e.constraint);
    UniqueColumnMessages();
  }
}
