/** The four tables of `src/database/schema.ts` as records, the database as
    an immutable value, the constraints PostgreSQL enforces on it as the
    invariant `Wf`, and the writes the application performs. A failing write
    returns the SQLSTATE code, constraint name and detail text PostgreSQL
    reports, which the error classifier later inspects. */
module Schema {
  import opened Common
  import Text

  /** Row identity. `uuid().defaultRandom()` is modelled by a counter held in
      the store, so a new id is fresh by construction. */
  type Id = nat

  /** Instants in milliseconds since the epoch. */
  type Millis = int

  datatype User = User(id: Id, name: string, email: string, confirmed: bool, createdAt: Millis)

  datatype Course = Course(id: Id, title: string, description: Option<string>, price: Option<int>)

  datatype ConfirmationCode = ConfirmationCode(
    id: Id, userId: Id, code: string, expiresAt: Millis, used: bool, createdAt: Millis)

  datatype Enrollment = Enrollment(id: Id, userId: Id, courseId: Id, createdAt: Millis)

  datatype Store = Store(
    users: seq<User>,
    courses: seq<Course>,
    codes: seq<ConfirmationCode>,
    enrollments: seq<Enrollment>,
    nextId: Id)

  /** What PostgreSQL reports for a failed statement. */
  datatype DbError = DbError(code: string, constraint: Option<string>, detail: Option<string>)

  const UNIQUE_VIOLATION := "23505"
  const FOREIGN_KEY_VIOLATION := "23503"

  const EmptyStore := Store([], [], [], [], 0)

  // ---------------------------------------------------------------- invariant

  predicate HasUser(users: seq<User>, id: Id)
  {
    exists i :: 0 <= i < |users| && users[i].id == id
  }

  predicate HasCourse(courses: seq<Course>, id: Id)
  {
    exists i :: 0 <= i < |courses| && courses[i].id == id
  }

  predicate UserExists(s: Store, id: Id)
  {
    HasUser(s.users, id)
  }

  predicate CourseExists(s: Store, id: Id)
  {
    HasCourse(s.courses, id)
  }

  /** Every id handed out so far is below the counter. */
  predicate IdsBelowCounter(s: Store)
  {
    && (forall i :: 0 <= i < |s.users| ==> s.users[i].id < s.nextId)
    && (forall i :: 0 <= i < |s.courses| ==> s.courses[i].id < s.nextId)
    && (forall i :: 0 <= i < |s.codes| ==> s.codes[i].id < s.nextId)
    && (forall i :: 0 <= i < |s.enrollments| ==> s.enrollments[i].id < s.nextId)
  }

  /** Primary keys: no two rows of one table share an id. */
  predicate PrimaryKeys(s: Store)
  {
    && (forall i, j :: 0 <= i < j < |s.users| ==> s.users[i].id != s.users[j].id)
    && (forall i, j :: 0 <= i < j < |s.courses| ==> s.courses[i].id != s.courses[j].id)
    && (forall i, j :: 0 <= i < j < |s.codes| ==> s.codes[i].id != s.codes[j].id)
    && (forall i, j :: 0 <= i < j < |s.enrollments| ==> s.enrollments[i].id != s.enrollments[j].id)
  }

  /** `users.email` and `courses.title` are unique. */
  predicate UniqueColumns(s: Store)
  {
    && (forall i, j :: 0 <= i < j < |s.users| ==> s.users[i].email != s.users[j].email)
    && (forall i, j :: 0 <= i < j < |s.courses| ==> s.courses[i].title != s.courses[j].title)
  }

  /** Foreign keys of confirmation codes and enrollments. */
  predicate References(s: Store)
  {
    && (forall i :: 0 <= i < |s.codes| ==> HasUser(s.users, s.codes[i].userId))
    && (forall i :: 0 <= i < |s.enrollments| ==> HasUser(s.users, s.enrollments[i].userId))
    && (forall i :: 0 <= i < |s.enrollments| ==> HasCourse(s.courses, s.enrollments[i].courseId))
  }

  /** The `enrollment_unique_per_user_and_course` index. */
  predicate OneEnrollmentPerPair(s: Store)
  {
    forall i, j :: 0 <= i < j < |s.enrollments| ==>
      s.enrollments[i].userId != s.enrollments[j].userId
      || s.enrollments[i].courseId != s.enrollments[j].courseId
  }

  predicate Wf(s: Store)
  {
    IdsBelowCounter(s) && PrimaryKeys(s) && UniqueColumns(s) && References(s) && OneEnrollmentPerPair(s)
  }

  lemma EmptyStoreWf()
    ensures Wf(EmptyStore)
  {
  }

  // ------------------------------------------------------------------ queries

  /** `select().from(users).where(eq(users.email, email))`, first row. */
  function UserByEmail(s: Store, email: string): (r: Option<nat>)
    ensures r.Some? ==> r.value < |s.users| && s.users[r.value].email == email
    ensures r.None? <==> forall i :: 0 <= i < |s.users| ==> s.users[i].email != email
  {
    FindFirst(s.users, (u: User) => u.email == email)
  }

  /** `select().from(users).where(eq(users.id, id))`, first row. */
  function UserById(s: Store, id: Id): (r: Option<nat>)
    ensures r.Some? ==> r.value < |s.users| && s.users[r.value].id == id
    ensures r.None? <==> !UserExists(s, id)
  {
    FindFirst(s.users, (u: User) => u.id == id)
  }

  /** `select().from(courses).where(eq(courses.id, id))`, first row. */
  function CourseById(s: Store, id: Id): (r: Option<nat>)
    ensures r.Some? ==> r.value < |s.courses| && s.courses[r.value].id == id
    ensures r.None? <==> !CourseExists(s, id)
  {
    FindFirst(s.courses, (c: Course) => c.id == id)
  }

  /** A code row the verify route may consume: it belongs to the user, holds
      exactly that code and is not used yet. */
  predicate Consumable(row: ConfirmationCode, userId: Id, code: string)
  {
    row.userId == userId && row.code == code && !row.used
  }

  /** The code lookup of the verify route: `where userId = .. and code = ..
      and used = false limit 1`. Without an ORDER BY PostgreSQL may return
      any matching row; the model takes the earliest inserted, which is one
      of the answers the database may give. */
  function FirstConsumable(s: Store, userId: Id, code: string): (r: Option<nat>)
    ensures r.Some? ==> r.value < |s.codes| && Consumable(s.codes[r.value], userId, code)
    ensures r.Some? ==> forall j :: 0 <= j < r.value ==> !Consumable(s.codes[j], userId, code)
    ensures r.None? <==> forall j :: 0 <= j < |s.codes| ==> !Consumable(s.codes[j], userId, code)
  {
    FindFirst(s.codes, (row: ConfirmationCode) => Consumable(row, userId, code))
  }

  /** Under the invariant a lookup by a unique column finds the only match. */
  lemma UserByEmailUnique(s: Store, email: string, i: nat)
    requires Wf(s) && i < |s.users| && s.users[i].email == email
    ensures UserByEmail(s, email) == Some(i)
  {
  }

  lemma UserByIdUnique(s: Store, i: nat)
    requires Wf(s) && i < |s.users|
    ensures UserById(s, s.users[i].id) == Some(i)
  {
  }

  lemma CourseByIdUnique(s: Store, i: nat)
    requires Wf(s) && i < |s.courses|
    ensures CourseById(s, s.courses[i].id) == Some(i)
  {
  }

  // ------------------------------------------------------------------- writes

  /** `insert into users (name, email)`: `confirmed` defaults to false and
      `createdAt` to now; a taken email violates `users_email_unique`. */
  function InsertUser(s: Store, name: string, email: string, now: Millis): (r: Result<(User, Store), DbError>)
    ensures r.Err? <==> exists i :: 0 <= i < |s.users| && s.users[i].email == email
    ensures r.Err? ==> r.error.code == UNIQUE_VIOLATION && r.error.constraint == Some("users_email_unique")
    ensures r.Ok? ==>
      var (u, s') := r.value;
      && u == User(s.nextId, name, email, false, now)
      && s' == s.(users := s.users + [u], nextId := s.nextId + 1)
  {
    if UserByEmail(s, email).Some? then
      Err(DbError(UNIQUE_VIOLATION, Some("users_email_unique"),
                  Some("Key (email)=(" + email + ") already exists.")))
    else
      var u := User(s.nextId, name, email, false, now);
      Ok((u, s.(users := s.users + [u], nextId := s.nextId + 1)))
  }

  /** Appends a confirmation-code row for a user known to exist: `used`
      defaults to false, `createdAt` to now. */
  function AppendCode(s: Store, userId: Id, code: string, expiresAt: Millis, now: Millis): (r: (ConfirmationCode, Store))
    ensures r.0 == ConfirmationCode(s.nextId, userId, code, expiresAt, false, now)
    ensures r.1 == s.(codes := s.codes + [r.0], nextId := s.nextId + 1)
  {
    var row := ConfirmationCode(s.nextId, userId, code, expiresAt, false, now);
    (row, s.(codes := s.codes + [row], nextId := s.nextId + 1))
  }

  /** `insert into email_confirmation_codes`: the user must exist. */
  function InsertCode(s: Store, userId: Id, code: string, expiresAt: Millis, now: Millis)
    : (r: Result<(ConfirmationCode, Store), DbError>)
    ensures r.Err? <==> !UserExists(s, userId)
    ensures r.Err? ==> r.error.code == FOREIGN_KEY_VIOLATION
    ensures r.Ok? ==> r.value == AppendCode(s, userId, code, expiresAt, now)
  {
    if UserById(s, userId).None? then
      Err(DbError(FOREIGN_KEY_VIOLATION, Some("email_confirmation_codes_userId_users_id_fk"),
                  Some("Key (\"userId\")=(" + Text.NatToDecimal(userId) + ") is not present in table \"users\".")))
    else
      Ok(AppendCode(s, userId, code, expiresAt, now))
  }

  /** `insert into courses`: a taken title violates `courses_title_unique`. */
  function InsertCourse(s: Store, title: string, description: Option<string>, price: Option<int>)
    : (r: Result<(Course, Store), DbError>)
    ensures r.Err? <==> exists i :: 0 <= i < |s.courses| && s.courses[i].title == title
    ensures r.Err? ==> r.error.code == UNIQUE_VIOLATION
    ensures r.Ok? ==>
      var (c, s') := r.value;
      && c == Course(s.nextId, title, description, price)
      && s' == s.(courses := s.courses + [c], nextId := s.nextId + 1)
  {
    if FindFirst(s.courses, (c: Course) => c.title == title).Some? then
      Err(DbError(UNIQUE_VIOLATION, Some("courses_title_unique"),
                  Some("Key (title)=(" + title + ") already exists.")))
    else
      var c := Course(s.nextId, title, description, price);
      Ok((c, s.(courses := s.courses + [c], nextId := s.nextId + 1)))
  }

  /** `insert into enrollments`: the unique index is checked when the row is
      written, the two foreign keys at the end of the statement. */
  function InsertEnrollment(s: Store, userId: Id, courseId: Id, now: Millis)
    : (r: Result<(Enrollment, Store), DbError>)
    ensures r.Ok? <==>
      && UserExists(s, userId) && CourseExists(s, courseId)
      && forall i :: 0 <= i < |s.enrollments| ==>
           s.enrollments[i].userId != userId || s.enrollments[i].courseId != courseId
    ensures (exists i :: 0 <= i < |s.enrollments| && s.enrollments[i].userId == userId
                                               && s.enrollments[i].courseId == courseId) ==>
      r.Err? && r.error.code == UNIQUE_VIOLATION
      && r.error.constraint == Some("enrollment_unique_per_user_and_course")
    ensures (forall i :: 0 <= i < |s.enrollments| ==>
               s.enrollments[i].userId != userId || s.enrollments[i].courseId != courseId)
            && !(UserExists(s, userId) && CourseExists(s, courseId)) ==>
      r.Err? && r.error.code == FOREIGN_KEY_VIOLATION
    ensures r.Ok? ==>
      var (e, s') := r.value;
      && e == Enrollment(s.nextId, userId, courseId, now)
      && s' == s.(enrollments := s.enrollments + [e], nextId := s.nextId + 1)
  {
    if FindFirst(s.enrollments, (e: Enrollment) => e.userId == userId && e.courseId == courseId).Some? then
      Err(DbError(UNIQUE_VIOLATION, Some("enrollment_unique_per_user_and_course"),
                  Some("Key (\"userId\", \"courseId\")=(" + Text.NatToDecimal(userId) + ", "
                       + Text.NatToDecimal(courseId) + ") already exists.")))
    else if UserById(s, userId).None? then
      Err(DbError(FOREIGN_KEY_VIOLATION, Some("enrollments_userId_users_id_fk"),
                  Some("Key (\"userId\")=(" + Text.NatToDecimal(userId) + ") is not present in table \"users\".")))
    else if CourseById(s, courseId).None? then
      Err(DbError(FOREIGN_KEY_VIOLATION, Some("enrollments_courseId_courses_id_fk"),
                  Some("Key (\"courseId\")=(" + Text.NatToDecimal(courseId) + ") is not present in table \"courses\".")))
    else
      var e := Enrollment(s.nextId, userId, courseId, now);
      Ok((e, s.(enrollments := s.enrollments + [e], nextId := s.nextId + 1)))
  }

  /** `update email_confirmation_codes set used = true where id = ..`. */
  function MarkCodeUsed(s: Store, i: nat): (s': Store)
    requires i < |s.codes|
    ensures |s'.codes| == |s.codes| && s'.codes[i].used
    ensures s'.codes[i] == s.codes[i].(used := true)
    ensures forall j :: 0 <= j < |s.codes| && j != i ==> s'.codes[j] == s.codes[j]
    ensures s' == s.(codes := s'.codes)
  {
    s.(codes := s.codes[i := s.codes[i].(used := true)])
  }

  /** `update users set confirmed = true where id = .. returning`: the
      updated row, or nothing when no user has that id. */
  function ConfirmUser(s: Store, id: Id): (r: Option<(User, Store)>)
    ensures r.None? <==> !UserExists(s, id)
    ensures r.Some? ==>
      var (u, s') := r.value;
      exists i :: 0 <= i < |s.users| && s.users[i].id == id
        && u == s.users[i].(confirmed := true)
        && s' == s.(users := s.users[i := u])
  {
    match UserById(s, id)
    case None => None
    case Some(i) =>
      var u := s.users[i].(confirmed := true);
      Some((u, s.(users := s.users[i := u])))
  }

  /** `delete from users where id = ..`: the user's confirmation codes go
      with it (`onDelete: "cascade"`); an enrollment of the user blocks the
      delete (no cascade on that foreign key). */
  function DeleteUser(s: Store, id: Id): (r: Result<Store, DbError>)
    ensures r.Err? <==> exists i :: 0 <= i < |s.enrollments| && s.enrollments[i].userId == id
    ensures r.Ok? ==>
      && (forall u :: u in r.value.users <==> u in s.users && u.id != id)
      && (forall c :: c in r.value.codes <==> c in s.codes && c.userId != id)
      && r.value.courses == s.courses && r.value.enrollments == s.enrollments
  {
    if FindFirst(s.enrollments, (e: Enrollment) => e.userId == id).Some? then
      Err(DbError(FOREIGN_KEY_VIOLATION, Some("enrollments_userId_users_id_fk"),
                  Some("Key (id)=(" + Text.NatToDecimal(id) + ") is still referenced from table \"enrollments\".")))
    else
      Ok(s.(users := Filter(s.users, (u: User) => u.id != id),
            codes := Filter(s.codes, (c: ConfirmationCode) => c.userId != id)))
  }

  // ------------------------------------------------- the writes keep the invariant

  /** Appending a row with a new id keeps an existing id findable. */
  lemma HasUserAppend(users: seq<User>, u: User, id: Id)
    requires HasUser(users, id)
    ensures HasUser(users + [u], id)
  {
    var k :| 0 <= k < |users| && users[k].id == id;
    assert (users + [u])[k] == users[k];
  }

  lemma HasCourseAppend(courses: seq<Course>, c: Course, id: Id)
    requires HasCourse(courses, id)
    ensures HasCourse(courses + [c], id)
  {
    var k :| 0 <= k < |courses| && courses[k].id == id;
    assert (courses + [c])[k] == courses[k];
  }

  lemma InsertUserWf(s: Store, name: string, email: string, now: Millis)
    requires Wf(s)
    ensures InsertUser(s, name, email, now).Ok? ==> Wf(InsertUser(s, name, email, now).value.1)
  {
    var r := InsertUser(s, name, email, now);
    if r.Ok? {
      var (u, s') := r.value;
      forall x | HasUser(s.users, x) ensures HasUser(s'.users, x) {
        HasUserAppend(s.users, u, x);
      }
      assert References(s');
    }
  }

  lemma AppendCodeWf(s: Store, userId: Id, code: string, expiresAt: Millis, now: Millis)
    requires Wf(s) && UserExists(s, userId)
    ensures Wf(AppendCode(s, userId, code, expiresAt, now).1)
  {
  }

  lemma InsertCourseWf(s: Store, title: string, description: Option<string>, price: Option<int>)
    requires Wf(s)
    ensures InsertCourse(s, title, description, price).Ok? ==> Wf(InsertCourse(s, title, description, price).value.1)
  {
    var r := InsertCourse(s, title, description, price);
    if r.Ok? {
      var (c, s') := r.value;
      forall x | HasCourse(s.courses, x) ensures HasCourse(s'.courses, x) {
        HasCourseAppend(s.courses, c, x);
      }
      assert References(s');
    }
  }

  lemma InsertEnrollmentWf(s: Store, userId: Id, courseId: Id, now: Millis)
    requires Wf(s)
    ensures InsertEnrollment(s, userId, courseId, now).Ok? ==> Wf(InsertEnrollment(s, userId, courseId, now).value.1)
  {
    var r := InsertEnrollment(s, userId, courseId, now);
    if r.Ok? {
      AppendEnrollmentWf(s, r.value.0);
    }
  }

  /** An enrollment with the next id, existing references and a new pair
      keeps the invariant. */
  lemma AppendEnrollmentWf(s: Store, e: Enrollment)
    requires Wf(s) && e.id == s.nextId
    requires UserExists(s, e.userId) && CourseExists(s, e.courseId)
    requires forall i :: 0 <= i < |s.enrollments| ==>
      s.enrollments[i].userId != e.userId || s.enrollments[i].courseId != e.courseId
    ensures Wf(s.(enrollments := s.enrollments + [e], nextId := s.nextId + 1))
  {
    var s' := s.(enrollments := s.enrollments + [e], nextId := s.nextId + 1);
    var es := s'.enrollments;
    assert forall i :: 0 <= i < |s.enrollments| ==> es[i] == s.enrollments[i];
    assert es[|s.enrollments|] == e;
    assert IdsBelowCounter(s');
    assert PrimaryKeys(s') by {
      forall i, j | 0 <= i < j < |es| ensures es[i].id != es[j].id {
        if j == |s.enrollments| { assert es[i].id < s.nextId; }
      }
    }
    assert OneEnrollmentPerPair(s');
  }

  lemma MarkCodeUsedWf(s: Store, i: nat)
    requires Wf(s) && i < |s.codes|
    ensures Wf(MarkCodeUsed(s, i))
  {
    var s' := MarkCodeUsed(s, i);
    assert forall j :: 0 <= j < |s.codes| ==> s'.codes[j].id == s.codes[j].id && s'.codes[j].userId == s.codes[j].userId;
  }

  lemma ConfirmUserWf(s: Store, id: Id)
    requires Wf(s)
    ensures ConfirmUser(s, id).Some? ==> Wf(ConfirmUser(s, id).value.1)
  {
    var r := ConfirmUser(s, id);
    if r.Some? {
      var s' := r.value.1;
      assert |s'.users| == |s.users|;
      assert forall j :: 0 <= j < |s.users| ==> s'.users[j].id == s.users[j].id && s'.users[j].email == s.users[j].email;
      forall x | HasUser(s.users, x) ensures HasUser(s'.users, x) {
        var k :| 0 <= k < |s.users| && s.users[k].id == x;
        assert s'.users[k].id == x;
      }
      assert References(s');
    }
  }

  /** Deleting a user keeps the invariant: no enrollment referenced it, and
      its codes were removed with it. */
  lemma DeleteUserWf(s: Store, id: Id)
    requires Wf(s)
    ensures DeleteUser(s, id).Ok? ==> Wf(DeleteUser(s, id).value)
  {
    if DeleteUser(s, id).Ok? {
      DeleteUserKeepsReferences(s, id);
      DeleteUserKeepsKeys(s, id);
    }
  }

  lemma DeleteUserKeepsReferences(s: Store, id: Id)
    requires Wf(s) && DeleteUser(s, id).Ok?
    ensures References(DeleteUser(s, id).value)
  {
    var s' := DeleteUser(s, id).value;
    forall x | HasUser(s.users, x) && x != id ensures HasUser(s'.users, x) {
      var k :| 0 <= k < |s.users| && s.users[k].id == x;
      var u := s.users[k];
      assert u in s'.users;
      var m :| 0 <= m < |s'.users| && s'.users[m] == u;
    }
    forall i | 0 <= i < |s'.codes| ensures HasUser(s'.users, s'.codes[i].userId) {
      var c := s'.codes[i];
      assert c in s.codes;
      var m :| 0 <= m < |s.codes| && s.codes[m] == c;
    }
    forall i | 0 <= i < |s'.enrollments| ensures HasUser(s'.users, s'.enrollments[i].userId) {
      assert s'.enrollments[i] == s.enrollments[i];
    }
  }

  lemma DeleteUserKeepsKeys(s: Store, id: Id)
    requires Wf(s) && DeleteUser(s, id).Ok?
    ensures IdsBelowCounter(DeleteUser(s, id).value)
    ensures PrimaryKeys(DeleteUser(s, id).value)
    ensures UniqueColumns(DeleteUser(s, id).value)
    ensures OneEnrollmentPerPair(DeleteUser(s, id).value)
  {
    var s' := DeleteUser(s, id).value;
    forall i | 0 <= i < |s'.users| ensures s'.users[i].id < s'.nextId {
      assert s'.users[i] in s.users;
    }
    forall i | 0 <= i < |s'.codes| ensures s'.codes[i].id < s'.nextId {
      assert s'.codes[i] in s.codes;
    }
    FilterKeepsDistinct(s.users, (u: User) => u.id != id, (u: User) => u.id);
    FilterKeepsDistinct(s.users, (u: User) => u.id != id, (u: User) => u.email);
    FilterKeepsDistinct(s.codes, (c: ConfirmationCode) => c.userId != id, (c: ConfirmationCode) => c.id);
  }
}
