/** The three course routes: the filtered, ordered, paged list with
    per-course enrollment counts and a total; the lookup by id; and creation
    from a validated body. Errors a route throws go through the error
    classifier. */
module CourseRoutes {
  import opened Common
  import opened Schema
  import opened CourseOrder
  import opened CourseSchemas
  import Text
  import ErrorHandler

  /** `.limit(2)`. */
  const PAGE_SIZE: nat := 2

  /** SQLSTATE PostgreSQL reports for a negative OFFSET. */
  const NEGATIVE_OFFSET := "2201X"

  /** A listed course: the course's columns and `count(enrollments.id)`. */
  datatype CourseRow = CourseRow(id: Id, title: string, description: Option<string>, price: Option<int>, enrollments: nat)

  datatype Listing = Listing(courses: seq<CourseRow>, total: nat)

  /** The bodies of the course routes' replies. */
  datatype CourseBody =
    | Listed(listing: Listing)
    | Found(course: Course)
    | Created(courseId: Id)
    | NoBody
    | Failed(error: ErrorHandler.ErrorBody)

  /** The query string after parsing; absent fields take their defaults. */
  datatype ListQuery = ListQuery(search: Option<string>, orderBy: Option<OrderBy>, page: Option<int>)

  // ---------------------------------------------------------------------- list

  /** `title ILIKE '%search%'` when a search term is given, nothing
      otherwise. */
  function SearchFilter(search: Option<string>): Course -> bool
  {
    (c: Course) => !Truthy(search) || Text.IncludesIgnoringCase(c.title, search.value)
  }

  /** The left join grouped by course: the number of enrollment rows that
      reference the course. */
  function EnrollmentCount(s: Store, courseId: Id): nat
  {
    Count(s.enrollments, (e: Enrollment) => e.courseId == courseId)
  }

  function RowOf(s: Store, c: Course): CourseRow
  {
    CourseRow(c.id, c.title, c.description, c.price, EnrollmentCount(s, c.id))
  }

  /** The courses that pass the filter, ordered. */
  function Ordered(s: Store, search: Option<string>, order: OrderBy): seq<Course>
  {
    SortCourses(order, Filter(s.courses, SearchFilter(search)))
  }

  /** Positions `offset` and `offset + 1` of `xs`, those that exist. */
  function Window(xs: seq<Course>, offset: nat): (w: seq<Course>)
    ensures |w| <= PAGE_SIZE
    ensures forall k :: 0 <= k < |w| ==> offset + k < |xs| && w[k] == xs[offset + k]
    ensures |w| == if offset >= |xs| then 0 else if |xs| - offset < PAGE_SIZE then |xs| - offset else PAGE_SIZE
  {
    if offset >= |xs| then []
    else if |xs| - offset < PAGE_SIZE then xs[offset..]
    else xs[offset..offset + PAGE_SIZE]
  }

  /** `GET /courses` after defaults: a page below 1 makes the OFFSET
      negative, which PostgreSQL refuses. */
  function ListCourses(s: Store, search: Option<string>, order: OrderBy, page: int): (r: Result<Listing, DbError>)
    ensures r.Err? <==> page < 1
    ensures r.Err? ==> r.error.code == NEGATIVE_OFFSET
    ensures r.Ok? ==> |r.value.courses| <= PAGE_SIZE
    ensures r.Ok? ==>
      var n, offset := |Ordered(s, search, order)|, (page - 1) * PAGE_SIZE;
      |r.value.courses| == if offset >= n then 0 else if n - offset < PAGE_SIZE then n - offset else PAGE_SIZE
    ensures r.Ok? ==> forall k :: 0 <= k < |r.value.courses| ==>
      (page - 1) * PAGE_SIZE + k < |Ordered(s, search, order)|
      && r.value.courses[k] == RowOf(s, Ordered(s, search, order)[(page - 1) * PAGE_SIZE + k])
    ensures r.Ok? ==> r.value.total == |Ordered(s, search, order)|
  {
    if page < 1 then Err(DbError(NEGATIVE_OFFSET, None, None))
    else
      FilterLengthIsCount(s.courses, SearchFilter(search));
      var w := Window(Ordered(s, search, order), (page - 1) * PAGE_SIZE);
      Ok(Listing(seq(|w|, k requires 0 <= k < |w| => RowOf(s, w[k])), Count(s.courses, SearchFilter(search))))
  }

  /** The route: `orderBy` defaults to the id and `page` to 1; a failure is
      answered by the error classifier. */
  function ListRoute(s: Store, q: ListQuery): (r: Reply<CourseBody>)
    ensures r.status == 200 || r == Reply(500, Failed(ErrorHandler.Error(ErrorHandler.DB_FAILED)))
  {
    var order := if q.orderBy.Some? then q.orderBy.value else ById;
    var page := if q.page.Some? then q.page.value else 1;
    match ListCourses(s, q.search, order, page)
    case Ok(listing) => Reply(200, Listed(listing))
    case Err(e) =>
      var reply := ErrorHandler.Classify(ErrorHandler.FromDb(e));
      Reply(reply.status, Failed(reply.body))
  }

  /** Every listed course passes the search filter and is a stored course. */
  lemma ListedCoursesMatch(s: Store, search: Option<string>, order: OrderBy, page: int)
    requires page >= 1
    ensures forall k :: 0 <= k < |ListCourses(s, search, order, page).value.courses| ==>
      var row := ListCourses(s, search, order, page).value.courses[k];
      && (Truthy(search) ==> Text.IncludesIgnoringCase(row.title, search.value))
      && Course(row.id, row.title, row.description, row.price) in s.courses
  {
    var sorted := Ordered(s, search, order);
    var matching := Filter(s.courses, SearchFilter(search));
    var w := Window(sorted, (page - 1) * PAGE_SIZE);
    forall k | 0 <= k < |w| ensures SearchFilter(search)(w[k]) && w[k] in s.courses {
      assert w[k] in multiset(sorted);
      assert w[k] in multiset(matching);
    }
  }

  /** `total` counts every course that passes the filter, whatever the page
      and the order. */
  lemma TotalCountsMatches(s: Store, search: Option<string>, o1: OrderBy, p1: int, o2: OrderBy, p2: int)
    requires p1 >= 1 && p2 >= 1
    ensures ListCourses(s, search, o1, p1).value.total == ListCourses(s, search, o2, p2).value.total
    ensures ListCourses(s, search, o1, p1).value.total == |MatchingPositions(s.courses, SearchFilter(search))|
    ensures ListCourses(s, search, o1, p1).value.total == |Ordered(s, search, o1)|
  {
    CountIsMatchingPositions(s.courses, SearchFilter(search));
    FilterLengthIsCount(s.courses, SearchFilter(search));
  }

  /** Without a search term every course is counted. */
  lemma NoSearchCountsAll(s: Store, order: OrderBy, page: int)
    requires page >= 1
    ensures ListCourses(s, None, order, page).value.total == |s.courses|
  {
    CountEverything(s.courses, SearchFilter(None));
  }

  lemma {:induction false} CountEverything<T>(xs: seq<T>, p: T -> bool)
    requires forall k :: 0 <= k < |xs| ==> p(xs[k])
    ensures Count(xs, p) == |xs|
    decreases |xs|
  {
    if |xs| > 0 {
      CountEverything(xs[..|xs| - 1], p);
    }
  }

  /** Page `p` holds the ordered courses at positions `2(p-1)` and
      `2(p-1)+1`, each with its enrollment count. */
  lemma PageHoldsPositions(s: Store, search: Option<string>, order: OrderBy, k: nat)
    requires k < |Ordered(s, search, order)|
    ensures var listing := ListCourses(s, search, order, k / PAGE_SIZE + 1).value;
      k % PAGE_SIZE < |listing.courses|
      && listing.courses[k % PAGE_SIZE] == RowOf(s, Ordered(s, search, order)[k])
  {
  }

  /** Every course that passes the filter is listed on some page. */
  lemma EveryMatchIsListed(s: Store, search: Option<string>, order: OrderBy, c: Course)
    requires c in s.courses && SearchFilter(search)(c)
    ensures exists p :: p >= 1 && RowOf(s, c) in ListCourses(s, search, order, p).value.courses
  {
    var sorted := Ordered(s, search, order);
    assert c in Filter(s.courses, SearchFilter(search));
    assert c in multiset(sorted);
    var k :| 0 <= k < |sorted| && sorted[k] == c;
    PageHoldsPositions(s, search, order, k);
    var p := k / PAGE_SIZE + 1;
    assert ListCourses(s, search, order, p).value.courses[k % PAGE_SIZE] == RowOf(s, c);
  }

  /** The order is the requested ascending one, and under the id or title
      order (both unique in a well-formed database) the pages are fixed by
      the data alone: any ascending arrangement of the matching courses gives
      the same pages. */
  lemma PagesFollowOrder(s: Store, search: Option<string>, order: OrderBy, ys: seq<Course>)
    requires Wf(s) && order != ByPrice
    requires Sorted(order, ys) && multiset(ys) == multiset(Filter(s.courses, SearchFilter(search)))
    ensures Sorted(order, Ordered(s, search, order))
    ensures Ordered(s, search, order) == ys
  {
    var matching := Filter(s.courses, SearchFilter(search));
    SortCoursesCorrect(order, matching);
    FilterKeepsDistinct(s.courses, SearchFilter(search), (c: Course) => c.id);
    FilterKeepsDistinct(s.courses, SearchFilter(search), (c: Course) => c.title);
    var sorted := Ordered(s, search, order);
    assert forall i, j :: 0 <= i < j < |s.courses| ==> s.courses[i].id != s.courses[j].id && s.courses[i].title != s.courses[j].title;
    DistinctAfterPermutation(matching, sorted);
    SortedPermutationUnique(order, sorted, ys);
  }

  /** A permutation of rows with distinct ids and titles has them distinct
      too. */
  lemma DistinctAfterPermutation(xs: seq<Course>, ys: seq<Course>)
    requires forall i, j :: 0 <= i < j < |xs| ==> xs[i].id != xs[j].id
    requires forall i, j :: 0 <= i < j < |xs| ==> xs[i].title != xs[j].title
    requires multiset(xs) == multiset(ys)
    ensures forall i, j :: 0 <= i < j < |ys| ==> ys[i].id != ys[j].id && ys[i].title != ys[j].title
  {
    forall i, j | 0 <= i < j < |ys| ensures ys[i].id != ys[j].id && ys[i].title != ys[j].title {
      assert ys[i] in multiset(xs) && ys[j] in multiset(xs);
      var a :| 0 <= a < |xs| && xs[a] == ys[i];
      var b :| 0 <= b < |xs| && xs[b] == ys[j];
      if a == b {
        assert ys[i] == ys[j];
        TwoPositions(ys, i, j);
        assert multiset(xs)[xs[a]] >= 2;
        OnePosition(xs, a);
      }
    }
  }

  /** An element at two positions occurs at least twice. */
  lemma TwoPositions<T>(xs: seq<T>, i: nat, j: nat)
    requires i < j < |xs| && xs[i] == xs[j]
    ensures multiset(xs)[xs[i]] >= 2
  {
    assert xs == xs[..j] + [xs[j]] + xs[j + 1..];
    assert xs[i] in multiset(xs[..j]);
  }

  /** In rows with distinct ids, a row occurs once. */
  lemma OnePosition(xs: seq<Course>, a: nat)
    requires a < |xs| && forall i, j :: 0 <= i < j < |xs| ==> xs[i].id != xs[j].id
    ensures multiset(xs)[xs[a]] == 1
  {
    assert xs == xs[..a] + [xs[a]] + xs[a + 1..];
    assert xs[a] !in multiset(xs[..a]) by {
      forall k | 0 <= k < a ensures xs[..a][k] != xs[a] {
        assert xs[..a][k] == xs[k];
      }
    }
    var tail := xs[a + 1..];
    assert xs[a] !in multiset(tail) by {
      forall k | 0 <= k < |tail| ensures tail[k] != xs[a] {
        assert tail[k] == xs[a + 1 + k];
      }
    }
  }

  /** A listed course's `enrollments` is the number of enrollment rows that
      reference it, zero exactly when none does. */
  lemma EnrollmentsCounted(s: Store, c: Course)
    ensures RowOf(s, c).enrollments == |MatchingPositions(s.enrollments, (e: Enrollment) => e.courseId == c.id)|
    ensures RowOf(s, c).enrollments == 0 <==> forall j :: 0 <= j < |s.enrollments| ==> s.enrollments[j].courseId != c.id
  {
    CountIsMatchingPositions(s.enrollments, (e: Enrollment) => e.courseId == c.id);
    CountZeroIffNone(s.enrollments, (e: Enrollment) => e.courseId == c.id);
  }

  // ----------------------------------------------------------------- get by id

  /** `GET /courses/:id`: the first reply sent wins, so 200 with the course
      when a row has the id and 404 with no body otherwise. */
  function GetCourse(s: Store, id: Id): (r: Reply<CourseBody>)
    ensures r.status == 200 <==> CourseExists(s, id)
    ensures r.status == 200 ==> r.body.Found? && r.body.course in s.courses && r.body.course.id == id
    ensures r.status != 200 ==> r == Reply(404, NoBody)
  {
    match CourseById(s, id)
    case None => Reply(404, NoBody)
    case Some(i) => Reply(200, Found(s.courses[i]))
  }

  // -------------------------------------------------------------------- create

  /** `POST /courses`: validate, then insert with the description or null
      and the price or 0; a validation failure or a taken title is answered
      by the error classifier and leaves the database as it was. */
  function CreateCourse(s: Store, body: map<string, Json>): (out: (Reply<CourseBody>, Store))
    ensures out.0.status != 201 ==> out.1 == s
  {
    match ValidateCreateCourse(body)
    case Err(issues) =>
      var reply := ErrorHandler.Classify(ErrorHandler.ErrorObject(Some(ErrorHandler.FST_ERR_VALIDATION), Some(issues), ErrorHandler.NoCause));
      (Reply(reply.status, Failed(reply.body)), s)
    case Ok(input) =>
      var price := if input.price.Some? then input.price.value else 0;
      match InsertCourse(s, input.title, input.description, Some(price))
      case Err(e) =>
        var reply := ErrorHandler.Classify(ErrorHandler.FromDb(e));
        (Reply(reply.status, Failed(reply.body)), s)
      case Ok((c, s')) => (Reply(201, Created(c.id)), s')
  }

  /** A rejected body: 400 with each failed field's message under its key. */
  lemma CreateRejectsInvalidBody(s: Store, body: map<string, Json>)
    requires !AcceptableBody(body)
    ensures CreateCourse(s, body) == (Reply(400, Failed(ErrorHandler.Errors(ExpectedErrors(body)))), s)
  {
    ValidatorAcceptsExactly(body);
    ValidatorErrors(body);
  }

  /** An acceptable body with a taken title: 409 "Title already exists.",
      nothing written. */
  lemma CreateRefusesTakenTitle(s: Store, body: map<string, Json>)
    requires AcceptableBody(body)
    requires exists i :: 0 <= i < |s.courses| && s.courses[i].title == body["title"].s
    ensures CreateCourse(s, body) == (Reply(409, Failed(ErrorHandler.Error("Title already exists."))), s)
  {
    ValidatorAcceptsExactly(body);
    var input := ValidateCreateCourse(body).value;
    var price := if input.price.Some? then input.price.value else 0;
    ErrorHandler.DuplicateTitleClassified(s, input.title, input.description, Some(price));
  }

  /** An acceptable body with a new title: exactly one course is added, with
      the given title, the description or null, and the price or 0, and the
      reply carries its id. */
  lemma CreateAddsCourse(s: Store, body: map<string, Json>)
    requires AcceptableBody(body)
    requires forall i :: 0 <= i < |s.courses| ==> s.courses[i].title != body["title"].s
    ensures var (reply, s') := CreateCourse(s, body);
      var description := if "description" in body && body["description"].JString? then Some(body["description"].s) else None;
      var price := if "price" in body && body["price"].JNumber? then body["price"].n else 0;
      && reply == Reply(201, Created(s.nextId))
      && s' == s.(courses := s.courses + [Course(s.nextId, body["title"].s, description, Some(price))], nextId := s.nextId + 1)
  {
    ValidatorAcceptsExactly(body);
  }

  /** Creating a course and then asking for its id answers 200 with the
      stored course. */
  lemma CreateThenGet(s: Store, body: map<string, Json>)
    requires Wf(s) && AcceptableBody(body)
    requires forall i :: 0 <= i < |s.courses| ==> s.courses[i].title != body["title"].s
    ensures var (reply, s') := CreateCourse(s, body);
      && reply.body.Created?
      && GetCourse(s', reply.body.courseId).status == 200
      && GetCourse(s', reply.body.courseId).body.course == s'.courses[|s.courses|]
  {
    CreateAddsCourse(s, body);
    var (reply, s') := CreateCourse(s, body);
    InsertCourseWf(s, body["title"].s, s'.courses[|s.courses|].description, s'.courses[|s.courses|].price);
    assert s'.courses[|s.courses|].id == s.nextId;
    CourseByIdUnique(s', |s.courses|);
  }

  /** Creation keeps the database invariant. */
  lemma CreateKeepsWf(s: Store, body: map<string, Json>)
    requires Wf(s)
    ensures Wf(CreateCourse(s, body).1)
  {
    match ValidateCreateCourse(body)
    case Err(_) =>
    case Ok(input) =>
      var price := if input.price.Some? then input.price.value else 0;
      InsertCourseWf(s, input.title, input.description, Some(price));
  }
}
