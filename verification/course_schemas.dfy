/** `createCourseBodySchema` as a validator over the parsed JSON body, and
    the key set of `errorCreateCourseSchema`. Each failed field check becomes
    one validation issue whose path is `/<key>`, in the order the schema
    lists its keys. */
module CourseSchemas {
  import opened Common
  import Text
  import ErrorHandler

  /** A JSON value of a request body. Numbers are integers here. */
  datatype Json =
    | JNull
    | JBool(b: bool)
    | JNumber(n: int)
    | JString(s: string)
    | JArray(items: seq<Json>)
    | JObject(fields: map<string, Json>)

  /** A body that passed the schema: description absent or null both read as
      no description, and an absent price reads as null. */
  datatype CourseInput = CourseInput(title: string, description: Option<string>, price: Option<int>)

  const TITLE := "title"
  const DESCRIPTION := "description"
  const PRICE := "price"

  /** The keys of the body schema, in declaration order. */
  const BODY_KEYS: seq<string> := [TITLE, DESCRIPTION, PRICE]

  const TITLE_REQUIRED := "Title is required"
  const TITLE_NOT_STRING := "Title must be a string"
  const TITLE_TOO_SHORT := "The title has to have a minimum of 5 characters"
  const PRICE_NOT_NUMBER := "Price must be a number or null"
  const PRICE_NEGATIVE := "Price cannot be negative"
  const TITLE_MIN_LENGTH: nat := 5

  /** `Object.keys(createCourseBodySchema.shape)` folded into an object of
      optional strings: the keys of the 400 reply's `errors`. */
  function ErrorSchemaKeys(): (keys: set<string>)
    ensures keys == {"title", "description", "price"}
  {
    set k | k in BODY_KEYS
  }

  /** The type name zod reports for an unexpected value. */
  function TypeName(v: Json): string
  {
    match v
    case JNull => "null"
    case JBool(_) => "boolean"
    case JNumber(_) => "number"
    case JString(_) => "string"
    case JArray(_) => "array"
    case JObject(_) => "object"
  }

  function Issue(key: string, message: string): ErrorHandler.ValidationIssue
  {
    ErrorHandler.ValidationIssue(Some("/" + key), message)
  }

  /** The title check: a string whose length in UTF-16 code units is at
      least five; the error callback tells a missing title from one of the
      wrong type. */
  function CheckTitle(v: Option<Json>): (r: Result<string, string>)
    ensures r.Ok? <==> v.Some? && v.value.JString? && Text.Utf16Length(v.value.s) >= TITLE_MIN_LENGTH
    ensures r.Ok? ==> r.value == v.value.s
    ensures r.Err? ==> r.error in {TITLE_REQUIRED, TITLE_NOT_STRING, TITLE_TOO_SHORT}
    ensures r == Err(TITLE_REQUIRED) <==> v.None?
    ensures r == Err(TITLE_NOT_STRING) <==> v.Some? && !v.value.JString?
    ensures r == Err(TITLE_TOO_SHORT) <==> v.Some? && v.value.JString? && Text.Utf16Length(v.value.s) < TITLE_MIN_LENGTH
  {
    match v
    case None => Err(TITLE_REQUIRED)
    case Some(JString(t)) => if Text.Utf16Length(t) < TITLE_MIN_LENGTH then Err(TITLE_TOO_SHORT) else Ok(t)
    case Some(_) => Err(TITLE_NOT_STRING)
  }

  /** `z.string().nullable().optional()` with zod's default message. */
  function CheckDescription(v: Option<Json>): (r: Result<Option<string>, string>)
    ensures r.Ok? <==> v.None? || v.value.JNull? || v.value.JString?
    ensures r.Ok? ==> (r.value.Some? <==> v.Some? && v.value.JString?)
    ensures r.Ok? && r.value.Some? ==> r.value.value == v.value.s
  {
    match v
    case None => Ok(None)
    case Some(JNull) => Ok(None)
    case Some(JString(d)) => Ok(Some(d))
    case Some(other) => Err("Invalid input: expected string, received " + TypeName(other))
  }

  /** `z.number(..).nonnegative(..).nullable().default(null)`. The type
      error callback tests `input !== Number || input !== null`, which holds
      for every input, so its message never varies. */
  function CheckPrice(v: Option<Json>): (r: Result<Option<int>, string>)
    ensures r.Ok? <==> v.None? || v.value.JNull? || (v.value.JNumber? && v.value.n >= 0)
    ensures r.Ok? ==> (r.value.Some? <==> v.Some? && v.value.JNumber?)
    ensures r.Ok? && r.value.Some? ==> r.value.value == v.value.n && r.value.value >= 0
    ensures r.Err? ==> r.error in {PRICE_NOT_NUMBER, PRICE_NEGATIVE}
    ensures r == Err(PRICE_NEGATIVE) <==> v.Some? && v.value.JNumber? && v.value.n < 0
    ensures r == Err(PRICE_NOT_NUMBER) <==> v.Some? && !v.value.JNull? && !v.value.JNumber?
  {
    match v
    case None => Ok(None)
    case Some(JNull) => Ok(None)
    case Some(JNumber(n)) => if n < 0 then Err(PRICE_NEGATIVE) else Ok(Some(n))
    case Some(_) => Err(PRICE_NOT_NUMBER)
  }

  /** The issue a failed check contributes, if any. */
  function IssueOf<T>(key: string, r: Result<T, string>): seq<ErrorHandler.ValidationIssue>
  {
    if r.Err? then [Issue(key, r.error)] else []
  }

  function Lookup(body: map<string, Json>, key: string): Option<Json>
  {
    if key in body then Some(body[key]) else None
  }

  /** `createCourseBodySchema.parse(body)`: all three keys are checked and
      every failure reported, title first; keys outside the schema are
      dropped. */
  function ValidateCreateCourse(body: map<string, Json>): (r: Result<CourseInput, seq<ErrorHandler.ValidationIssue>>)
    ensures r.Err? ==> 1 <= |r.error| <= 3
  {
    var title := CheckTitle(Lookup(body, TITLE));
    var description := CheckDescription(Lookup(body, DESCRIPTION));
    var price := CheckPrice(Lookup(body, PRICE));
    if title.Ok? && description.Ok? && price.Ok? then
      Ok(CourseInput(title.value, description.value, price.value))
    else
      Err(IssueOf(TITLE, title) + IssueOf(DESCRIPTION, description) + IssueOf(PRICE, price))
  }

  /** What the schema accepts, stated field by field. */
  ghost predicate AcceptableBody(body: map<string, Json>)
  {
    && TITLE in body && body[TITLE].JString? && Text.Utf16Length(body[TITLE].s) >= 5
    && (DESCRIPTION in body ==> body[DESCRIPTION].JNull? || body[DESCRIPTION].JString?)
    && (PRICE in body ==> body[PRICE].JNull? || (body[PRICE].JNumber? && body[PRICE].n >= 0))
  }

  /** The validator accepts exactly the acceptable bodies, and then passes
      the title through, reads a missing or null description and price as
      null, and keeps a given description and price. */
  lemma ValidatorAcceptsExactly(body: map<string, Json>)
    ensures ValidateCreateCourse(body).Ok? <==> AcceptableBody(body)
    ensures ValidateCreateCourse(body).Ok? ==>
      var input := ValidateCreateCourse(body).value;
      && input.title == body[TITLE].s
      && (input.description.Some? <==> DESCRIPTION in body && body[DESCRIPTION].JString?)
      && (input.description.Some? ==> input.description.value == body[DESCRIPTION].s)
      && (input.price.Some? <==> PRICE in body && body[PRICE].JNumber?)
      && (input.price.Some? ==> input.price.value == body[PRICE].n)
  {
  }

  /** The `errors` object a rejected body is answered with, stated per
      key: each failed check's message under its own key, nothing else. */
  function ExpectedErrors(body: map<string, Json>): map<string, string>
  {
    var title := CheckTitle(Lookup(body, TITLE));
    var description := CheckDescription(Lookup(body, DESCRIPTION));
    var price := CheckPrice(Lookup(body, PRICE));
    (if title.Err? then map[TITLE := title.error] else map[])
    + (if description.Err? then map[DESCRIPTION := description.error] else map[])
    + (if price.Err? then map[PRICE := price.error] else map[])
  }

  /** The handler turns the path `/<key>` back into `<key>` for any key
      that neither starts nor ends with white space, the schema's keys among
      them. */
  lemma KeyFieldIsKey(key: string, message: string)
    requires key != "" && !Text.IsJsWhiteSpace(key[0]) && !Text.IsJsWhiteSpace(key[|key| - 1])
    ensures ErrorHandler.FieldOf(Issue(key, message)) == key
  {
    var path := "/" + key;
    ErrorHandler.FieldOfSlashPath(Issue(key, message));
    assert path[1..] == key;
    Text.TrimUnpadded(key);
  }

  lemma BodyKeysUnpadded(key: string)
    requires key in BODY_KEYS
    ensures key != "" && !Text.IsJsWhiteSpace(key[0]) && !Text.IsJsWhiteSpace(key[|key| - 1])
  {
    assert key == TITLE || key == DESCRIPTION || key == PRICE;
  }

  /** The field/message pair a failed check contributes, if any. */
  function PairOf<T>(key: string, r: Result<T, string>): seq<(string, string)>
  {
    if r.Err? then [(key, r.error)] else []
  }

  lemma EntriesOfIssue<T>(key: string, r: Result<T, string>)
    requires key in BODY_KEYS
    ensures ErrorHandler.Entries(IssueOf(key, r)) == PairOf(key, r)
  {
    if r.Err? {
      BodyKeysUnpadded(key);
      KeyFieldIsKey(key, r.error);
    }
  }

  lemma EntriesOfConcat(a: seq<ErrorHandler.ValidationIssue>, b: seq<ErrorHandler.ValidationIssue>)
    ensures ErrorHandler.Entries(a + b) == ErrorHandler.Entries(a) + ErrorHandler.Entries(b)
  {
    var l := ErrorHandler.Entries(a + b);
    var r := ErrorHandler.Entries(a) + ErrorHandler.Entries(b);
    forall i | 0 <= i < |l| ensures l[i] == r[i] {
      var x := (a + b)[i];
      assert l[i] == (ErrorHandler.FieldOf(x), x.message);
      if i < |a| {
        assert x == a[i] && r[i] == ErrorHandler.Entries(a)[i];
      } else {
        assert x == b[i - |a|] && r[i] == ErrorHandler.Entries(b)[i - |a|];
      }
    }
  }

  /** A rejected body is answered with exactly the expected `errors`: the
      three checks never report two issues for one key, so no message is
      overwritten. */
  lemma ValidatorErrors(body: map<string, Json>)
    requires ValidateCreateCourse(body).Err?
    ensures ErrorHandler.FormatValidation(ValidateCreateCourse(body).error) == ExpectedErrors(body)
  {
    var title := CheckTitle(Lookup(body, TITLE));
    var description := CheckDescription(Lookup(body, DESCRIPTION));
    var price := CheckPrice(Lookup(body, PRICE));
    var ti := IssueOf(TITLE, title);
    var di := IssueOf(DESCRIPTION, description);
    var pi := IssueOf(PRICE, price);
    EntriesOfConcat(ti + di, pi);
    EntriesOfConcat(ti, di);
    EntriesOfIssue(TITLE, title);
    EntriesOfIssue(DESCRIPTION, description);
    EntriesOfIssue(PRICE, price);
    var pairs := PairOf(TITLE, title) + PairOf(DESCRIPTION, description) + PairOf(PRICE, price);
    assert ErrorHandler.Entries(ti + di + pi) == pairs;
    AssignOfPairs(title, description, price);
  }

  /** Folding the (at most three) pairs, one per distinct key. */
  lemma AssignOfPairs(title: Result<string, string>, description: Result<Option<string>, string>, price: Result<Option<int>, string>)
    ensures ErrorHandler.Assign(PairOf(TITLE, title) + PairOf(DESCRIPTION, description) + PairOf(PRICE, price))
         == (if title.Err? then map[TITLE := title.error] else map[])
            + (if description.Err? then map[DESCRIPTION := description.error] else map[])
            + (if price.Err? then map[PRICE := price.error] else map[])
  {
    var t := PairOf(TITLE, title);
    var d := PairOf(DESCRIPTION, description);
    var p := PairOf(PRICE, price);
    AssignPair([], TITLE, title, map[]);
    assert [] + t == t;
    AssignPair(t, DESCRIPTION, description, ErrorHandler.Assign(t));
    AssignPair(t + d, PRICE, price, ErrorHandler.Assign(t + d));
  }

  /** Folding one more failed check adds its key and message. */
  lemma AssignPair<T>(xs: seq<(string, string)>, key: string, r: Result<T, string>, m: map<string, string>)
    requires ErrorHandler.Assign(xs) == m
    ensures ErrorHandler.Assign(xs + PairOf(key, r)) == m + (if r.Err? then map[key := r.error] else map[])
  {
    AssignSnoc(xs, PairOf(key, r));
    if r.Err? {
      assert m[key := r.error] == m + map[key := r.error];
    } else {
      assert m + map[] == m;
    }
  }

  /** Folding a sequence extended by at most one pair. */
  lemma AssignSnoc(xs: seq<(string, string)>, ys: seq<(string, string)>)
    requires |ys| <= 1
    ensures ErrorHandler.Assign(xs + ys)
         == if |ys| == 0 then ErrorHandler.Assign(xs) else ErrorHandler.Assign(xs)[ys[0].0 := ys[0].1]
  {
    if |ys| == 0 {
      assert xs + ys == xs;
    } else {
      assert (xs + ys)[..|xs + ys| - 1] == xs;
    }
  }

  /** Every field of a 400 reply is one of the error schema's keys, so the
      reply fits the route's reply schema. */
  lemma IssuesFitErrorSchema(body: map<string, Json>)
    requires ValidateCreateCourse(body).Err?
    ensures ErrorHandler.FormatValidation(ValidateCreateCourse(body).error).Keys <= ErrorSchemaKeys()
  {
    ValidatorErrors(body);
    ExpectedErrorsKeys(body);
  }

  lemma ExpectedErrorsKeys(body: map<string, Json>)
    ensures ExpectedErrors(body).Keys <= {"title", "description", "price"}
  {
  }
}
