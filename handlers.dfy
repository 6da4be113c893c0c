/**
  The decision logic of the route handlers over the four collections, as
  functions of the collection state.  The read-only routes give a response;
  the routes that write give a `Step`: the collection afterwards and the
  response.  The store is always given in its natural order.
 */
module Handlers {
  import opened Wrappers
  import opened Documents
  import opened Http

  /** Users and instructors are told apart by `email`. */
  const EmailKey: set<string> := {"email"}

  /** Enrollments are told apart by the pair `(courseId, studentEmail)`. */
  const EnrollKey: set<string> := {"courseId", "studentEmail"}

  const InstructorRole: Value := Str("instructor")

  /** `{ email: d.email }` */
  function EmailFilter(d: Doc): Filter
  {
    Project(d, EmailKey)
  }

  /** `{ courseId, studentEmail }` taken from `d` */
  function EnrollFilter(d: Doc): Filter
  {
    Project(d, EnrollKey)
  }

  /** `{ _id: new ObjectId(id) }` */
  function IdFilter(id: string): Filter
  {
    map["_id" := Some(ObjectId(id))]
  }

  /** A string principal as the value it is compared with. */
  function AsValue(email: Option<string>): Option<Value>
  {
    match email
    case None => None
    case Some(e) => Some(Str(e))
  }

  /** The state of one collection after a writing handler, and its reply. */
  datatype Step = Step(table: Table, resp: Response)

  // ---------------------------------------------------------------- users

  /**
    POST /users: a user whose email is already stored gets a non-error
    "User already exists" and the collection is untouched; otherwise the body
    is inserted as it is (plus the driver's `_id`).
   */
  function RegisterUser(users: Table, user: Doc, freshId: string): (s: Step)
    ensures s.resp.Reply? && s.resp.status == 200
    ensures AnyMatch(users, EmailFilter(user)) ==>
      s == Step(users, Ok(Message("User already exists")))
    ensures !AnyMatch(users, EmailFilter(user)) ==>
      s.table == users + [WithObjectId(user, freshId)]
      && s.resp == Ok(Inserted(s.table[|users|]["_id"]))
    ensures AnyMatch(s.table, EmailFilter(user))
  {
    if FindOne(users, EmailFilter(user)).Some? then
      Step(users, Ok(Message("User already exists")))
    else
      var record := WithObjectId(user, freshId);
      MatchesProject(record, user, EmailKey);
      assert record in users + [record];
      Step(users + [record], Ok(Inserted(record["_id"])))
  }

  /** Registration never adds a second user for an email already present. */
  lemma RegisterKeepsEmailsUnique(users: Table, user: Doc, freshId: string)
    requires UniqueOn(users, EmailKey)
    ensures UniqueOn(RegisterUser(users, user, freshId).table, EmailKey)
    ensures ExactlyOne(RegisterUser(users, user, freshId).table, EmailFilter(user))
  {
    var record := WithObjectId(user, freshId);
    assert Project(record, EmailKey) == Project(user, EmailKey);
    GuardedInsertKeepsUnique(users, user, record, EmailKey);
  }

  /** Registering the same email twice: one stored record, and the second call is a 200 no-op. */
  lemma RegisterTwice(users: Table, user: Doc, id1: string, id2: string)
    requires UniqueOn(users, EmailKey)
    ensures var first := RegisterUser(users, user, id1);
      var second := RegisterUser(first.table, user, id2);
      && second == Step(first.table, Ok(Message("User already exists")))
      && ExactlyOne(second.table, EmailFilter(user))
  {
    RegisterKeepsEmailsUnique(users, user, id1);
  }

  // ---------------------------------------------------------------- courses

  /**
    GET /courses/:id: a malformed id is a 400 whatever the collection holds; a
    well-formed id that no course has is a 404; otherwise the stored course
    with that id.
   */
  function CourseById(courses: Table, id: string, isValid: string -> bool): (r: Response)
    ensures !isValid(id) ==> r == Reply(400, Message("Invalid course ID"))
    ensures isValid(id) && (forall d :: d in courses ==> Field(d, "_id") != Some(ObjectId(id))) ==>
      r == Reply(404, Message("Course not found"))
    ensures isValid(id) && (exists d :: d in courses && Field(d, "_id") == Some(ObjectId(id))) ==>
      && r.Reply? && r.status == 200 && r.body.Record?
      && r.body.doc in courses && Field(r.body.doc, "_id") == Some(ObjectId(id))
  {
    if !isValid(id) then Reply(400, Message("Invalid course ID"))
    else
      match FindOne(courses, IdFilter(id))
      case None => Reply(404, Message("Course not found"))
      case Some(course) => Ok(Record(course))
  }

  /**
    PUT /courses/:id after the gate: `updateOne({ _id }, { $set: patch })`.
    `new ObjectId` throws on a malformed id, so nothing is written or sent.
    Otherwise the first course with that id has the patch's keys overwritten.
   */
  function PatchCourse(courses: Table, id: string, patch: Doc, isValid: string -> bool): (s: Step)
    ensures !isValid(id) ==> s == Step(courses, Raised)
    ensures isValid(id) && !AnyMatch(courses, IdFilter(id)) ==> s == Step(courses, Ok(Updated(0, 0)))
    ensures isValid(id) && AnyMatch(courses, IdFilter(id)) ==>
      exists i :: 0 <= i < |courses| && Matches(courses[i], IdFilter(id))
        && s.table == courses[i := SetFields(courses[i], patch)]
        && s.resp == Ok(Updated(1, if s.table[i] == courses[i] then 0 else 1))
  {
    if !isValid(id) then Step(courses, Raised)
    else
      match FirstMatch(courses, IdFilter(id))
      case None => Step(courses, Ok(Updated(0, 0)))
      case Some(i) =>
        var merged := SetFields(courses[i], patch);
        Step(courses[i := merged], Ok(Updated(1, if merged == courses[i] then 0 else 1)))
  }

  /**
    An update touches only the course with that id, and in it only the keys of
    the patch; every other course and every other key stays as it was.
   */
  lemma {:induction false} PatchCourseTouchesOnlyTarget(courses: Table, id: string, patch: Doc, isValid: string -> bool)
    ensures var s := PatchCourse(courses, id, patch, isValid);
      && |s.table| == |courses|
      && (forall j :: 0 <= j < |courses| && !Matches(courses[j], IdFilter(id)) ==> s.table[j] == courses[j])
      && (forall j, key :: 0 <= j < |courses| && key in courses[j] && key !in patch ==>
            key in s.table[j] && s.table[j][key] == courses[j][key])
      && (forall j, key :: 0 <= j < |courses| && key in patch && s.table[j] != courses[j] ==>
            key in s.table[j] && s.table[j][key] == patch[key])
  {
    var s := PatchCourse(courses, id, patch, isValid);
    if isValid(id) && AnyMatch(courses, IdFilter(id)) {
      var i :| 0 <= i < |courses| && Matches(courses[i], IdFilter(id))
        && s.table == courses[i := SetFields(courses[i], patch)];
      assert forall j :: 0 <= j < |courses| && j != i ==> s.table[j] == courses[j];
    }
  }

  /**
    DELETE /courses/:id after the gate: `deleteOne({ _id })`. A malformed id
    throws; otherwise the first course with that id, and only it, is removed.
   */
  function RemoveCourse(courses: Table, id: string, isValid: string -> bool): (s: Step)
    ensures !isValid(id) ==> s == Step(courses, Raised)
    ensures isValid(id) && !AnyMatch(courses, IdFilter(id)) ==> s == Step(courses, Ok(Deleted(0)))
    ensures isValid(id) && AnyMatch(courses, IdFilter(id)) ==>
      && s.resp == Ok(Deleted(1))
      && exists i :: 0 <= i < |courses| && Matches(courses[i], IdFilter(id))
           && s.table == courses[..i] + courses[i+1..]
           && multiset(s.table) == multiset(courses) - multiset{courses[i]}
  {
    if !isValid(id) then Step(courses, Raised)
    else
      match FirstMatch(courses, IdFilter(id))
      case None => Step(courses, Ok(Deleted(0)))
      case Some(i) =>
        RemoveAtMultiset(courses, i);
        Step(courses[..i] + courses[i+1..], Ok(Deleted(1)))
  }

  // ---------------------------------------------------------------- enrollments

  /**
    GET /enroll after the gate: asking for another student's enrollments is a
    403 whatever the collection holds; asking for one's own gives exactly the
    enrollments whose `studentEmail` is that email.
   */
  function ListEnrollments(enroll: Table, query: Option<Value>, tokenEmail: Option<string>): (r: Response)
    ensures query != AsValue(tokenEmail) ==> r == Reply(403, Message("Forbidden"))
    ensures query == AsValue(tokenEmail) ==>
      && r.Reply? && r.status == 200 && r.body.Records?
      && forall d :: multiset(r.body.docs)[d] ==
           if Field(d, "studentEmail") == query then multiset(enroll)[d] else 0
  {
    if query != AsValue(tokenEmail) then Reply(403, Message("Forbidden"))
    else
      var found := Find(enroll, map["studentEmail" := query]);
      assert forall d :: Matches(d, map["studentEmail" := query]) <==> Field(d, "studentEmail") == query;
      Ok(Records(found))
  }

  /**
    POST /enroll after the gate: a second enrollment for the same
    `(courseId, studentEmail)` is a 409 and nothing is written; otherwise the
    body is inserted as it is (plus the driver's `_id`).
   */
  function EnrollStudent(enroll: Table, body: Doc, freshId: string): (s: Step)
    ensures AnyMatch(enroll, EnrollFilter(body)) ==>
      s == Step(enroll, Reply(409, Message("Already enrolled")))
    ensures !AnyMatch(enroll, EnrollFilter(body)) ==>
      s.table == enroll + [WithObjectId(body, freshId)]
      && s.resp == Ok(Inserted(s.table[|enroll|]["_id"]))
    ensures AnyMatch(s.table, EnrollFilter(body))
  {
    if FindOne(enroll, EnrollFilter(body)).Some? then
      Step(enroll, Reply(409, Message("Already enrolled")))
    else
      var record := WithObjectId(body, freshId);
      MatchesProject(record, body, EnrollKey);
      assert record in enroll + [record];
      Step(enroll + [record], Ok(Inserted(record["_id"])))
  }

  /** Enrolling keeps `(courseId, studentEmail)` unique and leaves exactly one enrollment for the pair. */
  lemma EnrollKeepsPairsUnique(enroll: Table, body: Doc, freshId: string)
    requires UniqueOn(enroll, EnrollKey)
    ensures UniqueOn(EnrollStudent(enroll, body, freshId).table, EnrollKey)
    ensures ExactlyOne(EnrollStudent(enroll, body, freshId).table, EnrollFilter(body))
  {
    var record := WithObjectId(body, freshId);
    assert Project(record, EnrollKey) == Project(body, EnrollKey);
    GuardedInsertKeepsUnique(enroll, body, record, EnrollKey);
  }

  /** Enrolling twice: the second call is a 409 and one enrollment is stored. */
  lemma EnrollTwice(enroll: Table, body: Doc, id1: string, id2: string)
    requires UniqueOn(enroll, EnrollKey)
    ensures var first := EnrollStudent(enroll, body, id1);
      var second := EnrollStudent(first.table, body, id2);
      && second == Step(first.table, Reply(409, Message("Already enrolled")))
      && ExactlyOne(second.table, EnrollFilter(body))
  {
    EnrollKeepsPairsUnique(enroll, body, id1);
  }

  // ---------------------------------------------------------------- instructors

  /**
    `{ ...instructor, role: "instructor", createdAt: new Date() }`: the body's
    fields, with the two server fields overriding whatever the caller sent.
   */
  function StampInstructor(body: Doc, now: int): (r: Doc)
    ensures r.Keys == body.Keys + {"role", "createdAt"}
    ensures r["role"] == InstructorRole && r["createdAt"] == Date(now)
    ensures forall key :: key in body && key != "role" && key != "createdAt" ==> r[key] == body[key]
  {
    body["role" := InstructorRole]["createdAt" := Date(now)]
  }

  /** Every stored instructor has `role` "instructor". */
  predicate AllInstructorRoles(instructors: Table)
  {
    forall d :: d in instructors ==> Field(d, "role") == Some(InstructorRole)
  }

  /**
    POST /instructors: an email already stored gets a non-error "Instructor
    already exists" and nothing is inserted; otherwise the stamped body is.
   */
  function AddInstructor(instructors: Table, body: Doc, now: int, freshId: string): (s: Step)
    ensures s.resp.Reply? && s.resp.status == 200
    ensures AnyMatch(instructors, EmailFilter(body)) ==>
      s == Step(instructors, Ok(Message("Instructor already exists")))
    ensures !AnyMatch(instructors, EmailFilter(body)) ==>
      s.table == instructors + [WithObjectId(StampInstructor(body, now), freshId)]
      && s.resp == Ok(Inserted(s.table[|instructors|]["_id"]))
    ensures AnyMatch(s.table, EmailFilter(body))
  {
    if FindOne(instructors, EmailFilter(body)).Some? then
      Step(instructors, Ok(Message("Instructor already exists")))
    else
      var record := WithObjectId(StampInstructor(body, now), freshId);
      assert Project(record, EmailKey) == Project(body, EmailKey);
      MatchesProject(record, body, EmailKey);
      assert record in instructors + [record];
      Step(instructors + [record], Ok(Inserted(record["_id"])))
  }

  /** Adding an instructor keeps emails unique and every stored instructor an "instructor". */
  lemma AddInstructorKeepsInvariants(instructors: Table, body: Doc, now: int, freshId: string)
    requires UniqueOn(instructors, EmailKey) && AllInstructorRoles(instructors)
    ensures var s := AddInstructor(instructors, body, now, freshId);
      UniqueOn(s.table, EmailKey) && AllInstructorRoles(s.table) && ExactlyOne(s.table, EmailFilter(body))
  {
    var record := WithObjectId(StampInstructor(body, now), freshId);
    assert Project(record, EmailKey) == Project(body, EmailKey);
    GuardedInsertKeepsUnique(instructors, body, record, EmailKey);
    assert Field(record, "role") == Some(InstructorRole);
  }

  /**
    POST /instructors twice with `{ email: "a@x.com", name: "A", role: "admin" }`:
    the first stores the body with role "instructor" and `createdAt`, the
    second answers "Instructor already exists" and stores nothing.
   */
  lemma InstructorScenario(now: int, later: int)
    ensures var body := map["email" := Str("a@x.com"), "name" := Str("A"), "role" := Str("admin")];
      var first := AddInstructor([], body, now, "i1");
      var second := AddInstructor(first.table, body, later, "i2");
      && first.resp == Ok(Inserted(ObjectId("i1")))
      && first.table == [map["email" := Str("a@x.com"), "name" := Str("A"), "role" := InstructorRole,
                             "createdAt" := Date(now), "_id" := ObjectId("i1")]]
      && second == Step(first.table, Ok(Message("Instructor already exists")))
  {
    var body := map["email" := Str("a@x.com"), "name" := Str("A"), "role" := Str("admin")];
    var stored := map["email" := Str("a@x.com"), "name" := Str("A"), "role" := InstructorRole,
                      "createdAt" := Date(now), "_id" := ObjectId("i1")];
    assert StampInstructor(body, now) == stored - {"_id"};
    assert WithObjectId(StampInstructor(body, now), "i1") == stored;
  }

  /**
    GET /instructors/:email: the stored instructor with that email, or `null`
    (still a 200, not an error) when there is none.
   */
  function InstructorByEmail(instructors: Table, email: string): (r: Response)
    ensures r.Reply? && r.status == 200
    ensures r.body == NullBody <==> forall d :: d in instructors ==> Field(d, "email") != Some(Str(email))
    ensures r.body != NullBody ==>
      r.body.Record? && r.body.doc in instructors && Field(r.body.doc, "email") == Some(Str(email))
  {
    match FindOne(instructors, map["email" := Some(Str(email))])
    case None => Ok(NullBody)
    case Some(d) => Ok(Record(d))
  }

  /** After POST /instructors, GET /instructors/:email finds a record with role "instructor". */
  lemma AddThenLookUp(instructors: Table, body: Doc, now: int, freshId: string, email: string)
    requires AllInstructorRoles(instructors)
    requires Field(body, "email") == Some(Str(email))
    ensures var r := InstructorByEmail(AddInstructor(instructors, body, now, freshId).table, email);
      r.body.Record? && Field(r.body.doc, "role") == Some(InstructorRole)
  {
    var s := AddInstructor(instructors, body, now, freshId);
    var record := WithObjectId(StampInstructor(body, now), freshId);
    assert Field(record, "role") == Some(InstructorRole);
    assert AllInstructorRoles(s.table);
    var d :| d in s.table && Matches(d, EmailFilter(body));
    assert Field(d, "email") == Some(Str(email));
  }
}
