/**
  The server: the four collections of the `learningDB` database held in one
  object, and one method per gated or writing route. A protected route runs
  `verifyFirebaseToken` first and reaches its handler only when the gate
  calls `next()`.
 */
module Server {
  import opened Wrappers
  import opened Documents
  import opened Http
  import opened Auth
  import opened Handlers

  class LearningDb {
    var users: Table
    var courses: Table
    var enroll: Table
    var instructors: Table

    /** The invariants the check-then-insert guards keep. */
    ghost predicate Valid()
      reads this
    {
      && UniqueOn(users, EmailKey)
      && UniqueOn(enroll, EnrollKey)
      && UniqueOn(instructors, EmailKey)
      && AllInstructorRoles(instructors)
    }

    constructor (users: Table, courses: Table, enroll: Table, instructors: Table)
      ensures this.users == users && this.courses == courses
      ensures this.enroll == enroll && this.instructors == instructors
    {
      this.users := users;
      this.courses := courses;
      this.enroll := enroll;
      this.instructors := instructors;
    }

    /** POST /users (no gate): `findOne({ email })`, then `insertOne(user)` unless found. */
    method PostUsers(user: Doc, freshId: string) returns (resp: Response)
      modifies this`users
      ensures Step(users, resp) == RegisterUser(old(users), user, freshId)
      ensures courses == old(courses) && enroll == old(enroll) && instructors == old(instructors)
      ensures old(Valid()) ==> Valid() && ExactlyOne(users, EmailFilter(user))
    {
      if UniqueOn(users, EmailKey) {
        RegisterKeepsEmailsUnique(users, user, freshId);
      }
      var found := FindOne(users, EmailFilter(user));
      if found.Some? {
        return Ok(Message("User already exists"));
      }
      var record := WithObjectId(user, freshId);
      users := users + [record];
      resp := Ok(Inserted(record["_id"]));
    }

    /** POST /instructors (no gate): `findOne({ email })`, then insert the stamped body unless found. */
    method PostInstructors(instructor: Doc, now: int, freshId: string) returns (resp: Response)
      modifies this`instructors
      ensures Step(instructors, resp) == AddInstructor(old(instructors), instructor, now, freshId)
      ensures users == old(users) && courses == old(courses) && enroll == old(enroll)
      ensures old(Valid()) ==> Valid() && ExactlyOne(instructors, EmailFilter(instructor))
    {
      if UniqueOn(instructors, EmailKey) && AllInstructorRoles(instructors) {
        AddInstructorKeepsInvariants(instructors, instructor, now, freshId);
      }
      var existing := FindOne(instructors, EmailFilter(instructor));
      if existing.Some? {
        return Ok(Message("Instructor already exists"));
      }
      var record := WithObjectId(StampInstructor(instructor, now), freshId);
      instructors := instructors + [record];
      resp := Ok(Inserted(record["_id"]));
    }

    /** PUT /courses/:id: the gate, then `updateOne({ _id }, { $set: patch })`. */
    method PutCourse(req: Request, id: string, patch: Doc, verify: Verifier, isValid: string -> bool)
      returns (resp: Response)
      modifies this`courses, req
      ensures Authenticate(req.authorization, verify).None? ==>
        resp == Unauthorized && courses == old(courses) && req.tokenEmail == old(req.tokenEmail)
      ensures Authenticate(req.authorization, verify).Some? ==>
        && req.tokenEmail == Authenticate(req.authorization, verify)
        && Step(courses, resp) == PatchCourse(old(courses), id, patch, isValid)
      ensures users == old(users) && enroll == old(enroll) && instructors == old(instructors)
    {
      var rejection := req.VerifyFirebaseToken(verify);
      if rejection.Some? {
        return rejection.value;
      }
      if !isValid(id) {
        return Raised;
      }
      var i := FirstMatch(courses, IdFilter(id));
      if i.None? {
        return Ok(Updated(0, 0));
      }
      var before := courses[i.value];
      var merged := SetFields(before, patch);
      courses := courses[i.value := merged];
      resp := Ok(Updated(1, if merged == before then 0 else 1));
    }

    /** DELETE /courses/:id: the gate, then `deleteOne({ _id })`. */
    method DeleteCourse(req: Request, id: string, verify: Verifier, isValid: string -> bool)
      returns (resp: Response)
      modifies this`courses, req
      ensures Authenticate(req.authorization, verify).None? ==>
        resp == Unauthorized && courses == old(courses) && req.tokenEmail == old(req.tokenEmail)
      ensures Authenticate(req.authorization, verify).Some? ==>
        && req.tokenEmail == Authenticate(req.authorization, verify)
        && Step(courses, resp) == RemoveCourse(old(courses), id, isValid)
      ensures users == old(users) && enroll == old(enroll) && instructors == old(instructors)
    {
      var rejection := req.VerifyFirebaseToken(verify);
      if rejection.Some? {
        return rejection.value;
      }
      if !isValid(id) {
        return Raised;
      }
      var i := FirstMatch(courses, IdFilter(id));
      if i.None? {
        return Ok(Deleted(0));
      }
      courses := courses[..i.value] + courses[i.value + 1..];
      resp := Ok(Deleted(1));
    }

    /** GET /enroll?email=: the gate, then the identity check, then `find({ studentEmail })`. */
    method GetEnroll(req: Request, query: Option<Value>, verify: Verifier) returns (resp: Response)
      modifies req
      ensures Authenticate(req.authorization, verify).None? ==>
        resp == Unauthorized && req.tokenEmail == old(req.tokenEmail)
      ensures Authenticate(req.authorization, verify).Some? ==>
        && req.tokenEmail == Authenticate(req.authorization, verify)
        && resp == ListEnrollments(enroll, query, req.tokenEmail)
    {
      var rejection := req.VerifyFirebaseToken(verify);
      if rejection.Some? {
        return rejection.value;
      }
      if query != AsValue(req.tokenEmail) {
        return Reply(403, Message("Forbidden"));
      }
      var found := Find(enroll, map["studentEmail" := query]);
      resp := Ok(Records(found));
    }

    /** POST /enroll: the gate, then `findOne({ courseId, studentEmail })`, then `insertOne(body)` unless found. */
    method PostEnroll(req: Request, body: Doc, freshId: string, verify: Verifier) returns (resp: Response)
      modifies this`enroll, req
      ensures Authenticate(req.authorization, verify).None? ==>
        resp == Unauthorized && enroll == old(enroll) && req.tokenEmail == old(req.tokenEmail)
      ensures Authenticate(req.authorization, verify).Some? ==>
        && req.tokenEmail == Authenticate(req.authorization, verify)
        && Step(enroll, resp) == EnrollStudent(old(enroll), body, freshId)
      ensures users == old(users) && courses == old(courses) && instructors == old(instructors)
      ensures old(Valid()) ==> Valid()
    {
      if UniqueOn(enroll, EnrollKey) {
        EnrollKeepsPairsUnique(enroll, body, freshId);
      }
      var rejection := req.VerifyFirebaseToken(verify);
      if rejection.Some? {
        return rejection.value;
      }
      var found := FindOne(enroll, EnrollFilter(body));
      if found.Some? {
        return Reply(409, Message("Already enrolled"));
      }
      var record := WithObjectId(body, freshId);
      enroll := enroll + [record];
      resp := Ok(Inserted(record["_id"]));
    }
  }

  /**
    A student enrolls twice in the same course with a valid token for their
    own email: the first call inserts, the second is a 409, and GET /enroll
    for that email lists the one enrollment.
   */
  method EnrollTwiceScenario(verify: Verifier, header: string, email: string, courseId: string)
    returns (first: Response, second: Response, listed: Response)
    requires Authenticate(Some(header), verify) == Some(email)
    ensures first == Ok(Inserted(ObjectId("e1")))
    ensures second == Reply(409, Message("Already enrolled"))
    ensures listed.Reply? && listed.status == 200 && listed.body.Records? && |listed.body.docs| == 1
  {
    var body := map["courseId" := Str(courseId), "studentEmail" := Str(email)];
    var stored := WithObjectId(body, "e1");
    assert "_id" !in body;
    assert stored["_id"] == ObjectId("e1");
    assert Field(stored, "studentEmail") == Some(Str(email));
    assert EnrollStudent([], body, "e1") == Step([stored], Ok(Inserted(ObjectId("e1"))));

    var db := new LearningDb([], [], [], []);
    var req1 := new Request(Some(header));
    first := db.PostEnroll(req1, body, "e1", verify);
    assert db.enroll == [stored];
    var req2 := new Request(Some(header));
    second := db.PostEnroll(req2, body, "e2", verify);
    assert db.enroll == [stored];
    var req3 := new Request(Some(header));
    listed := db.GetEnroll(req3, Some(Str(email)), verify);
    assert forall d :: multiset(listed.body.docs)[d] == multiset{stored}[d];
    assert multiset(listed.body.docs) == multiset{stored};
  }
}
