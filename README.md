# Learning-platform server: request gate and duplicate guards

A Dafny model of the decision logic of a small Express/MongoDB/Firebase backend
for an online-learning platform (`index.js`). The server keeps four
collections (`users`, `courses`, `enroll`, `instructors`). Some routes are
protected by a bearer-token gate, `verifyFirebaseToken`. The route handlers
add the domain rules on top of plain store calls:

- users and instructors are de-duplicated by email;
- enrollments are de-duplicated by the pair `(courseId, studentEmail)`;
- a new instructor gets `role` and `createdAt` stamped by the server;
- a student may list only their own enrollments;
- a malformed course id is rejected before any lookup.

Files:

- `wrappers.dfy`: `Option`, which stands for JavaScript's `undefined`.
- `documents.dfy` (module `Documents`): values, records (`map<string, Value>`),
  collections (`seq` of records in natural order) and filters. It also holds
  the store operations the handlers rely on: `findOne`, `find().toArray()`,
  the driver's `_id` stamping on insert, and `$set`. Finally, the lemma that
  a check-then-insert keeps a key unique.
- `http.dfy` (module `Http`): the replies a handler sends.
- `auth.dfy` (module `Auth`): `split(" ")`, the token extraction, the gate
  decision `Authenticate`, and the class `Request` whose
  `VerifyFirebaseToken` sets `tokenEmail`.
- `handlers.dfy` (module `Handlers`): one function per route, over the
  collection state. The read-only routes return a response. The writing
  routes return a `Step`: the collection afterwards plus the reply. Beside them
  are the invariants and the lemmas about them.
- `server.dfy` (module `Server`): the class `LearningDb` holding the four
  collections. It has one method per writing or gated route; each updates its
  collection field in place and is proved equal to the matching `Handlers`
  function. `Valid()` collects the invariants the guards keep. A client method
  replays the enroll-twice scenario.

Foreign dependencies are parameters:

- Firebase's `verifyIdToken` is a `Verifier`, a function from token to
  `Option<email>`.
- `ObjectId.isValid` is a predicate `isValid: string -> bool`.
- The clock (`new Date()`) is an `int` timestamp `now`.
- The `_id` the driver generates on insert is a `freshId` string.

## Model

| member | source | states |
|---|---|---|
| `Documents.FirstMatch` | index.js:126-135 | the position picked is the first record in natural order that matches the filter; `None` only when no record matches |
| `Documents.FindOne` | index.js:80 | `findOne` returns a record exactly when some stored record matches the filter, and the record it returns is stored and matches |
| `Documents.Find` | index.js:150-152 | `find().toArray()` returns every matching record as many times as it is stored, and nothing else (equal as multisets, so order is not promised) |
| `Documents.WithObjectId` | index.js:82 | the stored record is the inserted body with a non-null `_id`: the given one is kept, a missing or null one is replaced by a fresh ObjectId; no other key changes |
| `Documents.SetFields` | index.js:126-129 | `$set` overwrites exactly the keys of the patch and keeps every other key of the record |
| `Documents.MatchesProject` | index.js:80 | a record matches the filter built from a body's keys exactly when it agrees with the body on those keys |
| `Documents.AppendKeepsUnique` | index.js:80-82 | appending a record that matches no stored record on the keys keeps those keys unique |
| `Documents.UniqueMatchesOnce` | index.js:80-81 | when the keys are unique, at most one record matches a filter built from them |
| `Documents.GuardedInsertKeepsUnique` | index.js:80-82 | a check-then-insert on a key keeps the key unique, and afterwards exactly one record has the body's key value |
| `Documents.RemoveAtMultiset` | index.js:134-136 | removing one position takes exactly that record out of the collection |
| `Auth.Split` | index.js:46 | `split(" ")` gives at least one segment, and no segment contains a space |
| `Auth.JoinSplit` | index.js:46 | joining the segments with single spaces gives the header back |
| `Auth.SplitJoin` | index.js:46 | splitting a space-join of space-free segments gives those segments back (the inverse direction) |
| `Auth.SplitWord` | index.js:46 | a space-free header is a single segment, so it has no token |
| `Auth.SplitWordThenSpace` | index.js:46 | a space-free word followed by a space is the first segment, and the rest splits on its own |
| `Auth.SplitHasSecond` | index.js:46 | `split(" ")` yields a second segment exactly when the header contains a space |
| `Auth.BearerToken` | index.js:46 | the token is `split(" ")[1]`: `None` (standing for `undefined`) exactly when the header holds no space, and a token never contains a space |
| `Auth.BearerTokenOf` | index.js:46 | for `<scheme> <token>` with no other spaces, the token is the second segment; the scheme word is not checked |
| `Auth.Authenticate` | index.js:42-53 | an absent or empty header is rejected; a principal is admitted only if the header has a second segment and the verifier returns exactly that principal for it |
| `Auth.AuthenticateHeader` | index.js:46-49 | for a well-formed header, the gate's verdict is the verifier's verdict on the token |
| `Auth.MissingHeaderIgnoresVerifier` | index.js:43-44 | without a header, every verifier gives the same 401, so the verifier plays no part |
| `Auth.Request.VerifyFirebaseToken` | index.js:42-54 | `next` is called exactly when verification succeeds, after `tokenEmail` is set to the verified email; otherwise 401 "Unauthorized" and the request is unchanged |
| `Handlers.RegisterUser` | index.js:78-84 | an email already stored gives 200 "User already exists" and an unchanged collection; otherwise the body is appended (plus `_id`) and the insert is acknowledged; either way the email is then present |
| `Handlers.RegisterKeepsEmailsUnique` | index.js:80-82 | registration keeps users' emails unique and leaves exactly one user with the body's email |
| `Handlers.RegisterTwice` | index.js:80-81 | registering the same email twice: the second call is a 200 no-op and one record remains |
| `Handlers.CourseById` | index.js:101-118 | a malformed id gives 400 "Invalid course ID" whatever is stored; a valid id no course has gives 404 "Course not found"; otherwise 200 with a stored course whose `_id` is that id |
| `Handlers.PatchCourse` | index.js:125-131 | a malformed id throws with nothing written; no match gives counts (0, 0); otherwise one course with that id is merged with the patch and the counts are (1, 1 if it changed, else 0) |
| `Handlers.PatchCourseTouchesOnlyTarget` | index.js:126-129 | an update keeps the collection's length; it changes no course without that id; it keeps every key outside the patch; changed courses hold the patch's values |
| `Handlers.RemoveCourse` | index.js:133-138 | a malformed id throws with nothing removed; no match deletes 0; otherwise exactly one course with that id is removed, the others keep their order, and 1 is reported |
| `Handlers.ListEnrollments` | index.js:143-155 | a query email other than the principal gives 403 "Forbidden" whatever is stored; otherwise 200 with exactly the enrollments whose `studentEmail` is the query email (as a multiset) |
| `Handlers.EnrollStudent` | index.js:158-168 | an existing `(courseId, studentEmail)` gives 409 "Already enrolled" and an unchanged collection; otherwise the body is appended (plus `_id`); either way the pair is then present |
| `Handlers.EnrollKeepsPairsUnique` | index.js:161-166 | enrolling keeps `(courseId, studentEmail)` unique and leaves exactly one enrollment for the pair |
| `Handlers.EnrollTwice` | index.js:161-164 | enrolling twice: the second call is 409 and one enrollment remains |
| `Handlers.StampInstructor` | index.js:187-191 | the inserted instructor has the body's keys plus `role` and `createdAt`; `role` is "instructor" and `createdAt` is the given time, whatever the caller sent; every other key keeps the body's value |
| `Handlers.AddInstructor` | index.js:175-194 | an email already stored gives 200 "Instructor already exists" and nothing inserted; otherwise the stamped body is appended (plus `_id`); either way the email is then present |
| `Handlers.AddInstructorKeepsInvariants` | index.js:179-191 | adding keeps instructor emails unique, keeps every instructor's role "instructor", and leaves exactly one instructor with the body's email |
| `Handlers.InstructorScenario` | index.js:179-191 | the two-call scenario: the first stores role "instructor" over a caller-sent "admin" and acknowledges the id; the second answers "Instructor already exists" and stores nothing |
| `Handlers.InstructorByEmail` | index.js:207-211 | always 200; the body is `null` exactly when no instructor has that email; otherwise it is a stored instructor with that email |
| `Handlers.AddThenLookUp` | index.js:207-211 | after POST /instructors, looking up that email finds a record with role "instructor" |
| `Server.LearningDb.PostUsers` | index.js:78-84 | the users collection and reply are those of `RegisterUser`; no other collection changes; `Valid()` is kept, with exactly one user for the email |
| `Server.LearningDb.PostInstructors` | index.js:175-194 | the instructors collection and reply are those of `AddInstructor`; no other collection changes; `Valid()` is kept |
| `Server.LearningDb.PutCourse` | index.js:125-131 | token rejected: 401, and neither the courses nor the request change; admitted: `tokenEmail` is set and the courses and reply are those of `PatchCourse`; other collections never change |
| `Server.LearningDb.DeleteCourse` | index.js:133-138 | token rejected: 401 and nothing changes; admitted: `tokenEmail` is set and the courses and reply are those of `RemoveCourse` |
| `Server.LearningDb.GetEnroll` | index.js:143-155 | token rejected: 401; admitted: `tokenEmail` is set and the reply is `ListEnrollments` for that principal; no collection changes |
| `Server.LearningDb.PostEnroll` | index.js:158-168 | token rejected: 401 and nothing changes; admitted: the enroll collection and reply are those of `EnrollStudent`; `Valid()` is kept |
| `Server.EnrollTwiceScenario` | index.js:143-168 | the same student enrolling twice in one course: the first insert is acknowledged, the second is 409, and their own listing holds one enrollment |

## Left out

- Express wiring: CORS and the origin list, `express.json`, `app.listen`, logging (index.js:1-26, 215-230). This is transport plumbing.
- Loading `FIREBASE_SERVICE_KEY` and initialising Firebase Admin (index.js:29-37). This is configuration I/O.
- The MongoDB client, its URI and the `run()` lifecycle (index.js:59-73). This is connection plumbing.
- The internals of `verifyIdToken`. It is a network and crypto call, modelled as the `Verifier` parameter. A verified token without an `email` claim is not modelled: the verifier returns an email or nothing.
- A header with no second segment hands `undefined` to `verifyIdToken`, which rejects it. The model gives that 401 without consulting the `Verifier`.
- The internals of `ObjectId.isValid` and `new ObjectId(id)`. They are library code. `isValid` is a parameter; `new ObjectId(id)` is `ObjectId(id)`, so the ObjectId library's normalisation of id strings (12-byte form, letter case) is not modelled. On a malformed id in PUT and DELETE /courses/:id the model assumes `new ObjectId` throws exactly when `isValid` is false.
- `Raised` is what happens when the handler throws before replying. PUT and DELETE /courses/:id throw from `new ObjectId(req.params.id)` on a malformed id (index.js:127, 135). What follows is not part of the model and depends on the Express version. Express 4 does not catch a rejected async handler: the rejection goes unhandled, nothing is sent, and Node 15 and later end the whole process by default. Express 5 passes the error to its default handler, which answers 500. So `Raised` can mean that the server stops, not only that one request gets no answer.
- The driver's and store's filter subtleties, under which the real guards (index.js:80, 161, 179) can deduplicate differently from `Matches`:
  - a filter key whose value is `undefined` is modelled as matching the records that lack the field; the driver really turns it into `null`, which also matches records whose field is `null`;
  - an explicit JSON `null` in the body (for example `{ email: null }`) matches records that lack the field as well as those whose field is `null`, whereas `Matches` compares `Null` for equality only;
  - an object value whose keys start with `$` (for example `{ email: { "$ne": null } }` or `{ courseId: { "$exists": true } }`) is read by the store as a query operator, not compared for equality;
  - a scalar filter value also matches array fields that contain it.
- Store-side failures: a duplicate `_id` on insert, `$set` of a different `_id` (an immutable field), an empty `$set` on old servers, dotted or `$`-prefixed keys. The model assumes every write succeeds.
- JSON numbers are integers, and request bodies are always JSON objects (not arrays).
- The generic 500 catch path of GET /courses/:id (index.js:119-122).
- The result order of `find().toArray()`. It is not promised, so `Find` is specified as a multiset.
- The race between concurrent check-then-insert requests. The model is sequential: each route runs to completion before the next starts.
- The pass-through routes GET /courses, POST /courses, GET /instructors and GET / (index.js:89-98, 199-202, 215-217). They carry no decision logic.
- Only the routes defined in index.js are modelled.
