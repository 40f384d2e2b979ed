# Course-management server: a Dafny model of its route handlers

The server keeps two MongoDB collections, `courses` and `enrollments`, behind
nine Express routes. This project models the bookkeeping those routes do as a
sequential state machine and proves what each route promises.

The model has five modules:

- `Wrappers` holds `Option` (JavaScript's `undefined` is `None`), the four error
  kinds (`InvalidArgument` for 400, `NotFound` for 404, `Conflict` for 409,
  `Internal` for 500) and `Outcome`. Every handler returns exactly one `Outcome`.
- `Bson` defines stored values, compared by BSON equality. An ObjectId is a value of
  its own kind (`VOid`) and never equals a string (`VStr`). This module also has
  JavaScript truthiness, MongoDB equality filters, and `$set` and `$inc` applied
  to one document.
- `Collections` defines the enrollment record and the queries the handlers send to
  the enrollments collection: `findOne`, `deleteOne`, `deleteMany` and `find` by
  email. Each is a function on the records in natural order, together with the
  counting and uniqueness lemmas the handlers need.
- `CourseServer` holds the write-side pieces of `PUT /courses/:id` and the class
  `Database`. The class fields are the two collections: `courses` maps each `_id` to
  a document, and `enrollments` is a sequence. Each mutating route is a method that
  modifies the database. Each read-only route is a function that reads it.
- `Scenarios` holds client methods that replay sequences of requests and state what
  the handlers' contracts let a caller conclude: create then get, enroll twice,
  enroll/unenroll/enroll, check around an enroll, delete twice, and the cascade.

`Database` has three invariants:

- `Valid`: every stored course reference is an ObjectId, and no (email, course) pair
  is enrolled twice.
- `CountsAgree`: every course's `enrollCount` equals its number of enrollments, with
  an absent count read as 0.
- `NoOrphans`: every enrollment refers to a stored course.

Every method keeps `Valid`. Every method keeps `CountsAgree`, except that
`POST /courses` keeps it only when the body brings no `enrollCount` of its own and
the new key is not yet referenced. `NoOrphans` is kept by every method except the
course delete as written (see Findings).

## Model

| member | source | states |
|---|---|---|
| Bson.Increment | index.js:224-227 | `$inc` succeeds exactly when the field is absent (read as 0) or a number. On success the field becomes that number plus the delta and every other field is unchanged. |
| Bson.SetFields | index.js:142-145 | `$set`: each field named in the update takes the update's value, every other field keeps the document's. The key set is the union. |
| Collections.CountRefsConcat | index.js:221 | The number of records referring to a course is additive over concatenation. |
| Collections.CountRefsAppend | index.js:221 | Inserting one record raises the count of its own course by one and leaves every other count alone. |
| Collections.CountRefsOfNonObjectId | index.js:174 | In a collection whose references are all ObjectIds, no record refers to a non-ObjectId value. |
| Collections.FirstMatch | index.js:203-206 | `findOne({email, courseId})`: a returned position matches, no earlier one does, and nothing is returned exactly when no record matches. |
| Collections.RemoveAt | index.js:311-314 | The collection after one record is deleted: one shorter, and the later records shift down by one. |
| Collections.CountRefsRemoveAt | index.js:311-314 | Deleting one record lowers the count of its own course by one and leaves every other count alone. |
| Collections.RemoveAtKeepsInvariants | index.js:311-314 | Deleting a record adds no record, and keeps "all references are ObjectIds" and "pairs are unique". |
| Collections.RemoveOnlyMatch | index.js:311-316 | When pairs are unique, deleting the first match leaves the pair with no enrollment at all. |
| Collections.AppendKeepsInvariants | index.js:203-221 | Inserting a record for a pair that has none keeps pairs unique, and keeps every reference an ObjectId when the new reference is one. |
| Collections.RemoveReferencing | index.js:174 | `deleteMany({courseId})` keeps exactly the records that do not refer to the course. No reference to it remains, and every other course's count is unchanged. The filter removes nothing when nothing refers to the course. |
| Collections.RemoveReferencingConcat | index.js:174 | `deleteMany` on a concatenation is the concatenation of the two results, so the kept records stay in the store's order. |
| Collections.UniqueCons | index.js:203-210 | A collection led by `x` has unique pairs if and only if its tail has them and no tail record shares `x`'s pair. |
| Collections.RemoveReferencingKeepsInvariants | index.js:174 | `deleteMany` keeps "all references are ObjectIds" and "pairs are unique". |
| Collections.NonObjectIdFilterRemovesNothing | index.js:174 | A `deleteMany` whose filter is a string removes nothing from a collection whose references are all ObjectIds. |
| Collections.ForEmail | index.js:274 | `find({email})` keeps exactly the user's records with their multiplicities, and is never longer than the collection. |
| Collections.ForEmailConcat | index.js:274 | `find({email})` on a concatenation is the concatenation of the two results, so the user's records keep the store's order. |
| Collections.ForEmailSingleton | index.js:274 | A single record is found exactly when it is the user's. With the concatenation lemma, this fixes the result as the in-order subsequence of the user's records. |
| CourseServer.DropUndefined | index.js:136-140 | After the loop, a key remains exactly when its value was defined, and it keeps that value. |
| CourseServer.SetData | index.js:119-140 | The `$set` document holds `updatedAt` (the current time) and exactly those allow-listed fields the body defines, with the body's values. |
| CourseServer.EnrollKeepsCounts | index.js:221-227 | Inserting an enrollment and raising its course's count by 1 keeps every count equal to its number of enrollments, and that `$inc` cannot fail. |
| CourseServer.UnenrollKeepsCounts | index.js:311-324 | Deleting an enrollment and lowering its course's count by 1 keeps every count right, and that `$inc` cannot fail. When the course is gone, the counts of the stored courses still agree. |
| CourseServer.Database.constructor | index.js:25-27 | An empty store satisfies all three invariants. |
| CourseServer.Database.ListCourses | index.js:54-61 | Without a truthy email, every course is listed. With one, exactly the courses whose `createdBy` matches are listed, each shown with its `_id`. |
| CourseServer.Database.GetCourse | index.js:72-84 | InvalidArgument exactly for a malformed id, NotFound exactly for a well-formed id with no course, otherwise the stored course with its `_id`. |
| CourseServer.Database.CreateCourse | index.js:94-109 | InvalidArgument, with nothing stored, exactly when `title` or `shortDescription` is falsy. Otherwise the body is stored under a new key with `createdAt`/`updatedAt` set server-side and every other field as sent. A duplicate or unusable `_id` gives Internal and stores nothing. Keeps the invariants. |
| CourseServer.Database.UpdateCourse | index.js:118-151 | InvalidArgument exactly for a malformed id, NotFound exactly when no course matches, and nothing changes on either. On success only this course changes: every defined allow-listed field takes the body's value, `updatedAt` is the current time, and every other field is unchanged. The answer is 1 when the document changed and 0 when it did not. |
| CourseServer.Database.DeleteCourse | index.js:161-176 | InvalidArgument for a malformed id, NotFound for an absent course, and nothing changes on either. On success the course is removed and the enrollments referring to the raw string id are deleted, which under the invariants deletes none. |
| CourseServer.Database.DeleteCourseCascading | index.js:161-176 | The same outcomes, with the cascade on the converted id: no enrollment of the deleted course remains, and all three invariants are kept. |
| CourseServer.Database.Enroll | index.js:186-233 | The checks in order, each an if-and-only-if: parameters, id format, course presence, existing enrollment. Those failures change nothing. On success exactly one record is appended, snapshotting `title` and `shortDescription`, and the course's count rises by exactly 1 from an absent-as-0 base. Internal holds exactly when the enrollment id is taken or `$inc` refuses the count. A taken id stores nothing, and a refused `$inc` leaves the inserted record in place. Keeps the invariants. |
| CourseServer.Database.CheckEnrollment | index.js:243-258 | InvalidArgument exactly for missing or malformed parameters. Otherwise `enrolled` holds exactly when a record exists for (email, converted id), and the returned record is a match. Reads only, so nothing changes. |
| CourseServer.Database.ListForUser | index.js:268-291 | InvalidArgument exactly without an email. Otherwise one entry per record of that email, in the store's order, each joined with its course or with `null` when the course is absent. |
| CourseServer.Database.Unenroll | index.js:301-326 | InvalidArgument for missing or malformed parameters, NotFound exactly when no record matches, and nothing changes on either. Otherwise the first match is deleted and, when the course still exists, its count is lowered by 1 with no floor. Keeps the invariants, and under them the pair is no longer enrolled. |
| Scenarios.CreateThenGet | index.js:92-109 | A course read back right after creation is the created body with its new id and both timestamps. |
| Scenarios.EnrollTwice | index.js:203-227 | Enrolling the same pair twice gives success then Conflict, with a net count change of +1 and one new record. |
| Scenarios.EnrollFresh | index.js:188-233 | Enrolling a pair that has no record, with an unused id, succeeds and raises the count by exactly 1. |
| Scenarios.EnrollAgain | index.js:203-210 | Enrolling a pair that is already enrolled in a stored course gives Conflict and changes neither collection. |
| Scenarios.UnenrollExisting | index.js:303-326 | Unenrolling a pair enrolled in a stored course succeeds and lowers the count by exactly 1. |
| Scenarios.EnrollUnenrollEnroll | index.js:188-326 | Enroll, unenroll, enroll on one pair all succeed, and the count ends one above where it started. |
| Scenarios.CheckAroundEnroll | index.js:241-258 | The check reports false before the enrollment and true after, with the new record. |
| Scenarios.DeleteTwice | index.js:163-171 | Deleting the same course twice gives success, then NotFound. |
| Scenarios.DeleteLeavesEnrollment | index.js:174 | After enrolling and deleting the course as written, the enrollment remains and the user's list joins it with `null`. |
| Scenarios.DeleteCascadingClearsEnrollment | index.js:174 | With the corrected cascade, the pair is not enrolled after its course is deleted, and no enrollment is orphaned. |
| Scenarios.Algebra | index.js:92-326 | From an empty store: create a course, enroll (count 1), enroll again (Conflict), then unenroll (count 0, no records left). |

## Left out

- Express setup, CORS, JSON parsing, dotenv, the MongoDB connection and `app.listen`
  (index.js:1-42, index.js:344-356) are I/O and configuration. The `GET /` banner route
  (index.js:47-49) touches no data.
- Status codes, message strings and response shapes are left out. Only the outcome
  kind and the returned ids, documents and counts are modelled.
- CourseServer.Database.CreateCourse: the 201 body spreads the stored course after
  `id: result.insertedId` (index.js:105-109), so a client field named `id` replaces the
  returned id in the JSON. The model returns the inserted key in `Created.id` and the
  stored document, with its own fields, in `Created.course`; it does not model that
  merged JSON object.
- The catch-all 500 answers and the error and not-found middleware (index.js:334-342)
  are not modelled, and neither is `console.error` logging. `Internal` stands only for
  the store's own refusals: a duplicate or array `_id` on insert, a duplicate
  enrollment id, and `$inc` on a non-numeric `enrollCount`. A connection or driver
  failure is not modelled.
- Concurrency is left out: handlers run one at a time. The check-then-insert race of
  two simultaneous enrolls and the non-atomicity of insert followed by `$inc` are beyond
  a sequential model. A `$inc` that the store refuses is modelled after the insert or
  delete has already happened, as in the source.
- `ObjectId.isValid` is an abstract predicate given to the `Database` constructor, and
  `new ObjectId(s)` is an injective constructor. The real 24-hex-digit format and the
  driver's acceptance rules belong to the driver. The driver reads hex digits without
  regard to case, so two id strings that differ only in letter case name one course in
  the source but two keys in the model.
- `new Date()` and the ids the store generates are method parameters chosen by the caller.
- Numbers are integers. Fractional and floating-point values of `enrollCount` are not modelled.
- Query and body parameters are strings or absent. Array-valued query strings and
  non-string bodies sent as `email` or `courseId` are not modelled.
- CourseServer.Database.ListCourses: returns the matching courses as a map keyed by `_id`
  rather than an array in natural order, so the listing order is not modelled.
- CourseServer.Database.ListForUser: the driver's `$in` lookup followed by
  `c._id.equals(...)` is modelled as key equality in the courses map.
- CourseServer.Database.CreateCourse: keeps `CountsAgree` only when the body brings no
  `enrollCount` and nothing already refers to the new key. The source copies the body
  verbatim, so a client can seed any count.

## Findings

| source | as written | input that shows it | evidently intended | confidence | as-written member | corrected member |
|---|---|---|---|---|---|---|
| index.js:174 | The cascade of `DELETE /courses/:id` deletes enrollments whose `courseId` equals the raw id string. `POST /enrollments` stores `courseId` as an ObjectId (index.js:215), and under BSON equality a string never equals an ObjectId, so the cascade deletes nothing. | Enroll `a@x.com` in an existing course with id `k`, then `DELETE /courses/k`. The enrollment remains, and `GET /enrollments?email=a@x.com` lists it with `course: null`. | filter on `new ObjectId(id)` so that the course's enrollments go with it | high, not executed | CourseServer.Database.DeleteCourse, Collections.NonObjectIdFilterRemovesNothing, Scenarios.DeleteLeavesEnrollment | CourseServer.Database.DeleteCourseCascading, Scenarios.DeleteCascadingClearsEnrollment |
