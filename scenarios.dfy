/**
 * Sequences of requests against one `Database`, with what the handlers'
 * contracts let a client conclude about them.
 */
module Scenarios {
  import opened Wrappers
  import opened Bson
  import opened Collections
  import opened CourseServer

  /** `GET /courses/:id` right after `POST /courses` shows the body, the timestamps and the new id. */
  method CreateThenGet(db: Database, body: Doc, createdAt: Timestamp, updatedAt: Timestamp, generated: ObjectId)
      returns (created: Outcome<Created>, got: Outcome<Doc>)
    requires Truthy(Field(body, "title")) && Truthy(Field(body, "shortDescription"))
    requires "_id" !in body
    requires VOid(generated) !in db.courses
    requires db.isValid(generated.hex)
    modifies db
    ensures created.Ok? && created.value.id == VOid(generated)
    ensures got.Ok? && got == Ok(created.value.course)
    ensures Field(got.value, "_id") == Some(VOid(generated))
    ensures Field(got.value, "createdAt") == Some(VDate(createdAt))
    ensures Field(got.value, "updatedAt") == Some(VDate(updatedAt))
    ensures forall f :: f != "createdAt" && f != "updatedAt" && f != "_id" ==> Field(got.value, f) == Field(body, f)
  {
    created := db.CreateCourse(body, createdAt, updatedAt, generated);
    assert CourseRef(generated.hex) == VOid(generated);
    got := db.GetCourse(generated.hex);
  }

  /** A second `POST /enrollments` for the same pair is a `Conflict`, and the count moved by one. */
  method EnrollTwice(db: Database, email: string, courseId: string, now: Timestamp, first: ObjectId, second: ObjectId)
      returns (r1: Outcome<ObjectId>, r2: Outcome<ObjectId>)
    requires db.CountsAgree()
    requires db.EnrollmentArgs(Some(email), Some(courseId)) && CourseRef(courseId) in db.courses
    requires FirstMatch(db.enrollments, email, CourseRef(courseId)).None?
    requires !IdTaken(db.enrollments, first)
    modifies db
    ensures r1 == Ok(first) && r2 == Fail(Conflict)
    ensures CourseRef(courseId) in db.courses
    ensures IncBase(old(db.courses[CourseRef(courseId)]), "enrollCount").Some? &&
            Field(db.courses[CourseRef(courseId)], "enrollCount") ==
              Some(VNum(IncBase(old(db.courses[CourseRef(courseId)]), "enrollCount").value + 1))
    ensures |db.enrollments| == |old(db.enrollments)| + 1
  {
    ghost var ref := CourseRef(courseId);
    ghost var c0 := db.courses[ref];
    assert IncBase(c0, "enrollCount").Some?;
    r1 := db.Enroll(Some(email), Some(courseId), now, first);
    assert r1 == Ok(first);
    assert IncBase(db.courses[ref], "enrollCount") == Some(IncBase(c0, "enrollCount").value + 1);
    ghost var courses1, enrollments1 := db.courses, db.enrollments;
    assert |enrollments1| == |old(db.enrollments)| + 1;
    assert FirstMatch(db.enrollments, email, ref).Some?;
    r2 := db.Enroll(Some(email), Some(courseId), now, second);
    assert r2 == Fail(Conflict);
    assert db.courses == courses1 && db.enrollments == enrollments1;
  }

  /** `POST /enrollments` for a pair not yet enrolled, with an unused id: succeeds and counts one more. */
  method EnrollFresh(db: Database, email: string, courseId: string, now: Timestamp, generated: ObjectId)
      returns (r: Outcome<ObjectId>)
    requires db.Valid() && db.CountsAgree()
    requires db.EnrollmentArgs(Some(email), Some(courseId)) && CourseRef(courseId) in db.courses
    requires FirstMatch(db.enrollments, email, CourseRef(courseId)).None?
    requires !IdTaken(db.enrollments, generated)
    modifies db
    ensures r == Ok(generated)
    ensures db.Valid() && db.CountsAgree()
    ensures |db.enrollments| == |old(db.enrollments)| + 1
    ensures db.courses.Keys == old(db.courses.Keys)
    ensures IncBase(old(db.courses[CourseRef(courseId)]), "enrollCount").Some? &&
            Field(db.courses[CourseRef(courseId)], "enrollCount") ==
              Some(VNum(IncBase(old(db.courses[CourseRef(courseId)]), "enrollCount").value + 1))
    ensures FirstMatch(db.enrollments, email, CourseRef(courseId)).Some?
    ensures forall id :: IdTaken(db.enrollments, id) ==> IdTaken(old(db.enrollments), id) || id == generated
  {
    ghost var c0 := db.courses[CourseRef(courseId)];
    assert IncBase(c0, "enrollCount").Some?;
    ghost var es0 := db.enrollments;
    ghost var record := Enrollment(generated, email, CourseRef(courseId), now,
      Field(c0, "title"), Field(c0, "shortDescription"));
    r := db.Enroll(Some(email), Some(courseId), now, generated);
    assert r == Ok(generated);
    assert db.enrollments == es0 + [record];
    forall id | IdTaken(db.enrollments, id) ensures IdTaken(es0, id) || id == generated {
      var j :| 0 <= j < |db.enrollments| && db.enrollments[j].id == id;
      assert j < |es0| ==> db.enrollments[j] == es0[j];
    }
  }

  /** `POST /enrollments` for a pair already enrolled in a stored course: `Conflict`, and nothing changes. */
  method EnrollAgain(db: Database, email: string, courseId: string, now: Timestamp, generated: ObjectId)
      returns (r: Outcome<ObjectId>)
    requires db.EnrollmentArgs(Some(email), Some(courseId)) && CourseRef(courseId) in db.courses
    requires FirstMatch(db.enrollments, email, CourseRef(courseId)).Some?
    modifies db
    ensures r == Fail(Conflict)
    ensures db.courses == old(db.courses) && db.enrollments == old(db.enrollments)
  {
    r := db.Enroll(Some(email), Some(courseId), now, generated);
  }

  /** `DELETE /enrollments` for an enrolled pair of a stored course: succeeds and counts one less. */
  method UnenrollExisting(db: Database, email: string, courseId: string) returns (r: Outcome<nat>)
    requires db.Valid() && db.CountsAgree()
    requires db.EnrollmentArgs(Some(email), Some(courseId)) && CourseRef(courseId) in db.courses
    requires FirstMatch(db.enrollments, email, CourseRef(courseId)).Some?
    modifies db
    ensures r == Ok(1)
    ensures db.Valid() && db.CountsAgree()
    ensures |db.enrollments| == |old(db.enrollments)| - 1
    ensures db.courses.Keys == old(db.courses.Keys)
    ensures IncBase(old(db.courses[CourseRef(courseId)]), "enrollCount").Some? &&
            Field(db.courses[CourseRef(courseId)], "enrollCount") ==
              Some(VNum(IncBase(old(db.courses[CourseRef(courseId)]), "enrollCount").value - 1))
    ensures FirstMatch(db.enrollments, email, CourseRef(courseId)).None?
    ensures forall id :: IdTaken(db.enrollments, id) ==> IdTaken(old(db.enrollments), id)
  {
    ghost var c0 := db.courses[CourseRef(courseId)];
    ghost var i := FirstMatch(db.enrollments, email, CourseRef(courseId)).value;
    assert IncBase(c0, "enrollCount").Some?;
    r := db.Unenroll(Some(email), Some(courseId));
    forall id | IdTaken(db.enrollments, id) ensures IdTaken(old(db.enrollments), id) {
      var j :| 0 <= j < |db.enrollments| && db.enrollments[j].id == id;
      assert db.enrollments[j] == old(db.enrollments)[if j < i then j else j + 1];
    }
  }

  /** Enroll, unenroll, enroll: all three succeed and the count ends one above where it started. */
  method EnrollUnenrollEnroll(db: Database, email: string, courseId: string, now: Timestamp, first: ObjectId, second: ObjectId)
      returns (r1: Outcome<ObjectId>, r2: Outcome<nat>, r3: Outcome<ObjectId>)
    requires db.Valid() && db.CountsAgree()
    requires db.EnrollmentArgs(Some(email), Some(courseId)) && CourseRef(courseId) in db.courses
    requires FirstMatch(db.enrollments, email, CourseRef(courseId)).None?
    requires !IdTaken(db.enrollments, first) && !IdTaken(db.enrollments, second) && first != second
    modifies db
    ensures r1 == Ok(first) && r2 == Ok(1) && r3 == Ok(second)
    ensures CourseRef(courseId) in db.courses
    ensures IncBase(old(db.courses[CourseRef(courseId)]), "enrollCount").Some? &&
            Field(db.courses[CourseRef(courseId)], "enrollCount") ==
              Some(VNum(IncBase(old(db.courses[CourseRef(courseId)]), "enrollCount").value + 1))
  {
    r1 := EnrollFresh(db, email, courseId, now, first);
    r2 := UnenrollExisting(db, email, courseId);
    r3 := EnrollFresh(db, email, courseId, now, second);
  }

  /** `GET /enrollments/check` is false before the pair enrolls and true after. */
  method CheckAroundEnroll(db: Database, email: string, courseId: string, now: Timestamp, generated: ObjectId)
      returns (before: Outcome<Check>, after: Outcome<Check>)
    requires db.CountsAgree()
    requires db.EnrollmentArgs(Some(email), Some(courseId)) && CourseRef(courseId) in db.courses
    requires FirstMatch(db.enrollments, email, CourseRef(courseId)).None?
    requires !IdTaken(db.enrollments, generated)
    modifies db
    ensures before.Ok? && !before.value.enrolled
    ensures after.Ok? && after.value.enrolled && after.value.enrollment.Some? && after.value.enrollment.value.id == generated
  {
    before := db.CheckEnrollment(Some(email), Some(courseId));
    var r := db.Enroll(Some(email), Some(courseId), now, generated);
    after := db.CheckEnrollment(Some(email), Some(courseId));
    assert db.enrollments[|db.enrollments| - 1].id == generated;
  }

  /** A second `DELETE /courses/:id` of the same id is `NotFound`. */
  method DeleteTwice(db: Database, id: string) returns (r1: Outcome<nat>, r2: Outcome<nat>)
    requires db.isValid(id) && CourseRef(id) in db.courses
    modifies db
    ensures r1 == Ok(1) && r2 == Fail(NotFound)
  {
    r1 := db.DeleteCourse(id);
    r2 := db.DeleteCourse(id);
  }

  /**
   * The cascade of `DELETE /courses/:id` as written misses the enrollment the enroll
   * route stored: it stays, and `GET /enrollments` joins it with `null`.
   */
  method DeleteLeavesEnrollment(db: Database, email: string, courseId: string, now: Timestamp, generated: ObjectId)
      returns (listed: Outcome<seq<EnrolledCourse>>)
    requires db.Valid() && db.CountsAgree()
    requires db.EnrollmentArgs(Some(email), Some(courseId)) && CourseRef(courseId) in db.courses
    requires FirstMatch(db.enrollments, email, CourseRef(courseId)).None?
    requires !IdTaken(db.enrollments, generated)
    modifies db
    ensures CourseRef(courseId) !in db.courses
    ensures exists i :: 0 <= i < |db.enrollments| && IsFor(db.enrollments[i], email, CourseRef(courseId))
    ensures !db.NoOrphans()
    ensures listed.Ok?
    ensures exists i :: 0 <= i < |listed.value| && listed.value[i].course.None? &&
                        IsFor(listed.value[i].enrollment, email, CourseRef(courseId))
  {
    var enrolled := db.Enroll(Some(email), Some(courseId), now, generated);
    var e := db.enrollments[|db.enrollments| - 1];
    var deleted := db.DeleteCourse(courseId);
    assert db.enrollments[|db.enrollments| - 1] == e && e.courseId !in db.courses;
    listed := db.ListForUser(Some(email));
    assert e in ForEmail(db.enrollments, email);
    var k :| 0 <= k < |ForEmail(db.enrollments, email)| && ForEmail(db.enrollments, email)[k] == e;
    assert listed.value[k].enrollment == e;
  }

  /** With the cascade on the converted id, the pair is no longer enrolled after the course is deleted. */
  method DeleteCascadingClearsEnrollment(db: Database, email: string, courseId: string, now: Timestamp, generated: ObjectId)
      returns (checked: Outcome<Check>)
    requires db.Valid() && db.CountsAgree() && db.NoOrphans()
    requires db.EnrollmentArgs(Some(email), Some(courseId)) && CourseRef(courseId) in db.courses
    requires FirstMatch(db.enrollments, email, CourseRef(courseId)).None?
    requires !IdTaken(db.enrollments, generated)
    modifies db
    ensures CourseRef(courseId) !in db.courses && db.NoOrphans()
    ensures checked == Ok(Check(false, None))
  {
    var enrolled := db.Enroll(Some(email), Some(courseId), now, generated);
    var deleted := db.DeleteCourseCascading(courseId);
    checked := db.CheckEnrollment(Some(email), Some(courseId));
  }

  /**
   * From an empty store: create "Algebra", enroll a@x.com (count 1), enroll again
   * (Conflict, still 1), unenroll (count 0).
   */
  method Algebra(isValid: string -> bool, k1: ObjectId, e1: ObjectId, e2: ObjectId, now: Timestamp)
      returns (db: Database)
    requires isValid(k1.hex) && k1.hex != ""
    ensures VOid(k1) in db.courses
    ensures Field(db.courses[VOid(k1)], "enrollCount") == Some(VNum(0))
    ensures db.enrollments == []
  {
    db := new Database(isValid);
    var body := map["title" := VStr("Algebra"), "shortDescription" := VStr("intro")];
    var created := db.CreateCourse(body, now, now, k1);
    assert created.Ok? && created.value.id == VOid(k1);
    assert CourseRef(k1.hex) == VOid(k1);
    assert Field(db.courses[VOid(k1)], "enrollCount") == None;
    assert db.Valid() && db.CountsAgree() && db.enrollments == [];
    assert db.EnrollmentArgs(Some("a@x.com"), Some(k1.hex));
    assert FirstMatch(db.enrollments, "a@x.com", VOid(k1)).None?;
    assert !IdTaken(db.enrollments, e1);
    var r1 := EnrollFresh(db, "a@x.com", k1.hex, now, e1);
    assert |db.enrollments| == 1;
    var r2 := EnrollAgain(db, "a@x.com", k1.hex, now, e2);
    var r3 := UnenrollExisting(db, "a@x.com", k1.hex);
    assert |db.enrollments| == 0;
  }
}
