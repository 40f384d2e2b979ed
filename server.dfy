/**
 * The route handlers of the course-management server, over the two collections.
 * A `Database` holds the courses (keyed by their `_id`) and the enrollments (in
 * the store's natural order); each mutating route is a method, each read-only
 * route a function. The clock, the store's id generator and `ObjectId.isValid`
 * are inputs.
 */
module CourseServer {
  import opened Wrappers
  import opened Bson
  import opened Collections

  /** The only course fields `PUT /courses/:id` copies from the request body. */
  const UpdatableFields: seq<string> := ["title", "shortDescription", "imageURL", "duration", "fullDescription"]

  /** The body of a `201` answer to `POST /courses`: the inserted id and the stored document. */
  datatype Created = Created(id: Value, course: Doc)

  /** The answer to `GET /enrollments/check`. */
  datatype Check = Check(enrolled: bool, enrollment: Option<Enrollment>)

  /** One element of the answer to `GET /enrollments`: the record joined with its course, or `null`. */
  datatype EnrolledCourse = EnrolledCourse(enrollment: Enrollment, course: Option<Doc>)

  /** A request parameter that passes `!x`: present and not the empty string. */
  predicate Given(p: Option<string>)
  {
    p.Some? && p.value != ""
  }

  /** The key `{_id: new ObjectId(id)}` looks a course up by. */
  function CourseRef(id: string): Value
  {
    VOid(ToObjectId(id))
  }

  /** A course document as the API shows it, with its `_id`. */
  function WithId(key: Value, d: Doc): Doc
  {
    d["_id" := key]
  }

  /**
   * The `_id` `insertOne` gives a new course: the body's own `_id` when it has one,
   * the store's fresh ObjectId when it has none or `null`; `None` for an array,
   * which the store refuses as an `_id`.
   */
  function InsertedId(body: Doc, generated: ObjectId): Option<Value>
  {
    match Field(body, "_id")
    case None => Some(VOid(generated))
    case Some(VNull) => Some(VOid(generated))
    case Some(VArray(_)) => None
    case Some(v) => Some(v)
  }

  /**
   * The `forEach` over `updateData` that deletes every key whose value is `undefined`.
   */
  method DropUndefined(updateData: map<string, Option<Value>>) returns (r: map<string, Option<Value>>)
    ensures forall k :: k in r <==> k in updateData && updateData[k].Some?
    ensures forall k :: k in r ==> r[k] == updateData[k]
  {
    r := updateData;
    var pending := updateData.Keys;
    while pending != {}
      invariant pending <= updateData.Keys
      invariant forall k :: k in r ==> k in updateData && r[k] == updateData[k]
      invariant forall k :: k in pending ==> k in r
      invariant forall k :: k in updateData && k !in pending ==> (k in r <==> updateData[k].Some?)
      decreases pending
    {
      var key :| key in pending;
      if r[key].None? {
        r := r - {key};
      }
      pending := pending - {key};
    }
  }

  /** The `$set` document of `PUT /courses/:id`: the allow-listed fields the body defines, and `updatedAt`. */
  method SetData(body: Doc, now: Timestamp) returns (setData: Doc)
    ensures forall f :: f in setData <==> f == "updatedAt" || (f in UpdatableFields && f in body)
    ensures Field(setData, "updatedAt") == Some(VDate(now))
    ensures forall f :: f in UpdatableFields ==> Field(setData, f) == Field(body, f)
  {
    var title, shortDescription, imageURL, duration, fullDescription :=
      Field(body, "title"), Field(body, "shortDescription"), Field(body, "imageURL"),
      Field(body, "duration"), Field(body, "fullDescription");
    var updateData := map[
      "title" := title,
      "shortDescription" := shortDescription,
      "imageURL" := imageURL,
      "duration" := duration,
      "fullDescription" := fullDescription,
      "updatedAt" := Some(VDate(now))];
    updateData := DropUndefined(updateData);
    setData := map k | k in updateData :: updateData[k].value;
  }

  /** Every course's `enrollCount` (absent meaning 0) is its number of enrollments. */
  ghost predicate CountsAgreeOn(courses: map<Value, Doc>, es: seq<Enrollment>)
  {
    forall k :: k in courses ==> IncBase(courses[k], "enrollCount") == Some(CountRefs(es, k))
  }

  /** Every enrollment refers to a stored course. */
  ghost predicate NoOrphansOn(courses: map<Value, Doc>, es: seq<Enrollment>)
  {
    forall e :: e in es ==> e.courseId in courses
  }

  /** Inserting an enrollment and `$inc`ing its course by 1 keeps every count right. */
  lemma EnrollKeepsCounts(courses: map<Value, Doc>, es: seq<Enrollment>, e: Enrollment)
    requires CountsAgreeOn(courses, es)
    requires e.courseId in courses
    ensures Increment(courses[e.courseId], "enrollCount", 1).Some?
    ensures CountsAgreeOn(courses[e.courseId := Increment(courses[e.courseId], "enrollCount", 1).value], es + [e])
  {
    forall k | k in courses {
      CountRefsAppend(es, e, k);
    }
  }

  /**
   * Deleting an enrollment and `$inc`ing its course by -1, when the course is still
   * stored, keeps every count right; the `$inc` cannot fail.
   */
  lemma UnenrollKeepsCounts(courses: map<Value, Doc>, es: seq<Enrollment>, i: nat)
    requires CountsAgreeOn(courses, es)
    requires i < |es|
    ensures es[i].courseId in courses ==>
      Increment(courses[es[i].courseId], "enrollCount", -1).Some? &&
      CountsAgreeOn(courses[es[i].courseId := Increment(courses[es[i].courseId], "enrollCount", -1).value], RemoveAt(es, i))
    ensures es[i].courseId !in courses ==> CountsAgreeOn(courses, RemoveAt(es, i))
  {
    forall k | k in courses {
      CountRefsRemoveAt(es, i, k);
    }
  }

  class Database {
    /** `ObjectId.isValid` on strings. */
    const isValid: string -> bool
    /** The courses collection: `_id` to the rest of the document. */
    var courses: map<Value, Doc>
    /** The enrollments collection, in natural order. */
    var enrollments: seq<Enrollment>

    constructor (isValid: string -> bool)
      ensures this.isValid == isValid
      ensures courses == map[] && enrollments == []
      ensures Valid() && CountsAgree() && NoOrphans()
    {
      this.isValid := isValid;
      courses := map[];
      enrollments := [];
    }

    /**
     * What every route keeps: course references are ObjectIds, and no
     * (email, courseId) pair is enrolled twice.
     */
    ghost predicate Valid()
      reads this
    {
      AllObjectIdRefs(enrollments) && UniquePairs(enrollments)
    }

    /** `enrollCount` agrees with the enrollments of every stored course. */
    ghost predicate CountsAgree()
      reads this
    {
      CountsAgreeOn(courses, enrollments)
    }

    /** No enrollment outlives its course. */
    ghost predicate NoOrphans()
      reads this
    {
      NoOrphansOn(courses, enrollments)
    }

    /** The checks the enrollment routes make before touching the store. */
    predicate EnrollmentArgs(email: Option<string>, courseId: Option<string>)
    {
      Given(email) && Given(courseId) && isValid(courseId.value)
    }

    /** `GET /courses`: every course, or only those whose `createdBy` matches a given email. */
    function ListCourses(email: Option<string>): (r: map<Value, Doc>)
      reads this
      ensures !Given(email) ==> r.Keys == courses.Keys
      ensures Given(email) ==>
        forall k :: k in r <==> k in courses && EqualityMatch(Field(courses[k], "createdBy"), VStr(email.value))
      ensures forall k :: k in r ==> k in courses && r[k] == WithId(k, courses[k])
    {
      map k | k in courses && (Given(email) ==> EqualityMatch(Field(courses[k], "createdBy"), VStr(email.value)))
        :: WithId(k, courses[k])
    }

    /** `GET /courses/:id`. */
    function GetCourse(id: string): (r: Outcome<Doc>)
      reads this
      ensures r == Fail(InvalidArgument) <==> !isValid(id)
      ensures r == Fail(NotFound) <==> isValid(id) && CourseRef(id) !in courses
      ensures r.Ok? <==> isValid(id) && CourseRef(id) in courses
      ensures r.Ok? ==> r.value == WithId(CourseRef(id), courses[CourseRef(id)])
    {
      if !isValid(id) then Fail(InvalidArgument)
      else if CourseRef(id) !in courses then Fail(NotFound)
      else Ok(WithId(CourseRef(id), courses[CourseRef(id)]))
    }

    /**
     * `POST /courses`: refuses a body without a truthy `title` and `shortDescription`,
     * otherwise stamps `createdAt` and `updatedAt` and inserts the body as it is.
     */
    method CreateCourse(body: Doc, createdAt: Timestamp, updatedAt: Timestamp, generated: ObjectId)
      returns (r: Outcome<Created>)
      modifies this
      ensures enrollments == old(enrollments)
      ensures r == Fail(InvalidArgument) <==>
        !Truthy(Field(body, "title")) || !Truthy(Field(body, "shortDescription"))
      ensures r == Fail(Internal) <==>
        Truthy(Field(body, "title")) && Truthy(Field(body, "shortDescription")) &&
        (InsertedId(body, generated).None? || InsertedId(body, generated).value in old(courses))
      ensures r.Fail? ==> r.error in {InvalidArgument, Internal} && courses == old(courses)
      ensures r.Ok? ==> r.value.id == InsertedId(body, generated).value
      ensures r.Ok? ==> r.value.id !in old(courses) && courses.Keys == old(courses).Keys + {r.value.id}
      ensures r.Ok? ==> forall k :: k in old(courses) ==> courses[k] == old(courses)[k]
      ensures r.Ok? ==> r.value.course == WithId(r.value.id, courses[r.value.id])
      ensures r.Ok? ==> Field(courses[r.value.id], "createdAt") == Some(VDate(createdAt))
      ensures r.Ok? ==> Field(courses[r.value.id], "updatedAt") == Some(VDate(updatedAt))
      ensures r.Ok? ==> forall f :: f != "createdAt" && f != "updatedAt" && f != "_id" ==>
        Field(courses[r.value.id], f) == Field(body, f)
      ensures old(Valid()) ==> Valid()
      ensures old(NoOrphans()) ==> NoOrphans()
      ensures old(CountsAgree()) && "enrollCount" !in body && (r.Ok? ==> CountRefs(enrollments, r.value.id) == 0)
        ==> CountsAgree()
    {
      if !Truthy(Field(body, "title")) || !Truthy(Field(body, "shortDescription")) {
        return Fail(InvalidArgument);
      }
      var newCourse := body;
      newCourse := newCourse["createdAt" := VDate(createdAt)];
      newCourse := newCourse["updatedAt" := VDate(updatedAt)];
      var key := InsertedId(body, generated);
      if key.None? || key.value in courses {
        return Fail(Internal);
      }
      var stored := newCourse - {"_id"};
      courses := courses[key.value := stored];
      r := Ok(Created(key.value, WithId(key.value, stored)));
      assert Field(stored, "enrollCount") == Field(body, "enrollCount");
    }

    /**
     * `PUT /courses/:id`: `$set`s the allow-listed fields the body defines and a fresh
     * `updatedAt`; answers the modified count.
     */
    method UpdateCourse(id: string, body: Doc, now: Timestamp) returns (r: Outcome<nat>)
      modifies this
      ensures enrollments == old(enrollments)
      ensures r == Fail(InvalidArgument) <==> !isValid(id)
      ensures r == Fail(NotFound) <==> isValid(id) && CourseRef(id) !in old(courses)
      ensures r.Fail? ==> r.error in {InvalidArgument, NotFound} && courses == old(courses)
      ensures r.Ok? ==> CourseRef(id) in old(courses) && courses.Keys == old(courses).Keys
      ensures r.Ok? ==> forall k :: k in courses && k != CourseRef(id) ==> courses[k] == old(courses)[k]
      ensures r.Ok? ==> Field(courses[CourseRef(id)], "updatedAt") == Some(VDate(now))
      ensures r.Ok? ==> forall f :: f in UpdatableFields ==>
        Field(courses[CourseRef(id)], f) ==
          if Field(body, f).Some? then Field(body, f) else Field(old(courses)[CourseRef(id)], f)
      ensures r.Ok? ==> forall f :: f !in UpdatableFields && f != "updatedAt" ==>
        Field(courses[CourseRef(id)], f) == Field(old(courses)[CourseRef(id)], f)
      ensures r.Ok? ==> r.value == if courses[CourseRef(id)] == old(courses)[CourseRef(id)] then 0 else 1
      ensures old(Valid()) ==> Valid()
      ensures old(NoOrphans()) ==> NoOrphans()
      ensures old(CountsAgree()) ==> CountsAgree()
    {
      if !isValid(id) {
        return Fail(InvalidArgument);
      }
      var setData := SetData(body, now);
      var key := CourseRef(id);
      if key !in courses {
        return Fail(NotFound);
      }
      var before := courses[key];
      var after := SetFields(before, setData);
      courses := courses[key := after];
      r := Ok(if after == before then 0 else 1);
      assert Field(after, "enrollCount") == Field(before, "enrollCount");
    }

    /**
     * `DELETE /courses/:id` as written: deletes the course, then the enrollments
     * whose `courseId` equals the raw id string.
     */
    method DeleteCourse(id: string) returns (r: Outcome<nat>)
      modifies this
      ensures r == Fail(InvalidArgument) <==> !isValid(id)
      ensures r == Fail(NotFound) <==> isValid(id) && CourseRef(id) !in old(courses)
      ensures r.Fail? ==> r.error in {InvalidArgument, NotFound}
      ensures r.Fail? ==> courses == old(courses) && enrollments == old(enrollments)
      ensures r.Ok? ==> r.value == 1 && CourseRef(id) in old(courses) && courses == old(courses) - {CourseRef(id)}
      ensures r.Ok? ==> enrollments == RemoveReferencing(old(enrollments), VStr(id))
      ensures old(Valid()) ==> Valid() && enrollments == old(enrollments)
      ensures old(Valid()) && old(CountsAgree()) ==> CountsAgree()
    {
      if !isValid(id) {
        return Fail(InvalidArgument);
      }
      var key := CourseRef(id);
      if key !in courses {
        return Fail(NotFound);
      }
      courses := courses - {key};
      if Valid() {
        NonObjectIdFilterRemovesNothing(enrollments, VStr(id));
      }
      enrollments := RemoveReferencing(enrollments, VStr(id));
      r := Ok(1);
    }

    /**
     * `DELETE /courses/:id` with the cascade filtering on the converted id, which is
     * how the enroll route stores the reference.
     */
    method DeleteCourseCascading(id: string) returns (r: Outcome<nat>)
      modifies this
      ensures r == Fail(InvalidArgument) <==> !isValid(id)
      ensures r == Fail(NotFound) <==> isValid(id) && CourseRef(id) !in old(courses)
      ensures r.Fail? ==> r.error in {InvalidArgument, NotFound}
      ensures r.Fail? ==> courses == old(courses) && enrollments == old(enrollments)
      ensures r.Ok? ==> r.value == 1 && CourseRef(id) in old(courses) && courses == old(courses) - {CourseRef(id)}
      ensures r.Ok? ==> enrollments == RemoveReferencing(old(enrollments), CourseRef(id))
      ensures r.Ok? ==> CountRefs(enrollments, CourseRef(id)) == 0
      ensures old(Valid()) ==> Valid()
      ensures old(CountsAgree()) ==> CountsAgree()
      ensures old(NoOrphans()) ==> NoOrphans()
    {
      if !isValid(id) {
        return Fail(InvalidArgument);
      }
      var key := CourseRef(id);
      if key !in courses {
        return Fail(NotFound);
      }
      RemoveReferencingKeepsInvariants(enrollments, key);
      ghost var before := enrollments;
      courses := courses - {key};
      enrollments := RemoveReferencing(enrollments, key);
      assert forall k :: k in courses ==> k != key && CountRefs(enrollments, k) == CountRefs(before, k);
      r := Ok(1);
    }

    /**
     * `POST /enrollments`: checks, in order, the parameters, the id format, the course
     * and an existing enrollment; then inserts the record and `$inc`s `enrollCount`.
     */
    method Enroll(email: Option<string>, courseId: Option<string>, now: Timestamp, generated: ObjectId)
      returns (r: Outcome<ObjectId>)
      modifies this
      ensures r == Fail(InvalidArgument) <==> !EnrollmentArgs(email, courseId)
      ensures r == Fail(NotFound) <==>
        EnrollmentArgs(email, courseId) && CourseRef(courseId.value) !in old(courses)
      ensures r == Fail(Conflict) <==>
        EnrollmentArgs(email, courseId) && CourseRef(courseId.value) in old(courses) &&
        FirstMatch(old(enrollments), email.value, CourseRef(courseId.value)).Some?
      ensures r.Ok? <==>
        EnrollmentArgs(email, courseId) && CourseRef(courseId.value) in old(courses) &&
        FirstMatch(old(enrollments), email.value, CourseRef(courseId.value)).None? &&
        !IdTaken(old(enrollments), generated) &&
        IncBase(old(courses)[CourseRef(courseId.value)], "enrollCount").Some?
      ensures r.Fail? ==> courses == old(courses)
      ensures r.Fail? && r.error != Internal ==> enrollments == old(enrollments)
      ensures r == Fail(Internal) <==>
        EnrollmentArgs(email, courseId) && CourseRef(courseId.value) in old(courses) &&
        FirstMatch(old(enrollments), email.value, CourseRef(courseId.value)).None? &&
        (IdTaken(old(enrollments), generated) ||
         IncBase(old(courses)[CourseRef(courseId.value)], "enrollCount").None?)
      ensures r == Fail(Internal) && IdTaken(old(enrollments), generated) ==> enrollments == old(enrollments)
      ensures r == Fail(Internal) && !IdTaken(old(enrollments), generated) ==>
        enrollments == old(enrollments) + [Enrollment(generated, email.value, CourseRef(courseId.value), now,
          Field(old(courses)[CourseRef(courseId.value)], "title"),
          Field(old(courses)[CourseRef(courseId.value)], "shortDescription"))]
      ensures r.Ok? ==> r.value == generated
      ensures r.Ok? ==>
        enrollments == old(enrollments) + [Enrollment(generated, email.value, CourseRef(courseId.value), now,
          Field(old(courses)[CourseRef(courseId.value)], "title"),
          Field(old(courses)[CourseRef(courseId.value)], "shortDescription"))]
      ensures r.Ok? ==> courses.Keys == old(courses).Keys
      ensures r.Ok? ==> forall k :: k in courses && k != CourseRef(courseId.value) ==> courses[k] == old(courses)[k]
      ensures r.Ok? ==>
        Increment(old(courses)[CourseRef(courseId.value)], "enrollCount", 1) == Some(courses[CourseRef(courseId.value)])
      ensures r.Ok? ==> FirstMatch(enrollments, email.value, CourseRef(courseId.value)).Some?
      ensures old(Valid()) ==> Valid()
      ensures old(NoOrphans()) ==> NoOrphans()
      ensures old(CountsAgree()) ==> CountsAgree()
    {
      if !Given(email) || !Given(courseId) {
        return Fail(InvalidArgument);
      }
      if !isValid(courseId.value) {
        return Fail(InvalidArgument);
      }
      var ref := CourseRef(courseId.value);
      if ref !in courses {
        return Fail(NotFound);
      }
      var course := courses[ref];
      if FirstMatch(enrollments, email.value, ref).Some? {
        return Fail(Conflict);
      }
      var enrollment := Enrollment(generated, email.value, ref, now,
        Field(course, "title"), Field(course, "shortDescription"));
      if IdTaken(enrollments, generated) {
        return Fail(Internal);
      }
      ghost var before := enrollments;
      AppendKeepsInvariants(enrollments, enrollment);
      if CountsAgree() {
        EnrollKeepsCounts(courses, enrollments, enrollment);
      }
      enrollments := enrollments + [enrollment];
      assert enrollments[|before|] == enrollment;
      var bumped := Increment(course, "enrollCount", 1);
      if bumped.None? {
        return Fail(Internal);
      }
      courses := courses[ref := bumped.value];
      r := Ok(generated);
    }

    /**
     * `GET /enrollments/check`: whether the pair is enrolled, with the first matching
     * record. Changes nothing.
     */
    function CheckEnrollment(email: Option<string>, courseId: Option<string>): (r: Outcome<Check>)
      reads this
      ensures r.Fail? <==> !EnrollmentArgs(email, courseId)
      ensures r.Fail? ==> r.error == InvalidArgument
      ensures r.Ok? ==> (r.value.enrolled <==>
        exists i :: 0 <= i < |enrollments| && IsFor(enrollments[i], email.value, CourseRef(courseId.value)))
      ensures r.Ok? ==> (r.value.enrollment.Some? <==> r.value.enrolled)
      ensures r.Ok? && r.value.enrolled ==>
        r.value.enrollment.value in enrollments &&
        IsFor(r.value.enrollment.value, email.value, CourseRef(courseId.value))
    {
      if !Given(email) || !Given(courseId) then Fail(InvalidArgument)
      else if !isValid(courseId.value) then Fail(InvalidArgument)
      else
        match FirstMatch(enrollments, email.value, CourseRef(courseId.value))
        case None => Ok(Check(false, None))
        case Some(i) => Ok(Check(true, Some(enrollments[i])))
    }

    /**
     * `GET /enrollments`: the user's enrollments in order, each joined with the course
     * whose `_id` equals its `courseId`, or with `null` when there is none.
     */
    function ListForUser(email: Option<string>): (r: Outcome<seq<EnrolledCourse>>)
      reads this
      ensures r.Fail? <==> !Given(email)
      ensures r.Fail? ==> r.error == InvalidArgument
      ensures r.Ok? ==> |r.value| == |ForEmail(enrollments, email.value)|
      ensures r.Ok? ==> forall i :: 0 <= i < |r.value| ==>
        r.value[i].enrollment == ForEmail(enrollments, email.value)[i] &&
        r.value[i].enrollment.email == email.value &&
        r.value[i].course ==
          if r.value[i].enrollment.courseId in courses
          then Some(WithId(r.value[i].enrollment.courseId, courses[r.value[i].enrollment.courseId]))
          else None
    {
      if !Given(email) then Fail(InvalidArgument)
      else
        var mine := ForEmail(enrollments, email.value);
        Ok(seq(|mine|, i requires 0 <= i < |mine| reads this =>
          EnrolledCourse(mine[i],
            if mine[i].courseId in courses then Some(WithId(mine[i].courseId, courses[mine[i].courseId])) else None)))
    }

    /**
     * `DELETE /enrollments`: deletes the first record of the pair, then `$inc`s the
     * course's `enrollCount` by -1 if the course is still there.
     */
    method Unenroll(email: Option<string>, courseId: Option<string>) returns (r: Outcome<nat>)
      modifies this
      ensures r == Fail(InvalidArgument) <==> !EnrollmentArgs(email, courseId)
      ensures r == Fail(NotFound) <==>
        EnrollmentArgs(email, courseId) && FirstMatch(old(enrollments), email.value, CourseRef(courseId.value)).None?
      ensures r == Fail(Internal) <==>
        EnrollmentArgs(email, courseId) && FirstMatch(old(enrollments), email.value, CourseRef(courseId.value)).Some? &&
        CourseRef(courseId.value) in old(courses) &&
        IncBase(old(courses)[CourseRef(courseId.value)], "enrollCount").None?
      ensures r.Fail? ==> r.error in {InvalidArgument, NotFound, Internal} && courses == old(courses)
      ensures r.Fail? && r.error != Internal ==> enrollments == old(enrollments)
      ensures r.Ok? || r == Fail(Internal) ==>
        enrollments == RemoveAt(old(enrollments), FirstMatch(old(enrollments), email.value, CourseRef(courseId.value)).value)
      ensures r.Ok? ==> r.value == 1
      ensures r.Ok? && CourseRef(courseId.value) !in old(courses) ==> courses == old(courses)
      ensures r.Ok? && CourseRef(courseId.value) in old(courses) ==>
        courses == old(courses)[CourseRef(courseId.value) :=
          Increment(old(courses)[CourseRef(courseId.value)], "enrollCount", -1).value]
      ensures old(Valid()) && r.Ok? ==> FirstMatch(enrollments, email.value, CourseRef(courseId.value)).None?
      ensures old(Valid()) ==> Valid()
      ensures old(NoOrphans()) ==> NoOrphans()
      ensures old(CountsAgree()) ==> CountsAgree()
    {
      if !Given(email) || !Given(courseId) {
        return Fail(InvalidArgument);
      }
      if !isValid(courseId.value) {
        return Fail(InvalidArgument);
      }
      var ref := CourseRef(courseId.value);
      var found := FirstMatch(enrollments, email.value, ref);
      if found.None? {
        return Fail(NotFound);
      }
      RemoveAtKeepsInvariants(enrollments, found.value);
      if UniquePairs(enrollments) {
        RemoveOnlyMatch(enrollments, email.value, ref);
      }
      if CountsAgree() {
        UnenrollKeepsCounts(courses, enrollments, found.value);
      }
      enrollments := RemoveAt(enrollments, found.value);
      if ref in courses {
        var lowered := Increment(courses[ref], "enrollCount", -1);
        if lowered.None? {
          return Fail(Internal);
        }
        courses := courses[ref := lowered.value];
      }
      r := Ok(1);
    }
  }
}
