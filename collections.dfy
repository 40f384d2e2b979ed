/**
 * The enrollments collection: its record, and the queries the handlers send to it
 * (`findOne`, `deleteOne`, `deleteMany`, `find` by email), as functions on the
 * records in the store's natural order.
 */
module Collections {
  import opened Wrappers
  import opened Bson

  /**
   * One enrollment document. `courseId` is kept as a stored value: the enroll
   * route writes an ObjectId there, and queries compare it by BSON equality.
   * `courseTitle` and `courseDescription` are snapshots taken when enrolling.
   */
  datatype Enrollment = Enrollment(
    id: ObjectId,
    email: string,
    courseId: Value,
    createdAt: Timestamp,
    courseTitle: Option<Value>,
    courseDescription: Option<Value>)

  /** The filter `{email, courseId: ref}`. */
  predicate IsFor(e: Enrollment, email: string, ref: Value)
  {
    e.email == email && e.courseId == ref
  }

  /** Every stored course reference is an ObjectId. */
  ghost predicate AllObjectIdRefs(es: seq<Enrollment>)
  {
    forall e :: e in es ==> e.courseId.VOid?
  }

  /** At most one enrollment per (email, courseId) pair. */
  ghost predicate UniquePairs(es: seq<Enrollment>)
  {
    forall i, j :: 0 <= i < |es| && 0 <= j < |es| && IsFor(es[i], es[j].email, es[j].courseId) ==> i == j
  }

  /** Some stored enrollment already has this `_id` (an insert would hit the unique `_id` index). */
  predicate IdTaken(es: seq<Enrollment>, id: ObjectId)
  {
    exists i :: 0 <= i < |es| && es[i].id == id
  }

  /** How many enrollments refer to the course `ref`. */
  function CountRefs(es: seq<Enrollment>, ref: Value): nat
  {
    if es == [] then 0
    else (if es[0].courseId == ref then 1 else 0) + CountRefs(es[1..], ref)
  }

  lemma {:induction false} CountRefsConcat(a: seq<Enrollment>, b: seq<Enrollment>, ref: Value)
    ensures CountRefs(a + b, ref) == CountRefs(a, ref) + CountRefs(b, ref)
  {
    if a == [] {
      assert a + b == b;
    } else {
      assert (a + b)[0] == a[0];
      assert (a + b)[1..] == a[1..] + b;
      CountRefsConcat(a[1..], b, ref);
    }
  }

  /** Inserting one enrollment raises the count of its own course by one and no other. */
  lemma CountRefsAppend(es: seq<Enrollment>, e: Enrollment, ref: Value)
    ensures CountRefs(es + [e], ref) == CountRefs(es, ref) + (if e.courseId == ref then 1 else 0)
  {
    CountRefsConcat(es, [e], ref);
    assert [e][1..] == [];
  }

  /** A course reference that is not an ObjectId is counted by no enrollment of an all-ObjectId collection. */
  lemma {:induction false} CountRefsOfNonObjectId(es: seq<Enrollment>, ref: Value)
    requires AllObjectIdRefs(es)
    requires !ref.VOid?
    ensures CountRefs(es, ref) == 0
  {
    if es != [] {
      assert es[0] in es;
      assert forall e :: e in es[1..] ==> e in es;
      CountRefsOfNonObjectId(es[1..], ref);
    }
  }

  /** `findOne({email, courseId: ref})`: the position of the first matching record, if any. */
  function FirstMatch(es: seq<Enrollment>, email: string, ref: Value): (r: Option<nat>)
    ensures r.Some? ==> r.value < |es| && IsFor(es[r.value], email, ref)
    ensures r.Some? ==> forall j :: 0 <= j < r.value ==> !IsFor(es[j], email, ref)
    ensures r.None? <==> forall j :: 0 <= j < |es| ==> !IsFor(es[j], email, ref)
  {
    if es == [] then None
    else if IsFor(es[0], email, ref) then Some(0)
    else
      match FirstMatch(es[1..], email, ref)
      case None => None
      case Some(i) => Some(i + 1)
  }

  /** The collection after one record is deleted. */
  function RemoveAt(es: seq<Enrollment>, i: nat): (r: seq<Enrollment>)
    requires i < |es|
    ensures |r| == |es| - 1
    ensures forall j :: 0 <= j < |r| ==> r[j] == if j < i then es[j] else es[j + 1]
  {
    es[..i] + es[i + 1..]
  }

  /** Deleting one record lowers the count of its own course by one and no other. */
  lemma CountRefsRemoveAt(es: seq<Enrollment>, i: nat, ref: Value)
    requires i < |es|
    ensures CountRefs(RemoveAt(es, i), ref) + (if es[i].courseId == ref then 1 else 0) == CountRefs(es, ref)
  {
    assert es == es[..i] + [es[i]] + es[i + 1..];
    CountRefsConcat(es[..i] + [es[i]], es[i + 1..], ref);
    CountRefsConcat(es[..i], [es[i]], ref);
    CountRefsConcat(es[..i], es[i + 1..], ref);
    assert [es[i]][1..] == [];
  }

  /** Deleting a record keeps the collection's invariants. */
  lemma RemoveAtKeepsInvariants(es: seq<Enrollment>, i: nat)
    requires i < |es|
    ensures forall e :: e in RemoveAt(es, i) ==> e in es
    ensures AllObjectIdRefs(es) ==> AllObjectIdRefs(RemoveAt(es, i))
    ensures UniquePairs(es) ==> UniquePairs(RemoveAt(es, i))
  {
    var r := RemoveAt(es, i);
    forall e | e in r ensures e in es {
      var j :| 0 <= j < |r| && r[j] == e;
      assert e == es[if j < i then j else j + 1];
    }
    if UniquePairs(es) {
      forall j, k | 0 <= j < |r| && 0 <= k < |r| && IsFor(r[j], r[k].email, r[k].courseId)
        ensures j == k
      {
        var j', k' := if j < i then j else j + 1, if k < i then k else k + 1;
        assert r[j] == es[j'] && r[k] == es[k'];
      }
    }
  }

  /** Under unique pairs, deleting the one match leaves the pair with no enrollment. */
  lemma RemoveOnlyMatch(es: seq<Enrollment>, email: string, ref: Value)
    requires UniquePairs(es)
    requires FirstMatch(es, email, ref).Some?
    ensures FirstMatch(RemoveAt(es, FirstMatch(es, email, ref).value), email, ref).None?
  {
    var i := FirstMatch(es, email, ref).value;
    var r := RemoveAt(es, i);
    forall j | 0 <= j < |r| ensures !IsFor(r[j], email, ref) {
      var j' := if j < i then j else j + 1;
      assert r[j] == es[j'];
    }
  }

  /** Inserting a record for a pair that has none keeps the collection's invariants. */
  lemma AppendKeepsInvariants(es: seq<Enrollment>, e: Enrollment)
    requires FirstMatch(es, e.email, e.courseId).None?
    ensures AllObjectIdRefs(es) && e.courseId.VOid? ==> AllObjectIdRefs(es + [e])
    ensures UniquePairs(es) ==> UniquePairs(es + [e])
  {
    var r := es + [e];
    if UniquePairs(es) {
      forall j, k | 0 <= j < |r| && 0 <= k < |r| && IsFor(r[j], r[k].email, r[k].courseId)
        ensures j == k
      {
        if j < |es| && k < |es| {
          assert r[j] == es[j] && r[k] == es[k];
        }
      }
    }
  }

  /** `deleteMany({courseId: ref})`: keeps, in order, the records not referring to `ref`. */
  function RemoveReferencing(es: seq<Enrollment>, ref: Value): (r: seq<Enrollment>)
    ensures forall e :: e in r <==> e in es && e.courseId != ref
    ensures CountRefs(r, ref) == 0
    ensures forall other :: other != ref ==> CountRefs(r, other) == CountRefs(es, other)
    ensures CountRefs(es, ref) == 0 ==> r == es
  {
    if es == [] then []
    else if es[0].courseId == ref then RemoveReferencing(es[1..], ref)
    else [es[0]] + RemoveReferencing(es[1..], ref)
  }

  /** A collection led by `x` has unique pairs when its tail has and none of its tail shares `x`'s pair. */
  lemma UniqueCons(x: Enrollment, s: seq<Enrollment>)
    ensures UniquePairs([x] + s) <==> UniquePairs(s) && forall e :: e in s ==> !IsFor(e, x.email, x.courseId)
  {
    var r := [x] + s;
    if UniquePairs(r) {
      forall i, j | 0 <= i < |s| && 0 <= j < |s| && IsFor(s[i], s[j].email, s[j].courseId) ensures i == j {
        assert r[i + 1] == s[i] && r[j + 1] == s[j];
      }
      forall e | e in s ensures !IsFor(e, x.email, x.courseId) {
        var i :| 0 <= i < |s| && s[i] == e;
        assert r[i + 1] == e && r[0] == x;
      }
    }
    if UniquePairs(s) && forall e :: e in s ==> !IsFor(e, x.email, x.courseId) {
      forall i, j | 0 <= i < |r| && 0 <= j < |r| && IsFor(r[i], r[j].email, r[j].courseId) ensures i == j {
        assert 0 < i ==> r[i] == s[i - 1] && r[i] in s;
        assert 0 < j ==> r[j] == s[j - 1] && r[j] in s;
      }
    }
  }

  /** `deleteMany` keeps the collection's invariants. */
  lemma {:induction false} RemoveReferencingKeepsInvariants(es: seq<Enrollment>, ref: Value)
    ensures AllObjectIdRefs(es) ==> AllObjectIdRefs(RemoveReferencing(es, ref))
    ensures UniquePairs(es) ==> UniquePairs(RemoveReferencing(es, ref))
  {
    if es != [] {
      assert es == [es[0]] + es[1..];
      UniqueCons(es[0], es[1..]);
      RemoveReferencingKeepsInvariants(es[1..], ref);
      if es[0].courseId != ref {
        UniqueCons(es[0], RemoveReferencing(es[1..], ref));
      }
    }
  }

  /**
   * `deleteMany` works record by record: filtering a concatenation is concatenating
   * the filtered parts, so the kept records stay in the store's order.
   */
  lemma {:induction false} RemoveReferencingConcat(a: seq<Enrollment>, b: seq<Enrollment>, ref: Value)
    ensures RemoveReferencing(a + b, ref) == RemoveReferencing(a, ref) + RemoveReferencing(b, ref)
  {
    if a == [] {
      assert a + b == b;
    } else {
      assert (a + b)[0] == a[0];
      assert (a + b)[1..] == a[1..] + b;
      RemoveReferencingConcat(a[1..], b, ref);
    }
  }

  /**
   * A `deleteMany` whose filter holds a non-ObjectId reference removes nothing from a
   * collection in which every reference is an ObjectId.
   */
  lemma NonObjectIdFilterRemovesNothing(es: seq<Enrollment>, ref: Value)
    requires AllObjectIdRefs(es)
    requires !ref.VOid?
    ensures RemoveReferencing(es, ref) == es
  {
    CountRefsOfNonObjectId(es, ref);
  }

  /** `find({email})`: the user's enrollments, in the store's order. */
  function ForEmail(es: seq<Enrollment>, email: string): (r: seq<Enrollment>)
    ensures |r| <= |es|
    ensures forall e :: multiset(r)[e] == if e.email == email then multiset(es)[e] else 0
    ensures forall e :: e in r <==> e in es && e.email == email
  {
    if es == [] then []
    else
      assert es == [es[0]] + es[1..];
      if es[0].email == email then [es[0]] + ForEmail(es[1..], email)
      else ForEmail(es[1..], email)
  }

  /**
   * `find({email})` works record by record: the result for a concatenation is the
   * concatenation of the results, so the user's records keep the store's order.
   */
  lemma {:induction false} ForEmailConcat(a: seq<Enrollment>, b: seq<Enrollment>, email: string)
    ensures ForEmail(a + b, email) == ForEmail(a, email) + ForEmail(b, email)
  {
    if a == [] {
      assert a + b == b;
    } else {
      assert (a + b)[0] == a[0];
      assert (a + b)[1..] == a[1..] + b;
      ForEmailConcat(a[1..], b, email);
    }
  }

  /** One record is found exactly when it is the user's. */
  lemma ForEmailSingleton(e: Enrollment, email: string)
    ensures ForEmail([e], email) == if e.email == email then [e] else []
  {
    assert [e][1..] == [];
  }
}
