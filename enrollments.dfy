/**
 * The enrollment lifecycle of courses/views.py on the enrollment table as a
 * value: enrol (reactivate or create under the capacity limit), drop (soft
 * delete) and teacher score entry. The table methods of Database.Store are
 * proved to change the table exactly as these functions say.
 */
module Enrollments {
  import opened Wrappers
  import opened Models

  type Table = map<EnrollmentId, Enrollment>

  predicate IsRowOf(e: Enrollment, u: UserId, c: CourseId) {
    e.user == u && e.course == c
  }

  /** unique_together = ('user', 'course'). */
  ghost predicate UniquePairs(t: Table) {
    forall j, k :: j in t && k in t && IsRowOf(t[j], t[k].user, t[k].course) ==> j == k
  }

  predicate HasRow(t: Table, u: UserId, c: CourseId) {
    exists k :: k in t && IsRowOf(t[k], u, c)
  }

  /** `u` holds an active row for course `c`: the can_comment test of course_detail. */
  predicate ActiveIn(t: Table, u: UserId, c: CourseId) {
    exists k :: k in t && IsRowOf(t[k], u, c) && t[k].isActive
  }

  /** The row Enrollment.objects.filter(user=u, course=c).first() finds. */
  ghost function RowOf(t: Table, u: UserId, c: CourseId): (k: EnrollmentId)
    requires HasRow(t, u, c)
    ensures k in t && IsRowOf(t[k], u, c)
  {
    var k :| k in t && IsRowOf(t[k], u, c); k
  }

  /** With one row per pair, the row found is the only one. */
  lemma RowOfIsUnique(t: Table, u: UserId, c: CourseId, k: EnrollmentId)
    requires UniquePairs(t) && k in t && IsRowOf(t[k], u, c)
    ensures HasRow(t, u, c) && RowOf(t, u, c) == k
  {
  }

  /**
   * add_enrollment once the role and course checks have passed: an existing
   * row is reactivated if inactive (no capacity check) and left alone if
   * active; otherwise a new row is inserted only while the active count is
   * below max_students, and nothing happens when the course is full.
   */
  ghost function Enroll(t: Table, next: EnrollmentId, u: UserId, c: CourseId, maxStudents: int): (r: (Table, EnrollmentId))
    ensures t.Keys <= r.0.Keys
    ensures r.1 == next ==> r.0.Keys == t.Keys
    ensures r.1 != next ==> r.1 == next + 1 && r.0.Keys == t.Keys + {next} && r.0[next] == NewEnrollment(u, c)
    ensures KeysBelow(t, next) ==> forall k :: k in t ==>
              && r.0[k].user == t[k].user && r.0[k].course == t[k].course
              && r.0[k].midterm == t[k].midterm && r.0[k].final == t[k].final
    ensures KeysBelow(t, next) ==> forall k :: k in t && (!IsRowOf(t[k], u, c) || t[k].isActive) ==> r.0[k] == t[k]
  {
    if HasRow(t, u, c) then
      var k := RowOf(t, u, c);
      (if t[k].isActive then t else t[k := t[k].(isActive := true)], next)
    else if CurrentEnrollmentCount(t, c) < maxStudents then
      (t[next := NewEnrollment(u, c)], next + 1)
    else
      (t, next)
  }

  /** drop_course on row `k`: only is_active changes. */
  function Drop(t: Table, k: EnrollmentId): (r: Table)
    requires k in t
    ensures r.Keys == t.Keys
    ensures !r[k].isActive
    ensures r[k].user == t[k].user && r[k].course == t[k].course
    ensures r[k].midterm == t[k].midterm && r[k].final == t[k].final
    ensures forall j :: j in t && j != k ==> r[j] == t[j]
  {
    t[k := t[k].(isActive := false)]
  }

  /** A supplied (non-blank) value replaces the stored one; a blank leaves it. */
  function Overwrite(stored: Option<Hundredths>, given: Option<Hundredths>): Option<Hundredths> {
    if given.Some? then given else stored
  }

  /**
   * The score update of teacher_course_students on row `k`, as written: no
   * range check. Each supplied score replaces the stored one, each blank
   * leaves it, and nothing else changes.
   */
  function RecordScores(t: Table, k: EnrollmentId, midterm: Option<Hundredths>, final: Option<Hundredths>): (r: Table)
    requires k in t
    ensures r.Keys == t.Keys
    ensures forall j :: j in t && j != k ==> r[j] == t[j]
    ensures r[k].user == t[k].user && r[k].course == t[k].course && r[k].isActive == t[k].isActive
    ensures r[k].midterm == (if midterm.Some? then midterm else t[k].midterm)
    ensures r[k].final == (if final.Some? then final else t[k].final)
  {
    t[k := t[k].(midterm := Overwrite(t[k].midterm, midterm), final := Overwrite(t[k].final, final))]
  }

  ghost predicate AllScoresValid(t: Table) {
    forall k :: k in t ==> ScoresValid(t[k])
  }

  /**
   * The score update with the range the model's validators declare: a supplied
   * value outside [0, 100] rejects the update and nothing is stored.
   */
  function RecordScoresValidated(t: Table, k: EnrollmentId, midterm: Option<Hundredths>, final: Option<Hundredths>): (r: Option<Table>)
    requires k in t
    ensures r.Some? <==> InRange(midterm) && InRange(final)
    ensures r.Some? ==> r.value == RecordScores(t, k, midterm, final)
  {
    if InRange(midterm) && InRange(final) then Some(RecordScores(t, k, midterm, final)) else None
  }

  // ----- enrol -----

  /** Enrolling keeps one row per (user, course) pair and keeps every key below the counter. */
  lemma EnrollKeepsOneRowPerPair(t: Table, next: EnrollmentId, u: UserId, c: CourseId, maxStudents: int)
    requires UniquePairs(t) && KeysBelow(t, next)
    ensures UniquePairs(Enroll(t, next, u, c, maxStudents).0)
    ensures KeysBelow(Enroll(t, next, u, c, maxStudents).0, Enroll(t, next, u, c, maxStudents).1)
  {
    var (t', n') := Enroll(t, next, u, c, maxStudents);
    if !HasRow(t, u, c) && CurrentEnrollmentCount(t, c) < maxStudents {
      forall j, k | j in t' && k in t' && IsRowOf(t'[j], t'[k].user, t'[k].course)
        ensures j == k
      {
        if j == next && k != next {
          assert k in t && IsRowOf(t[k], u, c);
        }
      }
    }
  }

  /** An existing row is reactivated in place, scores kept, whatever the capacity; no row is added. */
  lemma EnrollReactivates(t: Table, next: EnrollmentId, u: UserId, c: CourseId, maxStudents: int)
    requires HasRow(t, u, c)
    ensures var k := RowOf(t, u, c);
            var r := Enroll(t, next, u, c, maxStudents);
            && r.1 == next
            && r.0.Keys == t.Keys
            && r.0[k] == t[k].(isActive := true)
            && (forall j :: j in t && j != k ==> r.0[j] == t[j])
  {
  }

  /** With no row and room left, exactly one new active row without scores is inserted under the next key. */
  lemma {:induction false} EnrollCreates(t: Table, next: EnrollmentId, u: UserId, c: CourseId, maxStudents: int)
    requires KeysBelow(t, next)
    requires !HasRow(t, u, c) && CurrentEnrollmentCount(t, c) < maxStudents
    ensures var r := Enroll(t, next, u, c, maxStudents);
            && next !in t
            && r == (t[next := Enrollment(u, c, None, None, true)], next + 1)
            && CurrentEnrollmentCount(r.0, c) == CurrentEnrollmentCount(t, c) + 1
            && CurrentEnrollmentCount(r.0, c) <= maxStudents
  {
    var t' := t[next := NewEnrollment(u, c)];
    assert ActiveKeys(t', c) == ActiveKeys(t, c) + {next};
  }

  /** With no row and the course full, nothing changes and no error is raised. */
  lemma EnrollWhenFull(t: Table, next: EnrollmentId, u: UserId, c: CourseId, maxStudents: int)
    requires !HasRow(t, u, c) && CurrentEnrollmentCount(t, c) >= maxStudents
    ensures Enroll(t, next, u, c, maxStudents) == (t, next)
  {
  }

  /** add_enrollment is idempotent: enrolling twice leaves the table as enrolling once. */
  lemma EnrollIdempotent(t: Table, next: EnrollmentId, u: UserId, c: CourseId, maxStudents: int)
    requires UniquePairs(t) && KeysBelow(t, next)
    ensures var r := Enroll(t, next, u, c, maxStudents);
            Enroll(r.0, r.1, u, c, maxStudents) == r
  {
    var (t1, n1) := Enroll(t, next, u, c, maxStudents);
    EnrollKeepsOneRowPerPair(t, next, u, c, maxStudents);
    if HasRow(t, u, c) {
      var k := RowOf(t, u, c);
      RowOfIsUnique(t1, u, c, k);
    } else if CurrentEnrollmentCount(t, c) < maxStudents {
      RowOfIsUnique(t1, u, c, next);
    }
  }

  /**
   * Enrol, drop, enrol: re-enrolling after a drop restores the same row, with
   * every recorded score, even when the course has since filled up.
   */
  lemma DropThenEnrollRestores(t: Table, next: EnrollmentId, k: EnrollmentId, maxStudents: int)
    requires UniquePairs(t) && k in t
    ensures var e := t[k];
            Enroll(Drop(t, k), next, e.user, e.course, maxStudents) == (t[k := e.(isActive := true)], next)
  {
    var t1 := Drop(t, k);
    RowOfIsUnique(t1, t[k].user, t[k].course, k);
    assert t1[k := t1[k].(isActive := true)] == t[k := t[k].(isActive := true)];
  }

  /** A concrete table where reactivation takes a course over its capacity of 1. */
  lemma ReactivationIgnoresCapacity()
    ensures var t := map[0 := Enrollment(1, 7, Some(8000), None, false), 1 := Enrollment(2, 7, None, None, true)];
            && CurrentEnrollmentCount(t, 7) == 1
            && CurrentEnrollmentCount(Enroll(t, 2, 1, 7, 1).0, 7) == 2
  {
    var t := map[0 := Enrollment(1, 7, Some(8000), None, false), 1 := Enrollment(2, 7, None, None, true)];
    assert ActiveKeys(t, 7) == {1};
    RowOfIsUnique(t, 1, 7, 0);
    var t' := Enroll(t, 2, 1, 7, 1).0;
    assert t' == t[0 := t[0].(isActive := true)];
    assert ActiveKeys(t', 7) == {0, 1};
  }

  /** After add_enrollment the student may comment exactly when a row existed or there was room. */
  lemma EnrollGrantsComment(t: Table, next: EnrollmentId, u: UserId, c: CourseId, maxStudents: int)
    requires UniquePairs(t) && KeysBelow(t, next)
    ensures ActiveIn(Enroll(t, next, u, c, maxStudents).0, u, c)
        <==> HasRow(t, u, c) || CurrentEnrollmentCount(t, c) < maxStudents
  {
    var (t', n') := Enroll(t, next, u, c, maxStudents);
    if HasRow(t, u, c) {
      var k := RowOf(t, u, c);
      assert IsRowOf(t'[k], u, c) && t'[k].isActive;
    } else if CurrentEnrollmentCount(t, c) < maxStudents {
      assert IsRowOf(t'[next], u, c) && t'[next].isActive;
    } else {
      assert t' == t;
    }
  }

  // ----- drop -----

  /** After dropping, the student may no longer comment on that course. */
  lemma DropRevokesComment(t: Table, k: EnrollmentId)
    requires UniquePairs(t) && k in t
    ensures !ActiveIn(Drop(t, k), t[k].user, t[k].course)
  {
    var t' := Drop(t, k);
    forall j | j in t' && IsRowOf(t'[j], t[k].user, t[k].course)
      ensures !t'[j].isActive
    {
      assert IsRowOf(t[j], t[k].user, t[k].course);
    }
  }

  /** Dropping an active row lowers its course's active count by one and no other course's. */
  lemma {:induction false} DropLowersCount(t: Table, k: EnrollmentId, c: CourseId)
    requires k in t && t[k].isActive
    ensures c == t[k].course ==> CurrentEnrollmentCount(Drop(t, k), c) == CurrentEnrollmentCount(t, c) - 1
    ensures c != t[k].course ==> CurrentEnrollmentCount(Drop(t, k), c) == CurrentEnrollmentCount(t, c)
  {
    if c == t[k].course {
      assert ActiveKeys(Drop(t, k), c) == ActiveKeys(t, c) - {k};
    } else {
      assert ActiveKeys(Drop(t, k), c) == ActiveKeys(t, c);
    }
  }

  /** Dropping keeps one row per pair: the pair of every row is unchanged. */
  lemma DropKeepsOneRowPerPair(t: Table, k: EnrollmentId)
    requires UniquePairs(t) && k in t
    ensures UniquePairs(Drop(t, k)) && Drop(t, k).Keys == t.Keys
  {
  }

  // ----- scores -----

  /** Score entry keeps every row's key, user and course, so it keeps one row per pair. */
  lemma RecordScoresKeepsPairs(t: Table, k: EnrollmentId, midterm: Option<Hundredths>, final: Option<Hundredths>)
    requires UniquePairs(t) && k in t
    ensures var r := RecordScores(t, k, midterm, final);
            && r.Keys == t.Keys
            && (forall j :: j in r ==> r[j].user == t[j].user && r[j].course == t[j].course)
            && UniquePairs(r)
  {
  }

  /**
   * As written, score entry stores a value outside the validators' range:
   * a midterm of 150.00 entered into a valid table makes it invalid.
   */
  lemma RecordScoresAcceptsOutOfRange()
    ensures var t := map[0 := Enrollment(1, 7, None, None, true)];
            AllScoresValid(t) && !AllScoresValid(RecordScores(t, 0, Some(15000), None))
  {
    var t := map[0 := Enrollment(1, 7, None, None, true)];
    assert !ScoresValid(RecordScores(t, 0, Some(15000), None)[0]);
  }

  /** The validated score entry keeps every stored score within [0, 100]. */
  lemma ValidatedScoresStayInRange(t: Table, k: EnrollmentId, midterm: Option<Hundredths>, final: Option<Hundredths>)
    requires k in t && AllScoresValid(t)
    ensures var r := RecordScoresValidated(t, k, midterm, final);
            r.Some? ==> AllScoresValid(r.value)
  {
  }
}
