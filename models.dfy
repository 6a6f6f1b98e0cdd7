/**
 * The entities of courses/models.py. Each Django model becomes a datatype of
 * its stored fields; a table becomes a map from primary key to row. Timestamps,
 * avatars, biographies and other purely descriptive columns are not modelled.
 */
module Models {
  import opened Wrappers

  type UserId = nat
  type TeacherKey = nat
  type CourseId = nat
  type EnrollmentId = nat
  type CommentId = nat

  /** A score as a DecimalField with two decimal places stores it: a whole number of hundredths (8550 is 85.50). */
  type Hundredths = int

  /** The keys of UserProfile.ROLE_CHOICES. The column itself is free text. */
  const StudentRole: string := "student"
  const TeacherRole: string := "teacher"
  const AdminRole: string := "admin"

  /** MinValueValidator(0) and MaxValueValidator(100) on both score fields, in hundredths. */
  const MinScore: Hundredths := 0
  const MaxScore: Hundredths := 10000

  /** What Course.instructor_name shows for a course without a teacher. */
  const Unassigned: string := "未設定"

  /** An auth user; `fullName` is what get_full_name() returns, taken as given. */
  datatype User = User(username: string, fullName: string, isStaff: bool)

  /** UserProfile, one per user (OneToOneField), so its table is keyed by the user. */
  datatype Profile = Profile(role: string, studentId: Option<string>, teacherId: Option<string>)

  datatype Teacher = Teacher(user: UserId, teacherId: string, department: string)

  datatype Course = Course(code: string, name: string, teacher: Option<TeacherKey>, maxStudents: int)

  datatype Enrollment = Enrollment(
    user: UserId,
    course: CourseId,
    midterm: Option<Hundredths>,
    final: Option<Hundredths>,
    isActive: bool)

  datatype Comment = Comment(course: CourseId, user: UserId, content: string)

  /** Every primary key of the table is below the next one the database hands out. */
  ghost predicate KeysBelow<V>(m: map<nat, V>, n: nat) {
    forall k :: k in m ==> k < n
  }

  /** Deleting rows keeps the keys below the counter. */
  lemma SubTableKeysBelow<V>(m: map<nat, V>, m': map<nat, V>, n: nat)
    requires KeysBelow(m, n) && m'.Keys <= m.Keys
    ensures KeysBelow(m', n)
  {
  }

  /** A UserProfile as get_or_create(user=...) makes it: the role column left at the empty string. */
  const DefaultProfile: Profile := Profile("", None, None)

  predicate UsernameTaken(users: map<UserId, User>, name: string) {
    exists k :: k in users && users[k].username == name
  }

  predicate TeacherIdTaken(teachers: map<TeacherKey, Teacher>, id: string) {
    exists k :: k in teachers && teachers[k].teacherId == id
  }

  /** Some Teacher row references user `u`: Teacher.objects.get(user=u) finds one. */
  predicate HasTeacherFor(teachers: map<TeacherKey, Teacher>, u: UserId) {
    exists k :: k in teachers && teachers[k].user == u
  }

  /** The keys of the Teacher rows that reference user `u`. */
  function TeacherRowsOf(teachers: map<TeacherKey, Teacher>, u: UserId): set<TeacherKey> {
    set k | k in teachers && teachers[k].user == u
  }

  /** auth User.username is unique. */
  ghost predicate UniqueUsernames(users: map<UserId, User>) {
    forall a, b :: a in users && b in users && users[a].username == users[b].username ==> a == b
  }

  /** Teacher.user is a OneToOneField: one Teacher row per user. */
  ghost predicate UniqueTeacherUsers(teachers: map<TeacherKey, Teacher>) {
    forall a, b :: a in teachers && b in teachers && teachers[a].user == teachers[b].user ==> a == b
  }

  /** Teacher.teacher_id is unique=True. */
  ghost predicate UniqueTeacherIds(teachers: map<TeacherKey, Teacher>) {
    forall a, b :: a in teachers && b in teachers && teachers[a].teacherId == teachers[b].teacherId ==> a == b
  }

  /** Course.course_code is unique=True. */
  ghost predicate UniqueCourseCodes(courses: map<CourseId, Course>) {
    forall a, b :: a in courses && b in courses && courses[a].code == courses[b].code ==> a == b
  }

  /** UserProfile.student_id and UserProfile.teacher_id are unique=True; NULL values may repeat. */
  ghost predicate UniqueProfileIds(profiles: map<UserId, Profile>) {
    && (forall a, b ::
          (a in profiles && b in profiles && profiles[a].studentId.Some? && profiles[a].studentId == profiles[b].studentId)
          ==> a == b)
    && (forall a, b ::
          (a in profiles && b in profiles && profiles[a].teacherId.Some? && profiles[a].teacherId == profiles[b].teacherId)
          ==> a == b)
  }

  /** Writing a profile that has no ids, or keeps the ids it had, keeps the profile ids unique. */
  lemma SetProfileKeepsIds(profiles: map<UserId, Profile>, u: UserId, p: Profile)
    requires UniqueProfileIds(profiles)
    requires (p.studentId.None? && p.teacherId.None?)
             || (u in profiles && p.studentId == profiles[u].studentId && p.teacherId == profiles[u].teacherId)
    ensures UniqueProfileIds(profiles[u := p])
  {
  }

  /** Deleting a profile keeps the profile ids unique. */
  lemma RemoveProfileKeepsIds(profiles: map<UserId, Profile>, u: UserId)
    requires UniqueProfileIds(profiles)
    ensures UniqueProfileIds(profiles - {u})
  {
  }

  /** Deleting a course keeps course codes unique. */
  lemma RemoveCourseKeepsCodes(courses: map<CourseId, Course>, c: CourseId)
    requires UniqueCourseCodes(courses)
    ensures UniqueCourseCodes(courses - {c})
  {
  }

  /** Detaching a teacher from the courses keeps course codes unique. */
  lemma DetachKeepsCodes(courses: map<CourseId, Course>, tk: TeacherKey)
    requires UniqueCourseCodes(courses)
    ensures UniqueCourseCodes(DetachTeacher(courses, tk))
  {
    var d := DetachTeacher(courses, tk);
    forall a, b | a in d && b in d && d[a].code == d[b].code ensures a == b {
      assert d[a].code == courses[a].code && d[b].code == courses[b].code;
    }
  }

  /** With one Teacher row per user, deleting a teacher's user removes exactly that row. */
  lemma TeacherCascadeRemovesOneRow(teachers: map<TeacherKey, Teacher>, tk: TeacherKey)
    requires UniqueTeacherUsers(teachers) && tk in teachers
    ensures TeachersWithoutUser(teachers, teachers[tk].user) == teachers - {tk}
  {
    var r := TeachersWithoutUser(teachers, teachers[tk].user);
    assert r.Keys == teachers.Keys - {tk};
  }

  /** A score is null or passes both validators. */
  predicate InRange(s: Option<Hundredths>) {
    s.Some? ==> MinScore <= s.value <= MaxScore
  }

  predicate ScoresValid(e: Enrollment) {
    InRange(e.midterm) && InRange(e.final)
  }

  /** A row as Enrollment.objects.create(user=u, course=c) makes it: every other field at its default. */
  function NewEnrollment(u: UserId, c: CourseId): Enrollment {
    Enrollment(u, c, None, None, true)
  }

  function Min(a: int, b: int): int { if a <= b then a else b }
  function Max(a: int, b: int): int { if a <= b then b else a }

  /**
   * Enrollment.get_total_score: the plain mean of the two scores, or None
   * when either is missing. The mean is exact (in hundredths, possibly a half).
   */
  function TotalScore(e: Enrollment): (r: Option<real>)
    ensures r.Some? <==> e.midterm.Some? && e.final.Some?
    ensures r.Some? ==> 2.0 * r.value == (e.midterm.value + e.final.value) as real
  {
    if e.midterm.None? || e.final.None? then None
    else Some((e.midterm.value + e.final.value) as real / 2.0)
  }

  /** With both scores validated, the total is a valid score lying between the two components. */
  lemma TotalScoreBounds(e: Enrollment)
    requires ScoresValid(e) && TotalScore(e).Some?
    ensures MinScore as real <= TotalScore(e).value <= MaxScore as real
    ensures Min(e.midterm.value, e.final.value) as real <= TotalScore(e).value
    ensures TotalScore(e).value <= Max(e.midterm.value, e.final.value) as real
  {
  }

  /** The keys of the active rows of course `c`: the query enrollment_set.filter(is_active=True). */
  function ActiveKeys(t: map<EnrollmentId, Enrollment>, c: CourseId): set<EnrollmentId> {
    set k | k in t && t[k].course == c && t[k].isActive
  }

  /** Course.get_current_enrollment_count: never more than the rows in the table, and 0 exactly when no row of the course is active. */
  function CurrentEnrollmentCount(t: map<EnrollmentId, Enrollment>, c: CourseId): (r: nat)
    ensures r <= |t|
    ensures r == 0 <==> forall k :: k in t && t[k].course == c ==> !t[k].isActive
  {
    var active := ActiveKeys(t, c);
    SubsetSize(active, t.Keys);
    NoActiveKeys(t, c);
    |active|
  }

  /** The count is zero exactly when no row of the course is active. */
  lemma NoActiveKeys(t: map<EnrollmentId, Enrollment>, c: CourseId)
    ensures |ActiveKeys(t, c)| == 0 <==> forall k :: k in t && t[k].course == c ==> !t[k].isActive
  {
    if |ActiveKeys(t, c)| != 0 {
      var k :| k in ActiveKeys(t, c);
    } else {
      forall k | k in t && t[k].course == c ensures !t[k].isActive {
        assert k !in ActiveKeys(t, c);
      }
    }
  }

  /** A subset is no larger than its superset. */
  lemma {:induction false} SubsetSize<T>(a: set<T>, b: set<T>)
    requires a <= b
    ensures |a| <= |b|
    decreases |b|
  {
    if b != {} {
      var x :| x in b;
      SubsetSize(a - {x}, b - {x});
    }
  }

  /** The course's teacher and that teacher's user exist, as the foreign keys guarantee. */
  ghost predicate TeacherResolves(c: Course, teachers: map<TeacherKey, Teacher>, users: map<UserId, User>) {
    c.teacher.Some? ==> c.teacher.value in teachers && teachers[c.teacher.value].user in users
  }

  /** Course.instructor_name: the teacher's full name, or the "not set" label when the course has none. */
  function InstructorName(c: Course, teachers: map<TeacherKey, Teacher>, users: map<UserId, User>): (r: string)
    requires TeacherResolves(c, teachers, users)
    ensures c.teacher.None? ==> r == Unassigned
    ensures c.teacher.Some? ==> r == users[teachers[c.teacher.value].user].fullName
  {
    if c.teacher.None? then Unassigned else users[teachers[c.teacher.value].user].fullName
  }

  /** The keys below `n` whose row is `e`. */
  function KeysHolding(t: map<EnrollmentId, Enrollment>, n: nat, e: Enrollment): set<EnrollmentId> {
    set k | k in t && k < n && t[k] == e
  }

  /**
   * The rows with primary key below `n`, in key order: the table as a query
   * lists it, each row once.
   */
  function Rows(t: map<EnrollmentId, Enrollment>, n: nat): (rows: seq<Enrollment>)
    ensures |rows| <= n
    ensures forall e :: e in rows ==> exists k :: k in t && k < n && t[k] == e
    ensures forall k :: k in t && k < n ==> t[k] in rows
    ensures forall e :: multiset(rows)[e] == |KeysHolding(t, n, e)|
  {
    if n == 0 then []
    else
      KeysHoldingStep(t, n);
      Rows(t, n - 1) + (if n - 1 in t then [t[n - 1]] else [])
  }

  /** Raising the bound by one adds key n - 1 to the keys holding its own row, and to no others. */
  lemma KeysHoldingStep(t: map<EnrollmentId, Enrollment>, n: nat)
    requires n > 0
    ensures forall e :: |KeysHolding(t, n, e)|
                        == |KeysHolding(t, n - 1, e)| + (if n - 1 in t && t[n - 1] == e then 1 else 0)
  {
    forall e ensures |KeysHolding(t, n, e)|
                     == |KeysHolding(t, n - 1, e)| + (if n - 1 in t && t[n - 1] == e then 1 else 0)
    {
      if n - 1 in t && t[n - 1] == e {
        assert KeysHolding(t, n, e) == KeysHolding(t, n - 1, e) + {n - 1};
      } else {
        assert KeysHolding(t, n, e) == KeysHolding(t, n - 1, e);
      }
    }
  }

  /**
   * Deleting a teacher detaches their courses (teacher becomes null,
   * on_delete=SET_NULL); nothing else about any course changes.
   */
  function DetachTeacher(courses: map<CourseId, Course>, tk: TeacherKey): (r: map<CourseId, Course>)
    ensures r.Keys == courses.Keys
    ensures forall c :: c in r ==> r[c].teacher != Some(tk)
    ensures forall c :: c in r ==> r[c] == courses[c] || (courses[c].teacher == Some(tk) && r[c] == courses[c].(teacher := None))
  {
    map c | c in courses :: if courses[c].teacher == Some(tk) then courses[c].(teacher := None) else courses[c]
  }

  /** A detached course shows the "not set" label as its instructor. */
  lemma DetachedCourseIsUnassigned(courses: map<CourseId, Course>, tk: TeacherKey, c: CourseId,
                                   teachers: map<TeacherKey, Teacher>, users: map<UserId, User>)
    requires c in courses && courses[c].teacher == Some(tk)
    ensures TeacherResolves(DetachTeacher(courses, tk)[c], teachers, users)
    ensures InstructorName(DetachTeacher(courses, tk)[c], teachers, users) == Unassigned
  {
  }

  /** The enrollments that survive deleting user `u` (on_delete=CASCADE on Enrollment.user). */
  function EnrollmentsWithoutUser(t: map<EnrollmentId, Enrollment>, u: UserId): (r: map<EnrollmentId, Enrollment>)
    ensures r.Keys <= t.Keys
    ensures forall k :: k in r <==> k in t && t[k].user != u
    ensures forall k :: k in r ==> r[k] == t[k]
  {
    map k | k in t && t[k].user != u :: t[k]
  }

  /** The enrollments that survive deleting course `c` (on_delete=CASCADE on Enrollment.course). */
  function EnrollmentsWithoutCourse(t: map<EnrollmentId, Enrollment>, c: CourseId): (r: map<EnrollmentId, Enrollment>)
    ensures r.Keys <= t.Keys
    ensures forall k :: k in r <==> k in t && t[k].course != c
    ensures forall k :: k in r ==> r[k] == t[k]
  {
    map k | k in t && t[k].course != c :: t[k]
  }

  /** The comments that survive deleting user `u` (on_delete=CASCADE on CourseComment.user). */
  function CommentsWithoutUser(t: map<CommentId, Comment>, u: UserId): (r: map<CommentId, Comment>)
    ensures r.Keys <= t.Keys
    ensures forall k :: k in r <==> k in t && t[k].user != u
    ensures forall k :: k in r ==> r[k] == t[k]
  {
    map k | k in t && t[k].user != u :: t[k]
  }

  /** The comments that survive deleting course `c` (on_delete=CASCADE on CourseComment.course). */
  function CommentsWithoutCourse(t: map<CommentId, Comment>, c: CourseId): (r: map<CommentId, Comment>)
    ensures r.Keys <= t.Keys
    ensures forall k :: k in r <==> k in t && t[k].course != c
    ensures forall k :: k in r ==> r[k] == t[k]
  {
    map k | k in t && t[k].course != c :: t[k]
  }

  /** The teacher rows that survive deleting user `u` (on_delete=CASCADE on Teacher.user). */
  function TeachersWithoutUser(t: map<TeacherKey, Teacher>, u: UserId): (r: map<TeacherKey, Teacher>)
    ensures r.Keys <= t.Keys
    ensures forall k :: k in r <==> k in t && t[k].user != u
    ensures forall k :: k in r ==> r[k] == t[k]
  {
    map k | k in t && t[k].user != u :: t[k]
  }
}
