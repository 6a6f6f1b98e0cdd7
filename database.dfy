/**
 * The database the views of courses/views.py read and write, as one object
 * whose tables are maps from primary key to row. Each view that changes data
 * is a method; its contract gives the response and the whole new state.
 * `@login_required` is modelled by a requester that is an existing user.
 */
module Database {
  import opened Wrappers
  import opened Models
  import opened Access
  import opened Enrollments
  import Averages

  /** The fields UserRegistrationForm saves that the model keeps. */
  datatype NewAccount = NewAccount(username: string, fullName: string)

  /** The fields of TeacherForm the model keeps. */
  datatype TeacherData = TeacherData(teacherId: string, department: string)

  /** The fields of TeacherCourseForm the model keeps. */
  datatype CourseData = CourseData(code: string, name: string, maxStudents: int)

  /** A comment submission of course_detail: a comment id to edit, or none to post a new one. */
  datatype CommentPost = CommentPost(commentId: Option<CommentId>, content: string)

  predicate CourseCodeTaken(courses: map<CourseId, Course>, code: string) {
    exists k :: k in courses && courses[k].code == code
  }

  /** Uniqueness constraints and foreign keys of the account tables. */
  ghost predicate AccountsIntegrity(users: map<UserId, User>, profiles: map<UserId, Profile>,
                                    teachers: map<TeacherKey, Teacher>)
  {
    && UniqueUsernames(users)
    && profiles.Keys <= users.Keys
    && UniqueProfileIds(profiles)
    && (forall k :: k in teachers ==> teachers[k].user in users)
    && UniqueTeacherUsers(teachers)
    && UniqueTeacherIds(teachers)
  }

  /** Course codes are unique and every course's teacher exists. */
  ghost predicate CoursesIntegrity(users: map<UserId, User>, teachers: map<TeacherKey, Teacher>,
                                   courses: map<CourseId, Course>)
  {
    && UniqueCourseCodes(courses)
    && (forall c :: c in courses ==> TeacherResolves(courses[c], teachers, users))
  }

  /** Every enrollment refers to an existing user and course, one row per pair. */
  ghost predicate EnrollmentsIntegrity(users: map<UserId, User>, courses: map<CourseId, Course>, enrollments: Table)
  {
    && (forall k :: k in enrollments ==> enrollments[k].user in users && enrollments[k].course in courses)
    && UniquePairs(enrollments)
  }

  /** Every comment refers to an existing user and course. */
  ghost predicate CommentsIntegrity(users: map<UserId, User>, courses: map<CourseId, Course>,
                                    comments: map<CommentId, Comment>)
  {
    forall k :: k in comments ==> comments[k].user in users && comments[k].course in courses
  }

  /** Uniqueness constraints and foreign keys over the six tables. */
  ghost predicate Integrity(users: map<UserId, User>, profiles: map<UserId, Profile>,
                            teachers: map<TeacherKey, Teacher>, courses: map<CourseId, Course>,
                            enrollments: Table, comments: map<CommentId, Comment>)
  {
    && AccountsIntegrity(users, profiles, teachers)
    && CoursesIntegrity(users, teachers, courses)
    && EnrollmentsIntegrity(users, courses, enrollments)
    && CommentsIntegrity(users, courses, comments)
  }

  /** Enrolling an existing user in an existing course keeps every constraint. */
  lemma EnrollKeepsIntegrity(users: map<UserId, User>, profiles: map<UserId, Profile>,
                             teachers: map<TeacherKey, Teacher>, courses: map<CourseId, Course>,
                             enrollments: Table, comments: map<CommentId, Comment>,
                             next: EnrollmentId, u: UserId, c: CourseId, maxStudents: int)
    requires Integrity(users, profiles, teachers, courses, enrollments, comments) && KeysBelow(enrollments, next)
    requires u in users && c in courses
    ensures var r := Enroll(enrollments, next, u, c, maxStudents);
            Integrity(users, profiles, teachers, courses, r.0, comments) && KeysBelow(r.0, r.1)
  {
    EnrollKeepsOneRowPerPair(enrollments, next, u, c, maxStudents);
  }

  /** Provisioning a new user with a teacher profile and one Teacher row keeps every constraint. */
  lemma AddTeacherKeepsIntegrity(users: map<UserId, User>, profiles: map<UserId, Profile>,
                                 teachers: map<TeacherKey, Teacher>, courses: map<CourseId, Course>,
                                 enrollments: Table, comments: map<CommentId, Comment>,
                                 u: UserId, tk: TeacherKey, user: User, data: TeacherData)
    requires Integrity(users, profiles, teachers, courses, enrollments, comments)
    requires u !in users && tk !in teachers
    requires !UsernameTaken(users, user.username) && !TeacherIdTaken(teachers, data.teacherId)
    ensures Integrity(users[u := user], profiles[u := Profile(TeacherRole, None, None)],
                      teachers[tk := Teacher(u, data.teacherId, data.department)], courses, enrollments, comments)
  {
    var users', teachers' := users[u := user], teachers[tk := Teacher(u, data.teacherId, data.department)];
    SetProfileKeepsIds(profiles, u, Profile(TeacherRole, None, None));
    forall c | c in courses ensures TeacherResolves(courses[c], teachers', users') {
      assert TeacherResolves(courses[c], teachers, users);
    }
    forall a, b | a in teachers' && b in teachers' && teachers'[a].user == teachers'[b].user ensures a == b {
      if a != tk && b != tk {
        assert teachers[a].user == teachers[b].user;
      }
    }
  }

  class Store {
    var users: map<UserId, User>
    var profiles: map<UserId, Profile>
    var teachers: map<TeacherKey, Teacher>
    var courses: map<CourseId, Course>
    var enrollments: Table
    var comments: map<CommentId, Comment>
    // the next primary key each table's autoincrement hands out
    var nextUser: UserId
    var nextTeacher: TeacherKey
    var nextCourse: CourseId
    var nextEnrollment: EnrollmentId
    var nextComment: CommentId

    /** The constraints the schema enforces: keys below the counters, uniqueness and foreign keys. */
    ghost predicate Valid()
      reads this
    {
      && KeysBelow(users, nextUser)
      && KeysBelow(teachers, nextTeacher)
      && KeysBelow(courses, nextCourse)
      && KeysBelow(enrollments, nextEnrollment)
      && KeysBelow(comments, nextComment)
      && Integrity(users, profiles, teachers, courses, enrollments, comments)
    }

    twostate predicate SameAccounts()
      reads this
    {
      users == old(users) && profiles == old(profiles) && teachers == old(teachers)
      && nextUser == old(nextUser) && nextTeacher == old(nextTeacher)
    }

    twostate predicate SameCourses()
      reads this
    {
      courses == old(courses) && nextCourse == old(nextCourse)
    }

    twostate predicate SameEnrollments()
      reads this
    {
      enrollments == old(enrollments) && nextEnrollment == old(nextEnrollment)
    }

    twostate predicate SameComments()
      reads this
    {
      comments == old(comments) && nextComment == old(nextComment)
    }

    twostate predicate Unchanged()
      reads this
    {
      SameAccounts() && SameCourses() && SameEnrollments() && SameComments()
    }

    constructor ()
      ensures Valid()
      ensures users == map[] && profiles == map[] && teachers == map[]
      ensures courses == map[] && enrollments == map[] && comments == map[]
    {
      users, profiles, teachers := map[], map[], map[];
      courses, enrollments, comments := map[], map[], map[];
      nextUser, nextTeacher, nextCourse, nextEnrollment, nextComment := 0, 0, 0, 0, 0;
    }

    /**
     * register. A signed-in user is routed by role; a valid form (the
     * username not yet taken) creates the user and exactly one profile, with
     * role student, signs the user in and sends them to complete_profile.
     */
    method Register(session: Option<UserId>, form: Option<NewAccount>) returns (resp: Response, signedIn: Option<UserId>)
      requires Valid()
      modifies this
      ensures Valid()
      ensures session.Some? ==>
                resp == Redirect(LandingRoute(Get(old(profiles), session.value))) && signedIn == session && Unchanged()
      ensures session.None? && (form.None? || UsernameTaken(old(users), form.value.username)) ==>
                resp == Render(RegisterPage) && signedIn.None? && Unchanged()
      ensures session.None? && form.Some? && !UsernameTaken(old(users), form.value.username) ==>
                var u := old(nextUser);
                && u !in old(users) && u !in old(profiles)
                && signedIn == Some(u) && resp == Redirect(CompleteProfile)
                && users == old(users)[u := User(form.value.username, form.value.fullName, false)]
                && profiles == old(profiles)[u := Profile(StudentRole, None, None)]
                && nextUser == u + 1
                && teachers == old(teachers) && nextTeacher == old(nextTeacher)
                && SameCourses() && SameEnrollments() && SameComments()
    {
      if session.Some? {
        resp, signedIn := Redirect(LandingRoute(Get(profiles, session.value))), session;
        return;
      }
      if form.None? || UsernameTaken(users, form.value.username) {
        resp, signedIn := Render(RegisterPage), None;
        return;
      }
      var u := nextUser;
      SetProfileKeepsIds(profiles, u, Profile(StudentRole, None, None));
      users := users[u := User(form.value.username, form.value.fullName, false)];
      profiles := profiles[u := Profile(StudentRole, None, None)];
      nextUser := nextUser + 1;
      resp, signedIn := Redirect(CompleteProfile), Some(u);
    }

    /**
     * complete_profile. The profile is read unguarded, so a user without one
     * (exactly the users register and user_login send here) gets a server
     * error. A valid submission saves only avatar, bio and phone, which the
     * model does not keep, and then routes by role.
     */
    method CompleteProfileView(requester: UserId, validPost: bool) returns (resp: Response)
      requires Valid() && requester in users
      ensures CompleteProfileGate(Get(profiles, requester)) == Crash ==> resp == ServerError
      ensures requester in profiles && validPost ==> resp == Redirect(CompleteProfileRoute(profiles[requester]))
      ensures requester in profiles && !validPost ==> resp == Render(CompleteProfilePage)
    {
      var gate := CompleteProfileGate(Get(profiles, requester));
      if gate != Admit {
        resp := Refusal(gate);
        return;
      }
      if validPost {
        resp := Redirect(CompleteProfileRoute(profiles[requester]));
      } else {
        resp := Render(CompleteProfilePage);
      }
    }

    /**
     * profile. The profile is read unguarded, as in complete_profile. A valid
     * submission of the user form stores the new name, which is what
     * get_full_name() then returns; the profile form's own fields are not
     * kept by the model.
     */
    method EditProfile(requester: UserId, fullName: Option<string>) returns (resp: Response)
      requires Valid() && requester in users
      modifies this
      ensures Valid()
      ensures profiles == old(profiles) && teachers == old(teachers)
      ensures nextUser == old(nextUser) && nextTeacher == old(nextTeacher)
      ensures SameCourses() && SameEnrollments() && SameComments()
      ensures requester !in old(profiles) ==> resp == ServerError && users == old(users)
      ensures requester in old(profiles) && fullName.None? ==> resp == Render(ProfilePage(false)) && users == old(users)
      ensures requester in old(profiles) && fullName.Some? ==>
                && resp == Render(ProfilePage(true))
                && users == old(users)[requester := old(users)[requester].(fullName := fullName.value)]
    {
      var gate := CompleteProfileGate(Get(profiles, requester));
      if gate != Admit {
        resp := Refusal(gate);
        return;
      }
      if fullName.None? {
        resp := Render(ProfilePage(false));
        return;
      }
      users := users[requester := users[requester].(fullName := fullName.value)];
      resp := Render(ProfilePage(true));
    }

    /**
     * add_enrollment. Only a student may enrol (a user without a profile makes
     * the view raise); the table then changes as Enrollments.Enroll says, and
     * the response is the redirect to the dashboard whether or not a row was
     * created.
     */
    method AddEnrollment(requester: UserId, courseId: CourseId) returns (resp: Response)
      requires Valid() && requester in users
      modifies this
      ensures Valid()
      ensures SameAccounts() && SameCourses() && SameComments()
      ensures EnrollGate(Get(profiles, requester)) != Admit ==>
                resp == Refusal(EnrollGate(Get(profiles, requester))) && SameEnrollments()
      ensures EnrollGate(Get(profiles, requester)) == Admit && courseId !in courses ==>
                resp == NotFound && SameEnrollments()
      ensures EnrollGate(Get(profiles, requester)) == Admit && courseId in courses ==>
                && resp == Redirect(Route.StudentDashboard)
                && (enrollments, nextEnrollment)
                   == Enroll(old(enrollments), old(nextEnrollment), requester, courseId, courses[courseId].maxStudents)
    {
      var gate := EnrollGate(Get(profiles, requester));
      if gate != Admit {
        resp := Refusal(gate);
        return;
      }
      if courseId !in courses {
        resp := NotFound;
        return;
      }
      EnrollRow(requester, courseId);
      resp := Redirect(Route.StudentDashboard);
    }

    /** The table update of add_enrollment for an existing student and course. */
    method EnrollRow(u: UserId, c: CourseId)
      requires Valid() && u in users && c in courses
      modifies this
      ensures Valid()
      ensures SameAccounts() && SameCourses() && SameComments()
      ensures (enrollments, nextEnrollment) == Enroll(old(enrollments), old(nextEnrollment), u, c, courses[c].maxStudents)
    {
      ghost var t, n := enrollments, nextEnrollment;
      ghost var r := Enroll(t, n, u, c, courses[c].maxStudents);
      if HasRow(enrollments, u, c) {
        var k :| k in enrollments && IsRowOf(enrollments[k], u, c);
        RowOfIsUnique(enrollments, u, c, k);
        if !enrollments[k].isActive {
          enrollments := enrollments[k := enrollments[k].(isActive := true)];
        }
      } else {
        if CurrentEnrollmentCount(enrollments, c) < courses[c].maxStudents {
          enrollments := enrollments[nextEnrollment := NewEnrollment(u, c)];
          nextEnrollment := nextEnrollment + 1;
        }
      }
      assert (enrollments, nextEnrollment) == r;
      EnrollKeepsIntegrity(users, profiles, teachers, courses, t, comments, n, u, c, courses[c].maxStudents);
    }

    /** drop_course: only the row's own user may drop it, and only is_active changes. */
    method DropCourse(requester: UserId, enrollmentId: EnrollmentId) returns (resp: Response)
      requires Valid()
      modifies this
      ensures Valid()
      ensures SameAccounts() && SameCourses() && SameComments() && nextEnrollment == old(nextEnrollment)
      ensures enrollmentId !in old(enrollments) ==> resp == NotFound && enrollments == old(enrollments)
      ensures enrollmentId in old(enrollments) && old(enrollments)[enrollmentId].user != requester ==>
                resp == Forbidden(NotOwnEnrollment) && enrollments == old(enrollments)
      ensures enrollmentId in old(enrollments) && old(enrollments)[enrollmentId].user == requester ==>
                resp == Redirect(Route.StudentDashboard) && enrollments == Drop(old(enrollments), enrollmentId)
    {
      if enrollmentId !in enrollments {
        resp := NotFound;
        return;
      }
      if enrollments[enrollmentId].user != requester {
        resp := Forbidden(NotOwnEnrollment);
        return;
      }
      DropKeepsOneRowPerPair(enrollments, enrollmentId);
      enrollments := Drop(enrollments, enrollmentId);
      resp := Redirect(Route.StudentDashboard);
    }

    /**
     * The requester's rows that student_dashboard queries, in key order:
     * exactly their active rows, each as often as the table holds it.
     */
    function DashboardRows(u: UserId): (r: seq<Enrollment>)
      reads this
      requires KeysBelow(enrollments, nextEnrollment)
      ensures forall e :: e in r <==> (exists k :: k in enrollments && enrollments[k] == e) && e.user == u && e.isActive
      ensures forall e :: multiset(r)[e] == if e.user == u && e.isActive then |KeysHolding(enrollments, nextEnrollment, e)| else 0
    {
      Averages.ActiveRowsOf(Rows(enrollments, nextEnrollment), u)
    }

    /**
     * student_dashboard. Only a student with a profile gets the page; its
     * average is the mean of the existing totals of their active rows, and
     * lies in [0, 100] while every stored score passes the validators.
     */
    method StudentDashboard(requester: UserId) returns (resp: Response)
      requires Valid()
      ensures StudentPageGate(Get(profiles, requester)) != Admit ==>
                resp == Refusal(StudentPageGate(Get(profiles, requester)))
      ensures StudentPageGate(Get(profiles, requester)) == Admit ==>
                resp == Render(StudentDashboardPage(Averages.Mean(Averages.PresentTotals(DashboardRows(requester)))))
      ensures StudentPageGate(Get(profiles, requester)) == Admit && AllScoresValid(enrollments) ==>
                0.0 <= resp.page.average <= MaxScore as real
    {
      var gate := StudentPageGate(Get(profiles, requester));
      if gate != Admit {
        resp := Refusal(gate);
        return;
      }
      var rows := DashboardRows(requester);
      var average := Averages.DashboardAverage(rows);
      if AllScoresValid(enrollments) {
        forall e | e in rows ensures ScoresValid(e) {
          var k :| k in enrollments && k < nextEnrollment && enrollments[k] == e;
        }
        Averages.DashboardAverageBounds(rows);
      }
      resp := Render(StudentDashboardPage(average));
    }

    /** The user of the course's teacher, or None for a course without one. */
    function CourseOwner(c: Course): Option<UserId>
      reads this
      requires c.teacher.Some? ==> c.teacher.value in teachers
    {
      if c.teacher.None? then None else Some(teachers[c.teacher.value].user)
    }

    /**
     * The score update of teacher_course_students, as written: the owning
     * teacher overwrites each supplied score of an enrollment of that course,
     * with no range check (save() does not run the field validators).
     */
    method UpdateScores(requester: UserId, courseId: CourseId, enrollmentId: EnrollmentId,
                        midterm: Option<Hundredths>, final: Option<Hundredths>) returns (resp: Response)
      requires Valid()
      modifies this
      ensures Valid()
      ensures SameAccounts() && SameCourses() && SameComments() && nextEnrollment == old(nextEnrollment)
      ensures requester !in profiles ==> resp == Forbidden(MissingProfile) && enrollments == old(enrollments)
      ensures requester in profiles && courseId !in courses ==> resp == NotFound && enrollments == old(enrollments)
      ensures requester in profiles && courseId in courses ==>
                var gate := CourseOwnerGate(profiles[requester], CourseOwner(courses[courseId]), requester);
                && (gate != Admit ==> resp == Refusal(gate) && enrollments == old(enrollments))
                && (gate == Admit && (enrollmentId !in old(enrollments) || old(enrollments)[enrollmentId].course != courseId) ==>
                      resp == NotFound && enrollments == old(enrollments))
                && (gate == Admit && enrollmentId in old(enrollments) && old(enrollments)[enrollmentId].course == courseId ==>
                      resp == Redirect(TeacherCourseStudents(courseId))
                      && enrollments == RecordScores(old(enrollments), enrollmentId, midterm, final))
    {
      if requester !in profiles {
        resp := Forbidden(MissingProfile);
        return;
      }
      if courseId !in courses {
        resp := NotFound;
        return;
      }
      var gate := CourseOwnerGate(profiles[requester], CourseOwner(courses[courseId]), requester);
      if gate != Admit {
        resp := Refusal(gate);
        return;
      }
      if enrollmentId !in enrollments || enrollments[enrollmentId].course != courseId {
        resp := NotFound;
        return;
      }
      RecordScoresKeepsPairs(enrollments, enrollmentId, midterm, final);
      enrollments := RecordScores(enrollments, enrollmentId, midterm, final);
      resp := Redirect(TeacherCourseStudents(courseId));
    }

    /**
     * The score update with the range check the validators declare: a supplied
     * score outside [0, 100] is rejected and nothing is stored, so the table
     * keeps every score valid.
     */
    method UpdateScoresValidated(requester: UserId, courseId: CourseId, enrollmentId: EnrollmentId,
                                 midterm: Option<Hundredths>, final: Option<Hundredths>) returns (resp: Response)
      requires Valid()
      modifies this
      ensures Valid()
      ensures SameAccounts() && SameCourses() && SameComments() && nextEnrollment == old(nextEnrollment)
      ensures old(AllScoresValid(enrollments)) ==> AllScoresValid(enrollments)
      ensures !(InRange(midterm) && InRange(final)) ==> enrollments == old(enrollments)
      ensures requester !in profiles ==> resp == Forbidden(MissingProfile) && enrollments == old(enrollments)
      ensures requester in profiles && courseId !in courses ==> resp == NotFound && enrollments == old(enrollments)
      ensures requester in profiles && courseId in courses ==>
                var gate := CourseOwnerGate(profiles[requester], CourseOwner(courses[courseId]), requester);
                && (gate != Admit ==> resp == Refusal(gate) && enrollments == old(enrollments))
                && (gate == Admit && (enrollmentId !in old(enrollments) || old(enrollments)[enrollmentId].course != courseId) ==>
                      resp == NotFound && enrollments == old(enrollments))
      ensures requester in profiles && courseId in courses
              && CourseOwnerGate(profiles[requester], CourseOwner(courses[courseId]), requester) == Admit
              && enrollmentId in old(enrollments) && old(enrollments)[enrollmentId].course == courseId ==>
                (if InRange(midterm) && InRange(final)
                 then resp == Redirect(TeacherCourseStudents(courseId))
                      && enrollments == RecordScores(old(enrollments), enrollmentId, midterm, final)
                 else resp == ValidationFailed)
    {
      if requester !in profiles {
        resp := Forbidden(MissingProfile);
        return;
      }
      if courseId !in courses {
        resp := NotFound;
        return;
      }
      var gate := CourseOwnerGate(profiles[requester], CourseOwner(courses[courseId]), requester);
      if gate != Admit {
        resp := Refusal(gate);
        return;
      }
      if enrollmentId !in enrollments || enrollments[enrollmentId].course != courseId {
        resp := NotFound;
        return;
      }
      var updated := RecordScoresValidated(enrollments, enrollmentId, midterm, final);
      if updated.None? {
        resp := ValidationFailed;
        return;
      }
      if AllScoresValid(enrollments) {
        ValidatedScoresStayInRange(enrollments, enrollmentId, midterm, final);
      }
      RecordScoresKeepsPairs(enrollments, enrollmentId, midterm, final);
      enrollments := updated.value;
      resp := Redirect(TeacherCourseStudents(courseId));
    }

    /**
     * course_detail. Only a signed-in user with an active row may comment: a
     * submission with a comment id edits that user's own comment (any course's),
     * one without posts a new comment on this course.
     */
    method CourseDetail(requester: Option<UserId>, courseId: CourseId, post: Option<CommentPost>) returns (resp: Response)
      requires Valid() && (requester.Some? ==> requester.value in users)
      modifies this
      ensures Valid()
      ensures SameAccounts() && SameCourses() && SameEnrollments()
      ensures courseId !in courses ==> resp == NotFound && SameComments()
      ensures courseId in courses ==>
                var canComment := requester.Some? && ActiveIn(enrollments, requester.value, courseId);
                && (post.None? || !canComment ==> resp == Render(CourseDetailPage(canComment)) && SameComments())
                && (post.Some? && canComment && post.value.commentId.None? ==>
                      var id := old(nextComment);
                      && id !in old(comments)
                      && comments == old(comments)[id := Comment(courseId, requester.value, post.value.content)]
                      && nextComment == id + 1
                      && resp == Redirect(Route.CourseDetail(courseId)))
                && (post.Some? && canComment && post.value.commentId.Some? ==>
                      var id := post.value.commentId.value;
                      if id in old(comments) && old(comments)[id].user == requester.value
                      then comments == old(comments)[id := old(comments)[id].(content := post.value.content)]
                           && nextComment == old(nextComment) && resp == Redirect(Route.CourseDetail(courseId))
                      else resp == NotFound && SameComments())
    {
      if courseId !in courses {
        resp := NotFound;
        return;
      }
      var canComment := requester.Some? && ActiveIn(enrollments, requester.value, courseId);
      if post.None? || !canComment {
        resp := Render(CourseDetailPage(canComment));
        return;
      }
      var user := requester.value;
      match post.value.commentId {
        case Some(id) =>
          if id in comments && comments[id].user == user {
            comments := comments[id := comments[id].(content := post.value.content)];
            resp := Redirect(Route.CourseDetail(courseId));
          } else {
            resp := NotFound;
          }
        case None =>
          comments := comments[nextComment := Comment(courseId, user, post.value.content)];
          nextComment := nextComment + 1;
          resp := Redirect(Route.CourseDetail(courseId));
      }
    }

    /**
     * teacher_add_course. A teacher with a Teacher row who submits a valid form
     * (the course code not yet taken) creates a course taught by that row.
     */
    method TeacherAddCourse(requester: UserId, form: Option<CourseData>) returns (resp: Response)
      requires Valid() && requester in users
      modifies this
      ensures Valid()
      ensures SameAccounts() && SameEnrollments() && SameComments()
      ensures TeacherAddCourseGate(Get(profiles, requester), HasTeacherFor(teachers, requester)) != Admit ==>
                resp == Refusal(TeacherAddCourseGate(Get(profiles, requester), HasTeacherFor(teachers, requester))) && SameCourses()
      ensures TeacherAddCourseGate(Get(profiles, requester), HasTeacherFor(teachers, requester)) == Admit
              && (form.None? || CourseCodeTaken(old(courses), form.value.code)) ==>
                resp == Render(TeacherAddCoursePage) && SameCourses()
      ensures TeacherAddCourseGate(Get(profiles, requester), HasTeacherFor(teachers, requester)) == Admit
              && form.Some? && !CourseCodeTaken(old(courses), form.value.code) ==>
                var c := old(nextCourse);
                && c !in old(courses) && nextCourse == c + 1
                && resp == Redirect(TeacherDashboard)
                && exists tk :: tk in teachers && teachers[tk].user == requester
                     && courses == old(courses)[c := Course(form.value.code, form.value.name, Some(tk), form.value.maxStudents)]
    {
      var gate := TeacherAddCourseGate(Get(profiles, requester), HasTeacherFor(teachers, requester));
      if gate != Admit {
        resp := Refusal(gate);
        return;
      }
      if form.None? || CourseCodeTaken(courses, form.value.code) {
        resp := Render(TeacherAddCoursePage);
        return;
      }
      var tk :| tk in teachers && teachers[tk].user == requester;
      courses := courses[nextCourse := Course(form.value.code, form.value.name, Some(tk), form.value.maxStudents)];
      nextCourse := nextCourse + 1;
      resp := Redirect(TeacherDashboard);
    }

    /**
     * admin_add_teacher. An admin who submits valid forms (username and
     * teacher id not yet taken) creates the user, a profile with role teacher
     * and one Teacher row for that user.
     */
    method AdminAddTeacher(requester: UserId, account: Option<NewAccount>, data: Option<TeacherData>) returns (resp: Response)
      requires Valid() && requester in users
      modifies this
      ensures Valid()
      ensures SameCourses() && SameEnrollments() && SameComments()
      ensures AdminGate(old(users)[requester].isStaff, Get(old(profiles), requester)) != Admit ==>
                resp == Refusal(AdminGate(old(users)[requester].isStaff, Get(old(profiles), requester))) && SameAccounts()
      ensures AdminGate(old(users)[requester].isStaff, Get(old(profiles), requester)) == Admit
              && (account.None? || data.None? || UsernameTaken(old(users), account.value.username)
                  || TeacherIdTaken(old(teachers), data.value.teacherId)) ==>
                resp == Render(AdminAddTeacherPage) && SameAccounts()
      ensures AdminGate(old(users)[requester].isStaff, Get(old(profiles), requester)) == Admit
              && account.Some? && data.Some? && !UsernameTaken(old(users), account.value.username)
              && !TeacherIdTaken(old(teachers), data.value.teacherId) ==>
                var u, tk := old(nextUser), old(nextTeacher);
                && u !in old(users) && tk !in old(teachers)
                && resp == Redirect(AdminTeacherList)
                && users == old(users)[u := User(account.value.username, account.value.fullName, false)]
                && profiles == old(profiles)[u := Profile(TeacherRole, None, None)]
                && teachers == old(teachers)[tk := Teacher(u, data.value.teacherId, data.value.department)]
                && nextUser == u + 1 && nextTeacher == tk + 1
    {
      var gate := AdminGate(users[requester].isStaff, Get(profiles, requester));
      if gate != Admit {
        resp := Refusal(gate);
        return;
      }
      if account.None? || data.None? || UsernameTaken(users, account.value.username)
         || TeacherIdTaken(teachers, data.value.teacherId) {
        resp := Render(AdminAddTeacherPage);
        return;
      }
      var u := nextUser;
      AddTeacherKeepsIntegrity(users, profiles, teachers, courses, enrollments, comments, u, nextTeacher,
                               User(account.value.username, account.value.fullName, false), data.value);
      users := users[u := User(account.value.username, account.value.fullName, false)];
      nextUser := nextUser + 1;
      profiles := profiles[u := Profile(TeacherRole, None, None)];
      teachers := teachers[nextTeacher := Teacher(u, data.value.teacherId, data.value.department)];
      nextTeacher := nextTeacher + 1;
      resp := Redirect(AdminTeacherList);
    }

    /**
     * admin_delete_course, confirmed by POST: the course goes, and with it
     * its enrollments and comments (on_delete=CASCADE).
     */
    method AdminDeleteCourse(requester: UserId, courseId: CourseId, confirmed: bool) returns (resp: Response)
      requires Valid() && requester in users
      modifies this
      ensures Valid()
      ensures SameAccounts() && nextCourse == old(nextCourse)
      ensures nextEnrollment == old(nextEnrollment) && nextComment == old(nextComment)
      ensures AdminGateDirect(users[requester].isStaff, Get(profiles, requester)) != Admit ==>
                resp == Refusal(AdminGateDirect(users[requester].isStaff, Get(profiles, requester))) && Unchanged()
      ensures AdminGateDirect(users[requester].isStaff, Get(profiles, requester)) == Admit ==>
                if courseId !in old(courses) then resp == NotFound && Unchanged()
                else if !confirmed then resp == Render(ConfirmDeletePage) && Unchanged()
                else
                  && resp == Redirect(AdminCourseList)
                  && courses == old(courses) - {courseId}
                  && enrollments == EnrollmentsWithoutCourse(old(enrollments), courseId)
                  && comments == CommentsWithoutCourse(old(comments), courseId)
    {
      var gate := AdminGateDirect(users[requester].isStaff, Get(profiles, requester));
      if gate != Admit {
        resp := Refusal(gate);
        return;
      }
      if courseId !in courses {
        resp := NotFound;
        return;
      }
      if !confirmed {
        resp := Render(ConfirmDeletePage);
        return;
      }
      DeleteRowsOfCourse(courseId);
      DeleteCourseRow(courseId);
      resp := Redirect(AdminCourseList);
    }

    /** The CASCADE step of course.delete(): the enrollments and comments of course `c` go. */
    method DeleteRowsOfCourse(c: CourseId)
      requires Valid()
      modifies this
      ensures Valid()
      ensures SameAccounts() && SameCourses()
      ensures nextEnrollment == old(nextEnrollment) && nextComment == old(nextComment)
      ensures enrollments == EnrollmentsWithoutCourse(old(enrollments), c)
      ensures comments == CommentsWithoutCourse(old(comments), c)
    {
      var enrollments', comments' := EnrollmentsWithoutCourse(enrollments, c), CommentsWithoutCourse(comments, c);
      SubTableKeysBelow(enrollments, enrollments', nextEnrollment);
      SubTableKeysBelow(comments, comments', nextComment);
      assert UniquePairs(enrollments') by {
        assert forall k :: k in enrollments' ==> enrollments'[k] == enrollments[k];
      }
      enrollments, comments := enrollments', comments';
    }

    /** The course row `c` goes once no enrollment or comment refers to it. */
    method DeleteCourseRow(c: CourseId)
      requires Valid()
      requires forall k :: k in enrollments ==> enrollments[k].course != c
      requires forall k :: k in comments ==> comments[k].course != c
      modifies this
      ensures Valid()
      ensures SameAccounts() && SameEnrollments() && SameComments()
      ensures courses == old(courses) - {c} && nextCourse == old(nextCourse)
    {
      var courses' := courses - {c};
      RemoveCourseKeepsCodes(courses, c);
      SubTableKeysBelow(courses, courses', nextCourse);
      courses := courses';
    }

    /**
     * user.delete() for the teacher row `tk`, with the cascades and SET_NULL
     * the schema declares. The deletion collector clears the dependent rows
     * first and removes the user last, so every step keeps the constraints.
     */
    method DeleteTeacherUser(tk: TeacherKey)
      requires Valid() && tk in teachers
      modifies this
      ensures Valid()
      ensures nextUser == old(nextUser) && nextTeacher == old(nextTeacher) && nextCourse == old(nextCourse)
      ensures nextEnrollment == old(nextEnrollment) && nextComment == old(nextComment)
      ensures var u := old(teachers)[tk].user;
              && users == old(users) - {u}
              && profiles == old(profiles) - {u}
              && teachers == old(teachers) - {tk}
              && teachers == TeachersWithoutUser(old(teachers), u)
              && courses == DetachTeacher(old(courses), tk)
              && enrollments == EnrollmentsWithoutUser(old(enrollments), u)
              && comments == CommentsWithoutUser(old(comments), u)
    {
      var u := teachers[tk].user;
      TeacherCascadeRemovesOneRow(teachers, tk);
      DeleteRowsOfUser(u);
      DetachCourses(tk);
      DeleteTeacherRow(tk);
      DeleteAccount(u);
    }

    /** The CASCADE step: the enrollments and comments of user `u` go. */
    method DeleteRowsOfUser(u: UserId)
      requires Valid()
      modifies this
      ensures Valid()
      ensures SameAccounts() && SameCourses()
      ensures nextEnrollment == old(nextEnrollment) && nextComment == old(nextComment)
      ensures enrollments == EnrollmentsWithoutUser(old(enrollments), u)
      ensures comments == CommentsWithoutUser(old(comments), u)
    {
      var enrollments', comments' := EnrollmentsWithoutUser(enrollments, u), CommentsWithoutUser(comments, u);
      SubTableKeysBelow(enrollments, enrollments', nextEnrollment);
      SubTableKeysBelow(comments, comments', nextComment);
      assert UniquePairs(enrollments') by {
        assert forall k :: k in enrollments' ==> enrollments'[k] == enrollments[k];
      }
      enrollments, comments := enrollments', comments';
    }

    /** The SET_NULL step: every course taught by `tk` loses its teacher. */
    method DetachCourses(tk: TeacherKey)
      requires Valid()
      modifies this
      ensures Valid()
      ensures SameAccounts() && SameEnrollments() && SameComments() && nextCourse == old(nextCourse)
      ensures courses == DetachTeacher(old(courses), tk)
    {
      var courses' := DetachTeacher(courses, tk);
      DetachKeepsCodes(courses, tk);
      SubTableKeysBelow(courses, courses', nextCourse);
      forall c | c in courses' ensures TeacherResolves(courses'[c], teachers, users) {
        assert TeacherResolves(courses[c], teachers, users);
      }
      courses := courses';
    }

    /** The Teacher row `tk` goes once no course refers to it. */
    method DeleteTeacherRow(tk: TeacherKey)
      requires Valid() && forall c :: c in courses ==> courses[c].teacher != Some(tk)
      modifies this
      ensures Valid()
      ensures users == old(users) && profiles == old(profiles) && teachers == old(teachers) - {tk}
      ensures nextUser == old(nextUser) && nextTeacher == old(nextTeacher)
      ensures SameCourses() && SameEnrollments() && SameComments()
    {
      var teachers' := teachers - {tk};
      SubTableKeysBelow(teachers, teachers', nextTeacher);
      forall c | c in courses ensures TeacherResolves(courses[c], teachers', users) {
        assert TeacherResolves(courses[c], teachers, users);
      }
      teachers := teachers';
    }

    /** Last, the user and its profile go, once no Teacher row, enrollment or comment refers to it. */
    method DeleteAccount(u: UserId)
      requires Valid() && !HasTeacherFor(teachers, u)
      requires forall k :: k in enrollments ==> enrollments[k].user != u
      requires forall k :: k in comments ==> comments[k].user != u
      modifies this
      ensures Valid()
      ensures users == old(users) - {u} && profiles == old(profiles) - {u} && teachers == old(teachers)
      ensures nextUser == old(nextUser) && nextTeacher == old(nextTeacher)
      ensures SameCourses() && SameEnrollments() && SameComments()
    {
      var users', profiles' := users - {u}, profiles - {u};
      SubTableKeysBelow(users, users', nextUser);
      RemoveProfileKeepsIds(profiles, u);
      forall k | k in teachers ensures teachers[k].user in users' {
        assert teachers[k].user != u;
      }
      forall c | c in courses ensures TeacherResolves(courses[c], teachers, users') {
        assert TeacherResolves(courses[c], teachers, users);
      }
      users, profiles := users', profiles';
    }

    /**
     * admin_delete_teacher, confirmed by POST: deletes the teacher's user,
     * which cascades to the profile, the Teacher row, the user's enrollments
     * and comments, and detaches the teacher's courses (on_delete=SET_NULL):
     * every course survives, and the detached ones show no instructor.
     */
    method AdminDeleteTeacher(requester: UserId, tk: TeacherKey, confirmed: bool) returns (resp: Response)
      requires Valid() && requester in users
      modifies this
      ensures Valid()
      ensures nextUser == old(nextUser) && nextTeacher == old(nextTeacher) && nextCourse == old(nextCourse)
      ensures nextEnrollment == old(nextEnrollment) && nextComment == old(nextComment)
      ensures AdminGateDirect(old(users)[requester].isStaff, Get(old(profiles), requester)) != Admit ==>
                resp == Refusal(AdminGateDirect(old(users)[requester].isStaff, Get(old(profiles), requester))) && Unchanged()
      ensures AdminGateDirect(old(users)[requester].isStaff, Get(old(profiles), requester)) == Admit ==>
                if tk !in old(teachers) then resp == NotFound && Unchanged()
                else if !confirmed then resp == Render(ConfirmDeletePage) && Unchanged()
                else
                  var u := old(teachers)[tk].user;
                  && resp == Redirect(AdminTeacherList)
                  && users == old(users) - {u}
                  && profiles == old(profiles) - {u}
                  && teachers == old(teachers) - {tk}
                  && teachers == TeachersWithoutUser(old(teachers), u)
                  && courses == DetachTeacher(old(courses), tk)
                  && courses.Keys == old(courses).Keys
                  && (forall c :: c in old(courses) && old(courses)[c].teacher == Some(tk) ==>
                        InstructorName(courses[c], teachers, users) == Unassigned)
                  && enrollments == EnrollmentsWithoutUser(old(enrollments), u)
                  && comments == CommentsWithoutUser(old(comments), u)
    {
      var gate := AdminGateDirect(users[requester].isStaff, Get(profiles, requester));
      if gate != Admit {
        resp := Refusal(gate);
        return;
      }
      if tk !in teachers {
        resp := NotFound;
        return;
      }
      if !confirmed {
        resp := Render(ConfirmDeletePage);
        return;
      }
      DeleteTeacherUser(tk);
      resp := Redirect(AdminTeacherList);
    }
  }
}
