/**
 * Role routing and access gates of courses/views.py: plain decisions on the
 * signed-in user's profile. Redirects, forbidden pages and uncaught exceptions
 * become values of `Response`; rendering and messages are not modelled.
 */
module Access {
  import opened Wrappers
  import opened Models

  datatype Route =
    | CompleteProfile
    | StudentDashboard
    | TeacherDashboard
    | AdminDashboard
    | TeacherCourseStudents(course: CourseId)
    | CourseDetail(course: CourseId)
    | AdminTeacherList
    | AdminCourseList

  /** Why a request was refused; each is one of the HttpResponseForbidden messages. */
  datatype Denial =
    | MissingProfile      // the account has no UserProfile
    | NotStudent
    | NotTeacher
    | NotCourseOwner      // wrong role or another teacher's course (one message for both)
    | NotAdmin
    | IncompleteTeacher   // role is teacher but no Teacher row exists
    | NotOwnEnrollment

  datatype LoginError = BadCredentials | AccountNotSetUp

  datatype Page =
    | LoginPage(error: Option<LoginError>)
    | RegisterPage
    | StudentDashboardPage(average: real)
    | CourseDetailPage(canComment: bool)
    | ConfirmDeletePage
    | TeacherAddCoursePage
    | AdminAddTeacherPage
    | CompleteProfilePage
    | ProfilePage(saved: bool)

  datatype Response =
    | Redirect(to: Route)
    | Forbidden(why: Denial)
    | NotFound        // get_object_or_404 found nothing
    | ServerError     // an uncaught exception
    | ValidationFailed  // a submitted value fails a field validator
    | Render(page: Page)

  /** The verdict of a gate, before the view does its work. */
  datatype Gate = Admit | Refuse(why: Denial) | SendToSetup | Crash

  function HasRole(p: Option<Profile>, role: string): bool {
    p.Some? && p.value.role == role
  }

  /**
   * Where register and user_login send a user who is already signed in (and
   * user_login after a successful login): by the role of the profile, with any
   * role other than teacher or admin treated as a student.
   */
  function LandingRoute(p: Option<Profile>): (r: Route)
    ensures r == CompleteProfile <==> p.None?
    ensures r == TeacherDashboard <==> HasRole(p, TeacherRole)
    ensures r == AdminDashboard <==> HasRole(p, AdminRole)
    ensures r == StudentDashboard <==> p.Some? && p.value.role != TeacherRole && p.value.role != AdminRole
  {
    if p.None? then CompleteProfile
    else if p.value.role == TeacherRole then TeacherDashboard
    else if p.value.role == AdminRole then AdminDashboard
    else StudentDashboard
  }

  /**
   * Where complete_profile sends the user after saving: here it is the admin
   * dashboard that takes every role other than student or teacher.
   */
  function CompleteProfileRoute(p: Profile): (r: Route)
    ensures r == StudentDashboard <==> p.role == StudentRole
    ensures r == TeacherDashboard <==> p.role == TeacherRole
    ensures r == AdminDashboard <==> p.role != StudentRole && p.role != TeacherRole
  {
    if p.role == StudentRole then StudentDashboard
    else if p.role == TeacherRole then TeacherDashboard
    else AdminDashboard
  }

  /** The two role routings agree exactly on the three roles of ROLE_CHOICES. */
  lemma RoutingsAgreeOnKnownRoles(p: Profile)
    ensures LandingRoute(Some(p)) == CompleteProfileRoute(p)
        <==> p.role in {StudentRole, TeacherRole, AdminRole}
  {
  }

  /** student_dashboard: a missing profile or a non-student role is refused. */
  function StudentPageGate(p: Option<Profile>): (g: Gate)
    ensures g == Admit <==> HasRole(p, StudentRole)
    ensures g == Refuse(MissingProfile) <==> p.None?
    ensures g != Admit ==> g.Refuse?
  {
    if p.None? then Refuse(MissingProfile)
    else if p.value.role != StudentRole then Refuse(NotStudent)
    else Admit
  }

  /** add_enrollment reads request.user.profile unguarded: a missing profile raises. */
  function EnrollGate(p: Option<Profile>): (g: Gate)
    ensures g == Admit <==> HasRole(p, StudentRole)
    ensures g == Crash <==> p.None?
    ensures g != Admit && g != Crash ==> g == Refuse(NotStudent)
  {
    if p.None? then Crash
    else if p.value.role != StudentRole then Refuse(NotStudent)
    else Admit
  }

  /**
   * complete_profile and profile read request.user.profile unguarded: a
   * missing profile raises, and every role is let in.
   */
  function CompleteProfileGate(p: Option<Profile>): (g: Gate)
    ensures g == Crash <==> p.None?
    ensures g == Admit <==> p.Some?
  {
    if p.None? then Crash else Admit
  }

  /** teacher_dashboard: a teacher without a Teacher row is sent to complete_profile. */
  function TeacherDashboardGate(p: Option<Profile>, hasTeacherRow: bool): (g: Gate)
    ensures g == Admit <==> HasRole(p, TeacherRole) && hasTeacherRow
    ensures g == SendToSetup <==> HasRole(p, TeacherRole) && !hasTeacherRow
    ensures g == Refuse(MissingProfile) <==> p.None?
    ensures g != Crash
  {
    if p.None? then Refuse(MissingProfile)
    else if p.value.role != TeacherRole then Refuse(NotTeacher)
    else if !hasTeacherRow then SendToSetup
    else Admit
  }

  /** teacher_add_course: a teacher without a Teacher row is refused instead. */
  function TeacherAddCourseGate(p: Option<Profile>, hasTeacherRow: bool): (g: Gate)
    ensures g == Admit <==> HasRole(p, TeacherRole) && hasTeacherRow
    ensures g == Refuse(IncompleteTeacher) <==> HasRole(p, TeacherRole) && !hasTeacherRow
    ensures g == Refuse(MissingProfile) <==> p.None?
    ensures g != Admit ==> g.Refuse?
  {
    if p.None? then Refuse(MissingProfile)
    else if p.value.role != TeacherRole then Refuse(NotTeacher)
    else if !hasTeacherRow then Refuse(IncompleteTeacher)
    else Admit
  }

  /**
   * teacher_course_students, once the profile and the course are found:
   * `profile.role != 'teacher' or course.teacher.user != request.user`.
   * `owner` is the user of the course's teacher, None for a detached course,
   * whose `course.teacher.user` raises for a teacher.
   */
  function CourseOwnerGate(p: Profile, owner: Option<UserId>, requester: UserId): (g: Gate)
    ensures g == Admit <==> p.role == TeacherRole && owner == Some(requester)
    ensures g == Crash <==> p.role == TeacherRole && owner.None?
    ensures g != Admit && g != Crash ==> g == Refuse(NotCourseOwner)
  {
    if p.role != TeacherRole then Refuse(NotCourseOwner)
    else if owner.None? then Crash
    else if owner.value != requester then Refuse(NotCourseOwner)
    else Admit
  }

  /** admin_dashboard and admin_add_teacher: the profile is looked up under a guard first. */
  function AdminGate(isStaff: bool, p: Option<Profile>): (g: Gate)
    ensures g == Admit <==> isStaff && HasRole(p, AdminRole)
    ensures g == Refuse(MissingProfile) <==> p.None?
    ensures g != Admit ==> g.Refuse?
  {
    if p.None? then Refuse(MissingProfile)
    else if !isStaff || p.value.role != AdminRole then Refuse(NotAdmin)
    else Admit
  }

  /**
   * admin_add_course, admin_teacher_list, admin_delete_teacher,
   * admin_course_list, admin_delete_course: `not is_staff or profile.role != 'admin'`
   * with the profile read unguarded, so a staff user without one raises.
   */
  function AdminGateDirect(isStaff: bool, p: Option<Profile>): (g: Gate)
    ensures g == Admit <==> isStaff && HasRole(p, AdminRole)
    ensures g == Crash <==> isStaff && p.None?
    ensures g != Admit && g != Crash ==> g == Refuse(NotAdmin)
  {
    if !isStaff then Refuse(NotAdmin)
    else if p.None? then Crash
    else if p.value.role != AdminRole then Refuse(NotAdmin)
    else Admit
  }

  /** Both admin checks admit the same users, and differ only for a staff user without a profile. */
  lemma AdminGatesAgree(isStaff: bool, p: Option<Profile>)
    ensures AdminGate(isStaff, p) == Admit <==> AdminGateDirect(isStaff, p) == Admit
    ensures AdminGate(isStaff, p).Refuse? && AdminGateDirect(isStaff, p).Refuse?
        <==> !(isStaff && p.None?) && !(isStaff && HasRole(p, AdminRole))
  {
  }

  /**
   * Landing is not admission: a user routed to a dashboard passes that
   * dashboard's role check only with one of the three roles, and an admin
   * additionally needs the staff flag. A user without a profile is sent to
   * complete_profile, which then raises: a dead end.
   */
  lemma LandingAdmission(p: Option<Profile>, isStaff: bool, hasTeacherRow: bool)
    ensures LandingRoute(p) == StudentDashboard ==>
              (StudentPageGate(p) == Admit <==> p.value.role == StudentRole)
    ensures LandingRoute(p) == TeacherDashboard ==>
              TeacherDashboardGate(p, hasTeacherRow) == (if hasTeacherRow then Admit else SendToSetup)
    ensures LandingRoute(p) == AdminDashboard ==> (AdminGate(isStaff, p) == Admit <==> isStaff)
    ensures LandingRoute(p) == CompleteProfile ==> CompleteProfileGate(p) == Crash
  {
  }

  /** The response a refusing or crashing gate produces. */
  function Refusal(g: Gate): Response
    requires g.Refuse? || g.Crash?
  {
    if g.Crash? then ServerError else Forbidden(g.why)
  }

  datatype LoginRequest =
    | ShowForm                              // GET
    | Submit(authenticated: Option<UserId>) // POST; the user authenticate() returned, if any

  /**
   * user_login: the response and who is signed in afterwards. An account
   * without a profile is signed out again right after login; no profile is
   * created on this path (the profile table is only read).
   */
  function UserLogin(profiles: map<UserId, Profile>, session: Option<UserId>, req: LoginRequest): (r: (Response, Option<UserId>))
    ensures session.Some? ==> r == (Redirect(LandingRoute(Get(profiles, session.value))), session)
    ensures session.None? && req.Submit? && req.authenticated.Some? ==>
              (r.1 == req.authenticated <==> req.authenticated.value in profiles)
    ensures session.None? ==> (r.1.Some? <==> req.Submit? && req.authenticated.Some? && req.authenticated.value in profiles)
    ensures session.None? && r.1.Some? ==> r.0.Redirect? && r.0.to != CompleteProfile
    ensures session.None? && req.Submit? && req.authenticated.Some? && req.authenticated.value in profiles ==>
              r.0 == Redirect(LandingRoute(Some(profiles[req.authenticated.value])))
    ensures session.None? && req.Submit? && req.authenticated.Some? && req.authenticated.value !in profiles ==>
              r.0 == Render(LoginPage(Some(AccountNotSetUp)))
    ensures session.None? && req == Submit(None) ==> r == (Render(LoginPage(Some(BadCredentials))), None)
    ensures session.None? && req.ShowForm? ==> r == (Render(LoginPage(None)), None)
  {
    if session.Some? then (Redirect(LandingRoute(Get(profiles, session.value))), session)
    else match req
      case ShowForm => (Render(LoginPage(None)), None)
      case Submit(None) => (Render(LoginPage(Some(BadCredentials))), None)
      case Submit(Some(u)) =>
        if u in profiles then (Redirect(LandingRoute(Some(profiles[u]))), Some(u))
        else (Render(LoginPage(Some(AccountNotSetUp))), None)
  }
}
