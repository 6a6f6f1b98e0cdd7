# Grade system: enrollment lifecycle, score book, access gates and account repair

This project models the domain logic of a Django course-and-grade system:

- Students enrol in courses, drop them and comment on them.
- Teachers create courses and enter midterm and final scores.
- Administrators create and delete teachers and courses.
- A maintenance script turns an existing account into a teacher account.

The ORM is modelled as in-memory tables: one map per table, keyed by primary key. `UserProfile` is keyed by its user, because it is a one-to-one field. An autoincrement counter per table hands out new keys.

A DecimalField with two decimal places stores a score, so a score is a whole number of hundredths (8550 is 85.50). Totals and averages are exact reals in the same unit.

Modules:

- `Models` (models.dfy): the rows of `courses/models.py` and their derived values.
  - the per-enrollment total;
  - the active-enrollment count;
  - the instructor name;
  - the delete behaviour of every foreign key: what cascades and what becomes null.
- `Averages` (averages.dfy): the two score averages.
  - the dashboard average of `student_dashboard` is a method with a loop;
  - `Student.get_average_score` is a method with a loop;
  - each is proved equal to a specification function, and the averages are bounded.
- `Access` (access.dfy): role routing and the access gates of `courses/views.py`, as pure decision functions. Redirects, forbidden pages, 404s and uncaught exceptions are values of `Response`.
- `Enrollments` (enrollments.dfy): the enrollment table as a value.
  - enrol: reactivate the existing row, or create one under the capacity limit;
  - drop: a soft delete;
  - teacher score entry.
- `Database` (database.dfy): a class `Store` whose fields are the six tables. Each view that changes data is a method that keeps `Valid()`: every key below its table's counter, unique usernames, unique `student_id` and `teacher_id` among profiles, one Teacher row per user, unique `Teacher.teacher_id`, unique `course_code`, one enrollment per (user, course), and every foreign key resolving. Its postcondition gives the response and the whole new state, in terms of the `Enrollments` functions where those apply.
- `FixAccount` (fix_account.dfy): the repair script `fix_account.py`.
  - the function `Fix` gives its effect on the profile and teacher tables;
  - the method `FixAccountScript` runs it against a `Store`.
- `AdminDisplay` (admin_display.dfy): the display helpers of `courses/admin.py`.

## Model

| member | source | states |
|---|---|---|
| `Models.TotalScore` | courses/models.py:137-141 | The total is None exactly when the midterm or the final is missing. Otherwise it is the exact mean: twice the total equals midterm plus final. |
| `Models.TotalScoreBounds` | courses/models.py:108-141 | When both scores pass the validators (0 to 100), the total is a valid score and lies between the smaller and the larger component. |
| `Models.CurrentEnrollmentCount` | courses/models.py:94-96 | The count of active rows of the course never exceeds the table's size. It is 0 exactly when no row of that course is active. |
| `Models.NoActiveKeys` | courses/models.py:94-96 | The active-row set of a course is empty exactly when every row of the course is inactive. |
| `Models.InstructorName` | courses/models.py:98-101 | "未設定" for a course without a teacher; otherwise the full name of the teacher's user. |
| `Models.Rows` | courses/views.py:187 | A query lists every row of the table, and only rows of the table (every key is below the counter). Each row value occurs exactly as many times as keys hold it. |
| `Models.DetachTeacher` | courses/models.py:74 | Deleting a teacher keeps every course (on_delete=SET_NULL). No course references the teacher afterwards. Each course either is unchanged or had that teacher and is now detached, with nothing else changed. |
| `Models.DetachedCourseIsUnassigned` | courses/models.py:99-101 | A course detached from its deleted teacher shows "未設定" as its instructor. |
| `Models.EnrollmentsWithoutUser` | courses/models.py:106 | Exactly the enrollments of other users survive deleting a user, with their rows unchanged. |
| `Models.EnrollmentsWithoutCourse` | courses/models.py:107 | Exactly the enrollments of other courses survive deleting a course, with their rows unchanged. |
| `Models.CommentsWithoutCourse` | courses/models.py:146 | Exactly the comments on other courses survive deleting a course. |
| `Models.CommentsWithoutUser` | courses/models.py:147 | Exactly the comments of other users survive deleting a user. |
| `Models.TeachersWithoutUser` | courses/models.py:51 | Exactly the Teacher rows of other users survive deleting a user (CASCADE on `Teacher.user`). |
| `Models.TeacherCascadeRemovesOneRow` | courses/models.py:51 | Teacher.user is one-to-one, so deleting a teacher's user removes exactly that one Teacher row. |
| `Averages.ActiveRowsOf` | courses/views.py:187 | The dashboard query returns exactly the rows of that user that are active, each as many times as the listing holds it, and no others. |
| `Averages.PresentTotals` | courses/views.py:190-194 | The loop collects at most one total per row, and each collected value is the total of some row. Each value occurs exactly as many times as rows have it as their total, so no total is missed or repeated. |
| `Averages.DashboardAverage` | courses/views.py:189-197 | The loop collects the existing totals in row order. The result is their mean, and 0 when there are none. |
| `Averages.DashboardAverageBounds` | courses/views.py:196 | When every score passes the validators, the dashboard average lies in [0, 100]. |
| `Averages.GetAverageScore` | courses/models.py:176-186 | The result is 0 with no enrollments. Otherwise it is the sum of the existing totals divided by the number of all enrollments. |
| `Averages.LegacyAverage` | courses/models.py:176-186 | 0 with no enrollments. Otherwise the result times the number of all enrollments equals the running total of the existing totals. |
| `Averages.SumOfTotalsIsSum` | courses/models.py:181-184 | The running total of the legacy loop equals the sum of the totals the dashboard collects. |
| `Averages.LegacyAverageBounds` | courses/models.py:181-186 | When every score passes the validators, the legacy average lies in [0, 100]. |
| `Averages.LegacyAverageAtMostMean` | courses/models.py:181-186 | A row without a total counts as 0, so the legacy average never exceeds the mean of the existing totals. The two are equal when every row has a total. |
| `Access.LandingRoute` | courses/views.py:28-39 | Route for a signed-in user, each case an if-and-only-if: no profile goes to complete_profile; role teacher to the teacher dashboard; role admin to the admin dashboard; any other role to the student dashboard. |
| `Access.CompleteProfileRoute` | courses/views.py:122-127 | After complete_profile, student goes to the student dashboard, teacher to the teacher dashboard, and every other role to the admin dashboard. |
| `Access.CompleteProfileGate` | courses/views.py:116 | complete_profile and profile read the profile unguarded: the view raises exactly when the profile is missing, and admits every role otherwise. |
| `Access.RoutingsAgreeOnKnownRoles` | courses/models.py:10-14 | The two role routings agree exactly when the role is one of the three in ROLE_CHOICES. |
| `Access.StudentPageGate` | courses/views.py:178-184 | Admits exactly a profile with role student. It refuses a missing profile and every other role, and never crashes. |
| `Access.EnrollGate` | courses/views.py:284-285 | Admits exactly a student. A missing profile raises (server error); every other role is forbidden. |
| `Access.TeacherDashboardGate` | courses/views.py:322-333 | Admits a teacher who has a Teacher row. A teacher without one is sent to complete_profile; a missing profile or another role is refused. |
| `Access.TeacherAddCourseGate` | courses/views.py:349-360 | Admits a teacher who has a Teacher row. A teacher without one is refused as incomplete. |
| `Access.CourseOwnerGate` | courses/views.py:393-394 | Admits exactly a teacher whose course's teacher is the requester. For a teacher, a course without a teacher raises; every other case is forbidden. |
| `Access.AdminGate` | courses/views.py:433-439 | Admits exactly a staff user whose profile has role admin. Everything else is refused, a missing profile with its own message. |
| `Access.AdminGateDirect` | courses/views.py:511-512 | Admits the same users as the guarded check. A staff user without a profile raises; everyone else is forbidden. |
| `Access.AdminGatesAgree` | courses/views.py:538-539 | The guarded and the unguarded admin checks admit the same users. Both refuse, not crash, exactly for users who are neither admitted nor staff without a profile. |
| `Access.LandingAdmission` | courses/views.py:62-73 | A user routed to a dashboard passes that dashboard's gate as follows: the student dashboard only with role student; the teacher dashboard when a Teacher row exists, otherwise they go to setup; the admin dashboard only when staff. A user without a profile is routed to complete_profile, which raises: a dead end. |
| `Access.UserLogin` | courses/views.py:60-104 | A signed-in user is routed by role. A fresh login stays signed in exactly when the account has a profile, and is then redirected by `LandingRoute` to that role's dashboard. An authenticated account without a profile is signed out and shown the not-set-up error; the profile table is only read. Bad credentials show the login page with the credentials error, and a GET shows the empty login page; nobody is signed in on either. |
| `Enrollments.RowOfIsUnique` | courses/models.py:131 | With one row per (user, course), the row the lookup finds is the only one. |
| `Enrollments.RowOf` | courses/views.py:291 | The row `.first()` finds exists and belongs to that user and course. |
| `Enrollments.RecordScoresValidated` | courses/models.py:113-121 | The update is accepted exactly when each supplied score lies in [0, 100]. An accepted update is the plain overwrite. |
| `Enrollments.Enroll` | courses/views.py:291-299 | Enrolling never removes a row and adds at most one, the new active row without scores under the next key. Every existing row keeps its user, course and scores. Rows of other pairs, and active rows, are unchanged. |
| `Enrollments.Drop` | courses/views.py:312-313 | Dropping keeps every key. The row becomes inactive and keeps its user, course and scores; every other row is unchanged. |
| `Enrollments.EnrollKeepsOneRowPerPair` | courses/views.py:291-299 | Enrolling never creates a second row for a (user, course) pair and keeps keys below the counter. |
| `Enrollments.EnrollReactivates` | courses/views.py:293-296 | When a row exists, only its is_active becomes true, with scores kept. No row is added or changed and no capacity check is made. |
| `Enrollments.EnrollCreates` | courses/views.py:297-299 | With no row and room left, exactly one row is inserted under the next key, active and without scores. The active count rises by one and stays within max_students. |
| `Enrollments.EnrollWhenFull` | courses/views.py:297-299 | With no row and the course full, nothing changes. |
| `Enrollments.EnrollIdempotent` | courses/views.py:291-299 | Enrolling twice leaves the same table and counter as enrolling once. |
| `Enrollments.DropThenEnrollRestores` | courses/views.py:291-313 | Dropping and then re-enrolling restores the same row with all its scores, whatever the capacity. |
| `Enrollments.ReactivationIgnoresCapacity` | courses/views.py:293-298 | A concrete table where reactivation lifts a course of capacity 1 to two active students. |
| `Enrollments.EnrollGrantsComment` | courses/views.py:240-244 | After enrolling, the student may comment exactly when a row already existed or the course had room. |
| `Enrollments.DropRevokesComment` | courses/views.py:242-244 | After dropping, the student may no longer comment on that course. |
| `Enrollments.DropLowersCount` | courses/views.py:312-313 | Dropping an active row lowers its course's active count by one, and no other course's. |
| `Enrollments.DropKeepsOneRowPerPair` | courses/views.py:312-313 | Dropping keeps all keys and one row per pair. |
| `Enrollments.RecordScoresKeepsPairs` | courses/views.py:404-414 | Score entry keeps every key, user and course, and so keeps one row per pair. |
| `Enrollments.RecordScores` | courses/views.py:405-414 | Each supplied score replaces the stored one and each blank leaves it. Every other field and every other row is unchanged, and no range check is made. |
| `Enrollments.RecordScoresAcceptsOutOfRange` | courses/views.py:406-414 | As written, entering a midterm of 150.00 turns a table whose scores all pass the validators into one whose scores do not. |
| `Enrollments.ValidatedScoresStayInRange` | courses/models.py:113-121 | The validated score entry keeps every stored score in [0, 100]. |
| `Database.AddTeacherKeepsIntegrity` | courses/views.py:474-489 | Adding a new user with a teacher profile and one Teacher row, when the username and teacher id are free, keeps every uniqueness and foreign-key constraint. |
| `Database.EnrollKeepsIntegrity` | courses/views.py:291-299 | Enrolling an existing user in an existing course keeps every uniqueness and foreign-key constraint and keeps keys below the counter. |
| `Database.Store.DashboardRows` | courses/views.py:187 | The rows `student_dashboard` queries are exactly the requester's active rows, each as many times as keys hold it. |
| `Database.Store.Register` | courses/views.py:26-57 | A signed-in user is routed by role and nothing changes. A valid form with a new username creates the user and exactly one profile with role student, then signs the user in and redirects to complete_profile. Nothing else changes. |
| `Database.Store.CompleteProfileView` | courses/views.py:113-137 | A user without a profile gets a server error. A valid submission is routed by role as `CompleteProfileRoute` says; anything else renders the form. |
| `Database.Store.EditProfile` | courses/views.py:140-171 | A user without a profile gets a server error. A valid submission stores the new full name; no other table changes. |
| `Database.Store.AddEnrollment` | courses/views.py:281-301 | A non-student is refused and a missing profile raises; either way the table is unchanged. A missing course gives 404. Otherwise the table changes exactly as `Enroll` says and the response is the dashboard redirect. |
| `Database.Store.EnrollRow` | courses/views.py:291-299 | The table and its counter change exactly as `Enroll` says, and the constraints are kept. |
| `Database.Store.DropCourse` | courses/views.py:304-315 | A missing row gives 404 and another user's row is forbidden; either way the table is unchanged. For its owner only is_active becomes false. |
| `Database.Store.StudentDashboard` | courses/views.py:176-206 | The page goes only to a student. Its average is the mean of the existing totals of the student's active rows, and lies in [0, 100] while all scores are valid. |
| `Database.Store.UpdateScores` | courses/views.py:383-418 | The checks run in order: a profile, then the course, then the owner gate, then an enrollment of that course. Only then do supplied scores overwrite the stored ones, with no range check; every other path leaves the table. |
| `Database.Store.UpdateScoresValidated` | courses/views.py:383-418 | The same view and the same refusals in the same order (missing profile, missing course, owner gate, enrollment of another course), with the validators' range applied. An out-of-range value is rejected and nothing is stored, so valid scores stay valid. |
| `Database.Store.CourseDetail` | courses/views.py:231-278 | Only a user with an active row may post. An id edits that user's own comment, otherwise 404; no id creates a comment on this course. Everyone else gets the page. |
| `Database.Store.TeacherAddCourse` | courses/views.py:346-380 | A teacher with a Teacher row and a valid form creates one course taught by that row. Every other request leaves the courses unchanged. |
| `Database.Store.AdminAddTeacher` | courses/views.py:457-505 | An admin with valid forms (new username and new teacher id) creates the user, a profile with role teacher and one Teacher row. Every other request changes nothing. |
| `Database.Store.AdminDeleteCourse` | courses/views.py:589-606 | A confirmed deletion removes the course together with its enrollments and comments. A refusal, a 404 or the confirmation page changes nothing. |
| `Database.Store.DeleteTeacherUser` | courses/views.py:561-562 | Deleting the user removes their profile, Teacher row, enrollments and comments, and detaches their courses; every constraint of `Valid()` still holds. |
| `Database.Store.DeleteRowsOfUser` | courses/models.py:106 | The CASCADE step on `Enrollment.user` and `CourseComment.user` (courses/models.py:147): the user's enrollments and comments go, nothing else changes, and the constraints hold. |
| `Database.Store.DetachCourses` | courses/models.py:74 | The SET_NULL step: the teacher's courses lose their teacher, nothing else changes, and the constraints hold. |
| `Database.Store.DeleteTeacherRow` | courses/models.py:51 | Once no course refers to it, the Teacher row goes and the constraints hold. |
| `Database.Store.DeleteAccount` | courses/models.py:16 | Once no Teacher row, enrollment or comment refers to the user, the user and their profile go and the constraints hold. |
| `Database.Store.DeleteRowsOfCourse` | courses/models.py:107 | The CASCADE step on `Enrollment.course` and `CourseComment.course` (courses/models.py:146): the course's enrollments and comments go, nothing else changes, and the constraints hold. |
| `Database.Store.DeleteCourseRow` | courses/models.py:72 | Once no enrollment or comment refers to it, the course goes and the constraints hold, course codes staying unique. |
| `Database.Store.AdminDeleteTeacher` | courses/views.py:551-570 | A confirmed deletion deletes the teacher's user with all cascades. Every course survives, and the detached ones show "未設定". A refusal, a 404 or the confirmation page changes nothing. |
| `FixAccount.UserNamed` | fix_account.py:17 | The user found by username exists and has that username. |
| `FixAccount.TeacherProfile` | fix_account.py:21-27 | The saved profile has role teacher. An existing profile keeps its student and teacher ids; a missing one is created with no ids. |
| `FixAccount.Fix` | fix_account.py:13-49 | An unknown username, and only that, ends UserNotFound with nothing changed. No Teacher row is removed or changed, and at most one is added under the next key; exactly a created row advances the counter. |
| `FixAccount.FixUnknownUser` | fix_account.py:48-49 | For an unknown username both tables and the counter are unchanged. |
| `FixAccount.FixMakesTeacher` | fix_account.py:21-36 | The user's profile has role teacher. It is created (empty otherwise) when absent, and has only its role changed when present; no other profile changes. On success exactly one Teacher row references the user. |
| `FixAccount.FixKeepsExistingTeacher` | fix_account.py:30-41 | An existing Teacher row is kept as it is. The teacher id and department arguments are used only on creation. |
| `FixAccount.FixFailureLeavesRoleWithoutTeacher` | fix_account.py:21-36 | When the Teacher row cannot be created because the teacher id is taken, the role has already been saved as teacher and no Teacher row references the user. |
| `FixAccount.FixIdempotent` | fix_account.py:21-41 | Running the script twice leaves the same tables as running it once. After a successful first run the second reports an existing Teacher row; after UserNotFound or DuplicateTeacherId it reports the same outcome again. |
| `FixAccount.FixKeepsConstraints` | fix_account.py:30-36 | A run keeps one Teacher row per user, unique teacher ids, foreign keys and keys below the counter. |
| `FixAccount.SaveTeacherRole` | fix_account.py:21-27 | Only the user's profile changes, to the teacher profile, and the constraints are kept. |
| `FixAccount.GetOrCreateTeacher` | fix_account.py:30-36 | An existing Teacher row is kept (Fixed(false)). A taken teacher id creates nothing (DuplicateTeacherId). Otherwise one row is created under the next key (Fixed(true)). |
| `FixAccount.FixAccountScript` | fix_account.py:13-49 | The script changes the profile and teacher tables exactly as `Fix` says, keeps the schema constraints and touches no other table. |
| `AdminDisplay.ShortContent` | courses/admin.py:64-65 | Content of at most 50 characters is shown unchanged. Longer content becomes its first 50 characters plus "...", exactly 53. The result never exceeds 53 and starts with the first up-to-50 characters. |
| `AdminDisplay.ShortContentIdempotent` | courses/admin.py:64-65 | Shortening an already shortened comment changes nothing. |
| `AdminDisplay.DisplayName` | courses/admin.py:48-49 | The full name when it is not empty, else the username (also `CourseCommentAdmin.get_user_name`, courses/admin.py:60-61). |

## Left out

- Rendering, template context, messages, `authenticate`, `login` and `logout`. A response is an abstract value; the signed-in user is a parameter.
- `@login_required` is modelled as a requester who is an existing user.
- Forms. A submitted form is an `Option` of the fields the model keeps: None means invalid or absent.
  - Validation is modelled only where it depends on the database: username, teacher id and course code must not be taken.
  - Field lengths, password rules and the parsing of POSTed decimal strings are not modelled.
  - The decimal precision of the score fields (`max_digits=5, decimal_places=2`, courses/models.py:108-123) is not modelled: a score is any whole number of hundredths, and `Enrollments.RecordScores` and `Database.Store.UpdateScores` store any such number.
- `get_full_name()` is taken as a stored field of the user.
- Timestamps, avatars and their PIL resizing, bios, phone numbers, credits, semesters and descriptions.
- The `ordering` options of the models. Queries list rows in key order.
- Python floats and `round(..., 2)` in `get_total_score` and the dashboard. Totals and averages are exact.
- The read-then-write race between two concurrent enrolments. The model is sequential.
- `Averages.GetAverageScore`: `Student.get_average_score` reads `self.enrollment_set`, but the legacy `Student` model has no relation to `Enrollment`, whose foreign key points to the auth user. In the code as written that attribute does not exist. The method therefore takes the student's rows as a parameter.
- `user_logout` (courses/views.py:107-110) signs the user out and redirects to `index`; the session is not modelled (see the first line).
- `index`, `course_list` with its case-insensitive search, `admin_dashboard` statistics, `admin_teacher_list` and `admin_course_list` only read and render. The model covers their gates (`Access.AdminGate`, `Access.AdminGateDirect`) but not their pages.
- The avatar, bio and phone that `complete_profile` and `profile` save (courses/views.py:119-121, 147-151) are not model fields. The email that `profile` saves is not one either. What `profile` does save of the model is the user's name, modelled as the new full name in `Database.Store.EditProfile`.
- `admin_add_course` (courses/views.py:508-532): beyond its gate (`Access.AdminGateDirect`), it is a plain `CourseForm.save()`.
- `TeacherAdmin.get_full_name` (courses/admin.py:20-21) returns the user's full name unchanged.
- The rest of courses/admin.py is declarative list, search and filter configuration.
- courses/forms.py and courses/urls.py: declarative configuration with no logic.
- The other maintenance scripts are not part of this model: the seeding scripts, the diagnostic printers, `fix_teacher_accounts.py` (interactive input) and `reset_db.py` (file deletion).
- `FixAccount.FixAccountScript`: the printed messages are not modelled. The IntegrityError raised when the teacher id is already taken becomes the outcome `DuplicateTeacherId`. The script does not catch that error, so in the source it escapes after the profile was saved.
- Access to a course by a teacher whose course has no teacher (`course.teacher.user` on None) is modelled as a server error, which is what the uncaught AttributeError produces.

## Findings

| source | as written | input that shows it | evidently intended | confidence | as-written member | corrected member |
|---|---|---|---|---|---|---|
| courses/views.py:404-414 | Teacher score entry assigns the POSTed strings to `midterm_score` and `final_score` and calls `save()`. `save()` does not run field validators, so the `MinValueValidator(0)` and `MaxValueValidator(100)` of courses/models.py:113 and 121 are never applied. | A midterm of "150" (any value up to 999.99 that fits `max_digits=5`) for an enrollment with no scores is stored, and the total and averages can exceed 100. | Scores outside [0, 100] are rejected and the stored scores stay within range. | medium, not executed | `Enrollments.RecordScoresAcceptsOutOfRange` | `Enrollments.ValidatedScoresStayInRange` |

The as-written update is `Database.Store.UpdateScores`. The corrected update is `Database.Store.UpdateScoresValidated`, built on `Enrollments.RecordScoresValidated`. The validated version keeps every stored score inside the validators' range.
