/**
 * fix_account.py: turns the account with a given username into a teacher
 * account. It get-or-creates the user's profile and sets its role to
 * teacher, then get-or-creates a Teacher row for the user; the teacher id and
 * department are used only when that row is created. The two steps are not
 * one transaction.
 */
module FixAccount {
  import opened Wrappers
  import opened Models
  import Database

  datatype Outcome =
    | Fixed(teacherCreated: bool)
    | UserNotFound          // User.DoesNotExist, reported and swallowed
    | DuplicateTeacherId    // creating the Teacher row violates unique teacher_id; the exception escapes

  /** The user User.objects.get(username=...) returns. */
  ghost function UserNamed(users: map<UserId, User>, name: string): (u: UserId)
    requires UsernameTaken(users, name)
    ensures u in users && users[u].username == name
  {
    var u :| u in users && users[u].username == name; u
  }

  /** The profile after get_or_create and the role update. */
  function TeacherProfile(profiles: map<UserId, Profile>, u: UserId): (p: Profile)
    ensures p.role == TeacherRole
    ensures u in profiles ==> p.studentId == profiles[u].studentId && p.teacherId == profiles[u].teacherId
    ensures u !in profiles ==> p == Profile(TeacherRole, None, None)
  {
    var p := if u in profiles then profiles[u] else DefaultProfile;
    if p.role != TeacherRole then p.(role := TeacherRole) else p
  }

  /** What one run of fix_account does to the profile and teacher tables, and how it ends. */
  ghost function Fix(users: map<UserId, User>, profiles: map<UserId, Profile>,
                     teachers: map<TeacherKey, Teacher>, nextTeacher: TeacherKey,
                     username: string, teacherId: string, department: string)
    : (r: (map<UserId, Profile>, map<TeacherKey, Teacher>, TeacherKey, Outcome))
    ensures r.3 == UserNotFound <==> !UsernameTaken(users, username)
    ensures r.3 == UserNotFound ==> r.0 == profiles && r.1 == teachers && r.2 == nextTeacher
    ensures r.0.Keys <= profiles.Keys + users.Keys
    ensures teachers.Keys <= r.1.Keys <= teachers.Keys + {nextTeacher}
    ensures KeysBelow(teachers, nextTeacher) ==> forall k :: k in teachers ==> r.1[k] == teachers[k]
    ensures r.3 == Fixed(true) <==> r.2 == nextTeacher + 1
    ensures r.3 != Fixed(true) ==> r.1 == teachers && r.2 == nextTeacher
  {
    if !UsernameTaken(users, username) then (profiles, teachers, nextTeacher, UserNotFound)
    else
      var u := UserNamed(users, username);
      var profiles' := profiles[u := TeacherProfile(profiles, u)];
      if HasTeacherFor(teachers, u) then (profiles', teachers, nextTeacher, Fixed(false))
      else if TeacherIdTaken(teachers, teacherId) then (profiles', teachers, nextTeacher, DuplicateTeacherId)
      else (profiles', teachers[nextTeacher := Teacher(u, teacherId, department)], nextTeacher + 1, Fixed(true))
  }

  /** An unknown username leaves both tables as they were. */
  lemma FixUnknownUser(users: map<UserId, User>, profiles: map<UserId, Profile>,
                       teachers: map<TeacherKey, Teacher>, nextTeacher: TeacherKey,
                       username: string, teacherId: string, department: string)
    requires !UsernameTaken(users, username)
    ensures Fix(users, profiles, teachers, nextTeacher, username, teacherId, department)
         == (profiles, teachers, nextTeacher, UserNotFound)
  {
  }

  /**
   * After a successful run the user has a profile with role teacher (its
   * other fields kept) and exactly one Teacher row references the user; no
   * other profile changes.
   */
  lemma FixMakesTeacher(users: map<UserId, User>, profiles: map<UserId, Profile>,
                        teachers: map<TeacherKey, Teacher>, nextTeacher: TeacherKey,
                        username: string, teacherId: string, department: string)
    requires UniqueTeacherUsers(teachers) && KeysBelow(teachers, nextTeacher)
    requires UsernameTaken(users, username)
    ensures var (profiles', teachers', _, outcome) := Fix(users, profiles, teachers, nextTeacher, username, teacherId, department);
            var u := UserNamed(users, username);
            && u in profiles' && profiles'[u].role == TeacherRole
            && (u in profiles ==> profiles'[u] == profiles[u].(role := TeacherRole))
            && (u !in profiles ==> profiles'[u] == Profile(TeacherRole, None, None))
            && (forall v :: v in profiles && v != u ==> v in profiles' && profiles'[v] == profiles[v])
            && (outcome.Fixed? ==> |TeacherRowsOf(teachers', u)| == 1)
  {
    var (profiles', teachers', n', outcome) := Fix(users, profiles, teachers, nextTeacher, username, teacherId, department);
    var u := UserNamed(users, username);
    if HasTeacherFor(teachers, u) {
      var k :| k in teachers && teachers[k].user == u;
      assert TeacherRowsOf(teachers', u) == {k};
    } else if outcome.Fixed? {
      assert TeacherRowsOf(teachers', u) == {nextTeacher};
    }
  }

  /** An existing Teacher row is kept as it is: the arguments are used only on creation. */
  lemma FixKeepsExistingTeacher(users: map<UserId, User>, profiles: map<UserId, Profile>,
                                teachers: map<TeacherKey, Teacher>, nextTeacher: TeacherKey,
                                username: string, teacherId: string, department: string)
    requires UsernameTaken(users, username) && HasTeacherFor(teachers, UserNamed(users, username))
    ensures var r := Fix(users, profiles, teachers, nextTeacher, username, teacherId, department);
            r.1 == teachers && r.2 == nextTeacher && r.3 == Fixed(false)
  {
  }

  /**
   * The steps are not atomic: when creating the Teacher row fails on a taken
   * teacher id, the role has already been saved as teacher and no Teacher row
   * references the user.
   */
  lemma FixFailureLeavesRoleWithoutTeacher(users: map<UserId, User>, profiles: map<UserId, Profile>,
                                           teachers: map<TeacherKey, Teacher>, nextTeacher: TeacherKey,
                                           username: string, teacherId: string, department: string)
    requires Fix(users, profiles, teachers, nextTeacher, username, teacherId, department).3 == DuplicateTeacherId
    ensures UsernameTaken(users, username)
    ensures var r := Fix(users, profiles, teachers, nextTeacher, username, teacherId, department);
            var u := UserNamed(users, username);
            && r.0[u].role == TeacherRole && r.1 == teachers
            && !HasTeacherFor(r.1, u) && TeacherIdTaken(teachers, teacherId)
  {
  }

  /** Running fix_account twice has the effect of running it once, and ends the same way. */
  lemma FixIdempotent(users: map<UserId, User>, profiles: map<UserId, Profile>,
                      teachers: map<TeacherKey, Teacher>, nextTeacher: TeacherKey,
                      username: string, teacherId: string, department: string)
    requires KeysBelow(teachers, nextTeacher)
    ensures var r := Fix(users, profiles, teachers, nextTeacher, username, teacherId, department);
            var r2 := Fix(users, r.0, r.1, r.2, username, teacherId, department);
            r2.0 == r.0 && r2.1 == r.1 && r2.2 == r.2
            && (r.3 == UserNotFound || r.3 == DuplicateTeacherId ==> r2.3 == r.3)
            && (r.3.Fixed? ==> r2.3 == Fixed(false))
  {
    var r := Fix(users, profiles, teachers, nextTeacher, username, teacherId, department);
    if UsernameTaken(users, username) {
      var u := UserNamed(users, username);
      assert TeacherProfile(r.0, u) == TeacherProfile(profiles, u);
      assert r.0[u := TeacherProfile(r.0, u)] == r.0;
      if r.3 == Fixed(true) {
        assert r.1[nextTeacher].user == u;
      }
    }
  }

  /** A run keeps one Teacher row per user, unique teacher ids and the keys below the counter. */
  lemma FixKeepsConstraints(users: map<UserId, User>, profiles: map<UserId, Profile>,
                            teachers: map<TeacherKey, Teacher>, nextTeacher: TeacherKey,
                            username: string, teacherId: string, department: string)
    requires UniqueTeacherUsers(teachers) && UniqueTeacherIds(teachers) && KeysBelow(teachers, nextTeacher)
    requires forall k :: k in teachers ==> teachers[k].user in users
    requires profiles.Keys <= users.Keys
    ensures var r := Fix(users, profiles, teachers, nextTeacher, username, teacherId, department);
            && UniqueTeacherUsers(r.1) && UniqueTeacherIds(r.1) && KeysBelow(r.1, r.2)
            && (forall k :: k in r.1 ==> r.1[k].user in users)
            && r.0.Keys <= users.Keys
            && r.2 >= nextTeacher
  {
  }

  /** UserProfile.objects.get_or_create(user=u), then the role set to teacher and saved. */
  method SaveTeacherRole(db: Database.Store, u: UserId)
    requires db.Valid() && u in db.users
    modifies db
    ensures db.Valid()
    ensures db.profiles == old(db.profiles)[u := TeacherProfile(old(db.profiles), u)]
    ensures db.users == old(db.users) && db.teachers == old(db.teachers)
    ensures db.nextUser == old(db.nextUser) && db.nextTeacher == old(db.nextTeacher)
    ensures db.SameCourses() && db.SameEnrollments() && db.SameComments()
  {
    var profile := if u in db.profiles then db.profiles[u] else DefaultProfile;
    if profile.role != TeacherRole {
      profile := profile.(role := TeacherRole);
    }
    SetProfileKeepsIds(db.profiles, u, profile);
    db.profiles := db.profiles[u := profile];
  }

  /**
   * Teacher.objects.get_or_create(user=u, defaults=...): an existing row is
   * kept; otherwise a row is created, unless the teacher id is taken.
   */
  method GetOrCreateTeacher(db: Database.Store, u: UserId, teacherId: string, department: string)
    returns (outcome: Outcome)
    requires db.Valid() && u in db.users
    modifies db
    ensures db.Valid()
    ensures db.users == old(db.users) && db.profiles == old(db.profiles) && db.nextUser == old(db.nextUser)
    ensures db.SameCourses() && db.SameEnrollments() && db.SameComments()
    ensures HasTeacherFor(old(db.teachers), u) ==>
              outcome == Fixed(false) && db.teachers == old(db.teachers) && db.nextTeacher == old(db.nextTeacher)
    ensures !HasTeacherFor(old(db.teachers), u) && TeacherIdTaken(old(db.teachers), teacherId) ==>
              outcome == DuplicateTeacherId && db.teachers == old(db.teachers) && db.nextTeacher == old(db.nextTeacher)
    ensures !HasTeacherFor(old(db.teachers), u) && !TeacherIdTaken(old(db.teachers), teacherId) ==>
              && outcome == Fixed(true)
              && db.teachers == old(db.teachers)[old(db.nextTeacher) := Teacher(u, teacherId, department)]
              && db.nextTeacher == old(db.nextTeacher) + 1
  {
    if HasTeacherFor(db.teachers, u) {
      return Fixed(false);
    }
    if TeacherIdTaken(db.teachers, teacherId) {
      return DuplicateTeacherId;
    }
    var teachers := db.teachers[db.nextTeacher := Teacher(u, teacherId, department)];
    forall c | c in db.courses ensures TeacherResolves(db.courses[c], teachers, db.users) {
      assert TeacherResolves(db.courses[c], db.teachers, db.users);
    }
    db.teachers, db.nextTeacher := teachers, db.nextTeacher + 1;
    outcome := Fixed(true);
  }

  /** fix_account(username, teacher_id, department) against the database. */
  method FixAccountScript(db: Database.Store, username: string, teacherId: string, department: string)
    returns (outcome: Outcome)
    requires db.Valid()
    modifies db
    ensures db.Valid()
    ensures (db.profiles, db.teachers, db.nextTeacher, outcome)
         == Fix(old(db.users), old(db.profiles), old(db.teachers), old(db.nextTeacher), username, teacherId, department)
    ensures db.users == old(db.users) && db.nextUser == old(db.nextUser)
    ensures db.SameCourses() && db.SameEnrollments() && db.SameComments()
  {
    if !UsernameTaken(db.users, username) {
      outcome := UserNotFound;
      return;
    }
    var u :| u in db.users && db.users[u].username == username;
    assert u == UserNamed(db.users, username);
    SaveTeacherRole(db, u);
    outcome := GetOrCreateTeacher(db, u, teacherId, department);
  }
}
