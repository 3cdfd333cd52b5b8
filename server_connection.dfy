/**
 * `ServerConnection`: the session and the store as fields, and one method per
 * operation. Each method walks the checks of the source in their order and
 * writes the store or the session only on success; its postcondition ties
 * the answer and the new state to the matching function of `Service`, whose
 * properties are proved there.
 */
module Connection {
  import opened Wrappers
  import opened Text
  import opened Seqs
  import opened TableModels
  import opened Validation
  import opened Store
  import opened Search
  import opened Service

  class ServerConnection {
    var db: Db
    var session: Option<User>

    ghost predicate Valid()
      reads this
    {
      db.Valid()
    }

    /** `new`: a connection to the given store, nobody signed in. */
    constructor(initial: Db)
      requires initial.Valid()
      ensures Valid() && db == initial && session == None
    {
      db := initial;
      session := None;
    }

    // -------------------------------------------------------------------------
    // Reads
    // -------------------------------------------------------------------------

    /** `get_users`: every user, in table order. */
    method GetUsers() returns (users: seq<User>)
      ensures users == db.users
    {
      users := FindUsers(db.users, [], None);
      FindEveryRow(db.users, [], None);
    }

    /** `get_user`: the user with this id; the lookup can find at most one row. */
    method GetUser(id: int) returns (r: Result<User>)
      requires Valid()
      ensures r.Ok? <==> exists i :: 0 <= i < |db.users| && db.users[i].id == id
      ensures r.Ok? ==> r.value in db.users && r.value.id == id
      ensures r.Err? ==> r.error == NoUserFound
    {
      var finding := FindUsers(db.users, [Id(id)], None);
      FindByIdAtMostOne(db.users, id);
      assert |finding| <= 1;
      if finding == [] {
        r := Err(NoUserFound);
      } else {
        assert finding[0] in finding;
        r := Ok(finding[0]);
      }
    }

    /** `get_users_by_filters`: the users every filter accepts, in table order. */
    method GetUsersByFilters(filters: seq<UsersFilter>) returns (users: seq<User>)
      ensures users == FindUsers(db.users, filters, None)
      ensures forall u :: u in users <==> u in db.users && Accepts(u, filters, None)
      ensures IsSubsequence(users, db.users)
    {
      users := FindUsers(db.users, filters, None);
    }

    /** `search_users`: the users one of whose username, e-mail, phone or id text contains the query. */
    method SearchUsers(query: string) returns (users: seq<User>)
      ensures users == Search.SearchUsers(db.users, query)
      ensures forall u :: u in users <==> u in db.users && UserMatchesQuery(u, query)
    {
      var findings := FindUsers(db.users, [All], Some(Or));
      users := Filter(findings, MatchesQuery(query));
    }

    /** `search_courses`: the four-way join against the trimmed, lower-cased query. */
    method SearchCourses(query: string) returns (rows: seq<Row>)
      ensures rows == Search.SearchCourses(db, query)
    {
      var q := Lower(Trim(query));
      rows := JoinCoursesWithData(db.courses, db.teacherAccounts, db.departments, db.users, q);
    }

    /** `generate_statistics`. */
    method GenerateStatistics() returns (stats: Statistics)
      ensures stats == Service.GenerateStatistics(db)
    {
      var all := GetUsers();
      FindEveryRow(db.users, [], None);
      var suspended := GetUsersByFilters([Suspended(true)]);
      var faculty := GetUsersByFilters([Role("teacher")]);
      var students := GetUsersByFilters([Role("student")]);
      var graduated := Filter(db.studentAccounts, CanGraduate);
      stats := Statistics(|all|, |suspended|, |faculty|, |students| - |suspended|, |graduated|,
                          |db.courses|, |db.departments|);
    }

    // -------------------------------------------------------------------------
    // Session
    // -------------------------------------------------------------------------

    /** `register_user`. */
    method RegisterUser(user: User, hash: string -> string) returns (r: Result<()>)
      requires Valid()
      modifies this
      ensures Valid() && session == old(session)
      ensures Committed(r, db, old(db), Service.RegisterUser(old(session), old(db), user, hash))
    {
      if session.Some? {
        return Err(MustBeSignedOut);
      }
      var taken := GetUsersByFilters([Email(Lower(user.email))]);
      if |taken| > 0 {
        return Err(EmailTaken);
      }
      if user.username == [] {
        return Err(EmptyUsername);
      }
      if !IsAubgEmail(user.email) {
        return Err(InvalidEmail);
      }
      if !IsPhone(user.phone) && user.phone != [] {
        return Err(InvalidPhone);
      }
      if !PasswordRules(user.password) {
        return Err(WeakPassword);
      }
      db := InsertUser(db, user.(password := hash(user.password)));
      r := Ok(());
    }

    /** `login`: on success the session becomes the stored user; on failure nothing changes. */
    method Login(email: string, password: string, verify: (string, string) -> bool) returns (r: Result<()>)
      modifies this
      ensures db == old(db)
      ensures match Service.Login(old(db), email, password, verify)
              case Ok(u) => r == Ok(()) && session == Some(u)
              case Err(e) => r == Err(e) && session == old(session)
    {
      var binding := GetUsersByFilters([Email(email)]);
      if binding == [] {
        return Err(UserNotFound);
      }
      var user := binding[0];
      if user.suspended {
        return Err(UserSuspended);
      }
      if verify(user.password, password) {
        session := Some(user);
        r := Ok(());
      } else {
        r := Err(InvalidCredentials);
      }
    }

    /** `logout`. */
    method Logout()
      modifies this
      ensures session == None && db == old(db)
    {
      session := None;
    }

    // -------------------------------------------------------------------------
    // Users
    // -------------------------------------------------------------------------

    /** `update_user`. */
    method UpdateUser(user: User) returns (r: Result<()>)
      requires Valid()
      modifies this
      ensures Valid() && session == old(session)
      ensures Committed(r, db, old(db), Service.UpdateUser(old(session), old(db), user))
    {
      if session.None? {
        return Err(MustBeSignedIn);
      }
      var s := session.value;
      if Lower(s.role) == "admin" {
        r := UpdateUserAsAdmin(user);
      } else {
        r := UpdateUserAsStudent(user);
      }
    }

    /** `update_user_as_admin`. */
    method UpdateUserAsAdmin(user: User) returns (r: Result<()>)
      requires Valid()
      modifies this
      ensures Valid() && session == old(session)
      ensures Committed(r, db, old(db), Service.UpdateUserAsAdmin(old(db), user))
    {
      var binding := GetUsersByFilters([Id(user.id)]);
      if binding == [] {
        return Err(UserNotFound);
      }
      db := UpdateUserRow(db, user);
      r := Ok(());
    }

    /** `update_user_as_student`. */
    method UpdateUserAsStudent(user: User) returns (r: Result<()>)
      requires Valid()
      modifies this
      ensures Valid() && session == old(session)
      ensures Committed(r, db, old(db), Service.UpdateUserAsStudent(old(db), user))
    {
      var binding := GetUsersByFilters([Id(user.id)]);
      if binding == [] {
        return Err(UserNotFound);
      }
      var u := binding[0];
      if user.username != u.username {
        return Err(UsernameChanged);
      }
      if user.suspended != u.suspended {
        return Err(SuspendedChanged);
      }
      if user.verified != u.verified {
        return Err(VerifiedChanged);
      }
      if user.role != u.role {
        return Err(RoleChanged);
      }
      db := UpdateUserRow(db, user);
      r := Ok(());
    }

    /** `delete_user`. */
    method DeleteUser(user: User) returns (r: Result<()>)
      requires Valid()
      modifies this
      ensures Valid() && session == old(session)
      ensures Committed(r, db, old(db), Service.DeleteUser(old(session), old(db), user))
    {
      if session.None? {
        return Err(MustBeSignedIn);
      }
      var s := session.value;
      if Lower(s.role) == "admin" {
        if user.id != s.id {
          db := DeleteUserRows(db, user.id);
          r := Ok(());
        } else {
          r := Err(CannotDeleteOwnAccount);
        }
      } else {
        if user.id == s.id {
          db := DeleteUserRows(db, user.id);
          r := Ok(());
        } else {
          r := Err(PermissionDenied);
        }
      }
    }

    /** `set_user_role`. */
    method SetUserRole(user: User, role: string) returns (r: Result<()>)
      requires Valid()
      modifies this
      ensures Valid() && session == old(session)
      ensures Committed(r, db, old(db), Service.SetUserRole(old(session), old(db), user, role))
    {
      if session.None? {
        return Err(MustBeSignedIn);
      }
      if Lower(session.value.role) == "admin" {
        var updated := WithRole(user, role);
        db := UpdateUserRow(db, updated);
        r := Ok(());
      } else {
        r := Err(PermissionDenied);
      }
    }

    /** `suspend_user`. */
    method SuspendUser(user: User) returns (r: Result<()>)
      requires Valid()
      modifies this
      ensures Valid() && session == old(session)
      ensures Committed(r, db, old(db), Service.SuspendUser(old(session), old(db), user))
    {
      if session.None? {
        return Err(MustBeSignedIn);
      }
      if Lower(session.value.role) == "admin" {
        var updated := user.(suspended := true);
        db := UpdateUserRow(db, updated);
        r := Ok(());
      } else {
        r := Err(PermissionDenied);
      }
    }

    /** `unsuspend_user`. */
    method UnsuspendUser(user: User) returns (r: Result<()>)
      requires Valid()
      modifies this
      ensures Valid() && session == old(session)
      ensures Committed(r, db, old(db), Service.UnsuspendUser(old(session), old(db), user))
    {
      if session.None? {
        return Err(MustBeSignedIn);
      }
      if Lower(session.value.role) == "admin" {
        var updated := user.(suspended := false);
        db := UpdateUserRow(db, updated);
        r := Ok(());
      } else {
        r := Err(PermissionDenied);
      }
    }

    // -------------------------------------------------------------------------
    // Courses
    // -------------------------------------------------------------------------

    /** `register_courses`. */
    method RegisterCourses(courses: seq<Course>) returns (r: Result<()>)
      requires Valid()
      modifies this
      ensures Valid() && session == old(session)
      ensures Committed(r, db, old(db), Service.RegisterCourses(old(session), old(db), courses))
    {
      if session.None? {
        return Err(MustBeSignedIn);
      }
      var s := session.value;
      var role := Lower(s.role);
      if role == "admin" {
        db := InsertCourses(db, courses);
        r := Ok(());
      } else if role == "teacher" {
        var errors := Filter(courses, NotTaughtBy(s.id));
        if |errors| > 0 {
          return Err(ForeignCourses);
        }
        db := InsertCourses(db, courses);
        r := Ok(());
      } else {
        r := Err(PermissionDenied);
      }
    }

    /** `remove_courses`. */
    method RemoveCourses(courses: seq<Course>) returns (r: Result<()>)
      requires Valid()
      modifies this
      ensures Valid() && session == old(session)
      ensures Committed(r, db, old(db), Service.RemoveCourses(old(session), old(db), courses))
    {
      if session.None? {
        return Err(MustBeSignedIn);
      }
      var s := session.value;
      var role := Lower(s.role);
      if role == "admin" {
        db := DeleteCourses(db, courses);
        r := Ok(());
      } else if role == "teacher" {
        var errors := Filter(courses, NotTaughtBy(s.id));
        if |errors| > 0 {
          return Err(ForeignCourses);
        }
        db := DeleteCourses(db, courses);
        r := Ok(());
      } else {
        r := Err(PermissionDenied);
      }
    }

    /** `update_courses`. */
    method UpdateCourses(courses: seq<Course>) returns (r: Result<()>)
      requires Valid()
      modifies this
      ensures Valid() && session == old(session)
      ensures Committed(r, db, old(db), Service.UpdateCourses(old(session), old(db), courses))
    {
      if session.None? {
        return Err(MustBeSignedIn);
      }
      var s := session.value;
      var role := Lower(s.role);
      if role == "admin" {
        db := Store.UpdateCourses(db, courses);
        r := Ok(());
      } else if role == "teacher" {
        var errors := Filter(courses, NotTaughtBy(s.id));
        if |errors| > 0 {
          return Err(ForeignCourses);
        }
        db := Store.UpdateCourses(db, courses);
        r := Ok(());
      } else {
        r := Err(PermissionDenied);
      }
    }

    /** `enroll_courses`. */
    method EnrollCourses(courses: seq<Course>, month: int) returns (r: Result<()>)
      requires Valid()
      modifies this
      ensures Valid() && session == old(session)
      ensures Committed(r, db, old(db), Service.EnrollCourses(old(session), old(db), courses, month))
    {
      if session.None? {
        return Err(MustBeSignedIn);
      }
      var s := session.value;
      if Lower(s.role) == "student" {
        // `transmute_course_to_student_course` on each course, for the signed-in student.
        var upcast := TransmuteAll(s, courses, month);
        var errors := Filter(upcast, NotStudent(s.id));
        if |errors| > 0 {
          return Err(ForeignCourses);
        }
        db := InsertEnrollments(db, upcast);
        r := Ok(());
      } else {
        r := Err(PermissionDenied);
      }
    }

    /** `drop_courses`. */
    method DropCourses(courses: seq<Course>, month: int) returns (r: Result<()>)
      requires Valid()
      modifies this
      ensures Valid() && session == old(session)
      ensures Committed(r, db, old(db), Service.DropCourses(old(session), old(db), courses, month))
    {
      if session.None? {
        return Err(MustBeSignedIn);
      }
      var s := session.value;
      if Lower(s.role) == "student" {
        // `transmute_course_to_student_course` on each course, for the signed-in student.
        var upcast := TransmuteAll(s, courses, month);
        var errors := Filter(upcast, NotStudent(s.id));
        if |errors| > 0 {
          return Err(ForeignCourses);
        }
        db := DeleteEnrollments(db, upcast);
        r := Ok(());
      } else {
        r := Err(PermissionDenied);
      }
    }
  }
}
