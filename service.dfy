/**
 * What each operation of the server connection does, as a function of the
 * session and the store: the checks it makes, in the order it makes them,
 * the error it reports, and the store it leaves behind. An operation that
 * fails returns its error and writes nothing, because the store is changed
 * only on the `Ok` path.
 *
 * The password hash (with its random salt) and the password check are
 * parameters; so is the current month.
 */
module Service {
  import opened Wrappers
  import opened Text
  import opened Seqs
  import opened TableModels
  import opened Validation
  import opened Store
  import opened Search

  datatype Error =
    | MustBeSignedOut
    | EmailTaken
    | EmptyUsername
    | InvalidEmail
    | InvalidPhone
    | WeakPassword
    | UserNotFound
    | UserSuspended
    | InvalidCredentials
    | MustBeSignedIn
    | CannotDeleteOwnAccount
    | PermissionDenied
    | ForeignCourses
    | UsernameChanged
    | SuspendedChanged
    | VerifiedChanged
    | RoleChanged
    | NoUserFound

  datatype Result<T> = Ok(value: T) | Err(error: Error)

  /** The connection's answer and store after an operation whose effect is `spec`. */
  predicate Committed(r: Result<()>, after: Db, before: Db, spec: Result<Db>) {
    match spec
    case Ok(d) => r == Ok(()) && after == d
    case Err(e) => r == Err(e) && after == before
  }

  /** Roles are compared after lower-casing. */
  predicate RoleIs(u: User, name: string) {
    Lower(u.role) == name
  }

  // ---------------------------------------------------------------------------
  // Registration and login
  // ---------------------------------------------------------------------------

  /** `register_user`: six checks in order, then the user is stored with a hashed password. */
  function RegisterUser(session: Option<User>, db: Db, user: User, hash: string -> string): Result<Db> {
    if session.Some? then Err(MustBeSignedOut)
    else if |FindUsers(db.users, [Email(Lower(user.email))], None)| > 0 then Err(EmailTaken)
    else if user.username == [] then Err(EmptyUsername)
    else if !IsAubgEmail(user.email) then Err(InvalidEmail)
    else if !IsPhone(user.phone) && user.phone != [] then Err(InvalidPhone)
    else if !PasswordRules(user.password) then Err(WeakPassword)
    else Ok(InsertUser(db, user.(password := hash(user.password))))
  }

  /** No user is found by an e-mail exactly when no stored user has it. */
  lemma FindByEmailEmptyIff(users: seq<User>, e: string)
    ensures FindUsers(users, [Email(e)], None) == [] <==> forall x :: x in users ==> x.email != e
  {
    var found := FindUsers(users, [Email(e)], None);
    if found == [] {
      forall x | x in users ensures x.email != e {
        assert x.email == e ==> Accepts(x, [Email(e)], None);
      }
    } else {
      assert found[0] in found;
      assert UserMatches(found[0], [Email(e)][0]);
    }
  }

  /**
   * Registration succeeds exactly when nobody is signed in, no stored user has
   * the lower-cased e-mail, the username is not empty, the e-mail and the
   * (non-empty) phone have the required form and the password is strong.
   */
  lemma RegisterUserIff(session: Option<User>, db: Db, user: User, hash: string -> string)
    ensures RegisterUser(session, db, user, hash).Ok? <==>
              session.None?
              && (forall x :: x in db.users ==> x.email != Lower(user.email))
              && user.username != []
              && EmailPattern(user.email)
              && (user.phone == [] || PhonePattern(user.phone))
              && PasswordRules(user.password)
  {
    IsAubgEmailMatchesPattern(user.email);
    IsPhoneMatchesPattern(user.phone);
    FindByEmailEmptyIff(db.users, Lower(user.email));
  }

  /** A registration that succeeds appends exactly one user, under a fresh id and with the hashed password. */
  lemma RegisterUserAppendsOne(session: Option<User>, db: Db, user: User, hash: string -> string)
    requires RegisterUser(session, db, user, hash).Ok?
    ensures RegisterUser(session, db, user, hash).value
            == db.(users := db.users + [user.(password := hash(user.password), id := db.nextUserId)],
                   nextUserId := db.nextUserId + 1)
  {
  }

  function UserEmail(u: User): string { u.email }

  /** Registration keeps stored e-mails distinct: a registered address is lower case, so the check on its lower-cased form covers it. */
  lemma RegisterKeepsEmailsDistinct(session: Option<User>, db: Db, user: User, hash: string -> string)
    requires DistinctBy(db.users, UserEmail)
    requires RegisterUser(session, db, user, hash).Ok?
    ensures DistinctBy(RegisterUser(session, db, user, hash).value.users, UserEmail)
  {
    assert IsAubgEmail(user.email);
    FindByEmailEmptyIff(db.users, Lower(user.email));
    AubgEmailIsLowerCase(user.email);
    var users := RegisterUser(session, db, user, hash).value.users;
    forall i | 0 <= i < |db.users| ensures UserEmail(users[i]) != UserEmail(users[|db.users|]) {
      assert db.users[i] in db.users;
    }
  }

  /** `login`: the first user with exactly this e-mail, if not suspended and the password verifies. */
  function Login(db: Db, email: string, password: string, verify: (string, string) -> bool): Result<User> {
    var found := FindUsers(db.users, [Email(email)], None);
    if found == [] then Err(UserNotFound)
    else if found[0].suspended then Err(UserSuspended)
    else if verify(found[0].password, password) then Ok(found[0])
    else Err(InvalidCredentials)
  }

  /** `u` is the first stored user whose e-mail is exactly `email`. */
  ghost predicate FirstUserWithEmail(users: seq<User>, u: User, email: string) {
    exists k :: 0 <= k < |users| && users[k] == u && u.email == email
                && forall j :: 0 <= j < k ==> users[j].email != email
  }

  /** Login admits exactly the first user with the e-mail, when not suspended and when the password verifies. */
  lemma LoginIff(db: Db, email: string, password: string, verify: (string, string) -> bool, u: User)
    ensures Login(db, email, password, verify) == Ok(u) <==>
              FirstUserWithEmail(db.users, u, email) && !u.suspended && verify(u.password, password)
  {
    var p := MatcherOf([Email(email)], None);
    assert forall x :: p(x) <==> x.email == email by {
      forall x ensures p(x) <==> x.email == email {
        assert p(x) == UserMatches(x, [Email(email)][0]);
      }
    }
    FilterHeadIsFirst(db.users, p);
    FirstSpec(db.users, p, u);
    if FirstUserWithEmail(db.users, u, email) {
      assert FirstWith(db.users, u, p);
      assert Filter(db.users, p) != [] by {
        assert u in Filter(db.users, p);
      }
    }
  }

  // ---------------------------------------------------------------------------
  // Users
  // ---------------------------------------------------------------------------

  /** `update_user_as_admin`: any stored user may be rewritten. */
  function UpdateUserAsAdmin(db: Db, user: User): Result<Db> {
    if FindUsers(db.users, [Id(user.id)], None) == [] then Err(UserNotFound)
    else Ok(UpdateUserRow(db, user))
  }

  /** `update_user_as_student`: the stored row's username, suspended, verified and role must be kept. */
  function UpdateUserAsStudent(db: Db, user: User): Result<Db> {
    var found := FindUsers(db.users, [Id(user.id)], None);
    if found == [] then Err(UserNotFound)
    else if user.username != found[0].username then Err(UsernameChanged)
    else if user.suspended != found[0].suspended then Err(SuspendedChanged)
    else if user.verified != found[0].verified then Err(VerifiedChanged)
    else if user.role != found[0].role then Err(RoleChanged)
    else Ok(UpdateUserRow(db, user))
  }

  /** `update_user`: admins take the first path, every other signed-in role the second. */
  function UpdateUser(session: Option<User>, db: Db, user: User): Result<Db> {
    match session
    case None => Err(MustBeSignedIn)
    case Some(s) => if RoleIs(s, "admin") then UpdateUserAsAdmin(db, user) else UpdateUserAsStudent(db, user)
  }

  /** The four fields a non-admin may not change. */
  predicate SameProtectedFields(a: User, b: User) {
    a.username == b.username && a.suspended == b.suspended && a.verified == b.verified && a.role == b.role
  }

  /**
   * A non-admin update succeeds exactly when the id is stored and the four
   * protected fields agree with the stored row; afterwards no stored row has
   * a protected field changed. Whose row it is does not matter.
   */
  lemma UpdateUserAsStudentIff(db: Db, user: User)
    requires db.Valid()
    ensures UpdateUserAsStudent(db, user).Ok? <==>
              exists i :: 0 <= i < |db.users| && db.users[i].id == user.id && SameProtectedFields(db.users[i], user)
    ensures UpdateUserAsStudent(db, user).Ok? ==>
              var after := UpdateUserAsStudent(db, user).value.users;
              |after| == |db.users| && forall i :: 0 <= i < |db.users| ==> SameProtectedFields(after[i], db.users[i])
    ensures UpdateUserAsStudent(db, user).Ok? ==> UpdateUserAsStudent(db, user).value == UpdateUserRow(db, user)
  {
    FindByIdAtMostOne(db.users, user.id);
    var found := FindUsers(db.users, [Id(user.id)], None);
    if found != [] {
      var row := found[0];
      assert row in found;
      var k :| 0 <= k < |db.users| && db.users[k] == row;
      forall i | 0 <= i < |db.users| && db.users[i].id == user.id ensures i == k {
        SameIdSameIndex(db.users, i, k);
      }
    }
  }

  /** Under distinct ids, two positions holding the same id are the same position. */
  lemma SameIdSameIndex(users: seq<User>, i: int, k: int)
    requires DistinctBy(users, UserId)
    requires 0 <= i < |users| && 0 <= k < |users| && users[i].id == users[k].id
    ensures i == k
  {
    assert i < k ==> UserId(users[i]) != UserId(users[k]);
    assert k < i ==> UserId(users[k]) != UserId(users[i]);
  }

  /** `delete_user`. */
  function DeleteUser(session: Option<User>, db: Db, user: User): Result<Db> {
    match session
    case None => Err(MustBeSignedIn)
    case Some(s) =>
      if RoleIs(s, "admin") then
        if user.id != s.id then Ok(DeleteUserRows(db, user.id)) else Err(CannotDeleteOwnAccount)
      else if user.id == s.id then Ok(DeleteUserRows(db, user.id))
      else Err(PermissionDenied)
  }

  /**
   * A deletion goes through exactly when someone is signed in and being an
   * admin and deleting one's own account differ: admins delete anyone else,
   * everybody else only themselves. It removes the rows with that id.
   */
  lemma DeleteUserPermission(session: Option<User>, db: Db, user: User)
    ensures DeleteUser(session, db, user).Ok? <==>
              session.Some? && (RoleIs(session.value, "admin") <==> user.id != session.value.id)
    ensures DeleteUser(session, db, user).Ok? ==>
              forall x :: x in DeleteUser(session, db, user).value.users <==> x in db.users && x.id != user.id
  {
  }

  function WithRole(user: User, role: string): User { user.(role := role) }

  /** `set_user_role`: admins only; the given record is written with its role replaced. */
  function SetUserRole(session: Option<User>, db: Db, user: User, role: string): Result<Db> {
    match session
    case None => Err(MustBeSignedIn)
    case Some(s) => if RoleIs(s, "admin") then Ok(UpdateUserRow(db, WithRole(user, role))) else Err(PermissionDenied)
  }

  /** `suspend_user`: admins only; the given record is written with `suspended` set. */
  function SuspendUser(session: Option<User>, db: Db, user: User): Result<Db> {
    match session
    case None => Err(MustBeSignedIn)
    case Some(s) => if RoleIs(s, "admin") then Ok(UpdateUserRow(db, user.(suspended := true))) else Err(PermissionDenied)
  }

  /** `unsuspend_user`: admins only; the given record is written with `suspended` cleared. */
  function UnsuspendUser(session: Option<User>, db: Db, user: User): Result<Db> {
    match session
    case None => Err(MustBeSignedIn)
    case Some(s) => if RoleIs(s, "admin") then Ok(UpdateUserRow(db, user.(suspended := false))) else Err(PermissionDenied)
  }

  /** Role changes and (un)suspension succeed exactly for a signed-in admin, whether or not the user is stored. */
  lemma AdminOnlyUserOperations(session: Option<User>, db: Db, user: User, role: string)
    ensures SetUserRole(session, db, user, role).Ok? <==> session.Some? && RoleIs(session.value, "admin")
    ensures SuspendUser(session, db, user).Ok? <==> session.Some? && RoleIs(session.value, "admin")
    ensures UnsuspendUser(session, db, user).Ok? <==> session.Some? && RoleIs(session.value, "admin")
    ensures SuspendUser(session, db, user).Ok? ==>
              forall i :: 0 <= i < |db.users| && db.users[i].id == user.id ==>
                SuspendUser(session, db, user).value.users[i] == user.(suspended := true)
  {
  }

  /** Suspending twice leaves the store as suspending once. */
  lemma SuspendTwiceIsSuspendOnce(session: Option<User>, db: Db, user: User)
    requires SuspendUser(session, db, user).Ok?
    ensures SuspendUser(session, SuspendUser(session, db, user).value, user) == SuspendUser(session, db, user)
  {
    ReplaceRowsIdempotent(db.users, user.(suspended := true), UserId);
  }

  /** Suspending the stored record of an already suspended user succeeds and changes nothing. */
  lemma SuspendSuspendedUserIsNoOp(session: Option<User>, db: Db, user: User)
    requires db.Valid() && user in db.users && user.suspended
    requires session.Some? && RoleIs(session.value, "admin")
    ensures SuspendUser(session, db, user) == Ok(db)
  {
    var after := SuspendUser(session, db, user).value;
    var k :| 0 <= k < |db.users| && db.users[k] == user;
    forall i | 0 <= i < |db.users| ensures after.users[i] == db.users[i] {
      if db.users[i].id == user.id {
        SameIdSameIndex(db.users, i, k);
      }
    }
    assert after.users == db.users;
  }

  // ---------------------------------------------------------------------------
  // Course batches
  // ---------------------------------------------------------------------------

  function NotTaughtBy(k: int): Course -> bool { (c: Course) => c.teacherId != k }

  /** The permission gate of `register_courses`, `remove_courses` and `update_courses`. */
  function CourseGate(session: Option<User>, courses: seq<Course>): Result<()> {
    match session
    case None => Err(MustBeSignedIn)
    case Some(s) =>
      if RoleIs(s, "admin") then Ok(())
      else if RoleIs(s, "teacher") then
        if |Filter(courses, NotTaughtBy(s.id))| > 0 then Err(ForeignCourses) else Ok(())
      else Err(PermissionDenied)
  }

  /**
   * An admin's batch always passes, a teacher's batch passes exactly when
   * every course in it names the teacher, and every other session is refused.
   */
  lemma CourseGateIff(session: Option<User>, courses: seq<Course>)
    ensures CourseGate(session, courses).Ok? <==>
              session.Some?
              && (RoleIs(session.value, "admin")
                  || (RoleIs(session.value, "teacher")
                      && forall i :: 0 <= i < |courses| ==> courses[i].teacherId == session.value.id))
  {
    if session.Some? {
      var s := session.value;
      var errors := Filter(courses, NotTaughtBy(s.id));
      if |errors| > 0 {
        assert errors[0] in errors;
      } else {
        forall i | 0 <= i < |courses| ensures courses[i].teacherId == s.id {
          assert courses[i] !in errors;
        }
      }
    }
  }

  function RegisterCourses(session: Option<User>, db: Db, courses: seq<Course>): Result<Db> {
    match CourseGate(session, courses)
    case Err(e) => Err(e)
    case Ok(_) => Ok(InsertCourses(db, courses))
  }

  function RemoveCourses(session: Option<User>, db: Db, courses: seq<Course>): Result<Db> {
    match CourseGate(session, courses)
    case Err(e) => Err(e)
    case Ok(_) => Ok(DeleteCourses(db, courses))
  }

  function UpdateCourses(session: Option<User>, db: Db, courses: seq<Course>): Result<Db> {
    match CourseGate(session, courses)
    case Err(e) => Err(e)
    case Ok(_) => Ok(Store.UpdateCourses(db, courses))
  }

  /**
   * The course gate and the course search link a course to its teacher
   * differently: the gate compares `teacher_id` with the user id, the join
   * with the teacher account's own id. A course a teacher may register under
   * their user id is then dropped by the search when the two ids differ.
   */
  lemma TeacherGateAndJoinDisagree()
    ensures var s := User(4, "t", "", "t@aubg.edu", "", "", "", true, false, false, "teacher");
            var t := TeacherAccount(2, 4, 5, "");
            var c := Course(1, 4, "Art", 3, "", "");
            CourseGate(Some(s), [c]) == Ok(())
            && JoinCourse(c, [t], [Department(5, 2, "")], [s], "") == None
  {
    var s := User(4, "t", "", "t@aubg.edu", "", "", "", true, false, false, "teacher");
    var t := TeacherAccount(2, 4, 5, "");
    var c := Course(1, 4, "Art", 3, "", "");
    assert Lower("teacher") == "teacher";
    assert Lower("teacher") != "admin";
    assert Filter([c], NotTaughtBy(4)) == [] by {
      assert [c][..0] == [];
    }
    assert First([t], TeacherIdIs(4)) == None;
  }

  /**
   * The teacher gate reads the teacher id of the submitted records, never of
   * the stored rows: a teacher who submits a record carrying their own id
   * removes, or overwrites, whatever stored course has that record's id,
   * whoever teaches it.
   */
  lemma TeacherGateIgnoresStoredOwner(s: User, db: Db, c: Course)
    requires RoleIs(s, "teacher") && c.teacherId == s.id
    ensures RemoveCourses(Some(s), db, [c]).Ok?
    ensures forall x :: x in RemoveCourses(Some(s), db, [c]).value.courses <==> x in db.courses && x.id != c.id
    ensures UpdateCourses(Some(s), db, [c]).Ok?
    ensures forall i :: 0 <= i < |db.courses| && db.courses[i].id == c.id ==>
              UpdateCourses(Some(s), db, [c]).value.courses[i] == c
  {
    assert !RoleIs(s, "admin");
    FilterNone([c], NotTaughtBy(s.id));
    assert CourseIds([c]) == {c.id} by {
      assert CourseIds([c][..0]) == {};
    }
    assert forall k :: LastWithId([c], k) == (if k == c.id then Some(c) else None) by {
      assert [c][..0] == [];
    }
  }

  /** A concrete case: teacher 7 removes course 1, which teacher 99 teaches. */
  lemma TeacherRemovesForeignCourse()
    ensures var s := User(7, "t", "", "t@aubg.edu", "", "", "", true, false, false, "teacher");
            var stored := Course(1, 99, "Art", 3, "", "");
            var db := Db([s], [], [], [stored], [], [], 8, 2);
            RemoveCourses(Some(s), db, [stored.(teacherId := 7)]) == Ok(db.(courses := []))
  {
    var s := User(7, "t", "", "t@aubg.edu", "", "", "", true, false, false, "teacher");
    var stored := Course(1, 99, "Art", 3, "", "");
    var submitted := stored.(teacherId := 7);
    assert Lower("teacher") == "teacher";
    assert Lower("teacher") != "admin";
    assert [submitted][..0] == [] && [stored][..0] == [];
    assert Filter([submitted], NotTaughtBy(7)) == [];
    assert CourseIds([submitted]) == {1};
    assert Filter([stored], CourseIdNotIn({1})) == [];
  }

  // ---------------------------------------------------------------------------
  // Enrollment
  // ---------------------------------------------------------------------------

  /** The semester of a month: June to December is Fall, the rest Spring. */
  function Semester(month: int): (r: string)
    ensures r == "Fall" <==> 6 <= month <= 12
    ensures r == "Spring" <==> !(6 <= month <= 12)
  {
    if 6 <= month <= 12 then "Fall" else "Spring"
  }

  /** `transmute_course_to_student_course`: an ungraded enrollment of the signed-in user. */
  function Transmute(s: User, course: Course, month: int): (r: StudentCourse)
    ensures r.studentId == s.id && r.courseId == course.id && r.grade == -1
    ensures r.semester == "Fall" <==> 6 <= month <= 12
    ensures r.semester == "Spring" <==> !(6 <= month <= 12)
  {
    StudentCourse(s.id, course.id, -1, Semester(month))
  }

  /**
   * The records of a batch: one ungraded enrollment of the student per
   * course, in order; distinct course ids give distinct enrollment keys.
   */
  function TransmuteAll(s: User, courses: seq<Course>, month: int): (r: seq<StudentCourse>)
    ensures |r| == |courses|
    ensures forall i :: 0 <= i < |courses| ==>
              r[i].studentId == s.id && r[i].courseId == courses[i].id && r[i].grade == -1
              && (r[i].semester == "Fall" <==> 6 <= month <= 12)
    ensures DistinctBy(courses, CourseId) ==> DistinctBy(r, PairOf)
  {
    var r := seq(|courses|, i requires 0 <= i < |courses| => Transmute(s, courses[i], month));
    assert forall i, j :: 0 <= i < j < |courses| && PairOf(r[i]) == PairOf(r[j]) ==>
                          CourseId(courses[i]) == CourseId(courses[j]);
    r
  }

  function NotStudent(k: int): StudentCourse -> bool { (sc: StudentCourse) => sc.studentId != k }

  /** The gate of `enroll_courses` and `drop_courses`, yielding the enrollment records. */
  function EnrollmentGate(session: Option<User>, courses: seq<Course>, month: int): Result<seq<StudentCourse>> {
    match session
    case None => Err(MustBeSignedIn)
    case Some(s) =>
      if RoleIs(s, "student") then
        var scs := TransmuteAll(s, courses, month);
        if |Filter(scs, NotStudent(s.id))| > 0 then Err(ForeignCourses) else Ok(scs)
      else Err(PermissionDenied)
  }

  /**
   * The ownership check of enrollment can never fail: the gate passes exactly
   * for a signed-in student, and each record is that student's ungraded
   * enrollment in the course for the month's semester.
   */
  lemma EnrollmentGateIff(session: Option<User>, courses: seq<Course>, month: int)
    ensures EnrollmentGate(session, courses, month).Ok? <==> session.Some? && RoleIs(session.value, "student")
    ensures EnrollmentGate(session, courses, month).Ok? ==>
              var scs := EnrollmentGate(session, courses, month).value;
              |scs| == |courses|
              && forall i :: 0 <= i < |courses| ==>
                   scs[i].studentId == session.value.id && scs[i].courseId == courses[i].id
                   && scs[i].grade == -1 && (scs[i].semester == "Fall" <==> 6 <= month <= 12)
  {
    if session.Some? && RoleIs(session.value, "student") {
      var s := session.value;
      var scs := TransmuteAll(s, courses, month);
      FilterNone(scs, NotStudent(s.id));
    }
  }

  function EnrollCourses(session: Option<User>, db: Db, courses: seq<Course>, month: int): Result<Db> {
    match EnrollmentGate(session, courses, month)
    case Err(e) => Err(e)
    case Ok(scs) => Ok(InsertEnrollments(db, scs))
  }

  function DropCourses(session: Option<User>, db: Db, courses: seq<Course>, month: int): Result<Db> {
    match EnrollmentGate(session, courses, month)
    case Err(e) => Err(e)
    case Ok(scs) => Ok(DeleteEnrollments(db, scs))
  }

  /**
   * Enrolling never looks for an existing record: enrolling in the same
   * courses twice stores every transmuted record twice.
   */
  lemma EnrollTwiceStoresTwice(s: User, db: Db, courses: seq<Course>, month: int)
    requires RoleIs(s, "student")
    ensures EnrollCourses(Some(s), db, courses, month).Ok?
    ensures var once := EnrollCourses(Some(s), db, courses, month).value;
            var scs := multiset(TransmuteAll(s, courses, month));
            EnrollCourses(Some(s), once, courses, month).Ok?
            && multiset(EnrollCourses(Some(s), once, courses, month).value.studentCourses)
               == multiset(db.studentCourses) + scs + scs
  {
    EnrollmentGateIff(Some(s), courses, month);
  }

  /** An enrollment is kept by a drop unless it is the student's, in one of the listed course ids. */
  function NotDroppedBy(sid: int, ids: set<int>): StudentCourse -> bool {
    (x: StudentCourse) => !(x.studentId == sid && x.courseId in ids)
  }

  /**
   * Dropping removes every enrollment of the student in a listed course,
   * whatever its grade or semester, duplicates included, and keeps every
   * other row in its table order.
   */
  lemma DropRemovesStudentsEnrollments(s: User, db: Db, courses: seq<Course>, month: int)
    requires RoleIs(s, "student")
    ensures DropCourses(Some(s), db, courses, month).Ok?
    ensures DropCourses(Some(s), db, courses, month).value.studentCourses
            == Filter(db.studentCourses, NotDroppedBy(s.id, CourseIds(courses)))
    ensures forall x :: x in DropCourses(Some(s), db, courses, month).value.studentCourses <==>
              x in db.studentCourses
              && !(x.studentId == s.id && exists i :: 0 <= i < |courses| && x.courseId == courses[i].id)
  {
    EnrollmentGateIff(Some(s), courses, month);
    var scs := TransmuteAll(s, courses, month);
    forall x ensures (forall j :: 0 <= j < |scs| ==> PairOf(x) != PairOf(scs[j]))
                     <==> !(x.studentId == s.id && exists i :: 0 <= i < |courses| && x.courseId == courses[i].id)
    {
      if x.studentId == s.id && exists i :: 0 <= i < |courses| && x.courseId == courses[i].id {
        var i :| 0 <= i < |courses| && x.courseId == courses[i].id;
        assert PairOf(x) == PairOf(scs[i]);
      }
    }
    FilterExt(db.studentCourses, PairNotIn(Pairs(scs)), NotDroppedBy(s.id, CourseIds(courses)));
  }

  // ---------------------------------------------------------------------------
  // All mutations
  // ---------------------------------------------------------------------------

  /** The operations that require a signed-in user. */
  datatype Mutation =
    | UpdateUserOp(user: User)
    | DeleteUserOp(user: User)
    | RegisterCoursesOp(courses: seq<Course>)
    | RemoveCoursesOp(courses: seq<Course>)
    | UpdateCoursesOp(courses: seq<Course>)
    | EnrollCoursesOp(courses: seq<Course>, month: int)
    | DropCoursesOp(courses: seq<Course>, month: int)
    | SetUserRoleOp(user: User, role: string)
    | SuspendUserOp(user: User)
    | UnsuspendUserOp(user: User)

  function Apply(session: Option<User>, db: Db, m: Mutation): Result<Db> {
    match m
    case UpdateUserOp(u) => UpdateUser(session, db, u)
    case DeleteUserOp(u) => DeleteUser(session, db, u)
    case RegisterCoursesOp(cs) => RegisterCourses(session, db, cs)
    case RemoveCoursesOp(cs) => RemoveCourses(session, db, cs)
    case UpdateCoursesOp(cs) => UpdateCourses(session, db, cs)
    case EnrollCoursesOp(cs, month) => EnrollCourses(session, db, cs, month)
    case DropCoursesOp(cs, month) => DropCourses(session, db, cs, month)
    case SetUserRoleOp(u, role) => SetUserRole(session, db, u, role)
    case SuspendUserOp(u) => SuspendUser(session, db, u)
    case UnsuspendUserOp(u) => UnsuspendUser(session, db, u)
  }

  /** Without a session every mutation reports "must be signed in" and writes nothing. */
  lemma SignedOutMutatesNothing(db: Db, m: Mutation)
    ensures Apply(None, db, m) == Err(MustBeSignedIn)
  {
  }

  /** Every mutation, and registration, keeps primary keys unique and below their counters. */
  lemma OperationsPreserveValid(session: Option<User>, db: Db, m: Mutation, user: User, hash: string -> string)
    requires db.Valid()
    ensures Apply(session, db, m).Ok? ==> Apply(session, db, m).value.Valid()
    ensures RegisterUser(session, db, user, hash).Ok? ==> RegisterUser(session, db, user, hash).value.Valid()
  {
  }

  // ---------------------------------------------------------------------------
  // Statistics
  // ---------------------------------------------------------------------------

  datatype Statistics = Statistics(
    registeredUsers: int,
    suspendedUsers: int,
    facultyMembers: int,
    activeStudents: int,
    graduatedStudents: int,
    courses: int,
    departments: int)

  predicate CanGraduate(a: StudentAccount) { a.canGrad }

  /** `generate_statistics`: counts over the tables; active students are students minus all suspended users. */
  function GenerateStatistics(db: Db): Statistics {
    var suspended := |FindUsers(db.users, [Suspended(true)], None)|;
    Statistics(
      |FindUsers(db.users, [], None)|,
      suspended,
      |FindUsers(db.users, [Role("teacher")], None)|,
      |FindUsers(db.users, [Role("student")], None)| - suspended,
      |Filter(db.studentAccounts, CanGraduate)|,
      |db.courses|,
      |db.departments|)
  }

  predicate IsSuspendedStudent(u: User) { u.role == "student" && u.suspended }

  predicate IsActiveStudent(u: User) { u.role == "student" && !u.suspended }

  predicate IsSuspendedNonStudent(u: User) { u.suspended && u.role != "student" }

  /**
   * Subtracting every suspended user from the students counts the students
   * that are not suspended, less the suspended users that are not students,
   * so the figure can fall below the number of active students.
   */
  lemma ActiveStudentsDecomposition(db: Db)
    ensures GenerateStatistics(db).registeredUsers == |db.users|
    ensures GenerateStatistics(db).activeStudents
            == |Filter(db.users, IsActiveStudent)| - |Filter(db.users, IsSuspendedNonStudent)|
  {
    FindEveryRow(db.users, [], None);
    var student := MatcherOf([Role("student")], None);
    var suspended := MatcherOf([Suspended(true)], None);
    assert forall u :: student(u) == (u.role == "student") by {
      forall u ensures student(u) == (u.role == "student") {
        assert student(u) == UserMatches(u, [Role("student")][0]);
      }
    }
    assert forall u :: suspended(u) == u.suspended by {
      forall u ensures suspended(u) == u.suspended {
        assert suspended(u) == UserMatches(u, [Suspended(true)][0]);
      }
    }
    FilterSplit(db.users, student, suspended, IsSuspendedStudent, IsActiveStudent);
    FilterSplit(db.users, suspended, student, IsSuspendedStudent, IsSuspendedNonStudent);
  }

  predicate IsTeacher(u: User) { u.role == "teacher" }

  predicate IsTeacherOrStudent(u: User) { u.role == "teacher" || u.role == "student" }

  /**
   * The counts the other figures are bounded by: suspended users and faculty
   * plus the active-student figure never exceed the registered users, the
   * graduating students never exceed the student accounts, and the last two
   * figures are the table sizes.
   */
  lemma StatisticsBounds(db: Db)
    ensures 0 <= GenerateStatistics(db).suspendedUsers <= GenerateStatistics(db).registeredUsers
    ensures GenerateStatistics(db).facultyMembers + GenerateStatistics(db).activeStudents
            + GenerateStatistics(db).suspendedUsers <= GenerateStatistics(db).registeredUsers
    ensures 0 <= GenerateStatistics(db).graduatedStudents <= |db.studentAccounts|
    ensures GenerateStatistics(db).courses == |db.courses|
    ensures GenerateStatistics(db).departments == |db.departments|
  {
    FindEveryRow(db.users, [], None);
    var teacher := MatcherOf([Role("teacher")], None);
    var student := MatcherOf([Role("student")], None);
    assert forall u :: teacher(u) == (IsTeacherOrStudent(u) && IsTeacher(u)) by {
      forall u ensures teacher(u) == (IsTeacherOrStudent(u) && IsTeacher(u)) {
        assert teacher(u) == UserMatches(u, [Role("teacher")][0]);
      }
    }
    assert forall u :: student(u) == (IsTeacherOrStudent(u) && !IsTeacher(u)) by {
      forall u ensures student(u) == (IsTeacherOrStudent(u) && !IsTeacher(u)) {
        assert student(u) == UserMatches(u, [Role("student")][0]);
      }
    }
    FilterSplit(db.users, IsTeacherOrStudent, IsTeacher, teacher, student);
  }

  /** A single suspended teacher makes the active-student count negative. */
  lemma ActiveStudentsCanBeNegative()
    ensures GenerateStatistics(
              Db([User(1, "t", "", "t@aubg.edu", "", "", "", true, true, false, "teacher")], [], [], [], [], [], 2, 1)
            ).activeStudents == -1
  {
    var u := User(1, "t", "", "t@aubg.edu", "", "", "", true, true, false, "teacher");
    ActiveStudentsDecomposition(Db([u], [], [], [], [], [], 2, 1));
    assert [u][..0] == [];
    assert Filter([u], IsActiveStudent) == [];
    assert Filter([u], IsSuspendedNonStudent) == [u];
  }
}
