/**
 * The free-text searches of the connection: `search_users`, a substring
 * filter over the users table, and `search_courses`, an in-memory four-way
 * join course -> teacher account -> department -> instructor, each link the
 * first match of a linear scan, followed by a substring filter on the joined
 * fields. A course whose links do not all resolve is dropped without error.
 */
module Search {
  import opened Wrappers
  import opened Text
  import opened Seqs
  import opened TableModels
  import opened Store

  // ---------------------------------------------------------------------------
  // Matching a query against a joined row
  // ---------------------------------------------------------------------------

  /** `did_query_match`: the empty query, or a substring of one of the ten consulted fields. */
  predicate DidQueryMatch(query: string, course: Course, teacher: TeacherAccount, department: Department, user: User) {
    query == []
    || Contains(course.course, query)
    || Contains(IntToString(course.id), query)
    || Contains(IntToString(teacher.id), query)
    || Contains(teacher.dept, query)
    || Contains(IntToString(teacher.teacherId), query)
    || Contains(IntToString(department.id), query)
    || Contains(IntToString(user.id), query)
    || Contains(user.email, query)
    || Contains(user.username, query)
    || Contains(user.phone, query)
  }

  /**
   * The query is never compared with the department's name or head, nor with
   * the course's credit cost and dates, nor with the user's password, role or flags.
   */
  lemma DidQueryMatchIgnoresUnlistedFields(query: string, c: Course, t: TeacherAccount, d: Department, u: User,
                                           c': Course, d': Department, u': User)
    requires c'.id == c.id && c'.course == c.course
    requires d'.id == d.id
    requires u'.id == u.id && u'.email == u.email && u'.username == u.username && u'.phone == u.phone
    ensures DidQueryMatch(query, c, t, d, u) == DidQueryMatch(query, c', t, d', u')
  {
  }

  /** Each consulted field matches itself: a course is found by its title, its id and its instructor's e-mail. */
  lemma DidQueryMatchFindsOwnFields(c: Course, t: TeacherAccount, d: Department, u: User)
    ensures DidQueryMatch(c.course, c, t, d, u)
    ensures DidQueryMatch(IntToString(c.id), c, t, d, u)
    ensures DidQueryMatch(u.email, c, t, d, u)
  {
    ContainsSelf(c.course);
    ContainsSelf(IntToString(c.id));
    ContainsSelf(u.email);
  }

  // ---------------------------------------------------------------------------
  // The join
  // ---------------------------------------------------------------------------

  /** One joined search result: `(Course, TeacherAccount, Department, User)`. */
  datatype Row = Row(course: Course, teacher: TeacherAccount, department: Department, user: User)

  function TeacherIdIs(k: int): TeacherAccount -> bool { (t: TeacherAccount) => t.id == k }

  function DepartmentIdIs(k: int): Department -> bool { (d: Department) => d.id == k }

  function UserIdIs(k: int): User -> bool { (u: User) => u.id == k }

  /** `join_with_user`: the first user whose id is the teacher's `teacher_id`, if the query matches. */
  function JoinWithUser(users: seq<User>, teacherId: int, query: string,
                        course: Course, teacher: TeacherAccount, department: Department): (r: Option<Row>)
    ensures r.Some? ==> r.value.course == course && r.value.teacher == teacher && r.value.department == department
    ensures r.Some? ==> r.value.user in users && r.value.user.id == teacherId
  {
    match First(users, UserIdIs(teacherId))
    case None => None
    case Some(user) =>
      if DidQueryMatch(query, course, teacher, department, user) then Some(Row(course, teacher, department, user))
      else None
  }

  /** `join_with_department`: the first department whose id is the teacher's `dept_id`. */
  function JoinWithDepartment(departments: seq<Department>, deptId: int, teacher: TeacherAccount,
                              users: seq<User>, query: string, course: Course): (r: Option<Row>)
    ensures r.Some? ==> r.value.course == course && r.value.teacher == teacher
    ensures r.Some? ==> r.value.department in departments && r.value.department.id == deptId
  {
    match First(departments, DepartmentIdIs(deptId))
    case None => None
    case Some(department) => JoinWithUser(users, teacher.teacherId, query, course, teacher, department)
  }

  /** `join_with_teacher`: the first teacher account whose id is the course's `teacher_id`. */
  function JoinWithTeacher(teachers: seq<TeacherAccount>, teacherId: int, departments: seq<Department>,
                           users: seq<User>, query: string, course: Course): (r: Option<Row>)
    ensures r.Some? ==> r.value.course == course
    ensures r.Some? ==> r.value.teacher in teachers && r.value.teacher.id == teacherId
  {
    match First(teachers, TeacherIdIs(teacherId))
    case None => None
    case Some(teacher) => JoinWithDepartment(departments, teacher.deptId, teacher, users, query, course)
  }

  /** The join of one course, as `join_courses_with_data` starts it. */
  function JoinCourse(course: Course, teachers: seq<TeacherAccount>, departments: seq<Department>,
                      users: seq<User>, query: string): Option<Row>
  {
    JoinWithTeacher(teachers, course.teacherId, departments, users, query, course)
  }

  /**
   * What a joined row is, independently of the scans: each link is the first
   * match in its list, and the query matches the row.
   */
  ghost predicate Joined(row: Row, teachers: seq<TeacherAccount>, departments: seq<Department>,
                         users: seq<User>, query: string)
  {
    FirstWith(teachers, row.teacher, TeacherIdIs(row.course.teacherId))
    && FirstWith(departments, row.department, DepartmentIdIs(row.teacher.deptId))
    && FirstWith(users, row.user, UserIdIs(row.teacher.teacherId))
    && DidQueryMatch(query, row.course, row.teacher, row.department, row.user)
  }

  /** The chain of scans yields a row exactly when that row is the course's join. */
  lemma JoinCourseIff(course: Course, teachers: seq<TeacherAccount>, departments: seq<Department>,
                      users: seq<User>, query: string, row: Row)
    ensures JoinCourse(course, teachers, departments, users, query) == Some(row)
            <==> row.course == course && Joined(row, teachers, departments, users, query)
  {
    FirstSpec(teachers, TeacherIdIs(course.teacherId), row.teacher);
    FirstSpec(departments, DepartmentIdIs(row.teacher.deptId), row.department);
    FirstSpec(users, UserIdIs(row.teacher.teacherId), row.user);
  }

  /** The rows of the join, one per course whose links resolve and whose row matches, in course order. */
  function JoinSpec(courses: seq<Course>, teachers: seq<TeacherAccount>, departments: seq<Department>,
                    users: seq<User>, query: string): (rows: seq<Row>)
    ensures |rows| <= |courses|
  {
    if courses == [] then []
    else
      var rows := JoinSpec(courses[..|courses| - 1], teachers, departments, users, query);
      match JoinCourse(courses[|courses| - 1], teachers, departments, users, query)
      case None => rows
      case Some(row) => rows + [row]
  }

  /**
   * `join_courses_with_data`: walks the courses in order and appends each
   * course's joined row, if it has one, to the output.
   */
  method JoinCoursesWithData(courses: seq<Course>, teachers: seq<TeacherAccount>, departments: seq<Department>,
                             users: seq<User>, query: string) returns (joined: seq<Row>)
    ensures joined == JoinSpec(courses, teachers, departments, users, query)
  {
    joined := [];
    var i := 0;
    while i < |courses|
      invariant 0 <= i <= |courses|
      invariant joined == JoinSpec(courses[..i], teachers, departments, users, query)
    {
      var course := courses[i];
      assert courses[..i + 1][..i] == courses[..i];
      var found := JoinWithTeacher(teachers, course.teacherId, departments, users, query, course);
      if found.Some? {
        joined := joined + [found.value];
      }
      i := i + 1;
    }
    assert courses[..|courses|] == courses;
  }

  /** The rows of the join are exactly the joins of listed courses. */
  lemma {:induction false} JoinMembership(courses: seq<Course>, teachers: seq<TeacherAccount>,
                                          departments: seq<Department>, users: seq<User>, query: string, row: Row)
    ensures row in JoinSpec(courses, teachers, departments, users, query)
            <==> row.course in courses && Joined(row, teachers, departments, users, query)
  {
    JoinCourseIff(row.course, teachers, departments, users, query, row);
    if courses != [] {
      var init, last := courses[..|courses| - 1], courses[|courses| - 1];
      assert courses == init + [last];
      JoinMembership(init, teachers, departments, users, query, row);
    }
  }

  /** The course column of a list of rows. */
  function CoursesOf(rows: seq<Row>): (cs: seq<Course>)
    ensures |cs| == |rows|
    ensures forall i :: 0 <= i < |rows| ==> cs[i] == rows[i].course
  {
    if rows == [] then [] else CoursesOf(rows[..|rows| - 1]) + [rows[|rows| - 1].course]
  }

  function Resolves(teachers: seq<TeacherAccount>, departments: seq<Department>, users: seq<User>, query: string)
    : Course -> bool
  {
    (c: Course) => JoinCourse(c, teachers, departments, users, query).Some?
  }

  /**
   * The join's courses are the listed courses filtered by whether they join,
   * so the output is an order-preserving subsequence of the course list.
   */
  lemma {:induction false} JoinKeepsCourseOrder(courses: seq<Course>, teachers: seq<TeacherAccount>,
                                                departments: seq<Department>, users: seq<User>, query: string)
    ensures CoursesOf(JoinSpec(courses, teachers, departments, users, query))
            == Filter(courses, Resolves(teachers, departments, users, query))
    ensures IsSubsequence(CoursesOf(JoinSpec(courses, teachers, departments, users, query)), courses)
  {
    if courses != [] {
      var init, last := courses[..|courses| - 1], courses[|courses| - 1];
      JoinKeepsCourseOrder(init, teachers, departments, users, query);
      var rows := JoinSpec(init, teachers, departments, users, query);
      match JoinCourse(last, teachers, departments, users, query)
      case None =>
      case Some(row) =>
        assert (rows + [row])[..|rows|] == rows;
    }
  }

  /** A listed course whose links do not all resolve contributes no row. */
  lemma UnresolvedCourseDropped(courses: seq<Course>, teachers: seq<TeacherAccount>, departments: seq<Department>,
                                users: seq<User>, query: string, c: Course)
    requires First(teachers, TeacherIdIs(c.teacherId)).None?
             || (exists t :: First(teachers, TeacherIdIs(c.teacherId)) == Some(t)
                             && (First(departments, DepartmentIdIs(t.deptId)).None?
                                 || First(users, UserIdIs(t.teacherId)).None?))
    ensures forall row :: row in JoinSpec(courses, teachers, departments, users, query) ==> row.course != c
  {
    forall row | row in JoinSpec(courses, teachers, departments, users, query)
      ensures row.course != c
    {
      JoinMembership(courses, teachers, departments, users, query, row);
      if row.course == c {
        FirstSpec(teachers, TeacherIdIs(c.teacherId), row.teacher);
        FirstSpec(departments, DepartmentIdIs(row.teacher.deptId), row.department);
        FirstSpec(users, UserIdIs(row.teacher.teacherId), row.user);
      }
    }
  }

  function LinksResolve(teachers: seq<TeacherAccount>, departments: seq<Department>, users: seq<User>)
    : Course -> bool
  {
    (c: Course) =>
      match First(teachers, TeacherIdIs(c.teacherId))
      case None => false
      case Some(t) => First(departments, DepartmentIdIs(t.deptId)).Some? && First(users, UserIdIs(t.teacherId)).Some?
  }

  /** With the empty query every course whose three links resolve is kept, in order. */
  lemma EmptyQueryKeepsResolved(courses: seq<Course>, teachers: seq<TeacherAccount>, departments: seq<Department>,
                                users: seq<User>)
    ensures CoursesOf(JoinSpec(courses, teachers, departments, users, ""))
            == Filter(courses, LinksResolve(teachers, departments, users))
  {
    JoinKeepsCourseOrder(courses, teachers, departments, users, "");
    FilterExt(courses, Resolves(teachers, departments, users, ""), LinksResolve(teachers, departments, users));
  }

  // ---------------------------------------------------------------------------
  // The two searches
  // ---------------------------------------------------------------------------

  /** `search_courses`: the join of all tables against the trimmed, lower-cased query. */
  function SearchCourses(db: Db, query: string): seq<Row> {
    JoinSpec(db.courses, db.teacherAccounts, db.departments, db.users, Lower(Trim(query)))
  }

  /** A query of white space only keeps every course whose links resolve. */
  lemma BlankCourseQueryKeepsResolved(db: Db, query: string)
    requires forall k :: 0 <= k < |query| ==> IsWhiteSpace(query[k])
    ensures CoursesOf(SearchCourses(db, query)) == Filter(db.courses, LinksResolve(db.teacherAccounts, db.departments, db.users))
  {
    TrimEmptyIff(query);
    EmptyQueryKeepsResolved(db.courses, db.teacherAccounts, db.departments, db.users);
  }

  /** The query is lower-cased but the fields are not: a title with a capital is not found by itself. */
  lemma CapitalisedTitleNotFoundByItself()
    ensures var c := Course(1, 2, "Art", 3, "", "");
            var t := TeacherAccount(2, 4, 5, "");
            var d := Department(5, 2, "");
            var u := User(4, "", "", "", "", "", "", false, false, false, "teacher");
            var db := Db([u], [], [t], [c], [], [d], 5, 2);
            SearchCourses(db, "Art") == []
  {
    var c := Course(1, 2, "Art", 3, "", "");
    var t := TeacherAccount(2, 4, 5, "");
    var d := Department(5, 2, "");
    var u := User(4, "", "", "", "", "", "", false, false, false, "teacher");
    var db := Db([u], [], [t], [c], [], [d], 5, 2);
    ArtQuery();
    ArtJoinEmpty();
    assert SearchCourses(db, "Art") == JoinSpec([c], [t], [d], [u], Lower(Trim("Art")));
  }

  lemma ArtJoinEmpty()
    ensures JoinSpec([Course(1, 2, "Art", 3, "", "")], [TeacherAccount(2, 4, 5, "")], [Department(5, 2, "")],
                     [User(4, "", "", "", "", "", "", false, false, false, "teacher")], "art") == []
  {
    var c := Course(1, 2, "Art", 3, "", "");
    var t := TeacherAccount(2, 4, 5, "");
    var d := Department(5, 2, "");
    var u := User(4, "", "", "", "", "", "", false, false, false, "teacher");
    ArtRowRejected();
    assert First([t], TeacherIdIs(2)) == Some(t);
    assert First([d], DepartmentIdIs(5)) == Some(d);
    assert First([u], UserIdIs(4)) == Some(u);
    assert JoinCourse(c, [t], [d], [u], "art") == None;
    assert [c][..0] == [];
  }

  lemma ArtQuery()
    ensures Lower(Trim("Art")) == "art"
  {
    assert TrimStart("Art") == "Art";
    assert TrimEnd("Art") == "Art";
    assert Lower("Art") == "art";
  }

  lemma ArtRowRejected()
    ensures !DidQueryMatch("art", Course(1, 2, "Art", 3, "", ""), TeacherAccount(2, 4, 5, ""), Department(5, 2, ""),
                           User(4, "", "", "", "", "", "", false, false, false, "teacher"))
  {
    assert "Art"[0] != "art"[0];
    assert !OccursAt("Art", "art", 0);
    ShortTextContainsNothing(IntToString(1), "art");
    ShortTextContainsNothing(IntToString(2), "art");
    ShortTextContainsNothing(IntToString(4), "art");
    ShortTextContainsNothing(IntToString(5), "art");
    ShortTextContainsNothing("", "art");
  }

  lemma ShortTextContainsNothing(s: string, query: string)
    requires |s| < |query|
    ensures !Contains(s, query)
  {
  }

  /** The predicate `search_users` keeps a user by. */
  predicate UserMatchesQuery(u: User, query: string) {
    Contains(u.username, query) || Contains(u.email, query) || Contains(u.phone, query)
    || Contains(IntToString(u.id), query)
  }

  function MatchesQuery(query: string): User -> bool { (u: User) => UserMatchesQuery(u, query) }

  /** `search_users`: every user, filtered by the raw query (neither trimmed nor lower-cased). */
  function SearchUsers(users: seq<User>, query: string): (r: seq<User>)
    ensures forall u :: u in r <==> u in users && UserMatchesQuery(u, query)
  {
    FindEveryRow(users, [All], Some(Or));
    Filter(FindUsers(users, [All], Some(Or)), MatchesQuery(query))
  }

  /** The search keeps the table's order. */
  lemma SearchUsersIsSubsequence(users: seq<User>, query: string)
    ensures SearchUsers(users, query) == Filter(users, MatchesQuery(query))
    ensures IsSubsequence(SearchUsers(users, query), users)
  {
    FindEveryRow(users, [All], Some(Or));
  }

  /** The empty query returns every user, in order. */
  lemma EmptyUserQueryReturnsAll(users: seq<User>)
    ensures SearchUsers(users, "") == users
  {
    FindEveryRow(users, [All], Some(Or));
    forall u | u in users ensures MatchesQuery("")(u) {
      ContainsEmpty(u.username);
    }
    FilterAll(users, MatchesQuery(""));
  }

  /** Every user is found by the text of its id. */
  lemma UserFoundById(users: seq<User>, u: User)
    requires u in users
    ensures u in SearchUsers(users, IntToString(u.id))
  {
    ContainsSelf(IntToString(u.id));
  }
}
