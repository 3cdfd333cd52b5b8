/**
 * The backing store the connection talks to, as in-memory tables.
 *
 * `find` returns the rows a filter list accepts; `insert` appends a record
 * under a fresh id (every table but STUDENT_COURSES has an AUTOINCREMENT
 * primary key); `update` and `delete` act on the rows whose key equals the
 * record's key, as the WHERE clause of the record's UPDATE or DELETE text
 * says: the id, or the (student_id, course_id) pair of an enrollment. A batch
 * runs its statements one after the other.
 */
module Store {
  import opened Wrappers
  import opened Text
  import opened Seqs
  import opened TableModels

  // ---------------------------------------------------------------------------
  // Filters
  // ---------------------------------------------------------------------------

  datatype UsersFilter = Id(id: int) | Email(email: string) | Role(role: string) | Suspended(suspended: bool) | All

  datatype Associativity = And | Or

  predicate UserMatches(u: User, f: UsersFilter) {
    match f
    case Id(k) => u.id == k
    case Email(e) => u.email == e
    case Role(r) => u.role == r
    case Suspended(b) => u.suspended == b
    case All => true
  }

  /** An empty filter list accepts every row; under `Or` one filter must hold, otherwise all of them. */
  predicate Accepts(u: User, filters: seq<UsersFilter>, assoc: Option<Associativity>) {
    if filters == [] then true
    else if assoc == Some(Or) then exists i :: 0 <= i < |filters| && UserMatches(u, filters[i])
    else forall i :: 0 <= i < |filters| ==> UserMatches(u, filters[i])
  }

  function MatcherOf(filters: seq<UsersFilter>, assoc: Option<Associativity>): User -> bool {
    (u: User) => Accepts(u, filters, assoc)
  }

  /** `find` on the users table: the accepted rows, in table order. */
  function FindUsers(users: seq<User>, filters: seq<UsersFilter>, assoc: Option<Associativity>): (r: seq<User>)
    ensures forall u :: u in r <==> u in users && Accepts(u, filters, assoc)
    ensures IsSubsequence(r, users)
  {
    Filter(users, MatcherOf(filters, assoc))
  }

  /** No filter, or `All` under `Or`, returns the whole table in order. */
  lemma FindEveryRow(users: seq<User>, filters: seq<UsersFilter>, assoc: Option<Associativity>)
    requires filters == [] || (assoc == Some(Or) && All in filters)
    ensures FindUsers(users, filters, assoc) == users
  {
    if filters != [] {
      var i :| 0 <= i < |filters| && filters[i] == All;
      assert forall u :: UserMatches(u, filters[i]);
    }
    FilterAll(users, MatcherOf(filters, assoc));
  }

  function UserId(u: User): int { u.id }

  function CourseId(c: Course): int { c.id }

  /** With distinct ids, looking a user up by id finds at most one row, and finds one exactly when the id is stored. */
  lemma FindByIdAtMostOne(users: seq<User>, k: int)
    requires DistinctBy(users, UserId)
    ensures |FindUsers(users, [Id(k)], None)| <= 1
    ensures forall u :: u in FindUsers(users, [Id(k)], None) ==> u in users && u.id == k
    ensures FindUsers(users, [Id(k)], None) == [] <==> forall i :: 0 <= i < |users| ==> users[i].id != k
  {
    var r := FindUsers(users, [Id(k)], None);
    FilterKeepsDistinct(users, MatcherOf([Id(k)], None), UserId);
    forall i | 0 <= i < |r| ensures UserId(r[i]) == k {
      assert r[i] in r;
      assert UserMatches(r[i], [Id(k)][0]);
    }
    AtMostOneWithKey(r, UserId, k);
    if r == [] {
      forall i | 0 <= i < |users| ensures users[i].id != k {
        assert users[i] !in r;
      }
    }
  }

  // ---------------------------------------------------------------------------
  // The tables
  // ---------------------------------------------------------------------------

  /**
   * The six tables and the next value of the AUTOINCREMENT counters of the
   * two tables the connection inserts into with ids.
   */
  datatype Db = Db(
    users: seq<User>,
    studentAccounts: seq<StudentAccount>,
    teacherAccounts: seq<TeacherAccount>,
    courses: seq<Course>,
    studentCourses: seq<StudentCourse>,
    departments: seq<Department>,
    nextUserId: int,
    nextCourseId: int)
  {
    /** Primary keys are unique and below their counter. */
    predicate Valid() {
      DistinctBy(users, UserId) && (forall u :: u in users ==> u.id < nextUserId)
      && DistinctBy(courses, CourseId) && (forall c :: c in courses ==> c.id < nextCourseId)
    }
  }

  /** Rows whose key equals the record's key become the record (an UPDATE ... WHERE key). */
  function ReplaceRows<T, K(==)>(rows: seq<T>, v: T, key: T -> K): (r: seq<T>)
    ensures |r| == |rows|
    ensures forall i :: 0 <= i < |rows| ==> key(r[i]) == key(rows[i])
    ensures forall i :: 0 <= i < |rows| && key(rows[i]) == key(v) ==> r[i] == v
    ensures forall i :: 0 <= i < |rows| && key(rows[i]) != key(v) ==> r[i] == rows[i]
  {
    seq(|rows|, i requires 0 <= i < |rows| => if key(rows[i]) == key(v) then v else rows[i])
  }

  /** Running the same UPDATE twice is running it once. */
  lemma ReplaceRowsIdempotent<T, K>(rows: seq<T>, v: T, key: T -> K)
    ensures ReplaceRows(ReplaceRows(rows, v, key), v, key) == ReplaceRows(rows, v, key)
  {
    var once := ReplaceRows(rows, v, key);
    var twice := ReplaceRows(once, v, key);
    forall i | 0 <= i < |rows| ensures twice[i] == once[i] {
      if key(rows[i]) == key(v) {
        assert key(once[i]) == key(v);
      }
    }
  }

  /** An UPDATE keeps the keys, so it keeps them distinct. */
  lemma ReplaceRowsKeepsDistinct<T, K>(rows: seq<T>, v: T, key: T -> K)
    requires DistinctBy(rows, key)
    ensures DistinctBy(ReplaceRows(rows, v, key), key)
  {
  }

  // ---------------------------------------------------------------------------
  // Users
  // ---------------------------------------------------------------------------

  /** Inserts a user under the next id of the counter. */
  function InsertUser(db: Db, u: User): (r: Db)
    ensures r.users == db.users + [u.(id := db.nextUserId)]
    ensures r == db.(users := r.users, nextUserId := db.nextUserId + 1)
    ensures db.Valid() ==> r.Valid()
  {
    var row := u.(id := db.nextUserId);
    var r := db.(users := db.users + [row], nextUserId := db.nextUserId + 1);
    assert forall x :: x in r.users ==> x in db.users || x == row;
    r
  }

  /** `UPDATE USERS ... WHERE id = u.id`. */
  function UpdateUserRow(db: Db, u: User): (r: Db)
    ensures |r.users| == |db.users|
    ensures forall i :: 0 <= i < |db.users| ==> r.users[i].id == db.users[i].id
    ensures forall i :: 0 <= i < |db.users| && db.users[i].id == u.id ==> r.users[i] == u
    ensures forall i :: 0 <= i < |db.users| && db.users[i].id != u.id ==> r.users[i] == db.users[i]
    ensures r == db.(users := r.users)
    ensures db.Valid() ==> r.Valid()
  {
    var rows := ReplaceRows(db.users, u, UserId);
    if db.Valid() then
      ReplaceRowsKeepsDistinct(db.users, u, UserId);
      assert forall x :: x in rows ==> exists i :: 0 <= i < |rows| && rows[i] == x && x.id == db.users[i].id;
      db.(users := rows)
    else
      db.(users := rows)
  }

  function UserIdIsNot(k: int): User -> bool { (u: User) => u.id != k }

  /** `DELETE FROM USERS WHERE id = k`. */
  function DeleteUserRows(db: Db, k: int): (r: Db)
    ensures forall x :: x in r.users <==> x in db.users && x.id != k
    ensures IsSubsequence(r.users, db.users)
    ensures r == db.(users := r.users)
    ensures db.Valid() ==> r.Valid()
  {
    var rows := Filter(db.users, UserIdIsNot(k));
    if db.Valid() then
      FilterKeepsDistinct(db.users, UserIdIsNot(k), UserId);
      db.(users := rows)
    else
      db.(users := rows)
  }

  /** The rows a user deletion removes are exactly those whose DELETE text is the deleted record's. */
  lemma DeleteUserMatchesStatement(db: Db, u: User)
    ensures forall x :: x in db.users ==>
              (x !in DeleteUserRows(db, u.id).users <==> ToSql(UserItem(x), Delete) == ToSql(UserItem(u), Delete))
  {
    forall x | x in db.users
      ensures x !in DeleteUserRows(db, u.id).users <==> ToSql(UserItem(x), Delete) == ToSql(UserItem(u), Delete)
    {
      DeleteDependsOnlyOnId(UserItem(x), UserItem(u));
    }
  }

  // ---------------------------------------------------------------------------
  // Courses
  // ---------------------------------------------------------------------------

  function InsertCourse(db: Db, c: Course): (r: Db)
    ensures r.courses == db.courses + [c.(id := db.nextCourseId)]
    ensures r == db.(courses := r.courses, nextCourseId := db.nextCourseId + 1)
    ensures db.Valid() ==> r.Valid()
  {
    var row := c.(id := db.nextCourseId);
    var r := db.(courses := db.courses + [row], nextCourseId := db.nextCourseId + 1);
    assert forall x :: x in r.courses ==> x in db.courses || x == row;
    r
  }

  /** A batch of course inserts: the courses are appended in order, numbered from the counter on. */
  function InsertCourses(db: Db, cs: seq<Course>): (r: Db)
    ensures |r.courses| == |db.courses| + |cs| && r.courses[..|db.courses|] == db.courses
    ensures forall j :: 0 <= j < |cs| ==> r.courses[|db.courses| + j] == cs[j].(id := db.nextCourseId + j)
    ensures r == db.(courses := r.courses, nextCourseId := db.nextCourseId + |cs|)
    ensures db.Valid() ==> r.Valid()
  {
    if cs == [] then db
    else
      var mid := InsertCourses(db, cs[..|cs| - 1]);
      InsertCourse(mid, cs[|cs| - 1])
  }

  function CourseIdIsNot(k: int): Course -> bool { (c: Course) => c.id != k }

  /** `DELETE FROM COURSES WHERE id = k`. */
  function DeleteCourseRows(db: Db, k: int): (r: Db)
    ensures r.courses == Filter(db.courses, CourseIdIsNot(k))
    ensures forall x :: x in r.courses <==> x in db.courses && x.id != k
    ensures r == db.(courses := r.courses)
    ensures db.Valid() ==> r.Valid()
  {
    var rows := Filter(db.courses, CourseIdIsNot(k));
    if db.Valid() then
      FilterKeepsDistinct(db.courses, CourseIdIsNot(k), CourseId);
      db.(courses := rows)
    else
      db.(courses := rows)
  }

  /** The ids a batch of courses names. */
  function CourseIds(cs: seq<Course>): (ids: set<int>)
    ensures forall k :: k in ids <==> exists j :: 0 <= j < |cs| && cs[j].id == k
  {
    if cs == [] then {}
    else
      var init := cs[..|cs| - 1];
      assert forall j :: 0 <= j < |init| ==> init[j] == cs[j];
      CourseIds(init) + {cs[|cs| - 1].id}
  }

  function CourseIdNotIn(ids: set<int>): Course -> bool { (c: Course) => c.id !in ids }

  /**
   * A batch of course deletes, run one after the other, leaves exactly the
   * courses whose id no batch entry names, in their table order: the same as
   * one pass that drops every named id.
   */
  function DeleteCourses(db: Db, cs: seq<Course>): (r: Db)
    ensures r.courses == Filter(db.courses, CourseIdNotIn(CourseIds(cs)))
    ensures forall x :: x in r.courses <==> x in db.courses && x.id !in CourseIds(cs)
    ensures IsSubsequence(r.courses, db.courses)
    ensures r == db.(courses := r.courses)
    ensures db.Valid() ==> r.Valid()
  {
    if cs == [] then
      FilterAll(db.courses, CourseIdNotIn(CourseIds(cs)));
      db
    else
      var init := cs[..|cs| - 1];
      var mid := DeleteCourses(db, init);
      FilterFilter(db.courses, CourseIdNotIn(CourseIds(init)), CourseIdIsNot(cs[|cs| - 1].id),
                   CourseIdNotIn(CourseIds(cs)));
      DeleteCourseRows(mid, cs[|cs| - 1].id)
  }

  /** `UPDATE COURSES ... WHERE id = c.id`. */
  function UpdateCourseRow(db: Db, c: Course): (r: Db)
    ensures |r.courses| == |db.courses|
    ensures forall i :: 0 <= i < |db.courses| ==> r.courses[i].id == db.courses[i].id
    ensures forall i :: 0 <= i < |db.courses| && db.courses[i].id == c.id ==> r.courses[i] == c
    ensures forall i :: 0 <= i < |db.courses| && db.courses[i].id != c.id ==> r.courses[i] == db.courses[i]
    ensures r == db.(courses := r.courses)
    ensures db.Valid() ==> r.Valid()
  {
    var rows := ReplaceRows(db.courses, c, CourseId);
    if db.Valid() then
      ReplaceRowsKeepsDistinct(db.courses, c, CourseId);
      assert forall x :: x in rows ==> exists i :: 0 <= i < |rows| && rows[i] == x && x.id == db.courses[i].id;
      db.(courses := rows)
    else
      db.(courses := rows)
  }

  /** The last entry of a batch that names the id, if any. */
  function LastWithId(cs: seq<Course>, k: int): (r: Option<Course>)
    ensures r.Some? <==> k in CourseIds(cs)
    ensures r.Some? ==> exists j :: 0 <= j < |cs| && cs[j] == r.value && r.value.id == k
                                    && forall l :: j < l < |cs| ==> cs[l].id != k
  {
    if cs == [] then None
    else if cs[|cs| - 1].id == k then Some(cs[|cs| - 1])
    else
      var init := cs[..|cs| - 1];
      assert forall j :: 0 <= j < |init| ==> init[j] == cs[j];
      LastWithId(init, k)
  }

  /**
   * A batch of course updates: every row keeps its id; a row no batch entry
   * names is untouched, and a named row ends as the last entry naming it.
   */
  function UpdateCourses(db: Db, cs: seq<Course>): (r: Db)
    ensures |r.courses| == |db.courses|
    ensures forall i :: 0 <= i < |db.courses| ==>
              r.courses[i] == match LastWithId(cs, db.courses[i].id)
                              case None => db.courses[i]
                              case Some(c) => c
    ensures r == db.(courses := r.courses)
    ensures db.Valid() ==> r.Valid()
  {
    if cs == [] then db
    else UpdateCourseRow(UpdateCourses(db, cs[..|cs| - 1]), cs[|cs| - 1])
  }

  // ---------------------------------------------------------------------------
  // Enrollments
  // ---------------------------------------------------------------------------

  function PairOf(sc: StudentCourse): (int, int) { (sc.studentId, sc.courseId) }

  /**
   * Enrollments have no key column: a batch insert appends the records as
   * they are, behind the existing rows, so enrolling twice stores two equal rows.
   */
  function InsertEnrollments(db: Db, scs: seq<StudentCourse>): (r: Db)
    ensures multiset(r.studentCourses) == multiset(db.studentCourses) + multiset(scs)
    ensures db.studentCourses <= r.studentCourses
    ensures r == db.(studentCourses := r.studentCourses)
  {
    var rows := db.studentCourses + scs;
    assert rows[..|db.studentCourses|] == db.studentCourses;
    db.(studentCourses := rows)
  }

  function PairIsNot(p: (int, int)): StudentCourse -> bool { (sc: StudentCourse) => PairOf(sc) != p }

  /** `DELETE FROM student_courses WHERE student_id = .. AND course_id = ..`. */
  function DeleteEnrollmentRows(db: Db, p: (int, int)): (r: Db)
    ensures r.studentCourses == Filter(db.studentCourses, PairIsNot(p))
    ensures forall x :: x in r.studentCourses <==> x in db.studentCourses && PairOf(x) != p
    ensures r == db.(studentCourses := r.studentCourses)
  {
    db.(studentCourses := Filter(db.studentCourses, PairIsNot(p)))
  }

  /** The (student, course) pairs a batch of enrollments names. */
  function Pairs(scs: seq<StudentCourse>): (ps: set<(int, int)>)
    ensures forall p :: p in ps <==> exists j :: 0 <= j < |scs| && PairOf(scs[j]) == p
  {
    if scs == [] then {}
    else
      var init := scs[..|scs| - 1];
      assert forall j :: 0 <= j < |init| ==> init[j] == scs[j];
      Pairs(init) + {PairOf(scs[|scs| - 1])}
  }

  function PairNotIn(ps: set<(int, int)>): StudentCourse -> bool { (sc: StudentCourse) => PairOf(sc) !in ps }

  /**
   * A batch of enrollment deletes, run one after the other, leaves exactly the
   * enrollments whose pair no batch entry names, duplicates included, in their
   * table order: the same as one pass that drops every named pair.
   */
  function DeleteEnrollments(db: Db, scs: seq<StudentCourse>): (r: Db)
    ensures r.studentCourses == Filter(db.studentCourses, PairNotIn(Pairs(scs)))
    ensures forall x :: x in r.studentCourses <==> x in db.studentCourses && PairOf(x) !in Pairs(scs)
    ensures IsSubsequence(r.studentCourses, db.studentCourses)
    ensures r == db.(studentCourses := r.studentCourses)
  {
    if scs == [] then
      FilterAll(db.studentCourses, PairNotIn(Pairs(scs)));
      db
    else
      var init := scs[..|scs| - 1];
      var mid := DeleteEnrollments(db, init);
      FilterFilter(db.studentCourses, PairNotIn(Pairs(init)), PairIsNot(PairOf(scs[|scs| - 1])),
                   PairNotIn(Pairs(scs)));
      DeleteEnrollmentRows(mid, PairOf(scs[|scs| - 1]))
  }

  /** The rows an enrollment deletion removes are exactly those whose DELETE text is the deleted record's. */
  lemma DeleteEnrollmentMatchesStatement(db: Db, sc: StudentCourse)
    ensures forall x :: x in db.studentCourses ==>
              (x !in DeleteEnrollmentRows(db, PairOf(sc)).studentCourses
               <==> ToSql(StudentCourseItem(x), Delete) == ToSql(StudentCourseItem(sc), Delete))
  {
    forall x | x in db.studentCourses
      ensures x !in DeleteEnrollmentRows(db, PairOf(sc)).studentCourses
              <==> ToSql(StudentCourseItem(x), Delete) == ToSql(StudentCourseItem(sc), Delete)
    {
      DeleteEnrollmentDependsOnlyOnPair(x, sc);
    }
  }
}
