/**
 * The table model: the six entity records, the `Table` selector with its
 * display names and `join` text, the tagged union that carries any record
 * through the store, and the `ToSQL` serialisers that render a record as an
 * INSERT, UPDATE or DELETE statement.
 *
 * A statement is first built as a `Statement` value (table, columns, values,
 * key) and then rendered to text, so that the shape properties — which key
 * the WHERE clause names, that `id` is never inserted — are stated on the
 * structure and carried to the text by the rendering lemmas.
 */
module TableModels {
  import opened Wrappers
  import opened Text

  // ---------------------------------------------------------------------------
  // Entities
  // ---------------------------------------------------------------------------

  datatype User = User(
    id: int, username: string, password: string, email: string, phone: string,
    createdAt: string, updatedAt: string,
    verified: bool, suspended: bool, forceNewPw: bool, role: string)

  /** `cgpa` is a whole number here (see README). */
  datatype StudentAccount = StudentAccount(
    id: int, studentId: int, advisorId: int, discipline: string, enrollment: string,
    cgpa: int, canGrad: bool, curCredit: int, cumCredit: int)

  datatype TeacherAccount = TeacherAccount(id: int, teacherId: int, deptId: int, dept: string)

  datatype Course = Course(
    id: int, teacherId: int, course: string, crCost: int, createdAt: string, updatedAt: string)

  /** An enrollment; `grade` is -1 until graded and a whole number here (see README). */
  datatype StudentCourse = StudentCourse(studentId: int, courseId: int, grade: int, semester: string)

  datatype Department = Department(id: int, deptHead: int, name: string)

  /** The tagged union through which every record travels to and from the store. */
  datatype ReceiverType =
    | UserItem(user: User)
    | StudentAccountItem(studentAccount: StudentAccount)
    | TeacherAccountItem(teacherAccount: TeacherAccount)
    | CourseItem(course: Course)
    | StudentCourseItem(studentCourse: StudentCourse)
    | DepartmentItem(department: Department)

  datatype Action = Insert | Update | Delete

  // ---------------------------------------------------------------------------
  // Table names
  // ---------------------------------------------------------------------------

  datatype Table = Users | StudentAccounts | TeacherAccounts | Courses | StudentCourses | Departments

  /** `Display for Table`: one fixed name per table, spelled as the source spells it. */
  function TableName(t: Table): string {
    match t
    case Users => "USERS"
    case StudentAccounts => "STUDENT_ACCOUTNS"
    case TeacherAccounts => "TEACHER_ACCOUNTS"
    case Courses => "COURSES"
    case StudentCourses => "STUDENT_COURSES"
    case Departments => "DEPARTMENTS"
  }

  /** The inverse of TableName. */
  function TableFromName(name: string): Option<Table> {
    if name == "USERS" then Some(Users)
    else if name == "STUDENT_ACCOUTNS" then Some(StudentAccounts)
    else if name == "TEACHER_ACCOUNTS" then Some(TeacherAccounts)
    else if name == "COURSES" then Some(Courses)
    else if name == "STUDENT_COURSES" then Some(StudentCourses)
    else if name == "DEPARTMENTS" then Some(Departments)
    else None
  }

  /** Every table name reads back as its table, so no two tables share a name. */
  lemma TableNameRoundTrip(t: Table)
    ensures TableFromName(TableName(t)) == Some(t)
    ensures forall k :: 0 <= k < |TableName(t)| ==> TableName(t)[k] != ' '
  {
  }

  /** `Table::join`: the two names around the join keyword, single spaces between. */
  function Join(t: Table, other: Table, joinAs: string): string {
    TableName(t) + " " + joinAs + " " + TableName(other)
  }

  /** The text up to the first space. */
  function UpToSpace(s: string): string {
    if s == [] || s[0] == ' ' then [] else [s[0]] + UpToSpace(s[1..])
  }

  /** The text after the last space. */
  function AfterLastSpace(s: string): string {
    if s == [] || s[|s| - 1] == ' ' then [] else AfterLastSpace(s[..|s| - 1]) + [s[|s| - 1]]
  }

  lemma {:induction false} UpToSpaceOfConcat(x: string, y: string)
    requires forall k :: 0 <= k < |x| ==> x[k] != ' '
    ensures UpToSpace(x + " " + y) == x
  {
    if x != [] {
      assert (x + " " + y)[1..] == x[1..] + " " + y;
      UpToSpaceOfConcat(x[1..], y);
    }
  }

  lemma {:induction false} AfterLastSpaceOfConcat(x: string, y: string)
    requires forall k :: 0 <= k < |y| ==> y[k] != ' '
    ensures AfterLastSpace(x + " " + y) == y
  {
    if y == [] {
      assert x + " " + y == x + " ";
    } else {
      assert (x + " " + y)[..|x + " " + y| - 1] == x + " " + y[..|y| - 1];
      AfterLastSpaceOfConcat(x, y[..|y| - 1]);
    }
  }

  /** Whatever the join keyword, the first and the last word of a join name its two tables. */
  lemma JoinRecoversTables(t: Table, other: Table, joinAs: string)
    ensures TableFromName(UpToSpace(Join(t, other, joinAs))) == Some(t)
    ensures TableFromName(AfterLastSpace(Join(t, other, joinAs))) == Some(other)
  {
    TableNameRoundTrip(t);
    TableNameRoundTrip(other);
    UpToSpaceOfConcat(TableName(t), joinAs + " " + TableName(other));
    assert Join(t, other, joinAs) == TableName(t) + " " + (joinAs + " " + TableName(other));
    AfterLastSpaceOfConcat(TableName(t) + " " + joinAs, TableName(other));
  }

  // ---------------------------------------------------------------------------
  // Statements
  // ---------------------------------------------------------------------------

  datatype Assignment = Assignment(column: string, value: string)

  datatype Statement =
    | InsertInto(table: string, columns: seq<string>, values: seq<string>)
    | UpdateSet(table: string, assignments: seq<Assignment>, where: seq<Assignment>)
    | DeleteFrom(table: string, where: seq<Assignment>)

  /** A text value between single quotes (the source does not escape quotes inside). */
  function Quote(s: string): string { "'" + s + "'" }

  /** `Display for bool`. */
  function BoolText(b: bool): string { if b then "true" else "false" }

  /** Items separated by `sep`. */
  function Separated(items: seq<string>, sep: string): string {
    if items == [] then ""
    else if |items| == 1 then items[0]
    else Separated(items[..|items| - 1], sep) + sep + items[|items| - 1]
  }

  function RenderAssignment(a: Assignment): string { a.column + " = " + a.value }

  /** Assignments rendered as `column = value`, separated by `sep`. */
  function RenderAssignments(asg: seq<Assignment>, sep: string): string {
    if asg == [] then ""
    else if |asg| == 1 then RenderAssignment(asg[0])
    else RenderAssignments(asg[..|asg| - 1], sep) + sep + RenderAssignment(asg[|asg| - 1])
  }

  function RenderWhere(where: seq<Assignment>): string {
    RenderAssignments(where, " AND ")
  }

  /** The statement text (line breaks inside the source's literals rendered as single spaces). */
  function Render(st: Statement): string {
    match st
    case InsertInto(t, cols, vals) =>
      "INSERT INTO " + t + " (" + Separated(cols, ", ") + ") VALUES (" + Separated(vals, ", ") + ")"
    case UpdateSet(t, asg, where) =>
      "UPDATE " + t + " SET " + RenderAssignments(asg, ", ") + " WHERE " + RenderWhere(where)
    case DeleteFrom(t, where) =>
      "DELETE FROM " + t + " WHERE " + RenderWhere(where)
  }

  /** The table name each serialiser writes into its statements. */
  function SqlTable(e: ReceiverType): string {
    match e
    case UserItem(_) => "USERS"
    case StudentAccountItem(_) => "STUDENT_ACCOUNTS"
    case TeacherAccountItem(_) => "TEACHER_ACCOUNTS"
    case CourseItem(_) => "COURSES"
    case StudentCourseItem(_) => "student_courses"
    case DepartmentItem(_) => "departments"
  }

  /** The columns an INSERT names and an UPDATE sets, in the source's order. */
  function Columns(e: ReceiverType): seq<string> {
    match e
    case UserItem(_) =>
      ["username", "password", "email", "phone", "created_at", "updated_at",
       "verified", "suspended", "forcenewpw", "role"]
    case StudentAccountItem(_) =>
      ["student_id", "advisor_id", "discipline", "enrollment", "cgpa", "can_grad",
       "cur_credit", "cum_credit"]
    case TeacherAccountItem(_) => ["teacher_id", "dept_id", "dept"]
    case CourseItem(_) => ["teacher_id", "course", "cr_cost", "created_at", "updated_at"]
    case StudentCourseItem(_) => ["student_id", "course_id", "grade", "semester"]
    case DepartmentItem(_) => ["dept_head", "name"]
  }

  /** The rendered values for Columns(e), position by position. */
  function Values(e: ReceiverType): (vals: seq<string>)
    ensures |vals| == |Columns(e)|
  {
    match e
    case UserItem(u) =>
      [Quote(u.username), Quote(u.password), Quote(u.email), Quote(u.phone),
       Quote(u.createdAt), Quote(u.updatedAt),
       BoolText(u.verified), BoolText(u.suspended), BoolText(u.forceNewPw), Quote(u.role)]
    case StudentAccountItem(a) =>
      [IntToString(a.studentId), IntToString(a.advisorId), Quote(a.discipline), Quote(a.enrollment),
       IntToString(a.cgpa), BoolText(a.canGrad), IntToString(a.curCredit), IntToString(a.cumCredit)]
    case TeacherAccountItem(t) => [IntToString(t.teacherId), IntToString(t.deptId), Quote(t.dept)]
    case CourseItem(c) =>
      [IntToString(c.teacherId), Quote(c.course), IntToString(c.crCost), Quote(c.createdAt), Quote(c.updatedAt)]
    case StudentCourseItem(sc) =>
      [IntToString(sc.studentId), IntToString(sc.courseId), IntToString(sc.grade), Quote(sc.semester)]
    case DepartmentItem(d) => [IntToString(d.deptHead), Quote(d.name)]
  }

  /** Records of every table but STUDENT_COURSES carry a storage-assigned id. */
  predicate HasId(e: ReceiverType) { !e.StudentCourseItem? }

  function IdOf(e: ReceiverType): int
    requires HasId(e)
  {
    match e
    case UserItem(u) => u.id
    case StudentAccountItem(a) => a.id
    case TeacherAccountItem(t) => t.id
    case CourseItem(c) => c.id
    case DepartmentItem(d) => d.id
  }

  /** The same record with another id. */
  function WithId(e: ReceiverType, k: int): (r: ReceiverType)
    requires HasId(e)
    ensures HasId(r) && IdOf(r) == k
  {
    match e
    case UserItem(u) => UserItem(u.(id := k))
    case StudentAccountItem(a) => StudentAccountItem(a.(id := k))
    case TeacherAccountItem(t) => TeacherAccountItem(t.(id := k))
    case CourseItem(c) => CourseItem(c.(id := k))
    case DepartmentItem(d) => DepartmentItem(d.(id := k))
  }

  /** The WHERE clause of UPDATE and DELETE: the id, or the enrollment's (student, course) pair. */
  function Key(e: ReceiverType): seq<Assignment> {
    match e
    case StudentCourseItem(sc) =>
      [Assignment("student_id", IntToString(sc.studentId)), Assignment("course_id", IntToString(sc.courseId))]
    case _ => [Assignment("id", IntToString(IdOf(e)))]
  }

  function StatementFor(e: ReceiverType, a: Action): Statement {
    match a
    case Insert => InsertInto(SqlTable(e), Columns(e), Values(e))
    case Update =>
      var vals := Values(e);
      UpdateSet(SqlTable(e), seq(|vals|, i requires 0 <= i < |vals| => Assignment(Columns(e)[i], vals[i])), Key(e))
    case Delete => DeleteFrom(SqlTable(e), Key(e))
  }

  /** `ToSQL::to_sql` for every entity: the statement of the action, on the entity's own table. */
  function ToSql(e: ReceiverType, a: Action): (r: string)
    ensures a == Insert ==> "INSERT INTO " + SqlTable(e) + " (" <= r
    ensures a == Update ==> "UPDATE " + SqlTable(e) + " SET " <= r
    ensures a == Delete ==> "DELETE FROM " + SqlTable(e) + " WHERE " <= r
  {
    var st := StatementFor(e, a);
    match st
    case InsertInto(t, cols, vals) =>
      PrefixOfConcat("INSERT INTO " + t + " (", Separated(cols, ", ") + ") VALUES (" + Separated(vals, ", ") + ")");
      Render(st)
    case UpdateSet(t, asg, where) =>
      PrefixOfConcat("UPDATE " + t + " SET ", RenderAssignments(asg, ", ") + " WHERE " + RenderWhere(where));
      Render(st)
    case DeleteFrom(t, where) =>
      PrefixOfConcat("DELETE FROM " + t + " WHERE ", RenderWhere(where));
      Render(st)
  }

  lemma PrefixOfConcat(p: string, q: string)
    ensures p <= p + q
  {
    assert (p + q)[..|p|] == p;
  }

  // ---------------------------------------------------------------------------
  // Shape properties of the serialisers
  // ---------------------------------------------------------------------------

  /** No INSERT names the `id` column, and an UPDATE sets exactly the columns an INSERT names. */
  lemma InsertOmitsId(e: ReceiverType)
    ensures "id" !in StatementFor(e, Insert).columns
    ensures forall i :: 0 <= i < |StatementFor(e, Update).assignments| ==>
              StatementFor(e, Update).assignments[i].column == StatementFor(e, Insert).columns[i] != "id"
    ensures |StatementFor(e, Update).assignments| == |StatementFor(e, Insert).columns|
  {
  }

  /** Records that differ only in their id render the same INSERT text. */
  lemma InsertIgnoresId(e: ReceiverType, k: int)
    requires HasId(e)
    ensures ToSql(WithId(e, k), Insert) == ToSql(e, Insert)
  {
  }

  /** The WHERE text of a key on `id`. */
  lemma WhereOnId(k: string)
    ensures RenderWhere([Assignment("id", k)]) == "id = " + k
  {
  }

  /** The WHERE text of a key on (student_id, course_id). */
  lemma WhereOnPair(a: string, c: string)
    ensures RenderWhere([Assignment("student_id", a), Assignment("course_id", c)])
            == "student_id = " + a + " AND course_id = " + c
  {
    var w := [Assignment("student_id", a), Assignment("course_id", c)];
    assert w[..1] == [Assignment("student_id", a)];
    calc {
      RenderWhere(w);
      RenderAssignments(w[..1], " AND ") + " AND " + RenderAssignment(w[1]);
      ("student_id" + " = " + a) + " AND " + ("course_id" + " = " + c);
      { assert "student_id" + " = " == "student_id = ";
        assert " AND " + ("course_id" + " = ") == " AND course_id = "; }
      "student_id = " + a + " AND course_id = " + c;
    }
  }

  /** UPDATE and DELETE are keyed alike: by `id`, except enrollments, keyed by (student_id, course_id). */
  lemma UpdateAndDeleteKeys(e: ReceiverType)
    ensures StatementFor(e, Update).where == StatementFor(e, Delete).where == Key(e)
    ensures ToSql(e, Delete) == "DELETE FROM " + SqlTable(e) + " WHERE " + RenderWhere(Key(e))
    ensures HasId(e) ==> RenderWhere(Key(e)) == "id = " + IntToString(IdOf(e))
    ensures !HasId(e) ==>
              RenderWhere(Key(e)) == "student_id = " + IntToString(e.studentCourse.studentId)
                                     + " AND course_id = " + IntToString(e.studentCourse.courseId)
  {
    if HasId(e) {
      WhereOnId(IntToString(IdOf(e)));
    } else {
      WhereOnPair(IntToString(e.studentCourse.studentId), IntToString(e.studentCourse.courseId));
    }
  }

  /** Every UPDATE statement ends with its WHERE clause on the key. */
  lemma UpdateEndsWithKey(e: ReceiverType)
    ensures var sql, tail := ToSql(e, Update), " WHERE " + RenderWhere(Key(e));
            |tail| <= |sql| && sql[|sql| - |tail|..] == tail
  {
    var sql := ToSql(e, Update);
    var st := StatementFor(e, Update);
    var head := "UPDATE " + st.table + " SET " + RenderAssignments(st.assignments, ", ");
    assert sql == head + (" WHERE " + RenderWhere(Key(e)));
  }

  lemma CancelPrefix(p: string, x: string, y: string)
    requires p + x == p + y
    ensures x == y
  {
    assert x == (p + x)[|p|..];
    assert y == (p + y)[|p|..];
  }

  /** Two records of one table render the same DELETE exactly when their ids agree. */
  lemma DeleteDependsOnlyOnId(e1: ReceiverType, e2: ReceiverType)
    requires HasId(e1) && HasId(e2) && SqlTable(e1) == SqlTable(e2)
    ensures ToSql(e1, Delete) == ToSql(e2, Delete) <==> IdOf(e1) == IdOf(e2)
  {
    UpdateAndDeleteKeys(e1);
    UpdateAndDeleteKeys(e2);
    if ToSql(e1, Delete) == ToSql(e2, Delete) {
      var p := "DELETE FROM " + SqlTable(e1) + " WHERE ";
      CancelPrefix(p, RenderWhere(Key(e1)), RenderWhere(Key(e2)));
      CancelPrefix("id = ", IntToString(IdOf(e1)), IntToString(IdOf(e2)));
      IntToStringInjective(IdOf(e1), IdOf(e2));
    }
  }

  /** `"student_id = " + a + " AND course_id = " + c` determines `a` and `c` when `a` has no space. */
  lemma PairTextInjective(a: string, c: string, b: string, d: string)
    requires forall k :: 0 <= k < |a| ==> a[k] != ' '
    requires forall k :: 0 <= k < |b| ==> b[k] != ' '
    requires "student_id = " + a + " AND course_id = " + c == "student_id = " + b + " AND course_id = " + d
    ensures a == b && c == d
  {
    var p, q := "student_id = ", "AND course_id = ";
    assert p + a + " AND course_id = " + c == p + (a + " " + (q + c));
    assert p + b + " AND course_id = " + d == p + (b + " " + (q + d));
    CancelPrefix(p, a + " " + (q + c), b + " " + (q + d));
    UpToSpaceOfConcat(a, q + c);
    UpToSpaceOfConcat(b, q + d);
    assert a + " " + (q + c) == (a + " AND course_id = ") + c;
    assert b + " " + (q + d) == (b + " AND course_id = ") + d;
    CancelPrefix(a + " AND course_id = ", c, d);
  }

  /** Two enrollments render the same DELETE exactly when their (student, course) pairs agree. */
  lemma DeleteEnrollmentDependsOnlyOnPair(x: StudentCourse, y: StudentCourse)
    ensures ToSql(StudentCourseItem(x), Delete) == ToSql(StudentCourseItem(y), Delete)
            <==> x.studentId == y.studentId && x.courseId == y.courseId
  {
    var ex, ey := StudentCourseItem(x), StudentCourseItem(y);
    UpdateAndDeleteKeys(ex);
    UpdateAndDeleteKeys(ey);
    if ToSql(ex, Delete) == ToSql(ey, Delete) {
      CancelPrefix("DELETE FROM " + SqlTable(ex) + " WHERE ", RenderWhere(Key(ex)), RenderWhere(Key(ey)));
      PairTextInjective(IntToString(x.studentId), IntToString(x.courseId),
                        IntToString(y.studentId), IntToString(y.courseId));
      IntToStringInjective(x.studentId, y.studentId);
      IntToStringInjective(x.courseId, y.courseId);
    }
  }
}
