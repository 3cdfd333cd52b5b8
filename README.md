# AUBG course-management backend: the server connection, in Dafny

This project models the service layer of a small university course-management backend. That layer is `ServerConnection`. It holds the signed-in user, if any, and a store of six tables: users, student accounts, teacher accounts, courses, student enrollments and departments. It offers these operations:

- register, log in and log out;
- update, delete, suspend and re-role users;
- register, remove and update batches of courses;
- enroll in and drop courses;
- search users, and search courses through a four-way join;
- count statistics.

The project also models the record layer that names the tables and renders each record as INSERT / UPDATE / DELETE SQL text.

Files and modules (one module per file):

- `wrappers.dfy` (`Wrappers`): `Option`.
- `text.dfy` (`Text`): text helpers the source gets from Rust's standard library. These are ASCII lower-casing, Unicode `trim`, substring search, the UTF-8 byte length that `String::len` returns, and integer printing and parsing.
- `seqs.dfy` (`Seqs`): filtering, first-match search and subsequences. Every query, join step and delete is stated with these.
- `table_models.dfy` (`TableModels`): the records, `ReceiverType`, `Table` names and `Table::join`, and the SQL serialisers. Each serialiser is a `Statement` value plus its rendering.
- `validation.dfy` (`Validation`): the registration checks. These are the e-mail pattern, the phone pattern and the password rules.
- `store.dfy` (`Store`): the store as in-memory tables, with the `find` filter semantics.
  - Insert assigns ids from a counter.
  - Update and delete are keyed as the SQL WHERE clauses are: by `id`, or by `(student_id, course_id)`.
  - `Db.Valid()` says user ids and course ids are unique and below their counters. The other tables' ids are not constrained, because the connection never inserts into those tables with an id.
- `search.dfy` (`Search`): `did_query_match`, the course → teacher → department → user join, and user search.
  - The join is a loop over the courses, proved equal to a recursive specification.
- `service.dfy` (`Service`): each operation of the connection as a function from the session and store to a `Result`. The lemmas state who may do what and what each operation writes.
- `server_connection.dfy` (`Connection`): the class `ServerConnection`. Its fields are `db` and `session`, and it has one method per source operation.
  - Each method follows the source's checks in their order.
  - Each writes the store or the session only on success.
  - Each is proved to return, and leave behind, exactly what the matching `Service` function describes.

Observations the proofs make explicit:

- `active_students` is "users with role student" minus "all suspended users", suspended teachers and admins included. It can be negative: `Service.ActiveStudentsCanBeNegative`.
- The teacher gate on course batches compares `course.teacher_id` with the signed-in user's id. The search join instead looks `course.teacher_id` up as a *teacher account* id, and a teacher account's `teacher_id` is the user id. A course a teacher may register can therefore fail to join with that teacher: `Service.TeacherGateAndJoinDisagree`.
- The course query is trimmed and lower-cased, but the fields it is matched against are not. A course titled "Art" is not found by the query "Art": `Search.CapitalisedTitleNotFoundByItself`.
- The password length rule counts UTF-8 bytes. A seven-character password with three two-byte letters passes: `Validation.SevenCharacterPasswordPasses`.
- The teacher gate of `remove_courses` and `update_courses` reads the teacher id of the submitted record, not of the stored row (src/backend/server_connection_impl.rs:273, :320). A teacher can therefore remove or overwrite any stored course by submitting its id with their own teacher id: `Service.TeacherGateIgnoresStoredOwner`, `Service.TeacherRemovesForeignCourse`.
- A non-admin `update_user` never checks that the updated user is the signed-in one (src/backend/server_connection_impl.rs:772-798). It only checks that the protected fields are unchanged: `Service.UpdateUserAsStudentIff`.
- Registration looks up the lower-cased e-mail, but the stored and matched address is the one given. Every address the pattern admits is already lower case (`Validation.AubgEmailIsLowerCase`), so the lookup is exact for every address registration can store. `update_user` stores any address unchecked, so a stored address with capitals is missed by a later registration's lookup.

## Model

| member | source | states |
|---|---|---|
| Connection.ServerConnection.constructor | src/backend/server_connection_impl.rs:29-34 | a new connection has nobody signed in and wraps the given store |
| Connection.ServerConnection.GetUsers | src/backend/server_connection_impl.rs:37-51 | returns every user row, in table order |
| Connection.ServerConnection.GetUser | src/backend/server_connection_impl.rs:53-68 | succeeds exactly when a stored user has the id, returns that stored user, and otherwise reports no user found |
| Connection.ServerConnection.GetUsersByFilters | src/backend/server_connection_impl.rs:70-85 | returns exactly the stored users every filter accepts, as a subsequence of the table |
| Connection.ServerConnection.RegisterUser | src/backend/server_connection_impl.rs:87-141 | answers and writes as `Service.RegisterUser`; the session is unchanged and the store stays valid |
| Connection.ServerConnection.Login | src/backend/server_connection_impl.rs:143-159 | the store is unchanged; on success the session becomes the stored user; on any error the session is unchanged |
| Connection.ServerConnection.Logout | src/backend/server_connection_impl.rs:612-614 | the session becomes empty and the store is unchanged, whatever the state before (so it is idempotent) |
| Connection.ServerConnection.UpdateUser | src/backend/server_connection_impl.rs:161-172 | answers and writes as `Service.UpdateUser`, dispatching on the lower-cased role |
| Connection.ServerConnection.UpdateUserAsAdmin | src/backend/server_connection_impl.rs:800-808 | answers and writes as `Service.UpdateUserAsAdmin` |
| Connection.ServerConnection.UpdateUserAsStudent | src/backend/server_connection_impl.rs:772-798 | answers and writes as `Service.UpdateUserAsStudent` |
| Connection.ServerConnection.DeleteUser | src/backend/server_connection_impl.rs:174-201 | answers and writes as `Service.DeleteUser` |
| Connection.ServerConnection.RegisterCourses | src/backend/server_connection_impl.rs:203-254 | answers and writes as `Service.RegisterCourses` |
| Connection.ServerConnection.RemoveCourses | src/backend/server_connection_impl.rs:256-301 | answers and writes as `Service.RemoveCourses` |
| Connection.ServerConnection.UpdateCourses | src/backend/server_connection_impl.rs:303-348 | answers and writes as `Service.UpdateCourses` |
| Connection.ServerConnection.SearchUsers | src/backend/server_connection_impl.rs:350-375 | returns exactly the stored users whose username, e-mail, phone or id text contains the query |
| Connection.ServerConnection.SearchCourses | src/backend/server_connection_impl.rs:377-415 | returns the join of the stored tables against the trimmed, lower-cased query (`Search.SearchCourses`); only ASCII capitals are lower-cased, see "## Left out" |
| Connection.ServerConnection.EnrollCourses | src/backend/server_connection_impl.rs:417-463 | answers and writes as `Service.EnrollCourses` |
| Connection.ServerConnection.DropCourses | src/backend/server_connection_impl.rs:465-511 | answers and writes as `Service.DropCourses` |
| Connection.ServerConnection.SetUserRole | src/backend/server_connection_impl.rs:513-535 | answers and writes as `Service.SetUserRole` |
| Connection.ServerConnection.SuspendUser | src/backend/server_connection_impl.rs:537-555 | answers and writes as `Service.SuspendUser` |
| Connection.ServerConnection.UnsuspendUser | src/backend/server_connection_impl.rs:557-575 | answers and writes as `Service.UnsuspendUser` |
| Connection.ServerConnection.GenerateStatistics | src/backend/server_connection_impl.rs:577-610 | returns the counts `Service.GenerateStatistics` gives for the current store |
| Service.FindByEmailEmptyIff | src/backend/server_connection_impl.rs:100-108 | the duplicate-e-mail lookup finds nothing exactly when no stored user has that e-mail |
| Service.RegisterUserIff | src/backend/server_connection_impl.rs:87-141 | registration succeeds exactly when: nobody is signed in; no stored e-mail equals the lower-cased one; the username is non-empty; the e-mail is in the e-mail pattern's language; the phone is empty or in the phone pattern's language; and the password rules hold |
| Service.RegisterUserAppendsOne | src/backend/server_connection_impl.rs:133-138 | a successful registration appends exactly one row: the user with the hashed password and the next id. Nothing else in the store changes |
| Service.RegisterKeepsEmailsDistinct | src/backend/server_connection_impl.rs:100-108 | when stored e-mails are distinct, they stay distinct after a successful registration |
| Service.LoginIff | src/backend/server_connection_impl.rs:143-159 | login yields user u exactly when u is the first stored user with the e-mail, u is not suspended, and the password verifies against u's hash |
| Service.UpdateUserAsStudentIff | src/backend/server_connection_impl.rs:772-798 | a non-admin update succeeds exactly when the id is stored and username, suspended, verified and role equal the stored row; the result is then `Store.UpdateUserRow` of the user, which replaces the row with that id only, and no protected field of any row changes |
| Service.SameIdSameIndex | src/backend/server_connection_impl.rs:773-775 | with unique ids, two rows with the same id are the same row (the lookup's first match is the one updated) |
| Service.DeleteUserPermission | src/backend/server_connection_impl.rs:174-201 | delete succeeds exactly when someone is signed in and (admin ⇔ the target is someone else); it then removes exactly the rows with the target id |
| Service.AdminOnlyUserOperations | src/backend/server_connection_impl.rs:513-575 | set role, suspend and unsuspend succeed exactly for a signed-in admin; suspend then writes the user with only `suspended` set |
| Service.SuspendTwiceIsSuspendOnce | src/backend/server_connection_impl.rs:537-555 | suspending the same user twice leaves the same store as suspending once |
| Service.SuspendSuspendedUserIsNoOp | src/backend/server_connection_impl.rs:537-555 | suspending a stored, already suspended user succeeds and changes nothing |
| Service.CourseGateIff | src/backend/server_connection_impl.rs:203-254 | a course batch passes exactly for an admin, or for a teacher all of whose courses carry the teacher's id; all other roles and any foreign course reject the whole batch |
| Service.TeacherGateIgnoresStoredOwner | src/backend/server_connection_impl.rs:269-280 | a teacher's one-record batch carrying their own id always passes; removing it deletes every stored course with that id, and updating it overwrites that stored course, whoever teaches it |
| Service.TeacherRemovesForeignCourse | src/backend/server_connection_impl.rs:269-280 | an example: teacher 7 removes course 1, which teacher 99 teaches |
| Service.TeacherGateAndJoinDisagree | src/backend/server_connection_impl.rs:216-219 | an example where a teacher may register a course that the search join then cannot link to any teacher account |
| Service.Semester | src/backend/server_connection_impl.rs:624-627 | "Fall" exactly for months 6 to 12, otherwise "Spring" |
| Service.Transmute | src/backend/server_connection_impl.rs:619-629 | the enrollment has the student's id, the course's id and grade -1, and its semester is "Fall" exactly for months 6 to 12, "Spring" otherwise |
| Service.TransmuteAll | src/backend/server_connection_impl.rs:619-629 | one enrollment per course, in order, each with the student's id, the course's id, grade -1 and the month's semester; distinct course ids give distinct (student, course) keys |
| Service.EnrollmentGateIff | src/backend/server_connection_impl.rs:417-463 | enroll/drop passes exactly for a signed-in student; the ownership check then always holds and the records are the transmuted courses |
| Service.DropRemovesStudentsEnrollments | src/backend/server_connection_impl.rs:465-511 | a student's drop always succeeds. The result is the enrollment table filtered once, in order and with duplicates kept: a row is dropped exactly when it is the student's and its course id is listed |
| Service.EnrollTwiceStoresTwice | src/backend/server_connection_impl.rs:417-463 | enroll does not look for existing records: enrolling in the same courses twice stores each transmuted record twice, as a multiset |
| Service.SignedOutMutatesNothing | src/backend/server_connection_impl.rs:167-168 | without a session every mutating operation reports "must be signed in" and so writes nothing |
| Service.OperationsPreserveValid | src/backend/server_connection_impl.rs:161-575 | every successful mutation and registration keeps ids unique and below the counters |
| Service.ActiveStudentsDecomposition | src/backend/server_connection_impl.rs:577-610 | `active_students` equals the active students minus the suspended non-students |
| Service.StatisticsBounds | src/backend/server_connection_impl.rs:577-610 | suspended users are at most the registered users; faculty plus active students plus suspended users are at most the registered users; graduating students are at most the student accounts; courses and departments are the table sizes |
| Service.ActiveStudentsCanBeNegative | src/backend/server_connection_impl.rs:587-592 | a store with one suspended teacher and no students reports -1 active students |
| Store.FindUsers | src/backend/server_connection_impl.rs:70-85 | the rows found are exactly the stored rows the filters accept, in table order |
| Store.FindEveryRow | src/backend/server_connection_impl.rs:37-51 | an empty filter list, or `All` under `Or`, finds the whole table |
| Store.FindByIdAtMostOne | src/backend/server_connection_impl.rs:53-68 | with unique ids an id lookup finds at most one row, that row has the id, and it finds none exactly when no row has it |
| Store.InsertUser | src/backend/table_models.rs:61-66 | the user is appended with the next id and the counter advances; no other table changes and the store stays valid |
| Store.UpdateUserRow | src/backend/table_models.rs:68-74 | every row with the user's id is replaced by the user, every other row is kept, ids are unchanged and the store stays valid |
| Store.DeleteUserRows | src/backend/table_models.rs:76-78 | exactly the rows without the id remain, in order |
| Store.DeleteUserMatchesStatement | src/backend/table_models.rs:76-78 | a row is removed exactly when its DELETE statement is the one rendered for the target |
| Store.InsertCourses | src/backend/server_connection_impl.rs:207-212 | the batch is appended in order with consecutive ids from the counter; earlier rows are kept |
| Store.DeleteCourses | src/backend/server_connection_impl.rs:260-265 | deleting the batch one statement after the other equals one order-preserving filter of the table: exactly the courses whose id no batch entry names remain, in table order |
| Store.UpdateCourses | src/backend/server_connection_impl.rs:307-312 | ids are kept; rows the batch does not name are untouched; a named row ends as the last batch entry naming it |
| Store.LastWithId | src/backend/server_connection_impl.rs:307-312 | the entry found is present exactly when the batch names the id, and it is the last entry naming it |
| Store.CourseIds | src/backend/server_connection_impl.rs:260-265 | an id is named exactly when some batch entry carries it |
| Store.InsertEnrollments | src/backend/table_models.rs:191-195 | the table as a multiset gains exactly the batch, duplicates included (the table has no key, src/backend/sqlite_conn.rs:73-80); the existing rows stay first, in order |
| Store.DeleteEnrollments | src/backend/table_models.rs:203-205 | the statements of a batch, run one after the other, equal one order-preserving filter of the table: a row is kept, with its duplicates, exactly when no batch entry names its (student, course) pair |
| Store.Pairs | src/backend/server_connection_impl.rs:465-511 | a (student, course) pair is named exactly when some batch entry carries it |
| Store.DeleteEnrollmentMatchesStatement | src/backend/table_models.rs:203-205 | an enrollment is removed exactly when its DELETE statement is the one rendered for the target |
| Store.ReplaceRowsIdempotent | src/backend/table_models.rs:68-74 | writing the same row twice leaves the same table as writing it once |
| Store.ReplaceRowsKeepsDistinct | src/backend/table_models.rs:68-74 | an update by key keeps keys distinct |
| Search.DidQueryMatchIgnoresUnlistedFields | src/backend/server_connection_impl.rs:750-770 | the match depends only on the course's id and title, the teacher account, the department's id, and the user's id, e-mail, username and phone |
| Search.DidQueryMatchFindsOwnFields | src/backend/server_connection_impl.rs:750-770 | a row matches its own course title, course id text and user e-mail |
| Search.JoinWithTeacher | src/backend/server_connection_impl.rs:657-686 | a joined row has the course and a stored teacher account whose id is the course's `teacher_id` |
| Search.JoinWithDepartment | src/backend/server_connection_impl.rs:688-717 | a joined row keeps course and teacher and has a stored department with the teacher's `dept_id` |
| Search.JoinWithUser | src/backend/server_connection_impl.rs:719-748 | a joined row keeps course, teacher and department and has a stored user whose id is the teacher's `teacher_id` |
| Search.JoinCourseIff | src/backend/server_connection_impl.rs:657-748 | a course joins to a row exactly when each link is the first match in its table and the row matches the query |
| Search.JoinSpec | src/backend/server_connection_impl.rs:631-655 | the specification of the join: the rows of the courses in order, at most one per course |
| Search.JoinCoursesWithData | src/backend/server_connection_impl.rs:631-655 | the loop over the courses produces exactly the joined rows of the specification |
| Search.JoinMembership | src/backend/server_connection_impl.rs:631-655 | a row is in the join exactly when its course is listed and that course joins to it |
| Search.JoinKeepsCourseOrder | src/backend/server_connection_impl.rs:631-655 | the joined courses are the courses whose links resolve and match, in their original order |
| Search.UnresolvedCourseDropped | src/backend/server_connection_impl.rs:667-673 | a course whose teacher account is missing yields no row, without an error |
| Search.EmptyQueryKeepsResolved | src/backend/server_connection_impl.rs:750-770 | with the empty query the join keeps every course whose three links resolve |
| Search.BlankCourseQueryKeepsResolved | src/backend/server_connection_impl.rs:377-415 | a blank query (whitespace only) returns every fully linked course, in order |
| Search.CapitalisedTitleNotFoundByItself | src/backend/server_connection_impl.rs:402 | the query "Art" does not find a course titled "Art" |
| Search.SearchUsers | src/backend/server_connection_impl.rs:350-375 | exactly the users whose username, e-mail, phone or id text contains the query |
| Search.SearchUsersIsSubsequence | src/backend/server_connection_impl.rs:350-375 | the result is the table filtered in order |
| Search.EmptyUserQueryReturnsAll | src/backend/server_connection_impl.rs:350-375 | the empty query returns the whole user table |
| Search.UserFoundById | src/backend/server_connection_impl.rs:350-375 | every user is found by the text of its own id |
| Validation.IsAubgEmailMatchesPattern | src/backend/server_connection_impl.rs:92 | the e-mail check accepts exactly the regex's language, written independently from its shape: one character of `[a-z0-9_+]`, or such a character, a run of `[a-z0-9_+.]` and another such character, then `@aubg.edu` |
| Validation.AubgEmailIsLowerCase | src/backend/server_connection_impl.rs:92 | every accepted e-mail is unchanged by lower-casing |
| Validation.IsPhoneMatchesPattern | src/backend/server_connection_impl.rs:93 | the phone check accepts exactly optional `+`, 2 digits, optional separator, 4 digits, optional separator, 4 digits |
| Validation.PasswordRulesIff | src/backend/server_connection_impl.rs:94-98 | a password passes exactly when it is at least 8 bytes and has a lower-case letter, an upper-case letter, a digit and one of `@$!%*?&` |
| Validation.ShortAsciiPasswordRejected | src/backend/server_connection_impl.rs:94 | an ASCII password under 8 characters is rejected |
| Validation.SevenCharacterPasswordPasses | src/backend/server_connection_impl.rs:94 | the length rule counts bytes: a 7-character password with three 2-byte letters passes |
| TableModels.ToSql | src/backend/table_models.rs:58-235 | each statement starts with its action on the entity's own table: `INSERT INTO <table> (`, `UPDATE <table> SET ` or `DELETE FROM <table> WHERE ` |
| TableModels.TableNameRoundTrip | src/backend/table_models.rs:20-31 | each table has its own name (students' accounts spelled `STUDENT_ACCOUTNS`), without spaces, from which it is recovered |
| TableModels.JoinRecoversTables | src/backend/table_models.rs:34-36 | the joined text starts with the first table's name and ends with the second's, separated by spaces |
| TableModels.InsertOmitsId | src/backend/table_models.rs:61-66 | no INSERT lists an `id` column, and UPDATE sets exactly the INSERT columns |
| TableModels.InsertIgnoresId | src/backend/table_models.rs:161-165 | two records differing only in id render the same INSERT |
| TableModels.UpdateAndDeleteKeys | src/backend/table_models.rs:68-78 | UPDATE and DELETE share one WHERE key: `id` for every table except enrollments, keyed by student and course |
| TableModels.UpdateEndsWithKey | src/backend/table_models.rs:167-171 | every UPDATE text ends with its WHERE clause |
| TableModels.DeleteDependsOnlyOnId | src/backend/table_models.rs:173-175 | two records of one table render the same DELETE exactly when their ids are equal |
| TableModels.DeleteEnrollmentDependsOnlyOnPair | src/backend/table_models.rs:203-205 | two enrollments render the same DELETE exactly when their (student, course) pairs are equal |
| Text.LowerFixedPoint | src/backend/server_connection_impl.rs:163 | lower-casing leaves a text unchanged exactly when it has no upper-case ASCII letter |
| Text.LowerIdempotent | src/backend/server_connection_impl.rs:163 | lower-casing twice is lower-casing once |
| Text.TrimEmptyIff | src/backend/server_connection_impl.rs:402 | trimming gives the empty text exactly when every character is white space |
| Text.ParseIntToString | src/backend/server_connection_impl.rs:760-765 | the printed id parses back to the id |
| Text.IntToStringInjective | src/backend/server_connection_impl.rs:760-765 | different ids print differently |

## Left out

- The HTTP layer (`rest_api.rs`), the SQLite connection and schema (`sqlite_conn.rs`), the server bootstrap and the UI are not part of this model.
- Password hashing and salts (`password.rs`): `hash` and `verify` are function parameters. The salt is assumed folded into `hash`.
- The database driver and the filter module are not part of this model. The store is a set of in-memory tables that never fail, so storage and SQL errors are not modelled.
  - Insert assigns ids from a counter, as an auto-increment key would.
  - A filter list with several filters and no associativity is read as "all must hold".
- Store.FindUsers: e-mail and role filters compare exactly. Any case or collation rule of the database is not modelled.
- The `UNIQUE` constraint on `USERS.email` (src/backend/sqlite_conn.rs:30) is not modelled, and distinct e-mails are not part of `Db.Valid()`. `update_user` can store an e-mail another user has, so `Service.RegisterKeepsEmailsDistinct` takes distinct e-mails as a precondition.
- Service.GenerateStatistics: `graduated_students` counts student accounts with `can_grad`.
  - The source sends that account filter through a users-table lookup in the driver, which is not part of this model.
  - The counts are unbounded integers, not wrapped to `i32`.
- The wall clock: the month is a parameter of enroll and drop, read once per batch. The source reads `chrono::Local::now().month()` once per course (src/backend/server_connection_impl.rs:624). A batch that runs across 31 May / 1 June or 31 December / 1 January can therefore mix "Spring" and "Fall" in the source, but never in the model.
- Grades and CGPAs (`f32`) are integers. -1 stands for ungraded.
- SQL text:
  - line breaks and indentation inside the statement templates are rendered as single spaces;
  - quotes inside values are not escaped, as in the source.
- Text.Lower: lower-cases ASCII capitals only. Rust's `to_lowercase` lower-cases every Unicode capital, so the source turns "École" into "école" while the model keeps "École". Role names are ASCII; the three members below give different results for text with non-ASCII capitals.
- Search.SearchCourses: a free-text query keeps its non-ASCII capitals (src/backend/server_connection_impl.rs:402). With the query "École" the model returns a course titled "École", which the source does not find, and misses a course titled "école", which the source finds.
- Connection.ServerConnection.SearchCourses: returns `Search.SearchCourses`, so it differs from the source for the same queries.
- Service.RegisterUser: the e-mail lookup (src/backend/server_connection_impl.rs:100-104) keeps non-ASCII capitals. Take "é@aubg.edu" stored through `update_user`, which checks nothing. Registering "É@aubg.edu" gives EmailTaken in the source; the model passes that check and rejects the address later, with InvalidEmail or EmptyUsername. Neither accepts it.
- Error messages are `Error` values, not the exact message text.
