# Student portal backend: fault moderation, course visibility and the user directory

This project models the request logic of the portal's Express server (`backend/server.js`). Each
SQLite table becomes an in-memory table value (`Tables.Table`): its rows in rowid order, plus the
AUTOINCREMENT counter SQLite keeps in `sqlite_sequence`. The class `Server.Portal` holds the six
tables: users, faults, courses, drivers, messages and locations. Each route that writes is one method
of that class. `POST /courses` is a method too, because it builds its query step by step, but it
changes nothing. Each other read-only route is a pure function over the rows.

- **Fault reports.** `POST /faults` inserts a report with `approved = 0`. `GET /faults` lists the
  approved reports newest first. `GET /faults/pending` lists the pending ones.
  `POST /faults/approve/:id` runs `UPDATE ... SET approved=1 WHERE id=?` and replies with the number
  of rows matched.
- **Courses.** `/courses/file` needs a file and stores its reference in `file_url`.
  `/courses/manual` stores the content and an optional `media_url`. `POST /courses` filters by role:
  `tech_admin` sees department `technicians`, `call_admin` sees `callcenter`, and every other role,
  or no role at all, sees every course.
- **Users.** `/login` looks for a row with both the same username and the same password.
  `/users/add` first looks up the requester. It goes on only when the requester's stored role
  contains `admin`, and then it is subject to `UNIQUE(username)`. At start-up the six default
  accounts are inserted with `INSERT OR IGNORE`.
- **Drivers, messages, locations.** These routes insert a row or list the rows with a given key.

How values are modelled:
- A TEXT value is `Option<string>`. `None` is SQL NULL, which is also what a missing request field
  binds to.
- `column = ?` never matches a NULL (`Tables.SqlEq`). `UNIQUE` allows any number of NULL usernames.
- An uploaded file is the name multer stored it under. Its reference is `"/uploads/" + name`.
- An insert fails with SQLITE_FULL once the counter reaches 2^63 - 1, and then nothing changes.
- A requester whose stored role is NULL makes `admin.role.includes('admin')` throw a TypeError.
  No reply is sent. The model returns `Failure(TypeError)`, a `Server.Refusal`.

Replies worth noting:
- Approving a report that is already approved replies 1, not 0. SQLite counts the rows the `WHERE`
  clause matched, and the row still matches (`Faults.ApproveKeepsMatchCount`).
- In `/users/add`, an unknown requester gets 403, the same reply as a requester without an admin
  role. A duplicate username gets 500 with SQLite's UNIQUE message.

## Model

| member | source | states |
|---|---|---|
| `Tables.Empty` | backend/server.js:27-83 | A freshly created table has no rows and satisfies the AUTOINCREMENT invariant (increasing ids, all at most the counter). |
| `Tables.Insert` | backend/server.js:37-44 | An AUTOINCREMENT insert appends exactly one row whose id is one more than the counter and larger than every existing id, and keeps the table invariant; at the largest rowid it fails with SQLITE_FULL and changes nothing. |
| `Tables.Where` | backend/server.js:145-150 | `SELECT ... WHERE p` returns exactly the rows satisfying `p`, never more rows than the table, in increasing id order when the table is. |
| `Tables.WhereSplit` | backend/server.js:138-150 | Two filters that disagree on every row select, between them, every row exactly once (the lengths add up to the table's). |
| `Tables.KeyMatchesAtMostOne` | backend/server.js:152-157 | In a table with increasing ids, `WHERE id=?` matches one row when some row has that id and none otherwise. |
| `Tables.Reverse` | backend/server.js:139 | The reversed rows are the same rows, index `i` holding the original's `n-1-i`; an increasing table becomes strictly decreasing. |
| `Tables.FirstWhere` | backend/server.js:113-116 | `db.get` returns no row exactly when no row satisfies the condition, and otherwise a row of the table that satisfies it. |
| `Substrings.IncludesIff` | backend/server.js:277 | `Includes(s, t)` (JavaScript `includes`) holds exactly when `t` occurs in `s` at some offset. |
| `Users.SameUsernameSameRow` | backend/server.js:30 | Under `UNIQUE(username)` two rows with the same non-NULL username are the same row. |
| `Users.Authenticate` | backend/server.js:111-122 | Login succeeds exactly when some row has both the given username and the given password (NULL never matches); under the UNIQUE constraint it then returns that row's username and role; otherwise it is the 401 reply. It only reads. |
| `Users.Authorize` | backend/server.js:275-279 | A requester with no row is denied; with uniqueness the verdict is that of the requester's stored role: NULL throws, containing "admin" grants, anything else is denied; a grant always comes from a row whose role contains "admin". |
| `Users.InsertUser` | backend/server.js:282-289 | The user insert fails with SQLITE_FULL at the largest rowid, else with a UNIQUE violation when the username is taken, and otherwise is the AUTOINCREMENT insert; success keeps usernames unique and the table invariant. |
| `Users.InsertOrIgnore` | backend/server.js:94-99 | `INSERT OR IGNORE` never changes or removes existing rows (old rows are a prefix); with the username taken or the table full it changes nothing; otherwise it appends exactly the account; afterwards a non-NULL username is present unless the table is full. |
| `Users.SeedAll` | backend/server.js:86-99 | Seeding a list of accounts keeps every existing row as a prefix, appends only listed accounts, raises the counter by at most the number of accounts, leaves every listed non-NULL username present (unless the table is full), and keeps the table invariant and username uniqueness. When the accounts have distinct usernames, none of them is present yet and the counter has room, it appends each account exactly as given, under consecutive ids. |
| `Users.SeedAllNoop` | backend/server.js:94-99 | When every listed account's username is already present (or the table is full), seeding changes nothing. |
| `Users.SeedAllIdempotent` | backend/server.js:94-99 | Seeding accounts that all have usernames a second time gives the same table as seeding once. |
| `Users.SeedIdempotent` | backend/server.js:86-99 | Running the default-user loop again, on any table, leaves the table as the first run left it. |
| `Users.StudentIsNotAdmin` | backend/server.js:87 | The role "student" does not contain "admin". |
| `Users.SeededAdminRoles` | backend/server.js:88-92 | The roles tech_admin, call_admin, app_admin, sys_admin and student_admin all contain "admin". |
| `Users.OnlyStudentFailsAdminCheck` | backend/server.js:86-93 | Every seeded account has a role, and it fails the admin substring test exactly when it is "student". |
| `Users.DefaultUsersShape` | backend/server.js:86-93 | The six default accounts have distinct usernames, and each has a username, a password and a role. |
| `Users.DefaultSeedIsFresh` | backend/server.js:86-99 | The six defaults can all be seeded into a fresh `users` table: none is present and there is room. |
| `Users.SeededFreshTable` | backend/server.js:86-99 | Seeding a fresh `users` table stores the six default accounts in list order, exactly as given, under ids 1 to 6. |
| `Users.SeededAdminCheck` | backend/server.js:86-99 | On a freshly seeded table the admin check denies the account "student" and grants the account "admin". |
| `Users.StoredAccountLogsIn` | backend/server.js:111-122 | Under `UNIQUE(username)`, a stored account with a username and a password logs in with them and gets back its own username and role. |
| `Users.FreshSeedLogin` | backend/server.js:94-122 | After a fresh seeding, each seeded account with a username and a password logs in with them and gets back its own role. |
| `Users.SeededLogin` | backend/server.js:86-122 | On a freshly seeded table each of the six default accounts logs in with its own username and password and gets back its own role. |
| `Faults.ApprovedNewestFirst` | backend/server.js:138-143 | `GET /faults` returns exactly the rows with `approved = 1`, in strictly decreasing id order. |
| `Faults.Pending` | backend/server.js:145-150 | `GET /faults/pending` returns exactly the rows with `approved = 0`, in rowid order. |
| `Faults.ListingsPartition` | backend/server.js:138-150 | With flags 0 or 1, every report is in exactly one of the two listings, and their lengths sum to the table's. |
| `Faults.ApproveRows` | backend/server.js:152-157 | The UPDATE keeps the length and every id, sets `approved = 1` on the row with the given id, changes no other column, leaves every other row as it was (all rows when the id is absent), and keeps the table invariant and the 0/1 flags. |
| `Faults.MatchCount` | backend/server.js:155 | The reported `changes` is 1 when a row has the id and 0 otherwise. |
| `Faults.ApproveIdempotent` | backend/server.js:152-157 | Approving the same id twice gives the same rows as approving it once. |
| `Faults.ApproveKeepsMatchCount` | backend/server.js:152-157 | A repeated approval matches the same rows, so re-approving an existing report still reports 1. |
| `Faults.SubmitThenApprove` | backend/server.js:125-157 | A just-submitted report is pending and not in the approved listing; after approving its id it heads the approved listing, unchanged except `approved = 1`. |
| `Courses.InDepartment` | backend/server.js:196-206 | `WHERE department=?` returns exactly the courses of that department (none with a NULL department), in id order. |
| `Ancillary.DriversOn` | backend/server.js:221-226 | `GET /drivers/:date` returns exactly the driver rows with that date, in id order. |
| `Ancillary.LocationsIn` | backend/server.js:262-267 | `GET /locations/:department` returns exactly the location rows of that department, in id order. |
| `Server.UploadRef` | backend/server.js:127 | A stored reference is NULL exactly when no file was uploaded, and otherwise is "/uploads/" followed by the stored file name. |
| `Server.Portal.constructor` | backend/server.js:19-83 | Fresh database files: six empty tables that satisfy the portal invariant. |
| `Server.Portal.SeedDefaultUsers` | backend/server.js:94-99 | The start-up loop leaves users equal to `SeedAll` of the old table over the six defaults, keeps the invariant, and touches no other table. |
| `Server.Portal.SubmitFault` | backend/server.js:125-136 | Appends exactly one pending report with a fresh id above every existing one, media NULL exactly when no file was sent, and replies with that id; SQLITE_FULL changes nothing; other tables unchanged. |
| `Server.Portal.ApproveFault` | backend/server.js:152-157 | Replies 1 when a report has the id and 0 otherwise, applies `ApproveRows`, keeps the invariant, and touches no other table. |
| `Server.Portal.UploadCourseFile` | backend/server.js:161-173 | Without a file: 400 and no change. With one: appends a course with `file_url` set and `content`, `media_url` NULL, and replies with its id. |
| `Server.Portal.UploadCourseManual` | backend/server.js:176-187 | Appends a course with the given content, `file_url` NULL and `media_url` set exactly when a file was sent, and replies with its id. |
| `Server.Portal.ListCourses` | backend/server.js:190-210 | Role tech_admin: exactly the technicians courses; call_admin: exactly the callcenter courses; any other role or none: every course, in table order. It changes nothing. |
| `Server.Portal.AddUser` | backend/server.js:271-291 | An unknown requester or a role without "admin" gets 403 and a NULL role throws, with no change; otherwise a taken username or a full table is a 500 with no change, and success appends exactly the new account and echoes its id, username and role. |
| `Server.Portal.AddDriver` | backend/server.js:213-219 | Appends exactly the driver row under the next id and replies with it (or SQLITE_FULL and no change); other tables unchanged. |
| `Server.Portal.AddMessage` | backend/server.js:229-239 | Appends exactly the message row, stamped with the given time, under the next id (or SQLITE_FULL and no change); other tables unchanged. |
| `Server.Portal.AddLocation` | backend/server.js:249-260 | Appends exactly the location row, its image reference NULL exactly when no image was sent, under the next id (or SQLITE_FULL and no change). |

## Left out

- Express wiring (`app.use`, CORS, body parsing, static serving, `app.listen`): HTTP plumbing with no state logic.
- Multer's disk storage and the `uploads` folder. An upload is modelled by the file name it was stored under. The `Date.now()` naming and any collisions it may cause are clock and filesystem behaviour.
- SQLite I/O errors and the asynchronous callbacks. The only storage failures modelled are SQLITE_FULL and the UNIQUE violation. Any other `err` gives a 500 reply and changes nothing.
- Whether a failed or ignored insert uses up an AUTOINCREMENT value. SQLite picks the rowid before it checks constraints. An ignored `INSERT OR IGNORE` therefore probably advances `sqlite_sequence` when the statement ends, so a restart that re-seeds existing accounts raises the counter by one per skipped account, and a later `/users/add` would reply with a larger id. The model keeps the counter unchanged on a failed or ignored insert. Ids still only ever increase.
- Users.SeedIdempotent: its equality of the rows holds whatever SQLite does with the counter. Its equality of `last` depends on the choice above that an ignored insert keeps the counter.
- `GET /messages`: it orders by the `CURRENT_TIMESTAMP` default, which depends on the wall clock. The insert is modelled, with the timestamp as a parameter.
- Taking the server down. The model reports `TypeError` for the request that throws it. An SQLITE_FULL inside the start-up seeding loop is emitted as an error event that nothing listens for. The model leaves the `users` table unchanged in that case. After either error the Node process stops serving, and the model does not capture that.
- JSON values that are not strings (numbers, objects) and SQLite's type-affinity conversions. Request fields are text or absent. The `:id` of the approve route is modelled as the integer SQLite compares with. SQLite applies numeric affinity to the bound text first, so "5", "5.0" and " 5" all match row 5. A segment SQLite cannot convert to an integer matches no row, which is the same as an id that no row has.
- Row order when there is no `ORDER BY`. The model returns rows in rowid order, which is what SQLite's table scan gives. SQLite does not promise any order there.
- Concurrency, and the order of the start-up statements on each connection. Each request is modelled as one atomic step.
- `frontend/js/main.js`: this is browser code (DOM, `fetch`, `localStorage`, a redirect). It is not part of this model.
