/**
 * The request handlers of `server.js` as one object holding the six tables. Each
 * handler that writes is a method of `Portal`; the read-only listings are the
 * functions `Faults.ApprovedNewestFirst`, `Faults.Pending`, `Users.Authenticate`,
 * `Ancillary.DriversOn` and `Ancillary.LocationsIn` applied to its fields.
 */
module Server {
  import opened Wrappers
  import opened Tables
  import opened Users
  import opened Faults
  import opened Courses
  import opened Ancillary

  /** Why a request gets no success reply. */
  datatype Refusal =
    | Unauthorized         // 401 'Invalid credentials'
    | Forbidden            // 403 'Access denied. Admin only.'
    | BadRequest           // 400 'No file uploaded'
    | Storage(e: SqlError) // 500 carrying SQLite's message
    | TypeError            // `admin.role.includes` on a NULL role throws; no reply is sent

  /** The reply of `/users/add`: the new rowid and the username and role as sent. */
  datatype Created = Created(id: int, username: Text, role: Text)

  /** Where multer's stored files are served from. */
  const UploadsPrefix := "/uploads/"

  /** The stored reference of an optional upload, given the name multer stored it under. */
  function UploadRef(file: Option<string>): (r: Text)
    ensures r.None? <==> file.None?
    ensures r.Some? ==> UploadsPrefix <= r.value && r.value[|UploadsPrefix|..] == file.value
  {
    if file.Some? then Some(UploadsPrefix + file.value) else None
  }

  /**
   * The outcome of one INSERT route: SQLITE_FULL and no change, or the row appended
   * under the next AUTOINCREMENT id, which is the id replied.
   */
  ghost predicate Inserted<R>(before: Table<R>, after: Table<R>, r: Result<int, Refusal>, v: R)
  {
    && (before.last >= MaxRowId ==> r == Failure(Storage(Full)) && after == before)
    && (before.last < MaxRowId ==>
          && r == Success(before.last + 1)
          && after == Table(before.rows + [Row(before.last + 1, v)], before.last + 1))
  }

  class Portal {
    var users: Table<User>
    var faults: Table<Fault>
    var courses: Table<Course>
    var drivers: Table<Driver>
    var messages: Table<Message>
    var locations: Table<Location>

    ghost predicate Valid()
      reads this
    {
      && WellFormed(users) && UniqueUsernames(users.rows)
      && WellFormed(faults) && FlagsAreBits(faults.rows)
      && WellFormed(courses)
      && WellFormed(drivers)
      && WellFormed(messages)
      && WellFormed(locations)
    }

    /** Fresh database files: every `CREATE TABLE IF NOT EXISTS` creates an empty table. */
    constructor ()
      ensures Valid()
      ensures users == Empty() && faults == Empty() && courses == Empty()
      ensures drivers == Empty() && messages == Empty() && locations == Empty()
    {
      users, faults, courses := Empty(), Empty(), Empty();
      drivers, messages, locations := Empty(), Empty(), Empty();
    }

    /** The start-up loop: `INSERT OR IGNORE` of each default account in turn. */
    method SeedDefaultUsers()
      requires Valid()
      modifies this
      ensures Valid()
      ensures users == SeedAll(old(users), DefaultUsers)
      ensures faults == old(faults) && courses == old(courses)
      ensures drivers == old(drivers) && messages == old(messages) && locations == old(locations)
    {
      for i := 0 to |DefaultUsers|
        invariant Valid()
        invariant users == SeedAll(old(users), DefaultUsers[..i])
        invariant faults == old(faults) && courses == old(courses)
        invariant drivers == old(drivers) && messages == old(messages) && locations == old(locations)
      {
        assert DefaultUsers[..i + 1][..i] == DefaultUsers[..i];
        SeedStep(old(users), DefaultUsers[..i + 1]);
        users := InsertOrIgnore(users, DefaultUsers[i]);
      }
      assert DefaultUsers[..|DefaultUsers|] == DefaultUsers;
    }

    /** `POST /faults`: a new report, pending, with its optional media reference. */
    method SubmitFault(username: Text, issue: Text, solution: Text, media: Option<string>)
      returns (r: Result<int, Refusal>)
      requires Valid()
      modifies this
      ensures Valid()
      ensures Inserted(old(faults), faults, r, Fault(username, issue, solution, UploadRef(media), 0))
      ensures r.Success? ==> forall x :: x in old(faults.rows) ==> x.id < r.value
      ensures users == old(users) && courses == old(courses)
      ensures drivers == old(drivers) && messages == old(messages) && locations == old(locations)
    {
      match Insert(faults, Fault(username, issue, solution, UploadRef(media), 0))
      case Success(t) =>
        faults := t;
        r := Success(t.last);
      case Failure(e) =>
        r := Failure(Storage(e));
    }

    /**
     * `POST /faults/approve/:id`: sets `approved = 1` on the row with that id and
     * replies with the number of rows the WHERE clause matched.
     */
    method ApproveFault(id: int) returns (updated: nat)
      requires Valid()
      modifies this
      ensures Valid()
      ensures updated == if exists x :: x in old(faults.rows) && x.id == id then 1 else 0
      ensures faults == old(faults).(rows := ApproveRows(old(faults.rows), id))
      ensures users == old(users) && courses == old(courses)
      ensures drivers == old(drivers) && messages == old(messages) && locations == old(locations)
    {
      updated := MatchCount(faults.rows, id);
      var rows := ApproveRows(faults.rows, id);
      forall x | x in rows ensures 1 <= x.id <= faults.last {
        var i :| 0 <= i < |rows| && rows[i] == x;
        assert faults.rows[i] in faults.rows;
      }
      faults := faults.(rows := rows);
    }

    /** `POST /courses/file`: a file is required; the course records only its reference. */
    method UploadCourseFile(title: Text, department: Text, file: Option<string>)
      returns (r: Result<int, Refusal>)
      requires Valid()
      modifies this
      ensures Valid()
      ensures file.None? ==> r == Failure(BadRequest) && courses == old(courses)
      ensures file.Some? ==>
                Inserted(old(courses), courses, r, Course(title, department, None, UploadRef(file), None))
      ensures users == old(users) && faults == old(faults)
      ensures drivers == old(drivers) && messages == old(messages) && locations == old(locations)
    {
      if file.None? {
        r := Failure(BadRequest);
        return;
      }
      match Insert(courses, Course(title, department, None, UploadRef(file), None))
      case Success(t) =>
        courses := t;
        r := Success(t.last);
      case Failure(e) =>
        r := Failure(Storage(e));
    }

    /** `POST /courses/manual`: authored content, with an optional file kept as media. */
    method UploadCourseManual(title: Text, department: Text, content: Text, file: Option<string>)
      returns (r: Result<int, Refusal>)
      requires Valid()
      modifies this
      ensures Valid()
      ensures Inserted(old(courses), courses, r, Course(title, department, content, None, UploadRef(file)))
      ensures users == old(users) && faults == old(faults)
      ensures drivers == old(drivers) && messages == old(messages) && locations == old(locations)
    {
      match Insert(courses, Course(title, department, content, None, UploadRef(file)))
      case Success(t) =>
        courses := t;
        r := Success(t.last);
      case Failure(e) =>
        r := Failure(Storage(e));
    }

    /**
     * `POST /courses`: the query gains `WHERE department=?` and one parameter for
     * the two restricted roles; every other role, or none, sees every course.
     */
    method ListCourses(role: Text) returns (rows: seq<Row<Course>>)
      requires Valid()
      ensures role == Some("tech_admin") ==>
                && (forall x :: x in rows ==> x in courses.rows && x.val.department == Some(Technicians))
                && (forall x :: x in courses.rows && x.val.department == Some(Technicians) ==> x in rows)
      ensures role == Some("call_admin") ==>
                && (forall x :: x in rows ==> x in courses.rows && x.val.department == Some(CallCenter))
                && (forall x :: x in courses.rows && x.val.department == Some(CallCenter) ==> x in rows)
      ensures role != Some("tech_admin") && role != Some("call_admin") ==> rows == courses.rows
      ensures Increasing(rows)
    {
      var params: seq<string> := [];
      if role == Some("tech_admin") {
        params := params + [Technicians];
      } else if role == Some("call_admin") {
        params := params + [CallCenter];
      }
      if params == [] {
        rows := courses.rows;
      } else {
        rows := InDepartment(courses.rows, params[0]);
      }
    }

    /**
     * `POST /users/add`: only a requester whose stored role contains "admin" may
     * add an account, and the new username must not be taken.
     */
    method AddUser(adminUsername: Text, username: Text, password: Text, role: Text)
      returns (r: Result<Created, Refusal>)
      requires Valid()
      modifies this
      ensures Valid()
      ensures !HasUsername(old(users.rows), adminUsername) ==> r == Failure(Forbidden)
      ensures Authorize(old(users.rows), adminUsername) == NoRole ==> r == Failure(TypeError)
      ensures Authorize(old(users.rows), adminUsername) == Denied ==> r == Failure(Forbidden)
      ensures Authorize(old(users.rows), adminUsername) == Granted ==>
                match InsertUser(old(users), User(username, password, role))
                case Success(t) => r == Success(Created(t.last, username, role)) && users == t
                case Failure(e) => r == Failure(Storage(e))
      ensures r.Failure? ==> users == old(users)
      ensures r.Success? ==>
                && users.rows == old(users.rows) + [Row(r.value.id, User(username, password, role))]
                && !HasUsername(old(users.rows), username)
      ensures faults == old(faults) && courses == old(courses)
      ensures drivers == old(drivers) && messages == old(messages) && locations == old(locations)
    {
      var verdict := Authorize(users.rows, adminUsername);
      if verdict == NoRole {
        r := Failure(TypeError);
        return;
      }
      if verdict == Denied {
        r := Failure(Forbidden);
        return;
      }
      match InsertUser(users, User(username, password, role))
      case Success(t) =>
        users := t;
        r := Success(Created(t.last, username, role));
      case Failure(e) =>
        r := Failure(Storage(e));
    }

    /** `POST /drivers`. */
    method AddDriver(date: Text, name: Text) returns (r: Result<int, Refusal>)
      requires Valid()
      modifies this
      ensures Valid()
      ensures Inserted(old(drivers), drivers, r, Driver(date, name))
      ensures users == old(users) && faults == old(faults) && courses == old(courses)
      ensures messages == old(messages) && locations == old(locations)
    {
      match Insert(drivers, Driver(date, name))
      case Success(t) =>
        drivers := t;
        r := Success(t.last);
      case Failure(e) =>
        r := Failure(Storage(e));
    }

    /** `POST /messages`; `now` is the value `CURRENT_TIMESTAMP` gives the row. */
    method AddMessage(title: Text, content: Text, createdBy: Text, now: string)
      returns (r: Result<int, Refusal>)
      requires Valid()
      modifies this
      ensures Valid()
      ensures Inserted(old(messages), messages, r, Message(title, content, createdBy, Some(now)))
      ensures users == old(users) && faults == old(faults) && courses == old(courses)
      ensures drivers == old(drivers) && locations == old(locations)
    {
      match Insert(messages, Message(title, content, createdBy, Some(now)))
      case Success(t) =>
        messages := t;
        r := Success(t.last);
      case Failure(e) =>
        r := Failure(Storage(e));
    }

    /** `POST /locations`, with an optional image reference. */
    method AddLocation(department: Text, title: Text, image: Option<string>)
      returns (r: Result<int, Refusal>)
      requires Valid()
      modifies this
      ensures Valid()
      ensures Inserted(old(locations), locations, r, Location(department, title, UploadRef(image)))
      ensures users == old(users) && faults == old(faults) && courses == old(courses)
      ensures drivers == old(drivers) && messages == old(messages)
    {
      match Insert(locations, Location(department, title, UploadRef(image)))
      case Success(t) =>
        locations := t;
        r := Success(t.last);
      case Failure(e) =>
        r := Failure(Storage(e));
    }
  }
}
