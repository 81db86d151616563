/**
 * The `users` table: the login lookup, the admin check made before `/users/add`,
 * the insert guarded by `UNIQUE(username)`, and the `INSERT OR IGNORE` seeding of
 * the six default accounts.
 */
module Users {
  import opened Wrappers
  import opened Tables
  import opened Substrings

  datatype User = User(username: Text, password: Text, role: Text)

  /** The body of a successful `/login` reply. */
  datatype Account = Account(username: Text, role: Text)

  /** The verdict of the admin check in `/users/add`. */
  datatype Verdict =
    | Granted
    | Denied      // no such requester, or a role without "admin": 403
    | NoRole      // the requester's role is NULL, so `role.includes` throws a TypeError

  /** `UNIQUE(username)`: non-NULL usernames are pairwise distinct (NULLs never clash). */
  ghost predicate UniqueUsernames(rows: seq<Row<User>>)
  {
    forall i, j :: 0 <= i < j < |rows| ==> !SqlEq(rows[i].val.username, rows[j].val.username)
  }

  predicate HasUsername(rows: seq<Row<User>>, name: Text)
  {
    exists x :: x in rows && SqlEq(x.val.username, name)
  }

  /** The policy "the role string contains `admin`". */
  predicate IsAdminRole(role: string)
  {
    Includes(role, "admin")
  }

  /** Two rows that carry the same non-NULL username are the same row. */
  lemma SameUsernameSameRow(rows: seq<Row<User>>, x: Row<User>, y: Row<User>, name: Text)
    requires UniqueUsernames(rows)
    requires x in rows && y in rows && SqlEq(x.val.username, name) && SqlEq(y.val.username, name)
    ensures x == y
  {
    var i :| 0 <= i < |rows| && rows[i] == x;
    var j :| 0 <= j < |rows| && rows[j] == y;
  }

  /**
   * `/login`: `SELECT * FROM users WHERE username=? AND password=?`; `None` is the
   * 401 reply.
   */
  function Authenticate(rows: seq<Row<User>>, username: Text, password: Text): (r: Option<Account>)
    ensures r.Some? <==> exists x :: x in rows && SqlEq(x.val.username, username) && SqlEq(x.val.password, password)
    ensures UniqueUsernames(rows) ==>
              forall x :: x in rows && SqlEq(x.val.username, username) && SqlEq(x.val.password, password) ==>
                r == Some(Account(username, x.val.role))
  {
    var found := FirstWhere(rows, (x: Row<User>) => SqlEq(x.val.username, username) && SqlEq(x.val.password, password));
    if found.None? then None
    else
      assert UniqueUsernames(rows) ==>
               forall x :: x in rows && SqlEq(x.val.username, username) && SqlEq(x.val.password, password) ==>
                 x == found.value by {
        if UniqueUsernames(rows) {
          forall x | x in rows && SqlEq(x.val.username, username) && SqlEq(x.val.password, password)
            ensures x == found.value
          {
            SameUsernameSameRow(rows, x, found.value, username);
          }
        }
      }
      Some(Account(found.value.val.username, found.value.val.role))
  }

  /**
   * The admin check of `/users/add`: look the requester up by username and test
   * whether the stored role contains "admin".
   */
  function Authorize(rows: seq<Row<User>>, adminUsername: Text): (v: Verdict)
    ensures !HasUsername(rows, adminUsername) ==> v == Denied
    ensures v == Granted ==>
              exists x :: x in rows && SqlEq(x.val.username, adminUsername) && x.val.role.Some? && IsAdminRole(x.val.role.value)
    ensures UniqueUsernames(rows) ==>
              forall x :: x in rows && SqlEq(x.val.username, adminUsername) ==>
                v == (if x.val.role.None? then NoRole
                      else if IsAdminRole(x.val.role.value) then Granted
                      else Denied)
  {
    var found := FirstWhere(rows, (x: Row<User>) => SqlEq(x.val.username, adminUsername));
    if found.None? then Denied
    else
      assert UniqueUsernames(rows) ==>
               forall x :: x in rows && SqlEq(x.val.username, adminUsername) ==> x == found.value by {
        if UniqueUsernames(rows) {
          forall x | x in rows && SqlEq(x.val.username, adminUsername) ensures x == found.value {
            SameUsernameSameRow(rows, x, found.value, adminUsername);
          }
        }
      }
      var role := found.value.val.role;
      if role.None? then NoRole
      else if IsAdminRole(role.value) then Granted
      else Denied
  }

  /**
   * `INSERT INTO users(username,password,role) VALUES (?,?,?)`. SQLite picks the
   * rowid before it checks constraints, so a full table reports SQLITE_FULL even
   * for a duplicate username.
   */
  function InsertUser(t: Table<User>, u: User): (r: Result<Table<User>, SqlError>)
    ensures t.last >= MaxRowId ==> r == Failure(Full)
    ensures t.last < MaxRowId && HasUsername(t.rows, u.username) ==> r == Failure(UniqueViolation)
    ensures r.Success? <==> t.last < MaxRowId && !HasUsername(t.rows, u.username)
    ensures r.Success? ==> r == Insert(t, u)
    ensures r.Success? && WellFormed(t) ==> WellFormed(r.value)
    ensures r.Success? && UniqueUsernames(t.rows) ==> UniqueUsernames(r.value.rows)
  {
    if t.last >= MaxRowId then Failure(Full)
    else if HasUsername(t.rows, u.username) then Failure(UniqueViolation)
    else
      var ins := Insert(t, u);
      assert ins.Success?;
      assert UniqueUsernames(t.rows) ==> UniqueUsernames(ins.value.rows) by {
        if UniqueUsernames(t.rows) {
          var rows := ins.value.rows;
          forall i, j | 0 <= i < j < |rows| ensures !SqlEq(rows[i].val.username, rows[j].val.username) {
            if j == |rows| - 1 {
              assert rows[i] in t.rows;
            }
          }
        }
      }
      ins
  }

  /**
   * `INSERT OR IGNORE`: a UNIQUE conflict skips the row. An SQLITE_FULL error is
   * emitted with no listener, because the seeding passes no callback, and the
   * process stops. Either way the table is unchanged.
   */
  function InsertOrIgnore(t: Table<User>, u: User): (r: Table<User>)
    ensures r == t || Insert(t, u) == Success(r)
    ensures HasUsername(t.rows, u.username) || t.last >= MaxRowId ==> r == t
    ensures !HasUsername(t.rows, u.username) && t.last < MaxRowId ==>
              r == Table(t.rows + [Row(t.last + 1, u)], t.last + 1)
    ensures t.rows <= r.rows && t.last <= r.last
    ensures u.username.Some? ==> HasUsername(r.rows, u.username) || r.last >= MaxRowId
    ensures WellFormed(t) ==> WellFormed(r)
    ensures UniqueUsernames(t.rows) ==> UniqueUsernames(r.rows)
  {
    match InsertUser(t, u)
    case Success(t') =>
      assert SqlEq(t'.rows[|t'.rows| - 1].val.username, u.username) <== u.username.Some?;
      t'
    case Failure(_) => t
  }

  /** The accounts `server.js` seeds at every start-up. */
  const DefaultUsers: seq<User> := [
    User(Some("student"), Some("123456"), Some("student")),
    User(Some("adminT"), Some("123456"), Some("tech_admin")),
    User(Some("adminM"), Some("123456"), Some("call_admin")),
    User(Some("adminA"), Some("123456"), Some("app_admin")),
    User(Some("adminS"), Some("123456"), Some("sys_admin")),
    User(Some("admin"), Some("123456"), Some("student_admin"))
  ]

  /** Appending rows never removes a username. */
  lemma UsernamesKept(a: seq<Row<User>>, b: seq<Row<User>>)
    requires a <= b
    ensures forall n :: HasUsername(a, n) ==> HasUsername(b, n)
  {
    forall n | HasUsername(a, n) ensures HasUsername(b, n) {
      var x :| x in a && SqlEq(x.val.username, n);
      var i :| 0 <= i < |a| && a[i] == x;
      assert b[i] == x;
    }
  }

  /** Rows appended by seeding `us[..|us| - 1]` and then at most the last account all come from `us`. */
  lemma NewRowsListed(t: Table<User>, us: seq<User>, prev: Table<User>, r: Table<User>)
    requires us != [] && t.rows <= prev.rows
    requires forall k :: |t.rows| <= k < |prev.rows| ==> prev.rows[k].val in us[..|us| - 1]
    requires r == prev || Insert(prev, us[|us| - 1]) == Success(r)
    ensures forall k :: |t.rows| <= k < |r.rows| ==> r.rows[k].val in us
  {
    forall k | |t.rows| <= k < |r.rows| ensures r.rows[k].val in us {
      if k < |prev.rows| {
        assert r.rows[k] == prev.rows[k];
        var v := prev.rows[k].val;
        assert v in us[..|us| - 1];
        var i :| 0 <= i < |us| - 1 && us[..|us| - 1][i] == v;
        assert us[i] == v;
      } else {
        assert r.rows[k].val == us[|us| - 1];
      }
    }
  }

  /** The table after `INSERT OR IGNORE` of each of `us` in turn. */
  function SeedAll(t: Table<User>, us: seq<User>): (r: Table<User>)
    ensures t.rows <= r.rows && t.last <= r.last && r.last <= t.last + |us|
    ensures forall k :: |t.rows| <= k < |r.rows| ==> r.rows[k].val in us
    ensures forall u :: u in us && u.username.Some? ==> HasUsername(r.rows, u.username) || r.last >= MaxRowId
    ensures WellFormed(t) ==> WellFormed(r)
    ensures UniqueUsernames(t.rows) ==> UniqueUsernames(r.rows)
    ensures FreshSeed(t, us) ==> r == Table(t.rows + Numbered(t.last, us), t.last + |us|)
    decreases |us|
  {
    if us == [] then
      assert t.rows + Numbered(t.last, us) == t.rows;
      t
    else
      var prev := SeedAll(t, us[..|us| - 1]);
      var r := InsertOrIgnore(prev, us[|us| - 1]);
      assert forall u :: u in us ==> u in us[..|us| - 1] || u == us[|us| - 1];
      UsernamesKept(prev.rows, r.rows);
      NewRowsListed(t, us, prev, r);
      assert FreshSeed(t, us) ==> r == Table(t.rows + Numbered(t.last, us), t.last + |us|) by {
        if FreshSeed(t, us) {
          SeedPrefixFacts(t, us);
          FreshStep(t, us, prev);
        }
      }
      r
  }

  /**
   * The accounts `us` have distinct usernames, none of them is in `t` yet, and the
   * counter leaves room for all of them.
   */
  predicate FreshSeed(t: Table<User>, us: seq<User>)
  {
    && t.last + |us| <= MaxRowId
    && (forall u :: u in us ==> !HasUsername(t.rows, u.username))
    && DistinctUsernames(us)
  }

  /** Non-NULL usernames of `us` are pairwise distinct. */
  predicate DistinctUsernames(us: seq<User>)
  {
    forall i, j :: 0 <= i < j < |us| ==> !SqlEq(us[i].username, us[j].username)
  }

  /** The rows that appending each of `us` in turn after the counter `base` produces. */
  function Numbered(base: int, us: seq<User>): (r: seq<Row<User>>)
    ensures |r| == |us|
    ensures forall k :: 0 <= k < |us| ==> r[k] == Row(base + 1 + k, us[k])
  {
    seq(|us|, k requires 0 <= k < |us| => Row(base + 1 + k, us[k]))
  }

  lemma NumberedSnoc(base: int, us: seq<User>)
    requires us != []
    ensures Numbered(base, us) == Numbered(base, us[..|us| - 1]) + [Row(base + |us|, us[|us| - 1])]
  {
  }

  /** A username absent from `rows` and from every account of `us` is absent after appending them. */
  lemma AbsentAfterNumbered(rows: seq<Row<User>>, base: int, us: seq<User>, name: Text)
    requires !HasUsername(rows, name)
    requires forall k :: 0 <= k < |us| ==> !SqlEq(us[k].username, name)
    ensures !HasUsername(rows + Numbered(base, us), name)
  {
    var all := rows + Numbered(base, us);
    forall x | x in all ensures !SqlEq(x.val.username, name) {
      var i :| 0 <= i < |all| && all[i] == x;
      if i >= |rows| {
        assert x == Row(base + 1 + (i - |rows|), us[i - |rows|]);
      }
    }
  }

  /** What `FreshSeed` says about all but the last account. */
  lemma SeedPrefixFacts(t: Table<User>, us: seq<User>)
    requires us != [] && FreshSeed(t, us)
    ensures FreshSeed(t, us[..|us| - 1])
  {
    var init := us[..|us| - 1];
    assert forall v :: v in init ==> v in us;
    assert forall i :: 0 <= i < |init| ==> init[i] == us[i];
  }

  /**
   * With the accounts before the last one appended as given, `INSERT OR IGNORE`
   * of the last one appends it too.
   */
  lemma FreshStep(t: Table<User>, us: seq<User>, prev: Table<User>)
    requires us != [] && FreshSeed(t, us)
    requires prev == Table(t.rows + Numbered(t.last, us[..|us| - 1]), t.last + |us| - 1)
    ensures InsertOrIgnore(prev, us[|us| - 1]) == Table(t.rows + Numbered(t.last, us), t.last + |us|)
  {
    var init := us[..|us| - 1];
    var u := us[|us| - 1];
    assert u in us;
    forall k | 0 <= k < |init| ensures !SqlEq(init[k].username, u.username) {
      assert init[k] == us[k];
    }
    AbsentAfterNumbered(t.rows, t.last, init, u.username);
    NumberedSnoc(t.last, us);
    assert prev.rows + [Row(prev.last + 1, u)] == t.rows + Numbered(t.last, us);
  }

  /** The six default accounts have pairwise distinct usernames, and every field of them is set. */
  lemma DefaultUsersShape()
    ensures DistinctUsernames(DefaultUsers)
    ensures forall k :: 0 <= k < |DefaultUsers| ==>
              DefaultUsers[k].username.Some? && DefaultUsers[k].password.Some? && DefaultUsers[k].role.Some?
  {
    assert "student"[0] == 's' && "admin"[0] == 'a';
    assert "adminT"[5] == 'T' && "adminM"[5] == 'M' && "adminA"[5] == 'A' && "adminS"[5] == 'S';
  }

  /** The default accounts can all be seeded into a fresh `users` table. */
  lemma DefaultSeedIsFresh()
    ensures FreshSeed(Empty(), DefaultUsers)
  {
    DefaultUsersShape();
  }

  /** Seeding a fresh `users` table stores the six default accounts in order, under ids 1 to 6. */
  lemma SeededFreshTable()
    ensures SeedAll(Empty(), DefaultUsers) == Table(Numbered(0, DefaultUsers), |DefaultUsers|)
  {
    var e: Table<User> := Empty();
    DefaultSeedIsFresh();
    assert e.rows + Numbered(0, DefaultUsers) == Numbered(0, DefaultUsers);
  }

  /**
   * On a freshly seeded table the admin check refuses the account "student" and
   * grants the account "admin".
   */
  lemma SeededAdminCheck()
    ensures Authorize(SeedAll(Empty(), DefaultUsers).rows, Some("student")) == Denied
    ensures Authorize(SeedAll(Empty(), DefaultUsers).rows, Some("admin")) == Granted
  {
    SeededFreshTable();
    var rows := Numbered(0, DefaultUsers);
    assert UniqueUsernames(rows);
    StudentIsNotAdmin();
    SeededAdminRoles();
    assert rows[0] in rows && rows[0].val == DefaultUsers[0];
    assert rows[5] in rows && rows[5].val == DefaultUsers[5];
  }

  /**
   * Under `UNIQUE(username)` every stored account with a username and a password
   * logs in with them and gets back its own row's username and role.
   */
  lemma StoredAccountLogsIn(rows: seq<Row<User>>, x: Row<User>)
    requires UniqueUsernames(rows) && x in rows
    requires x.val.username.Some? && x.val.password.Some?
    ensures Authenticate(rows, x.val.username, x.val.password) == Some(Account(x.val.username, x.val.role))
  {
  }

  /**
   * After seeding fresh accounts into a table that keeps `UNIQUE(username)`, each
   * of them logs in with its own username and password and gets back its own role.
   */
  lemma FreshSeedLogin(t: Table<User>, us: seq<User>)
    requires FreshSeed(t, us) && UniqueUsernames(t.rows)
    ensures forall k :: 0 <= k < |us| && us[k].username.Some? && us[k].password.Some? ==>
              Authenticate(SeedAll(t, us).rows, us[k].username, us[k].password)
                == Some(Account(us[k].username, us[k].role))
  {
    var rows := SeedAll(t, us).rows;
    assert rows == t.rows + Numbered(t.last, us);
    forall k | 0 <= k < |us| && us[k].username.Some? && us[k].password.Some?
      ensures Authenticate(rows, us[k].username, us[k].password) == Some(Account(us[k].username, us[k].role))
    {
      var x := rows[|t.rows| + k];
      assert x.val == us[k];
      assert x in rows;
      StoredAccountLogsIn(rows, x);
    }
  }

  /**
   * On a freshly seeded table each default account logs in with its own username
   * and password and gets back its own role.
   */
  lemma SeededLogin()
    ensures forall k :: 0 <= k < |DefaultUsers| ==>
              Authenticate(SeedAll(Empty(), DefaultUsers).rows, DefaultUsers[k].username, DefaultUsers[k].password)
                == Some(Account(DefaultUsers[k].username, DefaultUsers[k].role))
  {
    DefaultSeedIsFresh();
    DefaultUsersShape();
    FreshSeedLogin(Empty(), DefaultUsers);
  }

  /** Once every account of `us` is present (or the table is full), seeding them changes nothing. */
  lemma {:induction false} SeedAllNoop(t: Table<User>, us: seq<User>)
    requires forall u :: u in us ==> HasUsername(t.rows, u.username) || t.last >= MaxRowId
    ensures SeedAll(t, us) == t
    decreases |us|
  {
    if us != [] {
      assert forall u :: u in us[..|us| - 1] ==> u in us;
      SeedAllNoop(t, us[..|us| - 1]);
    }
  }

  /** Seeding accounts that all have a username a second time changes nothing. */
  lemma SeedAllIdempotent(t: Table<User>, us: seq<User>)
    requires forall u :: u in us ==> u.username.Some?
    ensures SeedAll(SeedAll(t, us), us) == SeedAll(t, us)
  {
    SeedAllNoop(SeedAll(t, us), us);
  }

  /** Running the default-user loop a second time leaves the table as the first run left it. */
  lemma SeedIdempotent(t: Table<User>)
    ensures SeedAll(SeedAll(t, DefaultUsers), DefaultUsers) == SeedAll(t, DefaultUsers)
  {
    SeedAllIdempotent(t, DefaultUsers);
  }

  /** Of the seeded roles only "student" fails the admin check. */
  lemma StudentIsNotAdmin()
    ensures !IsAdminRole("student")
  {
    ExcludedByFirstChar("student", "admin");
  }

  /** Every other seeded role passes the admin check. */
  lemma SeededAdminRoles()
    ensures IsAdminRole("tech_admin") && IsAdminRole("call_admin") && IsAdminRole("app_admin")
    ensures IsAdminRole("sys_admin") && IsAdminRole("student_admin")
  {
    assert IsAdminRole("tech_admin") by {
      assert "tech_admin" == "tech_" + "admin";
      IncludedAsSuffix("tech_", "admin");
    }
    assert IsAdminRole("call_admin") by {
      assert "call_admin" == "call_" + "admin";
      IncludedAsSuffix("call_", "admin");
    }
    assert IsAdminRole("app_admin") by {
      assert "app_admin" == "app_" + "admin";
      IncludedAsSuffix("app_", "admin");
    }
    assert IsAdminRole("sys_admin") by {
      assert "sys_admin" == "sys_" + "admin";
      IncludedAsSuffix("sys_", "admin");
    }
    assert IsAdminRole("student_admin") by {
      assert "student_admin" == "student_" + "admin";
      IncludedAsSuffix("student_", "admin");
    }
  }

  /** Among the seeded accounts, exactly the one whose role is "student" fails the admin check. */
  lemma OnlyStudentFailsAdminCheck()
    ensures forall u :: u in DefaultUsers ==>
              u.role.Some? && (!IsAdminRole(u.role.value) <==> u.role.value == "student")
  {
    StudentIsNotAdmin();
    SeededAdminRoles();
  }

  /** One more account seeded: the accounts before it, then `INSERT OR IGNORE` of it. */
  lemma SeedStep(t: Table<User>, us: seq<User>)
    requires us != []
    ensures SeedAll(t, us) == InsertOrIgnore(SeedAll(t, us[..|us| - 1]), us[|us| - 1])
  {
  }
}
