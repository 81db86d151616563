/**
 * An SQLite table declared `id INTEGER PRIMARY KEY AUTOINCREMENT`, held in memory:
 * its rows in storage (rowid) order and the value SQLite keeps for it in
 * `sqlite_sequence`, the largest rowid ever handed out.
 */
module Tables {
  import opened Wrappers

  /** The value of a TEXT column or of a bound parameter: `None` is SQL NULL. */
  type Text = Option<string>

  /** `column = ?` in a WHERE clause: a NULL on either side never matches. */
  predicate SqlEq(a: Text, b: Text)
  {
    a.Some? && b.Some? && a.value == b.value
  }

  /** The largest rowid SQLite can store (a signed 64-bit integer). */
  const MaxRowId: nat := 0x7FFF_FFFF_FFFF_FFFF

  datatype Row<R> = Row(id: int, val: R)

  datatype Table<R> = Table(rows: seq<Row<R>>, last: nat)

  /** The storage errors the model keeps: SQLITE_FULL and a UNIQUE violation. */
  datatype SqlError = Full | UniqueViolation

  ghost predicate Increasing<R>(rows: seq<Row<R>>)
  {
    forall i, j :: 0 <= i < j < |rows| ==> rows[i].id < rows[j].id
  }

  ghost predicate Decreasing<R>(rows: seq<Row<R>>)
  {
    forall i, j :: 0 <= i < j < |rows| ==> rows[i].id > rows[j].id
  }

  /** What AUTOINCREMENT keeps true of a table that is only ever inserted into. */
  ghost predicate WellFormed<R>(t: Table<R>)
  {
    && Increasing(t.rows)
    && t.last <= MaxRowId
    && forall x :: x in t.rows ==> 1 <= x.id <= t.last
  }

  function Empty<R>(): (t: Table<R>)
    ensures WellFormed(t) && |t.rows| == 0
  {
    Table([], 0)
  }

  /**
   * `INSERT INTO t ...` with the rowid chosen by AUTOINCREMENT: one larger than the
   * largest rowid ever used, or SQLITE_FULL once that rowid is the largest possible.
   */
  function Insert<R>(t: Table<R>, v: R): (r: Result<Table<R>, SqlError>)
    ensures r.Failure? <==> t.last >= MaxRowId
    ensures r.Failure? ==> r.error == Full
    ensures r.Success? ==> r.value.last == t.last + 1 && r.value.rows == t.rows + [Row(r.value.last, v)]
    ensures r.Success? && WellFormed(t) ==>
              && WellFormed(r.value)
              && forall x :: x in t.rows ==> x.id < r.value.last
  {
    if t.last >= MaxRowId then Failure(Full)
    else Success(Table(t.rows + [Row(t.last + 1, v)], t.last + 1))
  }

  /** `SELECT * FROM t WHERE p`, scanning in rowid order. */
  function Where<R>(rows: seq<Row<R>>, p: Row<R> -> bool): (r: seq<Row<R>>)
    ensures |r| <= |rows|
    ensures forall x :: x in r ==> x in rows && p(x)
    ensures forall x :: x in rows && p(x) ==> x in r
    ensures Increasing(rows) ==> Increasing(r)
    decreases |rows|
  {
    if rows == [] then []
    else
      var rest := Where(rows[1..], p);
      assert Increasing(rows) ==> forall y :: y in rest ==> rows[0].id < y.id;
      if p(rows[0]) then [rows[0]] + rest else rest
  }

  /** Rows that no two predicates both select are counted once between the two selections. */
  lemma {:induction false} WhereSplit<R>(rows: seq<Row<R>>, p: Row<R> -> bool, q: Row<R> -> bool)
    requires forall x :: x in rows ==> p(x) != q(x)
    ensures |Where(rows, p)| + |Where(rows, q)| == |rows|
    decreases |rows|
  {
    if rows != [] {
      assert forall x :: x in rows[1..] ==> x in rows;
      WhereSplit(rows[1..], p, q);
    }
  }

  /** In a table whose rowids increase, a key matches at most one row. */
  lemma {:induction false} KeyMatchesAtMostOne<R>(rows: seq<Row<R>>, id: int)
    requires Increasing(rows)
    ensures |Where(rows, (x: Row<R>) => x.id == id)| == if exists x :: x in rows && x.id == id then 1 else 0
    decreases |rows|
  {
    if rows != [] {
      var rest := rows[1..];
      assert Increasing(rest);
      assert forall x :: x in rows <==> x == rows[0] || x in rest;
      KeyMatchesAtMostOne(rest, id);
      if rows[0].id == id {
        assert forall x :: x in rest ==> x.id > id;
      }
    }
  }

  /** The rows in the opposite order: `ORDER BY id DESC` of a table stored in rowid order. */
  function Reverse<R>(rows: seq<Row<R>>): (r: seq<Row<R>>)
    ensures |r| == |rows|
    ensures forall i :: 0 <= i < |rows| ==> r[i] == rows[|rows| - 1 - i]
    ensures forall x :: x in r ==> x in rows
    ensures forall x :: x in rows ==> x in r
    ensures Increasing(rows) ==> Decreasing(r)
    decreases |rows|
  {
    if rows == [] then []
    else
      var r := Reverse(rows[1..]) + [rows[0]];
      assert forall x :: x in rows ==> x == rows[0] || x in rows[1..];
      r
  }

  /** The first row in storage order that satisfies `p` (what `db.get` hands back). */
  function FirstWhere<R>(rows: seq<Row<R>>, p: Row<R> -> bool): (r: Option<Row<R>>)
    ensures r.None? <==> forall x :: x in rows ==> !p(x)
    ensures r.Some? ==> r.value in rows && p(r.value)
    decreases |rows|
  {
    if rows == [] then None
    else if p(rows[0]) then Some(rows[0])
    else
      assert forall x :: x in rows ==> x == rows[0] || x in rows[1..];
      FirstWhere(rows[1..], p)
  }
}
