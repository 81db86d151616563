/**
 * The `faults` table: reports are inserted with `approved = 0`, listed as approved
 * (newest first) or pending, and approved by `UPDATE ... SET approved=1 WHERE id=?`.
 */
module Faults {
  import opened Tables

  datatype Fault = Fault(username: Text, issue: Text, solution: Text, media: Text, approved: int)

  /** The only values the routes ever store in `approved`. */
  ghost predicate FlagsAreBits(rows: seq<Row<Fault>>)
  {
    forall x :: x in rows ==> x.val.approved == 0 || x.val.approved == 1
  }

  predicate IsApproved(x: Row<Fault>)
  {
    x.val.approved == 1
  }

  predicate IsPending(x: Row<Fault>)
  {
    x.val.approved == 0
  }

  /** `GET /faults`: `SELECT * FROM faults WHERE approved=1 ORDER BY id DESC`. */
  function ApprovedNewestFirst(rows: seq<Row<Fault>>): (r: seq<Row<Fault>>)
    ensures forall x :: x in r ==> x in rows && x.val.approved == 1
    ensures forall x :: x in rows && x.val.approved == 1 ==> x in r
    ensures Increasing(rows) ==> Decreasing(r)
  {
    Reverse(Where(rows, IsApproved))
  }

  /** `GET /faults/pending`: `SELECT * FROM faults WHERE approved=0`, in rowid order. */
  function Pending(rows: seq<Row<Fault>>): (r: seq<Row<Fault>>)
    ensures forall x :: x in r ==> x in rows && x.val.approved == 0
    ensures forall x :: x in rows && x.val.approved == 0 ==> x in r
    ensures Increasing(rows) ==> Increasing(r)
  {
    Where(rows, IsPending)
  }

  /** The two listings split the table: every report is in exactly one of them. */
  lemma ListingsPartition(rows: seq<Row<Fault>>)
    requires FlagsAreBits(rows)
    ensures forall x :: x in rows ==> (x in ApprovedNewestFirst(rows) <==> x !in Pending(rows))
    ensures |ApprovedNewestFirst(rows)| + |Pending(rows)| == |rows|
  {
    WhereSplit(rows, IsApproved, IsPending);
  }

  /** `UPDATE faults SET approved=1 WHERE id=?`. */
  function ApproveRows(rows: seq<Row<Fault>>, id: int): (r: seq<Row<Fault>>)
    ensures |r| == |rows|
    ensures forall i :: 0 <= i < |rows| ==> r[i].id == rows[i].id && r[i].val == rows[i].val.(approved := r[i].val.approved)
    ensures forall i :: 0 <= i < |rows| && rows[i].id == id ==> IsApproved(r[i])
    ensures forall i :: 0 <= i < |rows| && rows[i].id != id ==> r[i] == rows[i]
    ensures (forall x :: x in rows ==> x.id != id) ==> r == rows
    ensures Increasing(rows) ==> Increasing(r)
    ensures FlagsAreBits(rows) ==> FlagsAreBits(r)
  {
    var r := seq(|rows|, i requires 0 <= i < |rows| =>
                   if rows[i].id == id then Row(id, rows[i].val.(approved := 1)) else rows[i]);
    assert FlagsAreBits(rows) ==> FlagsAreBits(r) by {
      if FlagsAreBits(rows) {
        forall x | x in r ensures x.val.approved == 0 || x.val.approved == 1 {
          var i :| 0 <= i < |r| && r[i] == x;
          assert rows[i] in rows;
        }
      }
    }
    r
  }

  /** The number of rows the UPDATE matches: what SQLite reports as `changes`. */
  function MatchCount(rows: seq<Row<Fault>>, id: int): (n: nat)
    ensures Increasing(rows) ==> n == if exists x :: x in rows && x.id == id then 1 else 0
  {
    assert Increasing(rows) ==> |Where(rows, (x: Row<Fault>) => x.id == id)| == if exists x :: x in rows && x.id == id then 1 else 0 by {
      if Increasing(rows) {
        KeyMatchesAtMostOne(rows, id);
      }
    }
    |Where(rows, (x: Row<Fault>) => x.id == id)|
  }

  /** Approving a second time gives the state the first approval gave. */
  lemma ApproveIdempotent(rows: seq<Row<Fault>>, id: int)
    ensures ApproveRows(ApproveRows(rows, id), id) == ApproveRows(rows, id)
  {
    var once := ApproveRows(rows, id);
    var twice := ApproveRows(once, id);
    forall i | 0 <= i < |rows| ensures twice[i] == once[i] {
      if rows[i].id == id {
        assert twice[i].val == once[i].val.(approved := twice[i].val.approved);
      }
    }
  }

  /** Approving leaves the set of ids alone, so a repeated approval matches the same rows. */
  lemma ApproveKeepsMatchCount(rows: seq<Row<Fault>>, id: int)
    requires Increasing(rows)
    ensures MatchCount(ApproveRows(rows, id), id) == MatchCount(rows, id)
  {
    var r := ApproveRows(rows, id);
    if exists x :: x in rows && x.id == id {
      var x :| x in rows && x.id == id;
      var i :| 0 <= i < |rows| && rows[i] == x;
      assert r[i] in r;
    }
    if exists y :: y in r && y.id == id {
      var y :| y in r && y.id == id;
      var i :| 0 <= i < |r| && r[i] == y;
      assert rows[i] in rows;
    }
  }

  /**
   * A report just submitted is pending and not yet listed; once its id is approved
   * it heads the approved listing, as submitted but with `approved = 1`.
   */
  lemma SubmitThenApprove(t: Table<Fault>, f: Fault)
    requires WellFormed(t) && t.last < MaxRowId && f.approved == 0
    ensures var t' := Insert(t, f).value;
            var id := t'.last;
            && Row(id, f) in Pending(t'.rows)
            && Row(id, f) !in ApprovedNewestFirst(t'.rows)
            && ApprovedNewestFirst(ApproveRows(t'.rows, id))[0] == Row(id, f.(approved := 1))
  {
    var t' := Insert(t, f).value;
    var id := t'.last;
    var a := ApproveRows(t'.rows, id);
    var n := |t'.rows| - 1;
    assert t'.rows[n] == Row(id, f);
    assert a[n] == Row(id, f.(approved := 1));
    var listed := ApprovedNewestFirst(a);
    assert Row(id, f.(approved := 1)) in listed by { assert a[n] in a; }
    assert listed[0] in listed;
    var j :| 0 <= j < |a| && a[j] == listed[0];
  }
}
