/** The `courses` table and the departments the course listing filters on. */
module Courses {
  import opened Wrappers
  import opened Tables

  /** A course stored by `/courses/file` fills `fileUrl`; one stored by `/courses/manual` fills `content` and `mediaUrl`. */
  datatype Course = Course(title: Text, department: Text, content: Text, fileUrl: Text, mediaUrl: Text)

  /** The department a `tech_admin` is shown. */
  const Technicians := "technicians"

  /** The department a `call_admin` is shown. */
  const CallCenter := "callcenter"

  /** `SELECT * FROM courses WHERE department=?`. */
  function InDepartment(rows: seq<Row<Course>>, department: string): (r: seq<Row<Course>>)
    ensures forall x :: x in r ==> x in rows && x.val.department == Some(department)
    ensures forall x :: x in rows && x.val.department == Some(department) ==> x in r
    ensures Increasing(rows) ==> Increasing(r)
  {
    Where(rows, (x: Row<Course>) => SqlEq(x.val.department, Some(department)))
  }
}
