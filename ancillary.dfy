/** The plain insert-and-filter tables: `drivers`, `messages` and `locations`. */
module Ancillary {
  import opened Wrappers
  import opened Tables

  datatype Driver = Driver(date: Text, name: Text)

  /** `createdAt` is the `CURRENT_TIMESTAMP` default, supplied by the caller. */
  datatype Message = Message(title: Text, content: Text, createdBy: Text, createdAt: Text)

  datatype Location = Location(department: Text, title: Text, imageUrl: Text)

  /** `GET /drivers/:date`: `SELECT * FROM drivers WHERE date=?`. */
  function DriversOn(rows: seq<Row<Driver>>, date: string): (r: seq<Row<Driver>>)
    ensures forall x :: x in r ==> x in rows && x.val.date == Some(date)
    ensures forall x :: x in rows && x.val.date == Some(date) ==> x in r
    ensures Increasing(rows) ==> Increasing(r)
  {
    Where(rows, (x: Row<Driver>) => SqlEq(x.val.date, Some(date)))
  }

  /** `GET /locations/:department`: `SELECT * FROM locations WHERE department=?`. */
  function LocationsIn(rows: seq<Row<Location>>, department: string): (r: seq<Row<Location>>)
    ensures forall x :: x in r ==> x in rows && x.val.department == Some(department)
    ensures forall x :: x in rows && x.val.department == Some(department) ==> x in r
    ensures Increasing(rows) ==> Increasing(r)
  {
    Where(rows, (x: Row<Location>) => SqlEq(x.val.department, Some(department)))
  }
}
