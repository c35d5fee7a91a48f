/**
 * The attendance ledger: one file of rows per date, to which every
 * successful authentication appends one `(Id, Name, Date, Time)` row.
 */
module Attendance {

  /** One row of an attendance file. */
  datatype AttendanceRow = AttendanceRow(id: nat, name: string, date: string, time: string)

  /** The attendance files, keyed by their date. */
  type Ledger = map<string, seq<AttendanceRow>>

  /** The rows of the file for `date`; none when that file does not exist yet. */
  function Partition(ledger: Ledger, date: string): seq<AttendanceRow>
  {
    if date in ledger then ledger[date] else []
  }

  /** The ledger after `row` has been written: the file for its date holds
      the earlier rows followed by the new one, and every other file is as
      it was. */
  function Appended(ledger: Ledger, row: AttendanceRow): (r: Ledger)
    ensures Partition(r, row.date) == Partition(ledger, row.date) + [row]
    ensures forall d :: d != row.date ==> Partition(r, d) == Partition(ledger, d)
    ensures r.Keys == ledger.Keys + {row.date}
  {
    ledger[row.date := Partition(ledger, row.date) + [row]]
  }

  /** The ledger after the rows `rows` have been written one after another. */
  function AppendedAll(ledger: Ledger, rows: seq<AttendanceRow>): Ledger
    decreases |rows|
  {
    if rows == [] then ledger else AppendedAll(Appended(ledger, rows[0]), rows[1..])
  }

  /** The rows of `rows` dated `date`, in order. */
  function OnDate(rows: seq<AttendanceRow>, date: string): seq<AttendanceRow>
  {
    if rows == [] then []
    else (if rows[0].date == date then [rows[0]] else []) + OnDate(rows[1..], date)
  }

  /** Writing rows never drops, reorders or merges rows: each date's file
      holds its earlier rows followed by the new rows of that date in arrival
      order, including repeated rows for the same subject on the same day. */
  lemma {:induction false} AppendedAllPartition(ledger: Ledger, rows: seq<AttendanceRow>, date: string)
    ensures Partition(AppendedAll(ledger, rows), date) == Partition(ledger, date) + OnDate(rows, date)
    decreases |rows|
  {
    if rows != [] {
      AppendedAllPartition(Appended(ledger, rows[0]), rows[1..], date);
    }
  }

  /** Two authentications of one subject on one day give two rows. */
  lemma SameDayKeepsBoth(ledger: Ledger, row: AttendanceRow, later: AttendanceRow)
    requires later.date == row.date
    ensures Partition(AppendedAll(ledger, [row, later]), row.date) == Partition(ledger, row.date) + [row, later]
  {
    AppendedAllPartition(ledger, [row, later], row.date);
    assert [row, later][1..] == [later];
    assert [later][1..] == [];
    assert OnDate([later], row.date) == [later];
    assert OnDate([row, later], row.date) == [row] + [later];
  }
}
