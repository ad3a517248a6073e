/**
 * The simple variant of the "Instructional Days Attended" report: every student in the
 * order given, last and first name in columns A and B, the days attended in each month from
 * column C, their total in column O, and a row of column sums under the last student.
 */
module DaysAttendedSimple {
  import opened Wrappers
  import opened Text
  import opened Students
  import opened Sheets
  import opened DaysAttended

  /** The first data row of the simple report. */
  const SimpleFirstRow := 5

  /** The column of a student's total in the simple report. */
  const SimpleTotalColumn := 15

  /** The cells one student writes: names in A and B, the months from C, the total in O. */
  function SimpleRowCells(s: StudentData, row: int, vals: seq<(int, real)>): seq<GridWrite>
    requires |vals| == 12
  {
    [GridWrite(row, 1, TextOrNull(s.LastName)), GridWrite(row, 2, TextOrNull(s.FirstName))]
    + MonthCells(vals, row, 3, false, 12)
    + [GridWrite(row, SimpleTotalColumn, NumberValue(SumDays(vals) as real))]
  }

  /** One pass of the student loop. */
  method AddSimpleRow(s: StudentData, year: int, row: int, attendance: AttendanceLookup) returns (cells: seq<GridWrite>)
    ensures cells == SimpleRowCells(s, row, MonthValues(s, year, attendance))
  {
    cells := [GridWrite(row, 1, TextOrNull(s.LastName)), GridWrite(row, 2, TextOrNull(s.FirstName))];
    var monthCells, totalDays, _ := StudentMonths(s, year, row, 3, false, attendance);
    cells := cells + monthCells + [GridWrite(row, SimpleTotalColumn, NumberValue(totalDays as real))];
  }

  /** A student's row lies in columns A..O of that row and holds each month's days and their total. */
  lemma SimpleRowCellsLayout(s: StudentData, row: int, vals: seq<(int, real)>)
    requires |vals| == 12
    ensures var cells := SimpleRowCells(s, row, vals);
      |cells| == 15
      && (forall c :: c in cells ==> c.row == row && 1 <= c.column <= SimpleTotalColumn)
      && GridWrite(row, SimpleTotalColumn, NumberValue(SumDays(vals) as real)) in cells
      && (forall k :: 0 <= k < 12 ==> GridWrite(row, 3 + k, NumberValue(vals[k].0 as real)) in cells)
  {
    MonthCellsPlacement(vals, row, 3, false, 12);
    MonthCellsDays(vals, row, 3, false, 12);
  }

  /**
   * The two variants agree on a student: each month's days attended and the total, one
   * column further right in the full report, whose first three columns are the counter and
   * the names.
   */
  lemma SimpleAgreesWithFull(s: StudentData, row: int, fullRow: int, counter: int, vals: seq<(int, real)>)
    requires |vals| == 12
    ensures forall k :: 0 <= k < 12 ==>
      GridWrite(row, 3 + k, NumberValue(vals[k].0 as real)) in SimpleRowCells(s, row, vals)
      && GridWrite(fullRow, 4 + k, NumberValue(vals[k].0 as real)) in StudentRowCells(s, fullRow, counter, vals)
    ensures GridWrite(row, SimpleTotalColumn, NumberValue(SumDays(vals) as real)) in SimpleRowCells(s, row, vals)
    ensures GridWrite(fullRow, TotalColumn, NumberValue(SumDays(vals) as real)) in StudentRowCells(s, fullRow, counter, vals)
  {
    SimpleRowCellsLayout(s, row, vals);
    StudentRowCellsLayout(s, fullRow, counter, vals);
  }

  /** The cells of the students: the k-th in row SimpleFirstRow + k. */
  function SimpleDataCells(students: seq<StudentData>, year: int, attendance: AttendanceLookup): seq<GridWrite>
  {
    if students == [] then []
    else
      var n := |students|;
      SimpleDataCells(students[..n - 1], year, attendance)
      + SimpleRowCells(students[n - 1], SimpleFirstRow + n - 1, MonthValues(students[n - 1], year, attendance))
  }

  lemma SimpleDataCellsStep(students: seq<StudentData>, year: int, attendance: AttendanceLookup, n: nat)
    requires n < |students|
    ensures SimpleDataCells(students[..n + 1], year, attendance)
      == SimpleDataCells(students[..n], year, attendance)
        + SimpleRowCells(students[n], SimpleFirstRow + n, MonthValues(students[n], year, attendance))
  {
    assert students[..n + 1][..n] == students[..n];
  }

  /** The cells of the k-th student. */
  function SimpleRowOf(students: seq<StudentData>, year: int, attendance: AttendanceLookup, k: nat): seq<GridWrite>
    requires k < |students|
  {
    SimpleRowCells(students[k], SimpleFirstRow + k, MonthValues(students[k], year, attendance))
  }

  /** Every student has a row, in the order given, and the rows are all there is. */
  lemma {:induction false} SimpleDataCellsRows(students: seq<StudentData>, year: int, attendance: AttendanceLookup)
    ensures |SimpleDataCells(students, year, attendance)| == 15 * |students|
    ensures forall c :: c in SimpleDataCells(students, year, attendance) ==>
      SimpleFirstRow <= c.row < SimpleFirstRow + |students|
  {
    if students != [] {
      var n := |students|;
      SimpleDataCellsRows(students[..n - 1], year, attendance);
      SimpleRowCellsLayout(students[n - 1], SimpleFirstRow + n - 1, MonthValues(students[n - 1], year, attendance));
    }
  }

  /** A cell in row SimpleFirstRow + k is the k-th student's. */
  lemma {:induction false} SimpleDataCellsRowIsStudent(students: seq<StudentData>, year: int, attendance: AttendanceLookup)
    ensures forall k, c ::
      (0 <= k < |students| && c in SimpleDataCells(students, year, attendance) && c.row == SimpleFirstRow + k)
      ==> c in SimpleRowOf(students, year, attendance, k)
  {
    if students != [] {
      var n := |students|;
      var front := students[..n - 1];
      SimpleDataCellsRowIsStudent(front, year, attendance);
      SimpleDataCellsRows(front, year, attendance);
      SimpleRowCellsLayout(students[n - 1], SimpleFirstRow + n - 1, MonthValues(students[n - 1], year, attendance));
      forall k | 0 <= k < n - 1
        ensures SimpleRowOf(front, year, attendance, k) == SimpleRowOf(students, year, attendance, k)
      {
        assert front[k] == students[k];
      }
    }
  }

  /** All of every student's cells are written. */
  lemma {:induction false} SimpleDataCellsHoldRows(students: seq<StudentData>, year: int, attendance: AttendanceLookup)
    ensures forall k, c :: 0 <= k < |students| && c in SimpleRowOf(students, year, attendance, k) ==>
      c in SimpleDataCells(students, year, attendance)
  {
    if students != [] {
      var n := |students|;
      var front := students[..n - 1];
      SimpleDataCellsHoldRows(front, year, attendance);
      forall k | 0 <= k < n - 1
        ensures SimpleRowOf(front, year, attendance, k) == SimpleRowOf(students, year, attendance, k)
      {
        assert front[k] == students[k];
      }
    }
  }

  /**
   * AddGrandTotalRowSimple: in row `row`, for each column from C to O, the formula summing
   * that column over rows 5 .. 4 + studentCount.
   */
  method AddGrandTotalRowSimple(row: int, studentCount: nat) returns (cells: seq<GridWrite>)
    ensures |cells| == 13
    ensures forall k :: 0 <= k < 13 ==>
      cells[k] == GridWrite(row, 3 + k, FormulaValue(SumFormula(3 + k, SimpleFirstRow, 4 + studentCount)))
  {
    cells := TotalFormulas(row, 3, SimpleTotalColumn, 4 + studentCount);
  }

  /** The column sums of the simple report for `count` students. */
  function SimpleTotals(row: int, count: nat): seq<GridWrite>
  {
    seq(13, k requires 0 <= k < 13 => GridWrite(row, 3 + k, FormulaValue(SumFormula(3 + k, SimpleFirstRow, 4 + count))))
  }

  /** What PopulateStudentData writes once the year has parsed: the rows, then the column sums if there are students. */
  function SimpleReport(students: seq<StudentData>, year: int, attendance: AttendanceLookup): seq<GridWrite>
  {
    SimpleDataCells(students, year, attendance)
    + (if |students| > 0 then SimpleTotals(SimpleFirstRow + |students|, |students|) else [])
  }

  /**
   * The column sums sit in the row under the last student, one in each of the columns C..O
   * (the months and the total), and each sums exactly the students' rows of its column.
   */
  lemma SimpleTotalsCoverRows(students: seq<StudentData>, year: int, attendance: AttendanceLookup)
    requires |students| > 0
    ensures var report := SimpleReport(students, year, attendance);
      var data := SimpleDataCells(students, year, attendance);
      var lastRow := SimpleFirstRow + |students| - 1;
      |report| == |data| + 13 && report[..|data|] == data
      && forall j :: |data| <= j < |report| ==>
        report[j].row == lastRow + 1 && report[j].column == 3 + (j - |data|)
        && report[j].value == FormulaValue(SumFormula(report[j].column, SimpleFirstRow, lastRow))
  {
  }

  /** PopulateStudentData of the simple report: no sorting and no skipping. */
  method PopulateStudentDataSimple(students: seq<StudentData>, criteriaYear: string, attendance: AttendanceLookup)
    returns (r: Result<seq<GridWrite>>)
    ensures ParseInt32(criteriaYear).Err? ==> r == Err(ParseInt32(criteriaYear).fault)
    ensures ParseInt32(criteriaYear).Ok? ==> r == Ok(SimpleReport(students, ParseInt32(criteriaYear).value, attendance))
  {
    var parsed := ParseInt32(criteriaYear);
    if parsed.Err? {
      return Err(parsed.fault);
    }
    var year := parsed.value;
    var cells, currentRow := ListSimpleStudents(students, year, attendance);
    if |students| > 0 {
      var totals := AddGrandTotalRowSimple(currentRow, |students|);
      assert totals == SimpleTotals(currentRow, |students|);
      cells := cells + totals;
    } else {
      assert cells + [] == cells;
    }
    return Ok(cells);
  }

  /** The student loop of the simple report's PopulateStudentData, from row SimpleFirstRow. */
  method ListSimpleStudents(students: seq<StudentData>, year: int, attendance: AttendanceLookup)
    returns (cells: seq<GridWrite>, currentRow: int)
    ensures cells == SimpleDataCells(students, year, attendance)
    ensures currentRow == SimpleFirstRow + |students|
  {
    currentRow := SimpleFirstRow;
    cells := [];
    var i := 0;
    while i < |students|
      invariant 0 <= i <= |students|
      invariant cells == SimpleDataCells(students[..i], year, attendance)
      invariant currentRow == SimpleFirstRow + i
    {
      var mine := AddSimpleRow(students[i], year, currentRow, attendance);
      SimpleDataCellsStep(students, year, attendance, i);
      cells := cells + mine;
      currentRow := currentRow + 1;
      i := i + 1;
    }
    assert students[..i] == students;
  }
}
