/**
 * The PDE charter-school student list: one row per student and billed month for an invoice, or
 * up to two "REC" rows per student (special education and not) for a year-end reconciliation.
 */
module PdeStudentList {
  import opened Wrappers
  import opened Dates
  import opened Entities
  import opened Sheets
  import opened SchoolYear
  import opened Students
  import opened Schedules

  /** The labels of the invoice months, position for position. */
  const InvoiceMonthNames: seq<string> := ["JUL", "AUG", "SEP", "OCT", "NOV", "DEC", "JAN", "FEB", "MAR", "APR", "MAY"]

  /** What one row of the list says about a student. */
  datatype ListRow = ListRow(student: StudentData, month: string, isSped: bool, adm: real)

  // ---------------------------------------------------------------- one row

  /** The column letter at position k counting from A. */
  function ColumnLetter(k: nat): string
    requires k < 26
  {
    [('A' as int + k) as char]
  }

  /**
   * AddStudentRow: columns A..Q of `row` in order (state student number, month label, AUN,
   * district name, "SP" or "NS", birth date, grade, street, an empty second address line, city,
   * state, postal code, the two IEP dates, "Y", entry and exit dates), then the ADM in R only
   * when it is positive.
   */
  function StudentRowCells(row: int, r: ListRow, districtName: string): seq<CellWrite>
  {
    var s := r.student;
    [CellWrite("A", row, TextOrNull(s.StateStudentNo)),
     CellWrite("B", row, TextValue(r.month)),
     CellWrite("C", row, TextOrNull(s.Aun)),
     CellWrite("D", row, TextValue(districtName)),
     CellWrite("E", row, TextValue(if r.isSped then "SP" else "NS")),
     CellWrite("F", row, DateOrNull(s.Dob)),
     CellWrite("G", row, TextOrNull(s.Grade)),
     CellWrite("H", row, TextOrNull(s.AddressStreet)),
     CellWrite("I", row, TextValue("")),
     CellWrite("J", row, TextOrNull(s.AddressCity)),
     CellWrite("K", row, TextOrNull(s.AddressState)),
     CellWrite("L", row, TextOrNull(s.AddressZip)),
     CellWrite("M", row, DateOrNull(s.CurrentIepDate)),
     CellWrite("N", row, DateOrNull(s.PriorIepDate)),
     CellWrite("O", row, TextValue("Y")),
     CellWrite("P", row, DateOrNull(s.DistrictEntryDate)),
     CellWrite("Q", row, DateOrNull(s.ExitDate))]
    + (if r.adm > 0.0 then [CellWrite("R", row, NumberValue(r.adm))] else [])
  }

  /** AddStudentRow's layout: one write per column from A, all in `row`, R (the ADM) only when positive. */
  lemma StudentRowCellsLayout(row: int, r: ListRow, districtName: string)
    ensures var w := StudentRowCells(row, r, districtName);
      && |w| == (if r.adm > 0.0 then 18 else 17)
      && (forall k :: 0 <= k < |w| ==> w[k].row == row && w[k].column == ColumnLetter(k))
      && w[1].value == TextValue(r.month)
      && w[4].value == TextValue(if r.isSped then "SP" else "NS")
      && (r.adm > 0.0 ==> w[17].value == NumberValue(r.adm))
  {
  }

  /**
   * One AddStudentRow call: the worksheet row it fills, what the row says, and the district's
   * name; the cells it fills are StudentRowCells(row, entry, districtName).
   */
  datatype RowWrite = RowWrite(row: int, entry: ListRow, districtName: string)

  /** The rows, one worksheet row each, from `startRow` down. */
  function SheetWrites(rows: seq<ListRow>, startRow: int, districtName: string): (w: seq<RowWrite>)
    ensures |w| == |rows|
  {
    if rows == [] then []
    else
      SheetWrites(rows[..|rows| - 1], startRow, districtName)
        + [RowWrite(startRow + |rows| - 1, rows[|rows| - 1], districtName)]
  }

  /** Row k of the list lands in worksheet row startRow + k. */
  lemma {:induction false} SheetWritesRows(rows: seq<ListRow>, startRow: int, districtName: string)
    ensures forall k :: 0 <= k < |rows| ==>
      SheetWrites(rows, startRow, districtName)[k] == RowWrite(startRow + k, rows[k], districtName)
  {
    if rows != [] {
      SheetWritesRows(rows[..|rows| - 1], startRow, districtName);
    }
  }

  lemma {:induction false} SheetWritesAppend(a: seq<ListRow>, b: seq<ListRow>, startRow: int, districtName: string)
    ensures SheetWrites(a + b, startRow, districtName)
      == SheetWrites(a, startRow, districtName) + SheetWrites(b, startRow + |a|, districtName)
    decreases |b|
  {
    if b == [] {
      assert a + b == a;
    } else {
      assert (a + b)[..|a + b| - 1] == a + b[..|b| - 1];
      SheetWritesAppend(a, b[..|b| - 1], startRow, districtName);
    }
  }

  /** Writing more rows below the rows already written writes the rows of both lists. */
  lemma SheetWritesExtend(rows: seq<ListRow>, more: seq<ListRow>, writes: seq<RowWrite>, row: int, startRow: int,
                          districtName: string)
    requires writes == SheetWrites(rows, startRow, districtName) && row == startRow + |rows|
    ensures writes + SheetWrites(more, row, districtName) == SheetWrites(rows + more, startRow, districtName)
  {
    SheetWritesAppend(rows, more, startRow, districtName);
  }

  /** PopulateHeaderRow: the 17 column titles of row 1, and "ADM" in R1 only for a reconciliation. */
  function HeaderRow(isYearEndRecon: bool): (w: seq<CellWrite>)
    ensures |w| == if isYearEndRecon then 18 else 17
    ensures forall k :: 0 <= k < |w| ==> w[k].row == 1 && w[k].column == ColumnLetter(k)
    ensures isYearEndRecon ==> w[17].value == TextValue("ADM")
  {
    [CellWrite("A", 1, TextValue("PAsecureID")),
     CellWrite("B", 1, TextValue("Enrollment Month")),
     CellWrite("C", 1, TextValue("SD AUN")),
     CellWrite("D", 1, TextValue("School District")),
     CellWrite("E", 1, TextValue("Student Type")),
     CellWrite("F", 1, TextValue("DOB")),
     CellWrite("G", 1, TextValue("Grade")),
     CellWrite("H", 1, TextValue("Home Address 1")),
     CellWrite("I", 1, TextValue("Home Address 2")),
     CellWrite("J", 1, TextValue("Home Address City")),
     CellWrite("K", 1, TextValue("Home Address State Code")),
     CellWrite("L", 1, TextValue("Home Address Postal Code")),
     CellWrite("M", 1, TextValue("Current IEP Date")),
     CellWrite("N", 1, TextValue("Prior IEP Date")),
     CellWrite("O", 1, TextValue("CSSENF Indicator")),
     CellWrite("P", 1, TextValue("First Day Educated")),
     CellWrite("Q", 1, TextValue("Last Day Educated"))]
    + (if isYearEndRecon then [CellWrite("R", 1, TextValue("ADM"))] else [])
  }

  // ---------------------------------------------------------------- the invoice month window

  /** A billed month of one student: its position in the invoice months and its sped flag. */
  datatype MonthRow = MonthRow(index: int, isSped: bool)

  /** The calendar year of position i: July..December belong to the year before when the invoice month is January..May. */
  function MonthYear(i: int, invoiceMonthIndex: int, year: int): (y: int)
    ensures y == year || y == year - 1
    ensures y == year - 1 <==> i <= 5 && invoiceMonthIndex > 5
  {
    if i <= 5 && invoiceMonthIndex > 5 then year - 1 else year
  }

  /**
   * The student type of a month: special education when there is a current IEP date and
   * either a prior IEP date or a current one before the month's last second.
   */
  function IsSpedMonth(s: StudentData, lastDayOfMonth: DateTime): (b: bool)
    ensures b <==> s.CurrentIepDate.Some? && (s.PriorIepDate.Some? || s.CurrentIepDate.value < lastDayOfMonth)
  {
    (s.PriorIepDate.Some? && s.CurrentIepDate.Some?) || (s.CurrentIepDate.Some? && s.CurrentIepDate.value < lastDayOfMonth)
  }

  /**
   * The month loop from position i to the invoice month's position: it stops past the invoice
   * month, otherwise it runs one pass at position i.
   */
  function MonthsFrom(s: StudentData, invoiceMonthIndex: int, year: int, i: int): (r: Result<seq<MonthRow>>)
    ensures r.Ok? ==> forall k :: 0 <= k < |r.value| ==>
      i <= r.value[k].index <= invoiceMonthIndex && 0 <= r.value[k].index < |InvoiceMonths|
    decreases invoiceMonthIndex - i, 1
  {
    if i > invoiceMonthIndex then Ok([]) else MonthsAt(s, invoiceMonthIndex, year, i)
  }

  /**
   * One pass of the month loop at position i, then the rest of the loop: a month starting after
   * the exit date ends the loop, a month ending before the entry date is skipped, any other month
   * is billed. A position outside the list, or a month the calendar cannot hold, raises
   * ArgumentOutOfRange.
   */
  function MonthsAt(s: StudentData, invoiceMonthIndex: int, year: int, i: int): (r: Result<seq<MonthRow>>)
    requires i <= invoiceMonthIndex
    ensures r.Ok? ==> forall k :: 0 <= k < |r.value| ==>
      i <= r.value[k].index <= invoiceMonthIndex && 0 <= r.value[k].index < |InvoiceMonths|
    decreases invoiceMonthIndex - i, 0
  {
    if i < 0 || i >= |InvoiceMonths| then Err(ArgumentOutOfRange)
    else
      var y := MonthYear(i, invoiceMonthIndex, year);
      match FirstOfMonth(y, InvoiceMonths[i])
      case Err(e) => Err(e)
      case Ok(first) =>
        match LastSecondOfMonth(y, InvoiceMonths[i])
        case Err(e) => Err(e)
        case Ok(last) =>
          if s.ExitDate.Some? && s.ExitDate.value < first then Ok([])
          else if s.DistrictEntryDate.Some? && s.DistrictEntryDate.value > last then
            MonthsFrom(s, invoiceMonthIndex, year, i + 1)
          else
            match MonthsFrom(s, invoiceMonthIndex, year, i + 1)
            case Err(e) => Err(e)
            case Ok(rest) => Ok([MonthRow(i, IsSpedMonth(s, last))] + rest)
  }

  /** The first position of the loop: the entry month's position when the entry is after the schedule's first day, else July. */
  function StartIndex(s: StudentData, firstDay: DateTime): (i: int)
    ensures -1 <= i < |InvoiceMonths|
    ensures i >= 0 && s.DistrictEntryDate.Some? && s.DistrictEntryDate.value > firstDay ==>
      InvoiceMonths[i] == MonthOf(s.DistrictEntryDate.value)
    ensures i == -1 ==> s.DistrictEntryDate.Some? && MonthOf(s.DistrictEntryDate.value) !in InvoiceMonths
  {
    if s.DistrictEntryDate.Some? && s.DistrictEntryDate.value > firstDay then
      IndexOf(InvoiceMonths, MonthOf(s.DistrictEntryDate.value))
    else 0
  }

  /** A student's billed months, given the first day of the schedule for its grade (none: a null schedule). */
  function StudentMonths(s: StudentData, firstDay: Option<DateTime>, invoiceMonthIndex: int, year: int)
    : (r: Result<seq<MonthRow>>)
    ensures r.Ok? ==> forall k :: 0 <= k < |r.value| ==> 0 <= r.value[k].index < |InvoiceMonthNames|
  {
    match firstDay
    case None => Err(NullReference)
    case Some(f) => MonthsFrom(s, invoiceMonthIndex, year, StartIndex(s, f))
  }

  /** The rows of a student's billed months, labelled from the month names. */
  function MonthListRows(s: StudentData, months: seq<MonthRow>): (rows: seq<ListRow>)
    requires forall k :: 0 <= k < |months| ==> 0 <= months[k].index < |InvoiceMonthNames|
    ensures |rows| == |months|
  {
    if months == [] then []
    else
      MonthListRows(s, months[..|months| - 1])
        + [ListRow(s, InvoiceMonthNames[months[|months| - 1].index], months[|months| - 1].isSped, 0.0)]
  }

  /** Row k is the k-th billed month's row: the student, the month's name, its type and no ADM. */
  lemma {:induction false} MonthListRowsAt(s: StudentData, months: seq<MonthRow>)
    requires forall k :: 0 <= k < |months| ==> 0 <= months[k].index < |InvoiceMonthNames|
    ensures forall k :: 0 <= k < |months| ==>
      MonthListRows(s, months)[k] == ListRow(s, InvoiceMonthNames[months[k].index], months[k].isSped, 0.0)
  {
    if months != [] {
      MonthListRowsAt(s, months[..|months| - 1]);
    }
  }

  /** The rows of the billed months, or the exception that ended the month loop. */
  function MonthRows(s: StudentData, months: Result<seq<MonthRow>>): Result<seq<ListRow>>
    requires months.Ok? ==> forall k :: 0 <= k < |months.value| ==> 0 <= months.value[k].index < |InvoiceMonthNames|
  {
    match months
    case Err(e) => Err(e)
    case Ok(m) => Ok(MonthListRows(s, m))
  }

  // ---------------------------------------------------------------- the schedule of a grade

  /** Whether each schedule applies to the grade, in order. */
  function Applies(schedules: seq<CharterSchoolSchedule>, grade: Option<string>): (r: seq<bool>)
    reads schedules
    ensures |r| == |schedules| && forall k :: 0 <= k < |schedules| ==> r[k] == schedules[k].AppliesToGrade(grade)
  {
    seq(|schedules|, k requires 0 <= k < |schedules| reads schedules => schedules[k].AppliesToGrade(grade))
  }

  /** The position of the first true entry, or -1 when there is none. */
  function FirstTrue(bs: seq<bool>): (k: int)
    ensures -1 <= k < |bs|
  {
    if bs == [] then -1
    else
      var k := FirstTrue(bs[..|bs| - 1]);
      if k >= 0 then k else if bs[|bs| - 1] then |bs| - 1 else -1
  }

  /** FirstTrue finds the first true entry, and -1 means that every entry is false. */
  lemma {:induction false} FirstTrueIsFirst(bs: seq<bool>)
    ensures var k := FirstTrue(bs);
      && (k >= 0 ==> bs[k])
      && (forall m :: 0 <= m < |bs| && (k < 0 || m < k) ==> !bs[m])
  {
    if bs != [] {
      var init := bs[..|bs| - 1];
      FirstTrueIsFirst(init);
      var k0 := FirstTrue(init);
      if k0 >= 0 {
        assert init[k0] == bs[k0];
      }
      forall m | 0 <= m < |init| && (k0 < 0 || m < k0)
        ensures !bs[m]
      {
        assert init[m] == bs[m];
      }
    }
  }

  /** `schedules.Where(s => s.AppliesToGrade(grade)).FirstOrDefault()`, as a position or -1. */
  function ScheduleIndex(schedules: seq<CharterSchoolSchedule>, grade: Option<string>): (k: int)
    reads schedules
    ensures -1 <= k < |schedules|
  {
    FirstTrue(Applies(schedules, grade))
  }

  /** The position found is the first schedule for the grade; -1 when no schedule is for it. */
  lemma ScheduleIndexIsFirstMatch(schedules: seq<CharterSchoolSchedule>, grade: Option<string>)
    ensures var k := ScheduleIndex(schedules, grade);
      && (k >= 0 ==> schedules[k].AppliesToGrade(grade))
      && (forall m :: 0 <= m < |schedules| && (k < 0 || m < k) ==> !schedules[m].AppliesToGrade(grade))
  {
    var bs := Applies(schedules, grade);
    FirstTrueIsFirst(bs);
    var k := FirstTrue(bs);
    forall m | 0 <= m < |schedules| && (k < 0 || m < k)
      ensures !schedules[m].AppliesToGrade(grade)
    {
      assert !bs[m];
    }
  }

  /** The first day of the grade's schedule; none when no schedule is for the grade. */
  function FirstDayFor(schedules: seq<CharterSchoolSchedule>, grade: Option<string>): Option<DateTime>
    reads schedules
  {
    var k := ScheduleIndex(schedules, grade);
    if k < 0 then None else Some(schedules[k].FirstDay)
  }

  /** One student's invoice rows: a row per billed month, or the exception that ended its month loop. */
  function StudentInvoiceRows(s: StudentData, schedules: seq<CharterSchoolSchedule>, invoiceMonthIndex: int,
                              year: int): Result<seq<ListRow>>
    reads schedules
  {
    MonthRows(s, StudentMonths(s, FirstDayFor(schedules, s.Grade), invoiceMonthIndex, year))
  }

  /** Each student's invoice rows, student by student. */
  function StudentResults(students: seq<StudentData>, schedules: seq<CharterSchoolSchedule>, invoiceMonthIndex: int,
                          year: int): (r: seq<Result<seq<ListRow>>>)
    reads schedules
    ensures |r| == |students|
    ensures forall k :: 0 <= k < |students| ==> r[k] == StudentInvoiceRows(students[k], schedules, invoiceMonthIndex, year)
  {
    seq(|students|, k requires 0 <= k < |students| reads schedules =>
      StudentInvoiceRows(students[k], schedules, invoiceMonthIndex, year))
  }

  /** The rows of the results in order; the first exception among them ends the list. */
  function Concat(results: seq<Result<seq<ListRow>>>): Result<seq<ListRow>>
    decreases |results|, 1
  {
    if results == [] then Ok([]) else ConcatLast(results)
  }

  /** A non-empty list of results: the results before the last, then the last one. */
  function ConcatLast(results: seq<Result<seq<ListRow>>>): Result<seq<ListRow>>
    requires results != []
    decreases |results|, 0
  {
    match Concat(results[..|results| - 1])
    case Err(e) => Err(e)
    case Ok(rows) =>
      match results[|results| - 1]
      case Err(e) => Err(e)
      case Ok(mine) => Ok(rows + mine)
  }

  /** Concat of the first n + 1 results, from Concat of the first n. */
  lemma ConcatPrefixStep(results: seq<Result<seq<ListRow>>>, n: nat)
    requires n < |results|
    ensures Concat(results[..n + 1]) ==
      match Concat(results[..n])
      case Err(e) => Err(e)
      case Ok(rows) => (match results[n] case Err(e) => Err(e) case Ok(mine) => Ok(rows + mine))
  {
    assert results[..n + 1][..n] == results[..n];
    assert Concat(results[..n + 1]) == ConcatLast(results[..n + 1]);
  }

  /** The invoice rows of the students, in order; the first exception ends the list. */
  function InvoiceRows(students: seq<StudentData>, schedules: seq<CharterSchoolSchedule>, invoiceMonthIndex: int,
                       year: int): Result<seq<ListRow>>
    reads schedules
  {
    Concat(StudentResults(students, schedules, invoiceMonthIndex, year))
  }

  /** The rows written from `startRow` down, or the exception that stopped the writing. */
  function RowsWrites(rows: Result<seq<ListRow>>, startRow: int, districtName: string): Result<seq<RowWrite>>
  {
    match rows
    case Err(e) => Err(e)
    case Ok(r) => Ok(SheetWrites(r, startRow, districtName))
  }

  // ---------------------------------------------------------------- AddStudentsToInvoice

  /**
   * AddStudentsToInvoice: rows from `startRow` for every billed month of every student, each
   * labelled with its month and typed by the IEP dates; the invoice month is parsed first.
   */
  method AddStudentsToInvoice(schoolDistrict: SchoolDistrict, students: seq<StudentData>,
                              schedules: seq<CharterSchoolSchedule>, invoiceMonth: string, year: int, startRow: int)
    returns (r: Result<seq<RowWrite>>)
    ensures ParseMonthName(invoiceMonth).Err? ==> r == Err(FormatError)
    ensures ParseMonthName(invoiceMonth).Ok? ==>
      r == RowsWrites(InvoiceRows(students, schedules, IndexOf(InvoiceMonths, ParseMonthName(invoiceMonth).value), year),
        startRow, schoolDistrict.Name)
  {
    var parsed := ParseMonthName(invoiceMonth);
    if parsed.Err? {
      return Err(parsed.fault);
    }
    var intInvoiceMonth := parsed.value;
    r := AddInvoiceRows(schoolDistrict, students, schedules, IndexOf(InvoiceMonths, intInvoiceMonth), year, startRow);
  }

  /** The student loop of AddStudentsToInvoice, once the invoice month's position is known. */
  method AddInvoiceRows(schoolDistrict: SchoolDistrict, students: seq<StudentData>,
                        schedules: seq<CharterSchoolSchedule>, invoiceMonthIndex: int, year: int, startRow: int)
    returns (r: Result<seq<RowWrite>>)
    ensures r == RowsWrites(InvoiceRows(students, schedules, invoiceMonthIndex, year), startRow, schoolDistrict.Name)
  {
    var row := startRow;
    var writes: seq<RowWrite> := [];
    ghost var results := StudentResults(students, schedules, invoiceMonthIndex, year);
    var n := 0;
    while n < |students|
      invariant 0 <= n <= |students|
      invariant RowsWrites(Concat(results[..n]), startRow, schoolDistrict.Name) == Ok(writes)
      invariant row == startRow + |writes|
    {
      var student := students[n];
      var added, nextRow := AddStudent(schoolDistrict, student, schedules, invoiceMonthIndex, year, row);
      ConcatStep(results, n, writes, added, row, startRow, schoolDistrict.Name);
      if added.Err? {
        return added;
      }
      writes := writes + added.value;
      row := nextRow;
      n := n + 1;
    }
    assert results[..n] == results;
    return Ok(writes);
  }

  /** One student of AddStudentsToInvoice: the schedule for its grade, the first month, then the month loop. */
  method AddStudent(schoolDistrict: SchoolDistrict, student: StudentData, schedules: seq<CharterSchoolSchedule>,
                    invoiceMonthIndex: int, year: int, startRow: int)
    returns (r: Result<seq<RowWrite>>, nextRow: int)
    ensures r == RowsWrites(StudentInvoiceRows(student, schedules, invoiceMonthIndex, year), startRow,
      schoolDistrict.Name)
    ensures r.Ok? ==> nextRow == startRow + |r.value|
  {
    var firstDay := FirstDayFor(schedules, student.Grade);
    if firstDay.None? {
      // schedule.FirstDay on the null schedule
      return Err(NullReference), startRow;
    }
    var monthIndex := StartIndex(student, firstDay.value);
    r, nextRow := AddStudentMonths(schoolDistrict, student, monthIndex, invoiceMonthIndex, year, startRow);
  }

  /** The body of AddStudentsToInvoice's month loop for one student, writing from `startRow`. */
  method AddStudentMonths(schoolDistrict: SchoolDistrict, student: StudentData, monthIndex: int,
                          invoiceMonthIndex: int, year: int, startRow: int)
    returns (r: Result<seq<RowWrite>>, nextRow: int)
    ensures r == RowsWrites(MonthRows(student, MonthsFrom(student, invoiceMonthIndex, year, monthIndex)), startRow,
      schoolDistrict.Name)
    ensures r.Ok? ==> nextRow == startRow + |r.value|
  {
    var writes: seq<RowWrite> := [];
    ghost var done: seq<MonthRow> := [];
    var row := startRow;
    var i := monthIndex;
    ghost var months := MonthsFrom(student, invoiceMonthIndex, year, monthIndex);
    PrependUnits([], months);
    while i <= invoiceMonthIndex
      invariant months == Prepend(done, MonthsFrom(student, invoiceMonthIndex, year, i))
      invariant forall k :: 0 <= k < |done| ==> 0 <= done[k].index < |InvoiceMonthNames|
      invariant writes == SheetWrites(MonthListRows(student, done), startRow, schoolDistrict.Name)
      invariant row == startRow + |done|
      decreases invoiceMonthIndex - i
    {
      var exit;
      exit, writes, row, done := MonthLoopPass(student, invoiceMonthIndex, year, i, months, done, writes, row, startRow,
        schoolDistrict.Name);
      if exit.Some? {
        return exit.value, row;
      }
      i := i + 1;
    }
    assert MonthsFrom(student, invoiceMonthIndex, year, i) == Ok([]);
    MonthLoopExit(student, done, MonthsFrom(student, invoiceMonthIndex, year, i), months, writes, startRow,
      schoolDistrict.Name);
    return Ok(writes), row;
  }

  /**
   * One pass of the month loop of AddStudentMonths at position i: either the loop ends with the
   * student's result, or one more row may have been written and the loop goes on at i + 1.
   */
  method MonthLoopPass(student: StudentData, invoiceMonthIndex: int, year: int, i: int, ghost months: Result<seq<MonthRow>>,
                       ghost done: seq<MonthRow>, writes: seq<RowWrite>, row: int, startRow: int, districtName: string)
    returns (exit: Option<Result<seq<RowWrite>>>, newWrites: seq<RowWrite>, newRow: int, ghost newDone: seq<MonthRow>)
    requires i <= invoiceMonthIndex
    requires months == Prepend(done, MonthsFrom(student, invoiceMonthIndex, year, i))
    requires forall k :: 0 <= k < |done| ==> 0 <= done[k].index < |InvoiceMonthNames|
    requires writes == SheetWrites(MonthListRows(student, done), startRow, districtName)
    requires row == startRow + |done|
    ensures months.Ok? ==> forall k :: 0 <= k < |months.value| ==> 0 <= months.value[k].index < |InvoiceMonthNames|
    ensures exit.Some? ==> exit.value == RowsWrites(MonthRows(student, months), startRow, districtName)
    ensures exit.Some? ==> newRow == startRow + |newDone| && (exit.value.Ok? ==> exit.value.value == newWrites)
    ensures exit.None? ==> months == Prepend(newDone, MonthsFrom(student, invoiceMonthIndex, year, i + 1))
    ensures forall k :: 0 <= k < |newDone| ==> 0 <= newDone[k].index < |InvoiceMonthNames|
    ensures newWrites == SheetWrites(MonthListRows(student, newDone), startRow, districtName)
    ensures newRow == startRow + |newDone|
  {
    newWrites, newRow, newDone := writes, row, done;
    var step := MonthStep(student, invoiceMonthIndex, year, i);
    if step.Err? {
      MonthLoopExit(student, done, MonthsFrom(student, invoiceMonthIndex, year, i), months, writes, startRow, districtName);
      return Some(Err(step.fault)), newWrites, newRow, newDone;
    }
    if step.value.Stop? {
      MonthLoopExit(student, done, MonthsFrom(student, invoiceMonthIndex, year, i), months, writes, startRow, districtName);
      return Some(Ok(writes)), newWrites, newRow, newDone;
    }
    if step.value.Bill? {
      var entry := ListRow(student, InvoiceMonthNames[i], step.value.isSped, 0.0);
      BillStep(student, done, MonthRow(i, step.value.isSped), writes, row, startRow, districtName);
      PrependStep(months, done, MonthRow(i, step.value.isSped), MonthsFrom(student, invoiceMonthIndex, year, i + 1));
      newWrites := writes + [RowWrite(row, entry, districtName)];
      newRow := row + 1;
      newDone := done + [MonthRow(i, step.value.isSped)];
    }
    exit := None;
  }

  /** The month loop ends on an exception, or with no month left: the rows written so far are the student's. */
  lemma MonthLoopExit(s: StudentData, done: seq<MonthRow>, rest: Result<seq<MonthRow>>, months: Result<seq<MonthRow>>,
                      writes: seq<RowWrite>, startRow: int, districtName: string)
    requires forall k :: 0 <= k < |done| ==> 0 <= done[k].index < |InvoiceMonthNames|
    requires writes == SheetWrites(MonthListRows(s, done), startRow, districtName)
    requires months == Prepend(done, rest) && (rest.Err? || rest == Ok([]))
    ensures months.Ok? ==> forall k :: 0 <= k < |months.value| ==> 0 <= months.value[k].index < |InvoiceMonthNames|
    ensures RowsWrites(MonthRows(s, months), startRow, districtName) == if rest.Err? then Err(rest.fault) else Ok(writes)
  {
    PrependUnits(done, rest);
  }

  /** `acc` followed by the months of `r`, or r's exception. */
  function Prepend(acc: seq<MonthRow>, r: Result<seq<MonthRow>>): Result<seq<MonthRow>>
  {
    match r
    case Err(e) => Err(e)
    case Ok(rest) => Ok(acc + rest)
  }

  lemma PrependUnits(acc: seq<MonthRow>, r: Result<seq<MonthRow>>)
    ensures Prepend([], r) == r
    ensures Prepend(acc, Ok([])) == Ok(acc)
  {
    assert acc + [] == acc;
    if r.Ok? {
      assert [] + r.value == r.value;
    }
  }

  lemma PrependStep(whole: Result<seq<MonthRow>>, acc: seq<MonthRow>, m: MonthRow, r: Result<seq<MonthRow>>)
    requires whole == Prepend(acc, Prepend([m], r))
    ensures whole == Prepend(acc + [m], r)
  {
    if r.Ok? {
      assert acc + ([m] + r.value) == (acc + [m]) + r.value;
    }
  }

  /** Billing one more month writes one more row, below the others. */
  lemma BillStep(s: StudentData, done: seq<MonthRow>, m: MonthRow, writes: seq<RowWrite>, row: int, startRow: int,
                 districtName: string)
    requires forall k :: 0 <= k < |done| ==> 0 <= done[k].index < |InvoiceMonthNames|
    requires 0 <= m.index < |InvoiceMonthNames|
    requires writes == SheetWrites(MonthListRows(s, done), startRow, districtName)
    requires row == startRow + |done|
    ensures writes + [RowWrite(row, ListRow(s, InvoiceMonthNames[m.index], m.isSped, 0.0), districtName)]
      == SheetWrites(MonthListRows(s, done + [m]), startRow, districtName)
    ensures forall k :: 0 <= k < |done + [m]| ==> 0 <= (done + [m])[k].index < |InvoiceMonthNames|
    ensures row + 1 == startRow + |done + [m]|
  {
    var rows := MonthListRows(s, done + [m]);
    assert (done + [m])[..|done|] == done;
    assert rows[..|rows| - 1] == MonthListRows(s, done);
  }

  /** What the loop does at one position. */
  datatype MonthAction = Stop | Skip | Bill(isSped: bool)

  /** One pass of the month loop at position i <= the invoice month's position. */
  method MonthStep(student: StudentData, invoiceMonthIndex: int, year: int, i: int)
    returns (r: Result<MonthAction>)
    requires i <= invoiceMonthIndex
    ensures r.Err? ==> MonthsFrom(student, invoiceMonthIndex, year, i) == Err(r.fault)
    ensures r == Ok(Stop) ==> MonthsFrom(student, invoiceMonthIndex, year, i) == Ok([])
    ensures r == Ok(Skip) ==> MonthsFrom(student, invoiceMonthIndex, year, i) == MonthsFrom(student, invoiceMonthIndex, year, i + 1)
    ensures r.Ok? && r.value.Bill? ==> 0 <= i < |InvoiceMonthNames|
    ensures r.Ok? && r.value.Bill? ==>
      MonthsFrom(student, invoiceMonthIndex, year, i) == Prepend([MonthRow(i, r.value.isSped)], MonthsFrom(student, invoiceMonthIndex, year, i + 1))
  {
    assert MonthsFrom(student, invoiceMonthIndex, year, i) == MonthsAt(student, invoiceMonthIndex, year, i);
    if i < 0 || i >= |InvoiceMonths| {
      return Err(ArgumentOutOfRange);
    }
    var currentMonthYear := MonthYear(i, invoiceMonthIndex, year);
    var firstDayOfMonth := FirstOfMonth(currentMonthYear, InvoiceMonths[i]);
    if firstDayOfMonth.Err? {
      return Err(firstDayOfMonth.fault);
    }
    var lastDayOfMonth := LastSecondOfMonth(currentMonthYear, InvoiceMonths[i]);
    if lastDayOfMonth.Err? {
      return Err(lastDayOfMonth.fault);
    }
    if student.ExitDate.Some? && student.ExitDate.value < firstDayOfMonth.value {
      return Ok(Stop);
    }
    if student.DistrictEntryDate.Some? && student.DistrictEntryDate.value > lastDayOfMonth.value {
      return Ok(Skip);
    }
    return Ok(Bill(IsSpedMonth(student, lastDayOfMonth.value)));
  }

  /** One student of the invoice loop: its rows follow the others', or its exception ends the list. */
  lemma ConcatStep(results: seq<Result<seq<ListRow>>>, n: nat, writes: seq<RowWrite>, added: Result<seq<RowWrite>>,
                   row: int, startRow: int, districtName: string)
    requires n < |results| && row == startRow + |writes|
    requires RowsWrites(Concat(results[..n]), startRow, districtName) == Ok(writes)
    requires added == RowsWrites(results[n], row, districtName)
    ensures RowsWrites(Concat(results[..n + 1]), startRow, districtName)
      == if added.Ok? then Ok(writes + added.value) else added
    ensures added.Err? ==> RowsWrites(Concat(results), startRow, districtName) == added
  {
    ConcatPrefixStep(results, n);
    var rows := Concat(results[..n]).value;
    if results[n].Err? {
      ConcatStaysErr(results, n + 1);
    } else {
      SheetWritesExtend(rows, results[n].value, writes, row, startRow, districtName);
    }
  }

  lemma {:induction false} ConcatStaysErr(results: seq<Result<seq<ListRow>>>, n: nat)
    requires n <= |results| && Concat(results[..n]).Err?
    ensures Concat(results) == Concat(results[..n])
    decreases |results| - n
  {
    if n < |results| {
      ConcatPrefixStep(results, n);
      ConcatStaysErr(results, n + 1);
    } else {
      assert results[..n] == results;
    }
  }

  // ---------------------------------------------------------------- AddStudentsToReconciliation

  /** A student's reconciliation rows: "SP" when the sped ADM is positive, then "NS" when the non-sped ADM is. */
  function ReconStudentRows(s: StudentData, spedAttendance: real, nonSpedAttendance: real): (rows: seq<ListRow>)
    ensures |rows| == (if spedAttendance > 0.0 then 1 else 0) + (if nonSpedAttendance > 0.0 then 1 else 0)
    ensures forall k :: 0 <= k < |rows| ==> rows[k].student == s && rows[k].month == "REC" && rows[k].adm > 0.0
    ensures forall k :: 0 <= k < |rows| ==>
      rows[k].adm == (if rows[k].isSped then spedAttendance else nonSpedAttendance)
    ensures spedAttendance > 0.0 <==> |rows| > 0 && rows[0].isSped
    ensures nonSpedAttendance > 0.0 <==> |rows| > 0 && !rows[|rows| - 1].isSped
  {
    (if spedAttendance > 0.0 then [ListRow(s, "REC", true, spedAttendance)] else [])
    + (if nonSpedAttendance > 0.0 then [ListRow(s, "REC", false, nonSpedAttendance)] else [])
  }

  /**
   * The reconciliation rows of the students, in order; `yearly` is the student's
   * GetYearlyAttendanceValue for the year: its sped and its non-sped ADM.
   */
  function ReconRows(students: seq<StudentData>, year: int, yearly: (StudentData, int) -> (real, real)): seq<ListRow>
  {
    if students == [] then []
    else
      var s := students[|students| - 1];
      ReconRows(students[..|students| - 1], year, yearly) + ReconStudentRows(s, yearly(s, year).0, yearly(s, year).1)
  }

  lemma ReconRowsStep(students: seq<StudentData>, year: int, yearly: (StudentData, int) -> (real, real), n: nat)
    requires n < |students|
    ensures ReconRows(students[..n + 1], year, yearly)
      == ReconRows(students[..n], year, yearly)
        + ReconStudentRows(students[n], yearly(students[n], year).0, yearly(students[n], year).1)
  {
    assert students[..n + 1][..n] == students[..n];
  }

  /** AddStudentsToReconciliation: each student's rows, from `startRow` down. */
  method AddStudentsToReconciliation(schoolDistrict: SchoolDistrict, students: seq<StudentData>, year: int,
                                     yearly: (StudentData, int) -> (real, real), startRow: int)
    returns (writes: seq<RowWrite>)
    ensures writes == SheetWrites(ReconRows(students, year, yearly), startRow, schoolDistrict.Name)
  {
    var row := startRow;
    writes := [];
    ghost var done: seq<ListRow> := [];
    var n := 0;
    while n < |students|
      invariant 0 <= n <= |students|
      invariant done == ReconRows(students[..n], year, yearly)
      invariant writes == SheetWrites(done, startRow, schoolDistrict.Name)
      invariant row == startRow + |done|
    {
      ReconRowsStep(students, year, yearly, n);
      var student := students[n];
      var (spedAttendance, nonSpedAttendance) := yearly(student, year);
      var mine, nextRow := AddReconStudent(student, spedAttendance, nonSpedAttendance, row, schoolDistrict.Name);
      SheetWritesExtend(done, ReconStudentRows(student, spedAttendance, nonSpedAttendance), writes, row, startRow,
        schoolDistrict.Name);
      writes := writes + mine;
      row := nextRow;
      done := done + ReconStudentRows(student, spedAttendance, nonSpedAttendance);
      n := n + 1;
    }
    assert students[..n] == students;
  }

  /** One student of AddStudentsToReconciliation: the "SP" row, then the "NS" row, each when its ADM is positive. */
  method AddReconStudent(student: StudentData, spedAttendance: real, nonSpedAttendance: real, startRow: int,
                         districtName: string)
    returns (writes: seq<RowWrite>, nextRow: int)
    ensures writes == SheetWrites(ReconStudentRows(student, spedAttendance, nonSpedAttendance), startRow, districtName)
    ensures nextRow == startRow + |writes|
  {
    ReconStep(student, spedAttendance, nonSpedAttendance, startRow, districtName);
    writes := [];
    nextRow := startRow;
    if spedAttendance > 0.0 {
      writes := writes + [RowWrite(nextRow, ListRow(student, "REC", true, spedAttendance), districtName)];
      nextRow := nextRow + 1;
    }
    if nonSpedAttendance > 0.0 {
      writes := writes + [RowWrite(nextRow, ListRow(student, "REC", false, nonSpedAttendance), districtName)];
      nextRow := nextRow + 1;
    }
  }

  /** One student's reconciliation rows: the "SP" row, then the "NS" row, each when its ADM is positive. */
  lemma ReconStep(s: StudentData, spedAttendance: real, nonSpedAttendance: real, row: int, districtName: string)
    ensures var sped := if spedAttendance > 0.0 then [RowWrite(row, ListRow(s, "REC", true, spedAttendance), districtName)] else [];
      var nextRow := if spedAttendance > 0.0 then row + 1 else row;
      var nonSped := if nonSpedAttendance > 0.0 then [RowWrite(nextRow, ListRow(s, "REC", false, nonSpedAttendance), districtName)] else [];
      [] + sped + nonSped == SheetWrites(ReconStudentRows(s, spedAttendance, nonSpedAttendance), row, districtName)
  {
    var mine := ReconStudentRows(s, spedAttendance, nonSpedAttendance);
    if spedAttendance > 0.0 && nonSpedAttendance > 0.0 {
      assert mine[..1] == [mine[0]];
      assert [mine[0]][..0] == [];
    } else if mine != [] {
      assert mine[..0] == [];
    }
  }

  // ---------------------------------------------------------------- what the month loop bills

  /** The midnight that starts the month at position k of the loop. */
  function MonthStart(k: int, invoiceMonthIndex: int, year: int): Result<DateTime>
    requires 0 <= k < |InvoiceMonths|
  {
    FirstOfMonth(MonthYear(k, invoiceMonthIndex, year), InvoiceMonths[k])
  }

  /** The last second of the month at position k of the loop. */
  function MonthEnd(k: int, invoiceMonthIndex: int, year: int): Result<DateTime>
    requires 0 <= k < |InvoiceMonths|
  {
    LastSecondOfMonth(MonthYear(k, invoiceMonthIndex, year), InvoiceMonths[k])
  }

  /**
   * Position k is a month the student is billed for: a month the calendar holds, which the
   * student did not leave before it started and had entered by its last second.
   */
  predicate Billable(s: StudentData, k: int, invoiceMonthIndex: int, year: int)
  {
    && 0 <= k < |InvoiceMonths|
    && MonthStart(k, invoiceMonthIndex, year).Ok? && MonthEnd(k, invoiceMonthIndex, year).Ok?
    && !(s.ExitDate.Some? && s.ExitDate.value < MonthStart(k, invoiceMonthIndex, year).value)
    && !(s.DistrictEntryDate.Some? && s.DistrictEntryDate.value > MonthEnd(k, invoiceMonthIndex, year).value)
  }

  /** The billed positions follow one another without a gap. */
  predicate Consecutive(months: seq<MonthRow>)
  {
    forall k :: 0 <= k < |months| - 1 ==> months[k + 1].index == months[k].index + 1
  }

  /** A month followed by a run that starts at the next position is a run. */
  lemma ConsecutiveCons(m: MonthRow, rest: seq<MonthRow>)
    requires Consecutive(rest) && (rest != [] ==> rest[0].index == m.index + 1)
    ensures Consecutive([m] + rest)
  {
    var ms := [m] + rest;
    forall k | 0 <= k < |ms| - 1
      ensures ms[k + 1].index == ms[k].index + 1
    {
      if k > 0 {
        assert ms[k] == rest[k - 1] && ms[k + 1] == rest[k];
      }
    }
  }

  /** Within the loop's range a month ends before a later position's month starts. */
  lemma EndsBeforeLater(i: int, k: int, invoiceMonthIndex: int, year: int)
    requires 0 <= i < k <= invoiceMonthIndex && k < |InvoiceMonths|
    requires MonthEnd(i, invoiceMonthIndex, year).Ok? && MonthStart(k, invoiceMonthIndex, year).Ok?
    ensures MonthEnd(i, invoiceMonthIndex, year).value < MonthStart(k, invoiceMonthIndex, year).value
  {
    InvoiceMonthsInverse(i);
    InvoiceMonthsInverse(k);
    LastSecondBeforeLaterMonth(MonthYear(i, invoiceMonthIndex, year), InvoiceMonths[i],
      MonthYear(k, invoiceMonthIndex, year), InvoiceMonths[k]);
  }

  /** Within the loop's range a later position starts later. */
  lemma StartsIncrease(i: int, k: int, invoiceMonthIndex: int, year: int)
    requires 0 <= i < k <= invoiceMonthIndex && k < |InvoiceMonths|
    requires MonthStart(i, invoiceMonthIndex, year).Ok? && MonthStart(k, invoiceMonthIndex, year).Ok?
    ensures MonthStart(i, invoiceMonthIndex, year).value < MonthStart(k, invoiceMonthIndex, year).value
  {
    InvoiceMonthsInverse(i);
    InvoiceMonthsInverse(k);
    FirstOfMonthIncreasing(MonthYear(i, invoiceMonthIndex, year), InvoiceMonths[i],
      MonthYear(k, invoiceMonthIndex, year), InvoiceMonths[k]);
  }

  /**
   * One pass of the loop at position i, in terms of the month's first and last second: a
   * completed loop passed a month the calendar holds, and then stopped, skipped it or billed it.
   */
  lemma MonthsFromCases(s: StudentData, invoiceMonthIndex: int, year: int, i: int)
    requires i <= invoiceMonthIndex
    ensures var r := MonthsFrom(s, invoiceMonthIndex, year, i);
      r.Ok? ==> (0 <= i < |InvoiceMonths|
        && MonthStart(i, invoiceMonthIndex, year).Ok? && MonthEnd(i, invoiceMonthIndex, year).Ok?
        && var rest := MonthsFrom(s, invoiceMonthIndex, year, i + 1);
        if s.ExitDate.Some? && s.ExitDate.value < MonthStart(i, invoiceMonthIndex, year).value then r.value == []
        else if s.DistrictEntryDate.Some? && s.DistrictEntryDate.value > MonthEnd(i, invoiceMonthIndex, year).value then
          r == rest
        else rest.Ok? && r.value == [MonthRow(i, IsSpedMonth(s, MonthEnd(i, invoiceMonthIndex, year).value))] + rest.value)
  {
    assert MonthsFrom(s, invoiceMonthIndex, year, i) == MonthsAt(s, invoiceMonthIndex, year, i);
  }

  /**
   * Every month the loop bills from position i is billable, and its type is the sped rule on
   * the month's last second.
   */
  lemma {:induction false} BilledMonthsBillable(s: StudentData, invoiceMonthIndex: int, year: int, i: int)
    ensures var r := MonthsFrom(s, invoiceMonthIndex, year, i);
      r.Ok? ==> forall m :: m in r.value ==>
        Billable(s, m.index, invoiceMonthIndex, year)
        && m.isSped == IsSpedMonth(s, MonthEnd(m.index, invoiceMonthIndex, year).value)
    decreases invoiceMonthIndex - i
  {
    if i <= invoiceMonthIndex {
      MonthsFromCases(s, invoiceMonthIndex, year, i);
      BilledMonthsBillable(s, invoiceMonthIndex, year, i + 1);
    }
  }

  /**
   * Every billable month from position i up to the invoice month is billed, unless an exception
   * ends the loop.
   */
  lemma {:induction false} BillableMonthsBilled(s: StudentData, invoiceMonthIndex: int, year: int, i: int, k: int)
    requires i <= k <= invoiceMonthIndex && Billable(s, k, invoiceMonthIndex, year)
    requires MonthsFrom(s, invoiceMonthIndex, year, i).Ok?
    ensures MonthRow(k, IsSpedMonth(s, MonthEnd(k, invoiceMonthIndex, year).value))
      in MonthsFrom(s, invoiceMonthIndex, year, i).value
    decreases k - i
  {
    MonthsFromCases(s, invoiceMonthIndex, year, i);
    if i < k {
      StartsIncrease(i, k, invoiceMonthIndex, year);
      BillableMonthsBilled(s, invoiceMonthIndex, year, i + 1, k);
    }
  }

  /** The student had entered by the end of position i's month: then also by the end of every later position's. */
  predicate EnteredFrom(s: StudentData, invoiceMonthIndex: int, year: int, i: int)
  {
    forall k :: 0 <= i <= k <= invoiceMonthIndex && k < |InvoiceMonths| && MonthEnd(k, invoiceMonthIndex, year).Ok? ==>
      !(s.DistrictEntryDate.Some? && s.DistrictEntryDate.value > MonthEnd(k, invoiceMonthIndex, year).value)
  }

  /** Month ends increase along the loop's range, so having entered by one month is having entered from it on. */
  lemma EnteredStays(s: StudentData, invoiceMonthIndex: int, year: int, i: int)
    requires 0 <= i <= invoiceMonthIndex && i < |InvoiceMonths| && MonthEnd(i, invoiceMonthIndex, year).Ok?
    requires !(s.DistrictEntryDate.Some? && s.DistrictEntryDate.value > MonthEnd(i, invoiceMonthIndex, year).value)
    ensures EnteredFrom(s, invoiceMonthIndex, year, i)
  {
    forall k | i < k < |InvoiceMonths| && k <= invoiceMonthIndex && MonthEnd(k, invoiceMonthIndex, year).Ok?
      ensures MonthEnd(i, invoiceMonthIndex, year).value < MonthEnd(k, invoiceMonthIndex, year).value
    {
      EndsBeforeLater(i, k, invoiceMonthIndex, year);
      MonthEnds(MonthYear(k, invoiceMonthIndex, year), InvoiceMonths[k]);
    }
  }

  /** From a month the student had entered by, the loop bills a consecutive run starting there. */
  lemma {:induction false} BilledRunFrom(s: StudentData, invoiceMonthIndex: int, year: int, i: int)
    requires i <= invoiceMonthIndex && EnteredFrom(s, invoiceMonthIndex, year, i)
    ensures var r := MonthsFrom(s, invoiceMonthIndex, year, i);
      r.Ok? ==> Consecutive(r.value) && (r.value != [] ==> r.value[0].index == i)
    decreases invoiceMonthIndex - i
  {
    var r := MonthsFrom(s, invoiceMonthIndex, year, i);
    if r.Ok? && r.value != [] {
      var rest := MonthsFrom(s, invoiceMonthIndex, year, i + 1);
      MonthsFromCases(s, invoiceMonthIndex, year, i);
      var m := MonthRow(i, IsSpedMonth(s, MonthEnd(i, invoiceMonthIndex, year).value));
      assert rest.Ok? && r.value == [m] + rest.value;
      if i + 1 <= invoiceMonthIndex {
        BilledRunFrom(s, invoiceMonthIndex, year, i + 1);
      }
      ConsecutiveCons(m, rest.value);
    }
  }

  /** The loop from position i bills a consecutive run of positions. */
  lemma {:induction false} BilledRun(s: StudentData, invoiceMonthIndex: int, year: int, i: int)
    ensures var r := MonthsFrom(s, invoiceMonthIndex, year, i);
      r.Ok? ==> Consecutive(r.value)
    decreases invoiceMonthIndex - i
  {
    var r := MonthsFrom(s, invoiceMonthIndex, year, i);
    if r.Ok? && i <= invoiceMonthIndex {
      assert 0 <= i < |InvoiceMonths| && MonthEnd(i, invoiceMonthIndex, year).Ok? by {
        MonthsFromCases(s, invoiceMonthIndex, year, i);
      }
      if s.ExitDate.Some? && s.ExitDate.value < MonthStart(i, invoiceMonthIndex, year).value {
        assert r.value == [] by {
          MonthsFromCases(s, invoiceMonthIndex, year, i);
        }
      } else if s.DistrictEntryDate.Some? && s.DistrictEntryDate.value > MonthEnd(i, invoiceMonthIndex, year).value {
        assert r == MonthsFrom(s, invoiceMonthIndex, year, i + 1) by {
          MonthsFromCases(s, invoiceMonthIndex, year, i);
        }
        BilledRun(s, invoiceMonthIndex, year, i + 1);
      } else {
        EnteredStays(s, invoiceMonthIndex, year, i);
        BilledRunFrom(s, invoiceMonthIndex, year, i);
      }
    }
  }

  /**
   * A student's billed months are exactly the billable positions from the start position to
   * the invoice month's, in one consecutive run, each typed by the sped rule; and no schedule
   * for the grade is the NullReference of `schedule.FirstDay`.
   */
  lemma StudentMonthsAreWindow(s: StudentData, firstDay: Option<DateTime>, invoiceMonthIndex: int, year: int)
    ensures firstDay.None? ==> StudentMonths(s, firstDay, invoiceMonthIndex, year) == Err(NullReference)
    ensures var r := StudentMonths(s, firstDay, invoiceMonthIndex, year);
      r.Ok? ==> (Consecutive(r.value)
        && (forall m :: m in r.value ==>
          StartIndex(s, firstDay.value) <= m.index <= invoiceMonthIndex
          && Billable(s, m.index, invoiceMonthIndex, year)
          && m.isSped == IsSpedMonth(s, MonthEnd(m.index, invoiceMonthIndex, year).value))
        && (forall k :: StartIndex(s, firstDay.value) <= k <= invoiceMonthIndex && Billable(s, k, invoiceMonthIndex, year) ==>
          MonthRow(k, IsSpedMonth(s, MonthEnd(k, invoiceMonthIndex, year).value)) in r.value))
  {
    if firstDay.Some? {
      var i := StartIndex(s, firstDay.value);
      var r := MonthsFrom(s, invoiceMonthIndex, year, i);
      BilledRun(s, invoiceMonthIndex, year, i);
      BilledMonthsBillable(s, invoiceMonthIndex, year, i);
      if r.Ok? {
        forall m | m in r.value
          ensures i <= m.index <= invoiceMonthIndex
        {
          var j :| 0 <= j < |r.value| && r.value[j] == m;
        }
        forall k | i <= k <= invoiceMonthIndex && Billable(s, k, invoiceMonthIndex, year)
          ensures MonthRow(k, IsSpedMonth(s, MonthEnd(k, invoiceMonthIndex, year).value)) in r.value
        {
          BillableMonthsBilled(s, invoiceMonthIndex, year, i, k);
        }
      }
    }
  }

  /** A student with no schedule for its grade fails the invoice with the null schedule's NullReference. */
  lemma NoScheduleFails(s: StudentData, schedules: seq<CharterSchoolSchedule>, invoiceMonthIndex: int, year: int)
    requires forall k :: 0 <= k < |schedules| ==> !schedules[k].AppliesToGrade(s.Grade)
    ensures StudentInvoiceRows(s, schedules, invoiceMonthIndex, year) == Err(NullReference)
  {
    ScheduleIndexIsFirstMatch(schedules, s.Grade);
  }

  /** A student entering in June, after the schedule's first day, starts at position -1, which fails the lookup. */
  lemma JuneEntryFails(s: StudentData, firstDay: DateTime, invoiceMonth: int, year: int)
    requires s.DistrictEntryDate.Some? && s.DistrictEntryDate.value > firstDay && MonthOf(s.DistrictEntryDate.value) == 6
    ensures StudentMonths(s, Some(firstDay), IndexOf(InvoiceMonths, invoiceMonth), year) == Err(ArgumentOutOfRange)
  {
    InvoiceMonthIndex(6);
    var invoiceMonthIndex := IndexOf(InvoiceMonths, invoiceMonth);
    assert StartIndex(s, firstDay) == -1;
    assert MonthsFrom(s, invoiceMonthIndex, year, -1) == MonthsAt(s, invoiceMonthIndex, year, -1);
  }

  /**
   * June has no invoice position: a June invoice bills nothing, except that a student who
   * entered in June after the schedule's first day fails the lookup at position -1.
   */
  lemma JuneInvoiceBillsNothing(s: StudentData, firstDay: DateTime, year: int)
    ensures StudentMonths(s, Some(firstDay), IndexOf(InvoiceMonths, 6), year) ==
      if s.DistrictEntryDate.Some? && s.DistrictEntryDate.value > firstDay && MonthOf(s.DistrictEntryDate.value) == 6
      then Err(ArgumentOutOfRange) else Ok([])
  {
    InvoiceMonthIndex(6);
    if s.DistrictEntryDate.Some? && s.DistrictEntryDate.value > firstDay {
      InvoiceMonthIndex(MonthOf(s.DistrictEntryDate.value));
    }
  }
}
